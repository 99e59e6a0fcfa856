/** The in-memory filesystem: a table of inodes that only grows, indexed by
    position, and a counter that hands every new inode a fresh `qid.path`. */
module Filesystem {
  import opened Wire
  import opened Inodes

  /** The root inode as the constructor creates it. */
  function RootInode(): Inode
  {
    Inode(true, [], 0, 0, [], "", DefaultMode + S_IFDIR, Qid((S_IFDIR / 256) as byte, 0, 1), -1)
  }

  /** "hello" */
  const HelloName: seq<byte> := [0x68, 0x65, 0x6C, 0x6C, 0x6F]
  /** "Hello World" */
  const HelloText: seq<byte> := [0x48, 0x65, 0x6C, 0x6C, 0x6F, 0x20, 0x57, 0x6F, 0x72, 0x6C, 0x64]

  /** The table of a freshly constructed filesystem: the root and the seed file. */
  function BootTable(): seq<Inode>
  {
    [RootInode(), Inode(true, HelloName, 0, 0, HelloText, "", DefaultMode + S_IFREG, Qid((S_IFREG / 256) as byte, 0, 2), 0)]
  }

  /** The byte `charCodeAt` gives once stored into a byte array. */
  function CharByte(c: char): byte
  {
    (c as int % 256) as byte
  }

  /** The size pass over table `t`: one header plus name per live child of `dirid`. */
  method ListingSize(t: seq<Inode>, dirid: int) returns (size: nat)
    ensures size == ChildrenSize(t, dirid, |t|)
  {
    size := 0;
    for i := 0 to |t|
      invariant size == ChildrenSize(t, dirid, i)
    {
      if !t[i].valid { continue; }
      if t[i].parentid != dirid { continue; }
      size := size + HeaderSize + |t[i].name|;
    }
  }

  /** The write pass over the live children of `dirid`, in table order, after the
      records of `head` already in `buf`. */
  method PackChildren(t: seq<Inode>, dirid: int, buf: array<byte>, start: nat, ghost head: seq<Entry>)
    returns (offset: nat)
    requires buf.Length == start + ChildrenSize(t, dirid, |t|)
    requires start == SizeOf(head) && buf[..start] == RecordsAt(head, 0)
    modifies buf
    ensures offset == buf.Length
    ensures buf[..] == RecordsAt(head + ChildEntries(t, dirid, |t|), 0)
  {
    hide Record, RecordsAt, Records, Flatten;
    offset := start;
    ghost var written := head;
    assert head + ChildEntries(t, dirid, 0) == head;
    for i := 0 to |t|
      invariant written == head + ChildEntries(t, dirid, i)
      invariant offset == SizeOf(written)
      invariant offset == start + ChildrenSize(t, dirid, i) <= buf.Length
      invariant buf[..offset] == RecordsAt(written, 0)
    {
      ChildrenSizeMonotone(t, dirid, i + 1, |t|);
      ghost var prev := written;
      ghost var before := ChildEntries(t, dirid, i);
      if IsLiveChild(t[i], dirid) {
        assert ChildEntries(t, dirid, i + 1) == before + [EntryOf(t[i])];
        written := prev + [EntryOf(t[i])];
      } else {
        assert ChildEntries(t, dirid, i + 1) == before + [] == before;
      }
      if !t[i].valid { continue; }
      if t[i].parentid != dirid { continue; }
      var n := PackAfter(buf, offset, prev, EntryOf(t[i]));
      offset := offset + n;
    }
    assert buf[..] == buf[..offset];
  }

  class FS {
    var inodes: seq<Inode>
    var qidnumber: nat

    ghost predicate Consistent()
      reads this
    {
      PathsFresh(inodes, qidnumber)
    }

    /** Consistent, and index 0 holds the root directory. */
    ghost predicate Valid()
      reads this
    {
      Consistent() && |inodes| > 0 && IsRootDir(inodes[0])
    }

    constructor ()
      ensures Valid()
      ensures inodes == BootTable() && qidnumber == 2
    {
      inodes := [];
      qidnumber := 0;
      new;
      var root := CreateDirectory([], -1);
      var hello := CreateTextFile(HelloName, 0, "Hello World");
      assert inodes[1].data == HelloText;
    }

    /** A fresh inode with the next qid path; the table itself is untouched. */
    method CreateInode() returns (x: Inode)
      requires Consistent()
      modifies this`qidnumber
      ensures PathsFresh(inodes, old(qidnumber))
      ensures qidnumber == old(qidnumber) + 1
      ensures x == Inode(true, [], 0, 0, [], "", DefaultMode, Qid(0, 0, qidnumber), -1)
    {
      qidnumber := qidnumber + 1;
      x := Inode(true, [], 0, 0, [], "", DefaultMode, Qid(0, 0, qidnumber), -1);
    }

    method CreateDirectory(name: seq<byte>, parentid: int) returns (id: nat)
      requires Consistent()
      modifies this
      ensures Consistent() && (old(Valid()) ==> Valid())
      ensures qidnumber == old(qidnumber) + 1
      ensures id == old(|inodes|)
      ensures inodes == old(inodes) + [Inode(true, name, 0, 0, [], "", 0x41ED, Qid(0x40, 0, qidnumber), parentid)]
      ensures forall i :: 0 <= i < id ==> inodes[i].qid.path < inodes[id].qid.path
    {
      var x := CreateInode();
      x := x.(name := name, parentid := parentid, qid := x.qid.(qtype := (S_IFDIR / 256) as byte),
        mode := DefaultMode + S_IFDIR);
      PushKeepsPathsFresh(inodes, old(qidnumber), x);
      inodes := inodes + [x];
      id := |inodes| - 1;
    }

    method CreateFile(filename: seq<byte>, parentid: int) returns (id: nat)
      requires Consistent()
      modifies this
      ensures Consistent() && (old(Valid()) ==> Valid())
      ensures qidnumber == old(qidnumber) + 1
      ensures id == old(|inodes|)
      ensures inodes == old(inodes) + [Inode(true, filename, 0, 0, [], "", 0x81ED, Qid(0x80, 0, qidnumber), parentid)]
      ensures forall i :: 0 <= i < id ==> inodes[i].qid.path < inodes[id].qid.path
    {
      var x := CreateInode();
      x := x.(name := filename, parentid := parentid, qid := x.qid.(qtype := (S_IFREG / 256) as byte),
        mode := DefaultMode + S_IFREG);
      PushKeepsPathsFresh(inodes, old(qidnumber), x);
      inodes := inodes + [x];
      id := |inodes| - 1;
    }

    /** A symbolic link; its mode is the type bits alone, without permissions. */
    method CreateSymlink(filename: seq<byte>, parentid: int, symlink: string) returns (id: nat)
      requires Consistent()
      modifies this
      ensures Consistent() && (old(Valid()) ==> Valid())
      ensures qidnumber == old(qidnumber) + 1
      ensures id == old(|inodes|)
      ensures inodes == old(inodes) + [Inode(true, filename, 0, 0, [], symlink, 0xA000, Qid(0xA0, 0, qidnumber), parentid)]
      ensures forall i :: 0 <= i < id ==> inodes[i].qid.path < inodes[id].qid.path
    {
      var x := CreateInode();
      x := x.(name := filename, parentid := parentid, qid := x.qid.(qtype := (S_IFLNK / 256) as byte),
        symlink := symlink, mode := S_IFLNK);
      PushKeepsPathsFresh(inodes, old(qidnumber), x);
      inodes := inodes + [x];
      id := |inodes| - 1;
    }

    /** A regular file holding one byte per character of `str`. */
    method CreateTextFile(filename: seq<byte>, parentid: int, str: string) returns (id: nat)
      requires Consistent()
      modifies this
      ensures Consistent() && (old(Valid()) ==> Valid())
      ensures qidnumber == old(qidnumber) + 1
      ensures id == old(|inodes|) && |inodes| == id + 1 && inodes[..id] == old(inodes)
      ensures inodes[id] == Inode(true, filename, 0, 0, inodes[id].data, "", 0x81ED, Qid(0x80, 0, qidnumber), parentid)
      ensures |inodes[id].data| == |str|
      ensures forall j :: 0 <= j < |str| ==> inodes[id].data[j] == CharByte(str[j])
    {
      id := CreateFile(filename, parentid);
      var data := new byte[|str|];
      for j := 0 to |str|
        modifies data
        invariant forall k :: 0 <= k < j ==> data[k] == CharByte(str[k])
      {
        data[j] := CharByte(str[j]);
      }
      UpdateKeepsPathsFresh(inodes, qidnumber, id, inodes[id].(data := data[..]));
      inodes := inodes[id := inodes[id].(data := data[..])];
    }

    function GetRoot(): (r: Inode)
      requires Valid()
      reads this
      ensures r.name == [] && r.parentid == -1 && r.qid.qtype == 0x40 && r.mode == 0x41ED
      ensures forall i :: 0 < i < |inodes| ==> r.qid.path < inodes[i].qid.path
    {
      inodes[0]
    }

    /** The inode at `idx`, or nothing when `idx` is outside the table. */
    function GetInode(idx: int): (r: Option<Inode>)
      reads this
      ensures r.Some? <==> 0 <= idx < |inodes|
      ensures r.Some? ==> r.value == inodes[idx]
    {
      if 0 <= idx < |inodes| then Some(inodes[idx]) else None
    }

    /** The first live inode under `idx` called `name`, scanning from index 0. */
    method Search(idx: int, name: seq<byte>) returns (r: int)
      ensures r == Lookup(inodes, idx, name)
      ensures r == -1 <==> forall j :: 0 <= j < |inodes| ==> !Matches(inodes[j], idx, name)
      ensures r != -1 ==> 0 <= r < |inodes| && Matches(inodes[r], idx, name)
      ensures r != -1 ==> forall j :: 0 <= j < r ==> !Matches(inodes[j], idx, name)
    {
      for i := 0 to |inodes|
        invariant FindFrom(inodes, idx, name, i) == Lookup(inodes, idx, name)
      {
        if !inodes[i].valid { continue; }
        if inodes[i].parentid != idx { continue; }
        if inodes[i].name != name { continue; }
        return i;
      }
      return -1;
    }

    /** Not implemented: moving an inode changes nothing. */
    method Rename(srcdir: int, srcname: seq<byte>, destdir: int, destname: seq<byte>)
      ensures inodes == old(inodes) && qidnumber == old(qidnumber)
    {
    }

    /** Tombstones `idx`: its slot stays, its data is dropped, lookups skip it. */
    method Unlink(idx: nat)
      requires Valid() && idx < |inodes|
      modifies this
      ensures Valid() && qidnumber == old(qidnumber)
      ensures inodes == Tombstoned(old(inodes), idx)
      ensures |inodes| == old(|inodes|)
      ensures forall p, name :: Lookup(inodes, p, name) != idx
    {
      UpdateKeepsPathsFresh(inodes, qidnumber, idx, inodes[idx].(data := []));
      inodes := inodes[idx := inodes[idx].(data := [])];
      UpdateKeepsPathsFresh(inodes, qidnumber, idx, inodes[idx].(valid := false));
      inodes := inodes[idx := inodes[idx].(valid := false)];
      forall p, name
        ensures Lookup(inodes, p, name) != idx
      {
        UnlinkHides(old(inodes), idx, p, name);
      }
    }

    /** Gives `idx` a zero-filled buffer of `newsize` bytes holding the common
        prefix of its old data. */
    method ChangeSize(idx: nat, newsize: nat)
      requires Valid() && idx < |inodes|
      modifies this
      ensures Valid() && qidnumber == old(qidnumber) && |inodes| == old(|inodes|)
      ensures inodes == old(inodes)[idx := old(inodes[idx]).(data := inodes[idx].data)]
      ensures |inodes[idx].data| == newsize
      ensures forall k :: 0 <= k < newsize && k < |old(inodes[idx].data)| ==>
        inodes[idx].data[k] == old(inodes[idx].data[k])
      ensures forall k :: |old(inodes[idx].data)| <= k < newsize ==> inodes[idx].data[k] == 0
      ensures newsize <= |old(inodes[idx].data)| ==> inodes[idx].data == old(inodes[idx].data)[..newsize]
      ensures newsize >= |old(inodes[idx].data)| ==> inodes[idx].data[..|old(inodes[idx].data)|] == old(inodes[idx].data)
    {
      var temp := inodes[idx].data;
      var data := new byte[newsize](_ => 0);
      var size := |temp|;
      if size > data.Length {
        size := data.Length;
      }
      for i := 0 to size
        modifies data
        invariant forall k :: 0 <= k < i ==> data[k] == temp[k]
        invariant forall k :: i <= k < newsize ==> data[k] == 0
      {
        data[i] := temp[i];
      }
      UpdateKeepsPathsFresh(inodes, qidnumber, idx, inodes[idx].(data := data[..]));
      inodes := inodes[idx := inodes[idx].(data := data[..])];
    }

    /** Stores the listing of `dirid` in its own data: a size pass, then records for
        ".", ".." and each live child, each record's offset field chaining to the next. */
    method FillDirectory(dirid: nat)
      requires Valid() && Listable(inodes, dirid)
      modifies this
      ensures Valid() && qidnumber == old(qidnumber)
      ensures inodes == old(inodes)[dirid := old(inodes[dirid]).(data := DirectoryBytes(old(inodes), dirid))]
    {
      hide Record;
      var t := inodes;
      var parentid := t[dirid].parentid;
      if parentid == -1 {
        parentid := 0;
      }

      var size := ListingSize(t, dirid);
      size := size + HeaderSize + 1;
      size := size + HeaderSize + 2;
      var data := new byte[size];
      ChildrenSizeMonotone(t, dirid, 0, |t|);

      var dot := Entry(t[dirid].qid, UnsetType, Dot);
      var dotdot := Entry(t[parentid].qid, UnsetType, DotDot);
      var offset := 0;
      var n := PackAfter(data, offset, [], dot);
      offset := offset + n;
      assert [] + [dot] == [dot];
      n := PackAfter(data, offset, [dot], dotdot);
      offset := offset + n;
      ghost var head := [dot] + [dotdot];
      offset := PackChildren(t, dirid, data, offset, head);
      assert head + ChildEntries(t, dirid, |t|) == DirEntries(t, dirid);
      UpdateKeepsPathsFresh(inodes, qidnumber, dirid, inodes[dirid].(data := data[..]));
      inodes := inodes[dirid := inodes[dirid].(data := data[..])];
    }
  }
}
