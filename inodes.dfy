/** The inode record, the table of inodes as a value, and the specification
    functions the filesystem's methods are proved against: lookup by
    `(parentid, name)`, the live children of a directory and the byte image of
    a directory listing. */
module Inodes {
  import opened Wire

  const S_IFLNK: nat := 0xA000
  const S_IFREG: nat := 0x8000
  const S_IFDIR: nat := 0x4000
  /** Permission bits every new inode starts with (0755). */
  const DefaultMode: nat := 0x01ED

  /** The serialiser writes `qid.mode >> 8` as each record's type byte; qid objects
      carry no `mode` field, so the shift yields 0 for every record. */
  const UnsetType: byte := 0

  /** "." and ".." as raw bytes. */
  const Dot: seq<byte> := [0x2E]
  const DotDot: seq<byte> := [0x2E, 0x2E]

  /** One filesystem object. `valid` is false for a tombstone, whose slot stays in
      the table; `parentid` is -1 for the root. */
  datatype Inode = Inode(
    valid: bool,
    name: seq<byte>,
    uid: nat,
    gid: nat,
    data: seq<byte>,
    symlink: string,
    mode: nat,
    qid: Qid,
    parentid: int)

  /** Qid paths ascend strictly with the index, start at 1 and never pass `counter`;
      qid versions stay 0. */
  ghost predicate PathsFresh(t: seq<Inode>, counter: nat)
  {
    (forall i, j :: 0 <= i < j < |t| ==> t[i].qid.path < t[j].qid.path) &&
    (forall i :: 0 <= i < |t| ==> 1 <= t[i].qid.path <= counter && t[i].qid.version == 0)
  }

  /** Appending an inode that carries the next counter value keeps paths fresh, and
      its path is above every earlier one. */
  lemma PushKeepsPathsFresh(t: seq<Inode>, counter: nat, x: Inode)
    requires PathsFresh(t, counter)
    requires x.qid.path == counter + 1 && x.qid.version == 0
    ensures PathsFresh(t + [x], counter + 1)
    ensures forall i :: 0 <= i < |t| ==> t[i].qid.path < x.qid.path
  {
    var u := t + [x];
    assert forall i :: 0 <= i < |t| ==> u[i] == t[i];
  }

  /** Rewriting an inode without touching its qid keeps paths fresh. */
  lemma UpdateKeepsPathsFresh(t: seq<Inode>, counter: nat, idx: nat, x: Inode)
    requires PathsFresh(t, counter) && idx < |t| && x.qid == t[idx].qid
    ensures PathsFresh(t[idx := x], counter)
  {
    var u := t[idx := x];
    assert forall i :: 0 <= i < |t| ==> u[i].qid == t[i].qid;
  }

  /** The root as every operation leaves it: directory type and mode, no name, no parent. */
  predicate IsRootDir(n: Inode)
  {
    n.name == [] && n.parentid == -1 && n.qid.qtype == 0x40 && n.mode == 0x41ED
  }

  predicate Matches(n: Inode, parent: int, name: seq<byte>)
  {
    n.valid && n.parentid == parent && n.name == name
  }

  predicate IsLiveChild(n: Inode, dirid: int)
  {
    n.valid && n.parentid == dirid
  }

  /** First index at or after `i` whose inode is live and sits under `parent` with
      `name`, or -1. */
  function FindFrom(t: seq<Inode>, parent: int, name: seq<byte>, i: nat): (r: int)
    requires i <= |t|
    decreases |t| - i
    ensures r == -1 || i <= r < |t|
    ensures r == -1 <==> forall j :: i <= j < |t| ==> !Matches(t[j], parent, name)
    ensures r != -1 ==> Matches(t[r], parent, name) && forall j :: i <= j < r ==> !Matches(t[j], parent, name)
  {
    if i == |t| then -1
    else if Matches(t[i], parent, name) then i
    else FindFrom(t, parent, name, i + 1)
  }

  /** The answer `Search(parent, name)` gives on table `t`: the smallest index of a
      live inode under `parent` called `name`, or -1 when there is none. */
  function Lookup(t: seq<Inode>, parent: int, name: seq<byte>): (r: int)
    ensures r == -1 <==> forall j :: 0 <= j < |t| ==> !Matches(t[j], parent, name)
    ensures r != -1 ==> 0 <= r < |t| && Matches(t[r], parent, name)
    ensures r != -1 ==> forall j :: 0 <= j < r ==> !Matches(t[j], parent, name)
  {
    FindFrom(t, parent, name, 0)
  }

  /** The table after `Unlink(idx)`: that slot becomes a tombstone with no data. */
  function Tombstoned(t: seq<Inode>, idx: nat): seq<Inode>
    requires idx < |t|
  {
    t[idx := t[idx].(valid := false, data := [])]
  }

  /** After an unlink, lookup never answers the tombstoned index, and it answers -1
      exactly when no other live inode had that parent and name. */
  lemma UnlinkHides(t: seq<Inode>, idx: nat, parent: int, name: seq<byte>)
    requires idx < |t|
    ensures Lookup(Tombstoned(t, idx), parent, name) != idx
    ensures Lookup(Tombstoned(t, idx), parent, name) == -1 <==>
      forall j :: 0 <= j < |t| && j != idx ==> !Matches(t[j], parent, name)
  {
    var u := Tombstoned(t, idx);
    assert !Matches(u[idx], parent, name);
    assert forall j :: 0 <= j < |t| && j != idx ==> u[j] == t[j];
  }

  /** Indices below `n` of the live children of `dirid`, in ascending order. */
  function ChildIndices(t: seq<Inode>, dirid: int, n: nat): (r: seq<nat>)
    requires n <= |t|
    ensures forall j :: 0 <= j < |r| ==> r[j] < n
    ensures forall k :: 0 <= k < n ==> (k in r <==> IsLiveChild(t[k], dirid))
    ensures forall a, b :: 0 <= a < b < |r| ==> r[a] < r[b]
  {
    if n == 0 then []
    else
      var prev := ChildIndices(t, dirid, n - 1);
      if IsLiveChild(t[n - 1], dirid) then prev + [n - 1] else prev
  }

  /** The directory entry the serialiser writes for a child inode. */
  function EntryOf(n: Inode): Entry
  {
    Entry(n.qid, UnsetType, n.name)
  }

  /** The records the write pass emits for the live children among the first `n`
      inodes, in table order. */
  function ChildEntries(t: seq<Inode>, dirid: int, n: nat): seq<Entry>
    requires n <= |t|
  {
    if n == 0 then []
    else ChildEntries(t, dirid, n - 1) + (if IsLiveChild(t[n - 1], dirid) then [EntryOf(t[n - 1])] else [])
  }

  /** The `j`-th child record is the entry of the `j`-th live child index. */
  lemma {:induction false} ChildEntriesIndexed(t: seq<Inode>, dirid: int, n: nat)
    requires n <= |t|
    ensures var ks := ChildIndices(t, dirid, n);
      ChildEntries(t, dirid, n) == seq(|ks|, j requires 0 <= j < |ks| => EntryOf(t[ks[j]]))
  {
    if n > 0 {
      ChildEntriesIndexed(t, dirid, n - 1);
      var ks, prev := ChildIndices(t, dirid, n), ChildIndices(t, dirid, n - 1);
      var es, before := ChildEntries(t, dirid, n), ChildEntries(t, dirid, n - 1);
      if IsLiveChild(t[n - 1], dirid) {
        assert ks == prev + [n - 1];
        assert es == before + [EntryOf(t[n - 1])];
      } else {
        assert ks == prev;
        assert es == before + [];
      }
      assert |es| == |ks|;
      forall j | 0 <= j < |ks|
        ensures es[j] == EntryOf(t[ks[j]])
      {
        if j < |prev| {
          assert es[j] == before[j] && ks[j] == prev[j];
        }
      }
    }
  }

  /** Bytes the size pass counts for the live children among the first `n` inodes:
      a header plus the name for each. */
  function ChildrenSize(t: seq<Inode>, dirid: int, n: nat): nat
    requires n <= |t|
  {
    if n == 0 then 0
    else ChildrenSize(t, dirid, n - 1) + (if IsLiveChild(t[n - 1], dirid) then HeaderSize + |t[n - 1].name| else 0)
  }

  lemma {:induction false} ChildrenSizeMonotone(t: seq<Inode>, dirid: int, i: nat, n: nat)
    requires i <= n <= |t|
    ensures ChildrenSize(t, dirid, i) <= ChildrenSize(t, dirid, n)
    decreases n - i
  {
    if i < n {
      ChildrenSizeMonotone(t, dirid, i, n - 1);
    }
  }

  /** The packed size of the children's records is what the size pass counts. */
  lemma {:induction false} ChildEntriesSize(t: seq<Inode>, dirid: int, n: nat)
    requires n <= |t|
    ensures SizeOf(ChildEntries(t, dirid, n)) == ChildrenSize(t, dirid, n)
  {
    if n > 0 {
      ChildEntriesSize(t, dirid, n - 1);
      if IsLiveChild(t[n - 1], dirid) {
        SizeOfAppend(ChildEntries(t, dirid, n - 1), EntryOf(t[n - 1]));
      } else {
        assert ChildEntries(t, dirid, n) == ChildEntries(t, dirid, n - 1) + [];
        assert ChildEntries(t, dirid, n - 1) + [] == ChildEntries(t, dirid, n - 1);
      }
    }
  }

  /** A directory the serialiser can list: it is in the table, and so is the inode
      its ".." record reads. */
  predicate Listable(t: seq<Inode>, dirid: int)
  {
    0 <= dirid < |t| && -1 <= t[dirid].parentid < |t|
  }

  /** The inode whose qid the ".." record carries: the parent, or the root (index 0)
      for a directory without one. */
  function ParentIndex(t: seq<Inode>, dirid: int): (p: nat)
    requires Listable(t, dirid)
    ensures p < |t|
    ensures t[dirid].parentid == -1 ==> p == 0
    ensures t[dirid].parentid != -1 ==> p == t[dirid].parentid
  {
    if t[dirid].parentid == -1 then 0 else t[dirid].parentid
  }

  /** The entries of a directory listing, in the order they are written: ".", "..",
      then the live children in ascending index order. */
  function DirEntries(t: seq<Inode>, dirid: int): seq<Entry>
    requires Listable(t, dirid)
  {
    [Entry(t[dirid].qid, UnsetType, Dot), Entry(t[ParentIndex(t, dirid)].qid, UnsetType, DotDot)]
      + ChildEntries(t, dirid, |t|)
  }

  /** The buffer `FillDirectory(dirid)` stores in the directory's data. */
  function DirectoryBytes(t: seq<Inode>, dirid: int): seq<byte>
    requires Listable(t, dirid)
  {
    RecordsAt(DirEntries(t, dirid), 0)
  }

  /** Total size: a 25-byte "." record, a 26-byte ".." record and one header plus
      name per live child. */
  lemma DirectorySize(t: seq<Inode>, dirid: int)
    requires Listable(t, dirid)
    ensures SizeOf(DirEntries(t, dirid)) == |DirectoryBytes(t, dirid)|
    ensures |DirectoryBytes(t, dirid)| == (HeaderSize + 1) + (HeaderSize + 2) + ChildrenSize(t, dirid, |t|)
  {
    var es := DirEntries(t, dirid);
    RecordsAtSize(es, 0);
    ChildEntriesSize(t, dirid, |t|);
    assert es[1..] == [es[1]] + ChildEntries(t, dirid, |t|);
    assert es[1..][1..] == ChildEntries(t, dirid, |t|);
  }

  predicate InodeFits(n: Inode)
  {
    Fits(EntryOf(n))
  }

  lemma {:induction false} ChildEntriesFit(t: seq<Inode>, dirid: int, n: nat)
    requires n <= |t|
    requires forall i :: 0 <= i < |t| ==> InodeFits(t[i])
    ensures forall e :: e in ChildEntries(t, dirid, n) ==> Fits(e)
  {
    if n > 0 {
      ChildEntriesFit(t, dirid, n - 1);
      assert InodeFits(t[n - 1]);
    }
  }

  lemma DirEntriesFit(t: seq<Inode>, dirid: int)
    requires Listable(t, dirid)
    requires forall i :: 0 <= i < |t| ==> InodeFits(t[i])
    ensures forall e :: e in DirEntries(t, dirid) ==> Fits(e)
  {
    ChildEntriesFit(t, dirid, |t|);
    assert InodeFits(t[dirid]);
    assert InodeFits(t[ParentIndex(t, dirid)]);
  }

  /** Round trip: parsing a directory's buffer by its offset fields yields ".", ".."
      with the parent's (or the root's) qid, then one entry per live child, carrying
      that child's qid and name, in ascending index order. */
  lemma DirectoryDecodes(t: seq<Inode>, dirid: int)
    requires Listable(t, dirid)
    requires forall i :: 0 <= i < |t| ==> InodeFits(t[i])
    requires (HeaderSize + 1) + (HeaderSize + 2) + ChildrenSize(t, dirid, |t|) < U64
    ensures var ks := ChildIndices(t, dirid, |t|);
      ParseFrom(DirectoryBytes(t, dirid), 0) ==
      Some([Entry(t[dirid].qid, UnsetType, Dot), Entry(t[ParentIndex(t, dirid)].qid, UnsetType, DotDot)]
        + seq(|ks|, j requires 0 <= j < |ks| => EntryOf(t[ks[j]])))
  {
    DirectorySize(t, dirid);
    DirEntriesFit(t, dirid);
    ParseRecordsAt(DirEntries(t, dirid), 0);
    ChildEntriesIndexed(t, dirid, |t|);
  }

  /** Offset chaining in a directory buffer: the offset field of record `k` holds
      the position where record `k + 1` starts, and for the last record that is the
      length of the buffer. */
  lemma DirectoryOffsets(t: seq<Inode>, dirid: int, k: nat)
    requires Listable(t, dirid)
    requires forall i :: 0 <= i < |t| ==> InodeFits(t[i])
    requires (HeaderSize + 1) + (HeaderSize + 2) + ChildrenSize(t, dirid, |t|) < U64
    requires k < |DirEntries(t, dirid)|
    ensures var es := DirEntries(t, dirid);
      var buf := DirectoryBytes(t, dirid);
      var s := SizeOf(es[..k]);
      s + HeaderSize <= |buf| &&
      FromLE(buf[s + 13..s + 21]) == SizeOf(es[..k + 1]) &&
      (k + 1 == |es| ==> FromLE(buf[s + 13..s + 21]) == |buf|)
  {
    var es := DirEntries(t, dirid);
    DirectorySize(t, dirid);
    DirEntriesFit(t, dirid);
    assert es[k] in es;
    NextOffsets(es, 0, k);
  }
}
