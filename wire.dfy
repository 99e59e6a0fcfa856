/** Byte-level layout of one 9P2000.L readdir entry, `qid[13] offset[8] type[1] name[s]`,
    as the directory serialiser packs it with the field codes "Q", "d", "b", "s":
    a qid is type (1 byte), version (4 bytes) and path (8 bytes); "d" is 8 bytes;
    "b" is 1 byte; "s" is a 2-byte length followed by the bytes. Every multi-byte
    integer is little-endian. */
module Wire {

  newtype byte = x: int | 0 <= x < 256

  datatype Option<T> = None | Some(value: T)

  const U16: nat := 0x1_0000
  const U32: nat := 0x1_0000_0000
  const U64: nat := 0x1_0000_0000_0000_0000

  /** 13 (qid) + 8 (offset) + 1 (type) + 2 (name length): the fixed part of every record. */
  const HeaderSize: nat := 13 + 8 + 1 + 2

  datatype Qid = Qid(qtype: byte, version: nat, path: nat)

  /** One directory entry before packing: the qid, the type byte and the raw name. */
  datatype Entry = Entry(qid: Qid, dtype: byte, name: seq<byte>)

  function Pow256(n: nat): (p: nat)
    ensures p > 0
  {
    if n == 0 then 1 else 256 * Pow256(n - 1)
  }

  lemma Pow256Widths()
    ensures Pow256(2) == U16 && Pow256(4) == U32 && Pow256(8) == U64
  {
  }

  /** The low `n` bytes of `v`, least significant first. */
  function LE(v: nat, n: nat): (r: seq<byte>)
    ensures |r| == n
  {
    if n == 0 then [] else [(v % 256) as byte] + LE(v / 256, n - 1)
  }

  /** The number whose little-endian encoding is `bs`. */
  function FromLE(bs: seq<byte>): (v: nat)
    ensures v < Pow256(|bs|)
  {
    if bs == [] then 0 else bs[0] as nat + 256 * FromLE(bs[1..])
  }

  lemma {:induction false} FromLEOfLE(v: nat, n: nat)
    requires v < Pow256(n)
    ensures FromLE(LE(v, n)) == v
  {
    if n > 0 {
      var bs := LE(v, n);
      assert bs[0] as nat == v % 256;
      assert bs[1..] == LE(v / 256, n - 1);
      assert v / 256 < Pow256(n - 1);
      FromLEOfLE(v / 256, n - 1);
    }
  }

  function EncodeQid(q: Qid): (r: seq<byte>)
    ensures |r| == 13
  {
    [q.qtype] + LE(q.version, 4) + LE(q.path, 8)
  }

  function RecordSize(e: Entry): nat
  {
    HeaderSize + |e.name|
  }

  /** The packed record of `e`, whose offset field holds `next`. */
  function Record(e: Entry, next: nat): (r: seq<byte>)
    ensures |r| == RecordSize(e)
  {
    EncodeQid(e.qid) + LE(next, 8) + [e.dtype] + LE(|e.name|, 2) + e.name
  }

  /** Total packed size of a run of records. */
  function SizeOf(es: seq<Entry>): nat
  {
    if es == [] then 0 else RecordSize(es[0]) + SizeOf(es[1..])
  }

  /** The bytes of `rs`, one chunk after another. */
  function Flatten(rs: seq<seq<byte>>): seq<byte>
  {
    if rs == [] then [] else rs[0] + Flatten(rs[1..])
  }

  /** The records of `es`, one chunk each, the first starting at absolute position
      `start`; each offset field is the absolute position just past its own record. */
  function Records(es: seq<Entry>, start: nat): (rs: seq<seq<byte>>)
    ensures |rs| == |es|
  {
    if es == [] then []
    else
      var next := start + RecordSize(es[0]);
      [Record(es[0], next)] + Records(es[1..], next)
  }

  /** The records of `es` laid out one after another from absolute position `start`. */
  function RecordsAt(es: seq<Entry>, start: nat): seq<byte>
  {
    Flatten(Records(es, start))
  }

  lemma {:induction false} FlattenConcat(a: seq<seq<byte>>, b: seq<seq<byte>>)
    ensures Flatten(a + b) == Flatten(a) + Flatten(b)
  {
    if a == [] {
      assert a + b == b;
    } else {
      assert (a + b)[0] == a[0] && (a + b)[1..] == a[1..] + b;
      FlattenConcat(a[1..], b);
    }
  }

  lemma FlattenOne(r: seq<byte>)
    ensures Flatten([r]) == r
  {
  }

  /** Chunk `k` of `rs` sits in the flattened bytes right after the first `k` chunks. */
  lemma FlattenAt(rs: seq<seq<byte>>, k: nat)
    requires k < |rs|
    ensures var s := |Flatten(rs[..k])|;
      s + |rs[k]| == |Flatten(rs[..k + 1])| <= |Flatten(rs)| &&
      Flatten(rs)[s..s + |rs[k]|] == rs[k]
  {
    assert rs[..k + 1] == rs[..k] + [rs[k]];
    assert rs == rs[..k + 1] + rs[k + 1..];
    FlattenConcat(rs[..k], [rs[k]]);
    FlattenConcat(rs[..k + 1], rs[k + 1..]);
    FlattenOne(rs[k]);
  }

  lemma {:induction false} RecordsAtSize(es: seq<Entry>, start: nat)
    ensures |RecordsAt(es, start)| == SizeOf(es)
  {
    if es != [] {
      var next := start + RecordSize(es[0]);
      RecordsAtCons(es, start);
      RecordsAtSize(es[1..], next);
    }
  }

  /** The layout of a non-empty run is its first record followed by the layout of
      the rest. */
  lemma RecordsAtCons(es: seq<Entry>, start: nat)
    requires es != []
    ensures var next := start + RecordSize(es[0]);
      RecordsAt(es, start) == Record(es[0], next) + RecordsAt(es[1..], next)
  {
  }

  lemma {:induction false} SizeOfAppend(es: seq<Entry>, e: Entry)
    ensures SizeOf(es + [e]) == SizeOf(es) + RecordSize(e)
  {
    if es == [] {
      assert es + [e] == [e];
      assert [e][1..] == [];
    } else {
      assert (es + [e])[1..] == es[1..] + [e];
      SizeOfAppend(es[1..], e);
    }
  }

  lemma {:induction false} RecordsAppend(es: seq<Entry>, e: Entry, start: nat)
    ensures Records(es + [e], start) == Records(es, start) + [Record(e, start + SizeOf(es) + RecordSize(e))]
  {
    if es == [] {
      assert es + [e] == [e];
      assert [e][1..] == [];
    } else {
      var next := start + RecordSize(es[0]);
      assert (es + [e])[0] == es[0] && (es + [e])[1..] == es[1..] + [e];
      RecordsAppend(es[1..], e, next);
    }
  }

  /** Appending one entry appends exactly its record, chained after the others. */
  lemma RecordsAtAppend(es: seq<Entry>, e: Entry, start: nat)
    ensures RecordsAt(es + [e], start) == RecordsAt(es, start) + Record(e, start + SizeOf(es) + RecordSize(e))
  {
    var r := Record(e, start + SizeOf(es) + RecordSize(e));
    RecordsAppend(es, e, start);
    FlattenConcat(Records(es, start), [r]);
    FlattenOne(r);
  }

  /** Entries whose fields the record layout can hold without truncation. */
  predicate Fits(e: Entry)
  {
    e.qid.version < U32 && e.qid.path < U64 && |e.name| < U16
  }

  /** Reads the records of `rest`, whose first byte sits at absolute position `at`,
      following each record's offset field; fails unless every offset field equals
      the position just past its own record. */
  function ParseFrom(rest: seq<byte>, at: nat): Option<seq<Entry>>
    decreases |rest|
  {
    if |rest| == 0 then Some([])
    else if |rest| < HeaderSize then None
    else
      var len := FromLE(rest[22..24]);
      var next := FromLE(rest[13..21]);
      if |rest| < HeaderSize + len || next != at + HeaderSize + len then None
      else
        var e := Entry(Qid(rest[0], FromLE(rest[1..5]), FromLE(rest[5..13])), rest[21], rest[24..24 + len]);
        match ParseFrom(rest[24 + len..], next)
        case None => None
        case Some(tail) => Some([e] + tail)
  }

  /** Field by field, the record of `e` decodes back to `e` and to `next`. */
  lemma RecordFields(e: Entry, next: nat)
    requires Fits(e) && next < U64
    ensures var r := Record(e, next);
      r[0] == e.qid.qtype && FromLE(r[1..5]) == e.qid.version && FromLE(r[5..13]) == e.qid.path &&
      FromLE(r[13..21]) == next && r[21] == e.dtype && FromLE(r[22..24]) == |e.name| &&
      r[24..] == e.name
  {
    Pow256Widths();
    var r := Record(e, next);
    assert r[1..5] == LE(e.qid.version, 4);
    assert r[5..13] == LE(e.qid.path, 8);
    assert r[13..21] == LE(next, 8);
    assert r[22..24] == LE(|e.name|, 2);
    assert r[24..] == e.name;
    FromLEOfLE(e.qid.version, 4);
    FromLEOfLE(e.qid.path, 8);
    FromLEOfLE(next, 8);
    FromLEOfLE(|e.name|, 2);
  }

  /** Parsing one record followed by `tail` yields its entry in front of whatever
      parsing `tail` from the record's offset field yields. */
  lemma ParseOne(e: Entry, at: nat, tail: seq<byte>)
    requires Fits(e) && at + RecordSize(e) < U64
    ensures var next := at + RecordSize(e);
      ParseFrom(Record(e, next) + tail, at) ==
        if ParseFrom(tail, next).Some? then Some([e] + ParseFrom(tail, next).value) else None
  {
    var next := at + RecordSize(e);
    var r := Record(e, next);
    var buf := r + tail;
    RecordFields(e, next);
    assert buf[..|r|] == r;
    assert buf[22..24] == r[22..24];
    assert buf[13..21] == r[13..21];
    assert buf[1..5] == r[1..5];
    assert buf[5..13] == r[5..13];
    assert buf[24..24 + |e.name|] == r[24..];
    assert buf[24 + |e.name|..] == tail;
  }

  lemma ParseNothing(start: nat)
    ensures ParseFrom(RecordsAt([], start), start) == Some([])
  {
  }

  /** Round trip: parsing the packed records gives back the entries. */
  lemma {:induction false} ParseRecordsAt(es: seq<Entry>, start: nat)
    requires forall e :: e in es ==> Fits(e)
    requires start + SizeOf(es) < U64
    ensures ParseFrom(RecordsAt(es, start), start) == Some(es)
  {
    hide Record, RecordsAt, ParseFrom;
    if es == [] {
      ParseNothing(start);
    } else {
      var next := start + RecordSize(es[0]);
      var tail := RecordsAt(es[1..], next);
      assert forall x :: x in es[1..] ==> x in es;
      ParseRecordsAt(es[1..], next);
      ParseOne(es[0], start, tail);
      RecordsAtCons(es, start);
      assert [es[0]] + es[1..] == es;
    }
  }

  lemma SizeOfPrefix(es: seq<Entry>, k: nat)
    requires k < |es|
    ensures SizeOf(es[..k + 1]) == SizeOf(es[..k]) + RecordSize(es[k])
  {
    assert es[..k + 1] == es[..k] + [es[k]];
    SizeOfAppend(es[..k], es[k]);
  }

  lemma {:induction false} RecordsPrefix(es: seq<Entry>, start: nat, k: nat)
    requires k <= |es|
    ensures Records(es, start)[..k] == Records(es[..k], start)
  {
    if k == 0 {
      assert es[..0] == [];
    } else {
      var next := start + RecordSize(es[0]);
      var front := es[..k];
      assert front[0] == es[0] && front[1..] == es[1..][..k - 1];
      RecordsPrefix(es[1..], next, k - 1);
      assert Records(es, start)[..k] == [Record(es[0], next)] + Records(es[1..], next)[..k - 1];
    }
  }

  /** Record `k` occupies bytes `SizeOf(es[..k])` up to `SizeOf(es[..k+1])` of the
      layout, and its offset field names the end of that range, which is where
      record `k + 1` begins. */
  lemma RecordAt(es: seq<Entry>, start: nat, k: nat)
    requires k < |es|
    ensures var buf := RecordsAt(es, start);
      SizeOf(es[..k]) <= SizeOf(es[..k + 1]) <= |buf| &&
      buf[SizeOf(es[..k])..SizeOf(es[..k + 1])] == Record(es[k], start + SizeOf(es[..k + 1]))
  {
    var rs := Records(es, start);
    FlattenAt(rs, k);
    RecordsPrefix(es, start, k);
    RecordsPrefix(es, start, k + 1);
    RecordsAtSize(es[..k], start);
    RecordsAtSize(es[..k + 1], start);
    RecordsAtSize(es, start);
    SizeOfPrefix(es, k);
    assert es[..k + 1] == es[..k] + [es[k]];
    RecordsAppend(es[..k], es[k], start);
    assert rs[k] == rs[..k + 1][k];
  }

  /** Bytes `i` up to `j` of a slice that equals `r` are those of `r`. */
  lemma SliceWithin(buf: seq<byte>, s: nat, t: nat, r: seq<byte>, i: nat, j: nat)
    requires s <= t <= |buf| && buf[s..t] == r && i <= j <= |r|
    ensures buf[s + i..s + j] == r[i..j]
  {
    forall x | 0 <= x < j - i
      ensures buf[s + i..s + j][x] == r[i..j][x]
    {
      assert r[i + x] == buf[s..t][i + x] == buf[s + i + x];
    }
  }

  /** Wherever the record of `e` sits in `buf`, its offset field reads back `next`. */
  lemma OffsetFieldAt(buf: seq<byte>, s: nat, t: nat, e: Entry, next: nat)
    requires s <= t <= |buf| && buf[s..t] == Record(e, next) && next < U64
    ensures s + HeaderSize <= t && FromLE(buf[s + 13..s + 21]) == next
  {
    var r := Record(e, next);
    SliceWithin(buf, s, t, r, 13, 21);
    assert r[13..21] == LE(next, 8);
    Pow256Widths();
    FromLEOfLE(next, 8);
  }

  /** Offset chaining: each record's offset field equals the start of the next
      record, and the last one's equals the end of the layout. */
  lemma NextOffsets(es: seq<Entry>, start: nat, k: nat)
    requires k < |es| && Fits(es[k])
    requires start + SizeOf(es) < U64
    ensures var buf := RecordsAt(es, start);
      var s := SizeOf(es[..k]);
      s + HeaderSize <= |buf| &&
      FromLE(buf[s + 13..s + 21]) == start + SizeOf(es[..k + 1]) &&
      (k + 1 == |es| ==> start + SizeOf(es[..k + 1]) == start + |buf|)
  {
    hide *;
    var buf := RecordsAt(es, start);
    var s := SizeOf(es[..k]);
    var t := SizeOf(es[..k + 1]);
    RecordAt(es, start, k);
    RecordsAtSize(es, start);
    SizeOfPrefix(es, k);
    OffsetFieldAt(buf, s, t, es[k], start + t);
    if k + 1 == |es| {
      assert es[..k + 1] == es;
    }
  }

  /** Writes the record of `(q, next, t, name)` into `buf` at `at` and returns the
      number of bytes written. */
  method Pack(buf: array<byte>, at: nat, q: Qid, next: nat, t: byte, name: seq<byte>) returns (n: nat)
    requires at + HeaderSize + |name| <= buf.Length
    modifies buf
    ensures n == HeaderSize + |name|
    ensures buf[..at + n] == old(buf[..at]) + Record(Entry(q, t, name), next)
    ensures buf[at + n..] == old(buf[at + n..])
  {
    var r := Record(Entry(q, t, name), next);
    n := |r|;
    for k := 0 to n
      invariant forall j :: 0 <= j < at ==> buf[j] == old(buf[j])
      invariant forall j :: 0 <= j < k ==> buf[at + j] == r[j]
      invariant forall j :: at + n <= j < buf.Length ==> buf[j] == old(buf[j])
    {
      buf[at + k] := r[k];
    }
    assert buf[..at + n] == old(buf[..at]) + r;
    assert buf[at + n..] == old(buf[at + n..]);
  }

  /** Packs `e` right after the records of `written`, chaining its offset field to
      the end of its own record. */
  method PackAfter(buf: array<byte>, at: nat, ghost written: seq<Entry>, e: Entry) returns (n: nat)
    requires at == SizeOf(written) && at + RecordSize(e) <= buf.Length
    requires buf[..at] == RecordsAt(written, 0)
    modifies buf
    ensures n == RecordSize(e) && at + n == SizeOf(written + [e])
    ensures buf[..at + n] == RecordsAt(written + [e], 0)
  {
    n := Pack(buf, at, e.qid, at + HeaderSize + |e.name|, e.dtype, e.name);
    RecordsAtAppend(written, e, 0);
    SizeOfAppend(written, e);
  }
}
