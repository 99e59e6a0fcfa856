/** What a caller of the filesystem can conclude from its contracts alone: the
    listing of a fresh root and a create / search / unlink round. */
module Scenarios {
  import opened Wire
  import opened Inodes
  import opened Filesystem

  /** The root listing of a fresh filesystem is 80 bytes and holds three records:
      ".", ".." (both with the root's qid, path 1) and "hello" (path 2). */
  lemma BootListing(t: seq<Inode>)
    requires t == BootTable()
    ensures |DirectoryBytes(t, 0)| == 80
    ensures ParseFrom(DirectoryBytes(t, 0), 0) == Some([
      Entry(Qid(0x40, 0, 1), UnsetType, Dot),
      Entry(Qid(0x40, 0, 1), UnsetType, DotDot),
      Entry(Qid(0x80, 0, 2), UnsetType, HelloName)])
  {
    assert Listable(t, 0);
    DirectorySize(t, 0);
    assert ChildrenSize(t, 0, 1) == 0;
    assert ChildrenSize(t, 0, 2) == HeaderSize + 5;
    forall i | 0 <= i < |t|
      ensures InodeFits(t[i])
    {
      Pow256Widths();
    }
    assert t[0].qid == Qid(0x40, 0, 1) && t[1].qid == Qid(0x80, 0, 2);
    assert ParentIndex(t, 0) == 0;
    var ks := ChildIndices(t, 0, |t|);
    assert ks == [1] by {
      assert ChildIndices(t, 0, 1) == [];
    }
    var children := seq(|ks|, j requires 0 <= j < |ks| => EntryOf(t[ks[j]]));
    assert children == [Entry(Qid(0x80, 0, 2), UnsetType, HelloName)];
    var expected := [Entry(Qid(0x40, 0, 1), UnsetType, Dot), Entry(Qid(0x40, 0, 1), UnsetType, DotDot)] + children;
    DirectoryDecodes(t, 0);
    assert expected == [Entry(Qid(0x40, 0, 1), UnsetType, Dot), Entry(Qid(0x40, 0, 1), UnsetType, DotDot),
      Entry(Qid(0x80, 0, 2), UnsetType, HelloName)];
  }

  /** Create "docs" under the root, find it, unlink it, and look again. */
  method DocsScenario() returns (created: int, found: int, gone: int, count: nat)
    ensures created == 2 && found == 2 && gone == -1 && count == 3
  {
    var docs: seq<byte> := [0x64, 0x6F, 0x63, 0x73];
    var fs := new FS();
    created := fs.CreateDirectory(docs, 0);
    found := fs.Search(0, docs);
    assert Matches(fs.inodes[2], 0, docs);
    assert !Matches(fs.inodes[0], 0, docs) && !Matches(fs.inodes[1], 0, docs);
    fs.Unlink(created);
    gone := fs.Search(0, docs);
    count := |fs.inodes|;
  }

  /** Listing a fresh root stores the 80-byte buffer that decodes to ".", ".." and
      "hello"; the seed file holds the eleven bytes of "Hello World". */
  method HelloScenario() returns (listing: Option<seq<Entry>>, size: nat, text: seq<byte>)
    ensures size == 80
    ensures listing.Some? && |listing.value| == 3
    ensures listing.value[0].name == Dot && listing.value[1].name == DotDot && listing.value[2].name == HelloName
    ensures listing.value[2].qid.path == 2
    ensures text == HelloText && |text| == 11
  {
    var fs := new FS();
    BootListing(fs.inodes);
    fs.FillDirectory(0);
    size := |fs.inodes[0].data|;
    listing := ParseFrom(fs.inodes[0].data, 0);
    text := fs.inodes[1].data;
  }
}
