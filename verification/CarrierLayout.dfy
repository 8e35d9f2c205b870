/**
 What the carrier's bytes look like: when encoding succeeds, how long the result is,
 that every directory is there before its contents, that the input order never shows.
 */
module CarrierLayout {
  import opened Wrappers
  import opened Utf16
  import opened Utf8
  import opened Digest
  import opened Ustar
  import opened Carrier

  /** What one file must satisfy on its own. The size bound is what twelve octal digits hold. */
  predicate Acceptable(file: File) {
    Contained(file.key) && Representable(file.key) && |file.val| < Power8(12)
  }

  lemma EntryAccepted(path: Text, n: nat, isDirectory: bool)
    requires isDirectory ==> path != []
    ensures EntryFields(path, n, isDirectory).Ok? <==>
            Contained(if isDirectory then path[..|path| - 1] else path) && Representable(path) && n < Power8(12)
  {
    hide Contained, Power8, Octal, Encode;
    SplitPathMeans(path);
    OctalWidth(n, 12);
  }

  /** The size field keeps its terminating NUL exactly below 8 GiB. */
  lemma SizeTerminated(path: Text, n: nat, isDirectory: bool)
    requires isDirectory ==> path != []
    requires EntryFields(path, n, isDirectory).Ok?
    ensures HeaderBlock(EntryFields(path, n, isDirectory).value)[135] == 0 <==> n < Power8(11)
  {
    hide Contained, Power8, Octal, SplitPath;
    OctalDigits(n);
    OctalWidth(n, 11);
  }

  /** A file of 8 GiB: accepted, with a size field of twelve digits and no NUL. */
  lemma EightGibibytes(path: Text)
    requires Contained(path) && Representable(path)
    ensures EntryFields(path, 8_589_934_592, false).Ok?
    ensures HeaderBlock(EntryFields(path, 8_589_934_592, false).value)[135] != 0
  {
    hide Contained, Representable, EntryFields, HeaderBlock;
    assert Power8(11) == 8_589_934_592 && Power8(12) == 8 * Power8(11) by {
      assert Power8(3) == 512;
      assert Power8(6) == 512 * 512;
      assert Power8(9) == 512 * 512 * 512;
    }
    EntryAccepted(path, 8_589_934_592, false);
    SizeTerminated(path, 8_589_934_592, false);
  }

  lemma {:induction false} EncodeItemsSucceeds(items: seq<Keyed<Item>>)
    requires NamedDirectories(items)
    ensures EncodeItems(items).Ok? <==> forall i :: 0 <= i < |items| ==> EncodeItem(items[i]).Ok?
  {
    hide EncodeItem;
    if items != [] {
      EncodeItemsSucceeds(items[1..]);
      assert items == [items[0]] + items[1..];
    }
  }

  /** A parent directory of an acceptable file can always be written. */
  lemma ParentAccepted(path: Text, j: nat)
    requires Contained(path) && Representable(path) && j < |path| && path[j] == SLASH
    ensures Contained(path[..j]) && Representable(path[..j + 1])
  {
    assert path[..j][0] == path[0];
    SplitAt(path, SLASH, j);
    forall i | 0 <= i < |Split(path[..j], SLASH)| ensures ProperSegment(Split(path[..j], SLASH)[i]) {
      assert Split(path[..j], SLASH)[i] == Split(path, SLASH)[i];
    }
    ParentRepresentable(path, j);
  }

  /** Cutting a path after a slash lengthens neither part of a cut. */
  lemma ParentRepresentable(path: Text, j: nat)
    requires Representable(path) && j < |path| && path[j] == SLASH
    ensures Representable(path[..j + 1])
  {
    hide Encode;
    var d := path[..j + 1];
    EncodeAt(path, j);
    EncodeAt(d, j);
    assert d[..j] == path[..j] && d[j + 1..] == [];
    EncodeEmpty();
    if |Encode(path)| > NAME_FIELD_BYTES {
      var c :| 0 <= c < |path| && CutFits(path, c);
      if c < j {
        EncodeAt(path[c + 1..], j - c - 1);
        EncodeAt(d[c + 1..], j - c - 1);
        assert d[c + 1..][..j - c - 1] == path[c + 1..][..j - c - 1] && d[c + 1..][j - c..] == [];
        assert d[..c] == path[..c];
        assert CutFits(d, c);
      } else {
        if c > j {
          EncodeAt(path[..c], j);
          assert path[..c][..j] == path[..j];
        }
        assert CutFits(d, j);
      }
    }
  }

  /** Encoding succeeds exactly when every file is acceptable: no parent directory can make it fail. */
  lemma EncodeSucceeds(files: seq<File>)
    ensures CarrierOf(files).Ok? <==> forall k :: 0 <= k < |files| ==> Acceptable(files[k])
  {
    hide EncodeItems, EntryFields, Ordered, Contained, Representable;
    OrderedNamed(files);
    EncodeItemsSucceeds(Ordered(files));
    if forall k :: 0 <= k < |files| ==> Acceptable(files[k]) {
      forall i | 0 <= i < |Ordered(files)| ensures EncodeItem(Ordered(files)[i]).Ok? {
        ItemAccepted(files, Ordered(files)[i]);
      }
    }
    if CarrierOf(files).Ok? {
      forall k | 0 <= k < |files| ensures Acceptable(files[k]) {
        var x := Keyed(files[k].key, Item(files[k].val, false));
        OrderedAre(files, x);
        var i :| 0 <= i < |Ordered(files)| && Ordered(files)[i] == x;
        EntryAccepted(x.key, |x.val.bytes|, false);
      }
    }
  }

  lemma ItemAccepted(files: seq<File>, x: Keyed<Item>)
    requires forall k :: 0 <= k < |files| ==> Acceptable(files[k])
    requires x in Ordered(files)
    ensures (x.val.isDirectory ==> x.key != []) && EncodeItem(x).Ok?
  {
    hide EntryFields, Ordered, Contained, Representable;
    OrderedAre(files, x);
    if x.val.isDirectory {
      var k, j :| 0 <= k < |files| && 0 <= j < |files[k].key| && files[k].key[j] == SLASH && x.key == files[k].key[..j + 1];
      ParentAccepted(files[k].key, j);
      assert x.key[..|x.key| - 1] == files[k].key[..j];
      assert 0 < Power8(12);
    }
    EntryAccepted(x.key, |x.val.bytes|, x.val.isDirectory);
  }

  /** A path that does not come back: `é` is accepted, written as one byte, and read as U+FFFD. */
  lemma AccentLost(bytes: Bytes)
    requires |bytes| < Power8(12)
    ensures var files := [Keyed([0xE9], bytes)];
            CarrierOf(files).Ok? && FilesOf(CarrierOf(files).value) == Ok([Keyed([REPLACEMENT], bytes)])
  {
    hide CarrierOf, FilesOf, Power8;
    var path: Text := [0xE9];
    var files := [Keyed(path, bytes)];
    SplitStep(0xE9, [], SLASH);
    assert [0xE9] + [] == path && Split([], SLASH) == [[]] && Split([], SLASH)[1..] == [];
    assert Split(path, SLASH) == [path];
    assert Encode(path) == [0xC3, 0xA9];
    EncodeSucceeds(files);
    CarrierReads(files);
    var b := AsciiBytes(path);
    assert b == [0xE9] && b[1..] == [] && UpToNul(b) == [0xE9];
    assert AsciiBytes([]) == [];
    assert PathBack(path) == [REPLACEMENT];
    assert files[1..] == [] && Sort(files) == files;
    assert Reread(files) == [Keyed(PathBack(path), bytes)] + Reread([]);
    assert Reread(files) == [Keyed([REPLACEMENT], bytes)];
    assert Contained(path);
    assert Acceptable(files[0]);
  }

  // ---- Length ----

  /** One header block and the body's blocks for every entry. */
  function BlockCount(items: seq<Keyed<Item>>): nat {
    if items == [] then 0 else 1 + BlocksFor(|items[0].val.bytes|) + BlockCount(items[1..])
  }

  lemma {:induction false} ItemsLength(items: seq<Keyed<Item>>)
    requires NamedDirectories(items) && EncodeItems(items).Ok?
    ensures |EncodeItems(items).value| == BLOCK_BYTES * BlockCount(items)
  {
    hide BlocksFor, EntryFields, HeaderBlock, Padding;
    if items != [] {
      ItemsLength(items[1..]);
      PaddedLength(|items[0].val.bytes|);
    }
  }

  /** The length is 512 times the blocks of the entries plus two. */
  lemma CarrierLength(files: seq<File>)
    requires CarrierOf(files).Ok?
    ensures |CarrierOf(files).value| == BLOCK_BYTES * (BlockCount(Ordered(files)) + 2)
  {
    OrderedNamed(files);
    ItemsLength(Ordered(files));
  }

  // ---- Order ----

  /** Every parent directory of every entry is written, and written before it. */
  lemma ParentsFirst(files: seq<File>, q: nat, j: nat) returns (p: nat)
    requires q < |Ordered(files)|
    requires j + 1 < |Ordered(files)[q].key| && Ordered(files)[q].key[j] == SLASH
    ensures p < q && Ordered(files)[p] == Keyed(Ordered(files)[q].key[..j + 1], Item([], true))
  {
    hide Sort;
    var o := Ordered(files);
    var key := o[q].key;
    var parent := Keyed(key[..j + 1], Item([], true));
    OrderedAre(files, o[q]);
    OrderedAre(files, parent);
    if o[q].val.isDirectory {
      var k, i :| 0 <= k < |files| && 0 <= i < |files[k].key| && files[k].key[i] == SLASH && key == files[k].key[..i + 1];
      assert files[k].key[j] == SLASH && parent.key == files[k].key[..j + 1];
    } else {
      var k :| 0 <= k < |files| && o[q] == Keyed(files[k].key, Item(files[k].val, false));
      assert files[k].key[j] == SLASH && parent.key == files[k].key[..j + 1];
    }
    p :| 0 <= p < |o| && o[p] == parent;
    PrefixLess(key[..j + 1], key[j + 1..]);
    assert key == key[..j + 1] + key[j + 1..];
    SortSorted(DirectoryItems(Directories([], files)) + MapValues(FileItem, files));
    LessIrreflexive(key);
  }

  lemma ParentsIgnoreOrder(d: Text, a: seq<File>, b: seq<File>)
    requires multiset(a) == multiset(b) && ParentOfSome(d, a)
    ensures ParentOfSome(d, b)
  {
    var k, j :| 0 <= k < |a| && 0 <= j < |a[k].key| && a[k].key[j] == SLASH && d == a[k].key[..j + 1];
    assert a[k] in multiset(b);
    var i :| 0 <= i < |b| && b[i] == a[k];
    assert b[i].key[j] == SLASH;
  }

  lemma EndsInSlash(d: Text, files: seq<File>)
    requires ParentOfSome(d, files)
    ensures d != [] && d[|d| - 1] == SLASH
  {
  }

  lemma {:induction false} LastSegmentEmpty(path: Text)
    requires path != [] && path[|path| - 1] == SLASH
    ensures !Contained(path)
  {
    SplitAt(path, SLASH, |path| - 1);
    assert path[|path|..] == [];
    var parts := Split(path, SLASH);
    assert parts[|parts| - 1] == [];
  }

  /** No two entries share a path. */
  lemma UnorderedDistinct(files: seq<File>)
    requires DistinctKeys(files) && forall k :: 0 <= k < |files| ==> Contained(files[k].key)
    ensures DistinctKeys(DirectoryItems(Directories([], files)) + MapValues(FileItem, files))
  {
    hide Directories, Contained, MapValues;
    var ds := Directories([], files);
    DirectoriesAre([], files);
    MapFilesAt(files);
    forall i, k | 0 <= i < |ds| && 0 <= k < |files| ensures ds[i] != files[k].key {
      assert ds[i] in ds;
      EndsInSlash(ds[i], files);
      if ds[i] == files[k].key {
        LastSegmentEmpty(ds[i]);
      }
    }
  }

  /** The bytes do not depend on the order the files come in. */
  lemma CarrierIgnoresOrder(a: seq<File>, b: seq<File>)
    requires multiset(a) == multiset(b) && DistinctKeys(a)
    requires forall k :: 0 <= k < |a| ==> Contained(a[k].key)
    ensures CarrierOf(a) == CarrierOf(b)
  {
    hide Contained, EncodeItems, Directories, Sort, MapValues, ParentOfSome;
    DistinctByContents(a, b);
    forall k | 0 <= k < |b| ensures Contained(b[k].key) {
      assert b[k] in multiset(a);
    }
    UnorderedDistinct(a);
    UnorderedDistinct(b);
    var x := DirectoryItems(Directories([], a)) + MapValues(FileItem, a);
    var y := DirectoryItems(Directories([], b)) + MapValues(FileItem, b);
    forall e ensures e in x <==> e in y {
      UnorderedAre(a, e);
      UnorderedAre(b, e);
      SharedEntry(a, b, e);
      SharedEntry(b, a, e);
    }
    SameContents(x, y);
    SortIgnoresOrder(x, y);
  }

  lemma UnorderedAre(files: seq<File>, e: Keyed<Item>)
    ensures e in DirectoryItems(Directories([], files)) + MapValues(FileItem, files) <==> e in Ordered(files)
  {
    var items := DirectoryItems(Directories([], files)) + MapValues(FileItem, files);
    SortContents(items);
    assert e in items <==> e in multiset(items);
    assert e in Ordered(files) <==> e in multiset(Ordered(files));
  }

  lemma SharedEntry(a: seq<File>, b: seq<File>, e: Keyed<Item>)
    requires multiset(a) == multiset(b)
    ensures e in Ordered(a) ==> e in Ordered(b)
  {
    hide Ordered, ParentOfSome;
    OrderedAre(a, e);
    OrderedAre(b, e);
    if e !in Ordered(a) {
    } else if e.val.isDirectory {
      ParentsIgnoreOrder(e.key, a, b);
    } else {
      var k :| 0 <= k < |a| && e == Keyed(a[k].key, Item(a[k].val, false));
      assert a[k] in multiset(b);
      var i :| 0 <= i < |b| && b[i] == a[k];
    }
  }
}
