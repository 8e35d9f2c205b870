/**
 The deterministic ustar carrier: a directory entry for every parent directory, entries
 in code-unit path order, two zero blocks at the end; and what reading it from front to
 back gives. `CarrierWalk` has the decoding loop itself, on every buffer.
 */
module Carrier {
  import opened Wrappers
  import opened Utf16
  import opened Utf8
  import opened Digest
  import opened Ustar

  /** An entry to write, filed under its path; a directory's path ends in `/`. */
  datatype Item = Item(bytes: Bytes, isDirectory: bool)

  predicate IsFile(item: Keyed<Item>) {
    !item.val.isDirectory
  }

  // ---- Parent directories ----

  /** Every parent directory of `path` ending at a slash from `i` on. */
  function Parents(path: Text, i: nat): seq<Text>
    requires i <= |path|
    decreases |path| - i
  {
    if i == |path| then []
    else if path[i] == SLASH then [path[..i + 1]] + Parents(path, i + 1)
    else Parents(path, i + 1)
  }

  /** Add to an insertion-ordered set. */
  function AddNew(found: seq<Text>, d: Text): seq<Text> {
    if d in found then found else found + [d]
  }

  function AddAll(found: seq<Text>, ds: seq<Text>): seq<Text>
    decreases |ds|
  {
    if ds == [] then found else AddAll(AddNew(found, ds[0]), ds[1..])
  }

  function Directories(found: seq<Text>, files: seq<File>): seq<Text>
    decreases |files|
  {
    if files == [] then found else Directories(AddAll(found, Parents(files[0].key, 0)), files[1..])
  }

  function DirectoryItems(ds: seq<Text>): (items: seq<Keyed<Item>>)
    ensures |items| == |ds| && forall i :: 0 <= i < |ds| ==> items[i] == Keyed(ds[i], Item([], true))
  {
    seq(|ds|, i requires 0 <= i < |ds| => Keyed(ds[i], Item([], true)))
  }

  function FileItem(bytes: Bytes): Item {
    Item(bytes, false)
  }

  /** Everything the carrier holds, in the order it is written. */
  function Ordered(files: seq<File>): seq<Keyed<Item>> {
    Sort(DirectoryItems(Directories([], files)) + MapValues(FileItem, files))
  }

  // ---- Encoding ----

  function Padding(n: nat): Bytes {
    if n % BLOCK_BYTES == 0 then [] else Zeros(BLOCK_BYTES - n % BLOCK_BYTES)
  }

  function EncodeItem(item: Keyed<Item>): Result<Bytes, CarrierError>
    requires item.val.isDirectory ==> item.key != []
  {
    var f :- EntryFields(item.key, |item.val.bytes|, item.val.isDirectory);
    Ok(HeaderBlock(f) + item.val.bytes + Padding(|item.val.bytes|))
  }

  ghost predicate NamedDirectories(items: seq<Keyed<Item>>) {
    forall i :: 0 <= i < |items| && items[i].val.isDirectory ==> items[i].key != []
  }

  function EncodeItems(items: seq<Keyed<Item>>): Result<Bytes, CarrierError>
    requires forall i :: 0 <= i < |items| && items[i].val.isDirectory ==> items[i].key != []
  {
    if items == [] then Ok([])
    else
      var head :- EncodeItem(items[0]);
      var tail :- EncodeItems(items[1..]);
      Ok(head + tail)
  }

  /** The carrier of a file set. */
  function CarrierOf(files: seq<File>): Result<Bytes, CarrierError> {
    OrderedNamed(files);
    var blocks :- EncodeItems(Ordered(files));
    Ok(blocks + Zeros(2 * BLOCK_BYTES))
  }

  lemma {:induction false} ParentsAre(path: Text, i: nat)
    requires i <= |path|
    ensures forall d :: d in Parents(path, i) <==> exists j :: i <= j < |path| && path[j] == SLASH && d == path[..j + 1]
    decreases |path| - i
  {
    if i < |path| {
      ParentsAre(path, i + 1);
    }
  }

  ghost predicate NoRepeats(ds: seq<Text>) {
    forall i, j :: 0 <= i < j < |ds| ==> ds[i] != ds[j]
  }

  lemma {:induction false} AddAllAre(found: seq<Text>, ds: seq<Text>)
    ensures forall d :: d in AddAll(found, ds) <==> d in found || d in ds
    ensures NoRepeats(found) ==> NoRepeats(AddAll(found, ds))
    decreases |ds|
  {
    if ds != [] {
      AddAllAre(AddNew(found, ds[0]), ds[1..]);
      assert ds == [ds[0]] + ds[1..];
    }
  }

  /** `d` is a parent directory of some file. */
  ghost predicate ParentOfSome(d: Text, files: seq<File>) {
    exists k, j :: 0 <= k < |files| && 0 <= j < |files[k].key| && files[k].key[j] == SLASH && d == files[k].key[..j + 1]
  }

  lemma {:induction false} DirectoriesAre(found: seq<Text>, files: seq<File>)
    ensures forall d :: d in Directories(found, files) <==> d in found || ParentOfSome(d, files)
    ensures NoRepeats(found) ==> NoRepeats(Directories(found, files))
    decreases |files|
  {
    if files != [] {
      var parents := Parents(files[0].key, 0);
      ParentsAre(files[0].key, 0);
      AddAllAre(found, parents);
      DirectoriesAre(AddAll(found, parents), files[1..]);
      forall d ensures ParentOfSome(d, files) <==> d in parents || ParentOfSome(d, files[1..]) {
        if ParentOfSome(d, files[1..]) {
          var k, j :| 0 <= k < |files[1..]| && 0 <= j < |files[1..][k].key| && files[1..][k].key[j] == SLASH && d == files[1..][k].key[..j + 1];
          assert files[k + 1].key == files[1..][k].key;
        }
        if ParentOfSome(d, files) {
          var k, j :| 0 <= k < |files| && 0 <= j < |files[k].key| && files[k].key[j] == SLASH && d == files[k].key[..j + 1];
          if k > 0 {
            assert files[1..][k - 1].key == files[k].key;
          }
        }
      }
    }
  }

  lemma {:induction false} MapFilesAt(files: seq<File>)
    ensures |MapValues(FileItem, files)| == |files|
    ensures forall i :: 0 <= i < |files| ==> MapValues(FileItem, files)[i] == Keyed(files[i].key, Item(files[i].val, false))
  {
    if files != [] {
      MapFilesAt(files[1..]);
    }
  }

  /** What is written: exactly the files and the parent directories of files. */
  lemma OrderedAre(files: seq<File>, x: Keyed<Item>)
    ensures x in Ordered(files) <==>
            if x.val.isDirectory then x.val.bytes == [] && ParentOfSome(x.key, files)
            else exists k :: 0 <= k < |files| && x == Keyed(files[k].key, Item(files[k].val, false))
  {
    hide Sort, Directories, MapValues;
    var ds := Directories([], files);
    var items := DirectoryItems(ds) + MapValues(FileItem, files);
    SortContents(items);
    DirectoriesAre([], files);
    MapFilesAt(files);
    assert x in Ordered(files) <==> x in multiset(Ordered(files));
    assert x in items <==> x in multiset(items);
    assert x in items <==> x in DirectoryItems(ds) || x in MapValues(FileItem, files);
    if x.val.isDirectory && x.val.bytes == [] && ParentOfSome(x.key, files) {
      var i :| 0 <= i < |ds| && ds[i] == x.key;
      assert DirectoryItems(ds)[i] == x;
    }
    if k :| 0 <= k < |files| && x == Keyed(files[k].key, Item(files[k].val, false)) {
      assert MapValues(FileItem, files)[k] == x;
    }
  }

  lemma OrderedNamed(files: seq<File>)
    ensures NamedDirectories(Ordered(files))
  {
    forall i | 0 <= i < |Ordered(files)| && Ordered(files)[i].val.isDirectory ensures Ordered(files)[i].key != [] {
      OrderedAre(files, Ordered(files)[i]);
    }
  }

  /** The insertion-ordered directory set of `encodeCarrier`'s first loop. */
  method CollectDirectories(files: seq<File>) returns (directories: seq<Text>)
    ensures directories == Directories([], files)
  {
    hide Parents, Directories;
    directories := [];
    var k := 0;
    assert files[0..] == files;
    while k < |files|
      invariant 0 <= k <= |files|
      invariant Directories(directories, files[k..]) == Directories([], files)
    {
      ghost var before := directories;
      directories := AddParents(directories, files[k].key);
      DirectoriesStep(before, files[k..]);
      assert files[k..][1..] == files[k + 1..];
      k := k + 1;
    }
    NoMoreDirectories(directories);
    assert files[k..] == [];
  }

  /** The header, body and padding of one entry. */
  method WriteEntry(file: Keyed<Item>) returns (r: Result<Bytes, CarrierError>)
    requires file.val.isDirectory ==> file.key != []
    ensures r == EncodeItem(file)
  {
    hide EntryFields, HeaderBlock, Zeros;
    ghost var body := file.val.bytes;
    var header := BuildHeaderBlock(file.key, |file.val.bytes|, file.val.isDirectory);
    if header.Err? {
      return Err(header.error);
    }
    var blocks := header.value;
    blocks := blocks + file.val.bytes;
    var remainder := |file.val.bytes| % BLOCK_BYTES;
    if remainder != 0 {
      blocks := blocks + Zeros(BLOCK_BYTES - remainder);
    }
    assert blocks == header.value + body + Padding(|body|);
    r := Ok(blocks);
  }

  /** `encodeCarrier`. */
  method EncodeCarrier(files: seq<File>) returns (r: Result<Bytes, CarrierError>)
    ensures r == CarrierOf(files)
  {
    hide EncodeItem, EncodeItems, Sort, Directories;
    var directories := CollectDirectories(files);
    var ordered := Sort(DirectoryItems(directories) + MapValues(FileItem, files));
    OrderedNamed(files);
    var blocks: Bytes := [];
    var k := 0;
    assert ordered[0..] == ordered;
    PrefixedTwice([], [], EncodeItems(ordered));
    while k < |ordered|
      invariant 0 <= k <= |ordered|
      invariant EncodeItems(ordered) == Prefixed(blocks, EncodeItems(ordered[k..]))
    {
      EncodeItemsStep(ordered[k..]);
      assert ordered[k..][1..] == ordered[k + 1..];
      var entry := WriteEntry(ordered[k]);
      if entry.Err? {
        return Err(entry.error);
      }
      PrefixedTwice(blocks, entry.value, EncodeItems(ordered[k + 1..]));
      blocks := blocks + entry.value;
      k := k + 1;
    }
    EncodeNothing();
    assert ordered[k..] == [] && blocks + [] == blocks;
    r := Ok(blocks + Zeros(2 * BLOCK_BYTES));
  }

  lemma EncodeNothing()
    ensures EncodeItems([]) == Ok([])
  {
  }

  lemma DirectoriesStep(found: seq<Text>, files: seq<File>)
    requires files != []
    ensures Directories(found, files) == Directories(AddAll(found, Parents(files[0].key, 0)), files[1..])
  {
  }

  lemma NoMoreDirectories(found: seq<Text>)
    ensures Directories(found, []) == found
  {
  }

  lemma EncodeItemsStep(items: seq<Keyed<Item>>)
    requires items != []
    requires forall i :: 0 <= i < |items| && items[i].val.isDirectory ==> items[i].key != []
    ensures EncodeItems(items) ==
            match EncodeItem(items[0]) {
              case Err(e) => Err(e)
              case Ok(head) => Prefixed(head, EncodeItems(items[1..]))
            }
  {
    hide EncodeItem;
  }

  function Prefixed(front: Bytes, r: Result<Bytes, CarrierError>): Result<Bytes, CarrierError> {
    match r
    case Ok(rest) => Ok(front + rest)
    case Err(e) => Err(e)
  }

  lemma PrefixedTwice(a: Bytes, b: Bytes, r: Result<Bytes, CarrierError>)
    ensures Prefixed(a, Prefixed(b, r)) == Prefixed(a + b, r)
    ensures Prefixed([], r) == r
  {
    assert r.Ok? ==> a + (b + r.value) == a + b + r.value && [] + r.value == r.value;
  }

  method AddParents(found: seq<Text>, path: Text) returns (directories: seq<Text>)
    ensures directories == AddAll(found, Parents(path, 0))
  {
    hide AddNew;
    directories := found;
    var depth := 0;
    while depth < |path|
      invariant depth <= |path|
      invariant AddAll(directories, Parents(path, depth)) == AddAll(found, Parents(path, 0))
    {
      if path[depth] == SLASH {
        assert ([path[..depth + 1]] + Parents(path, depth + 1))[1..] == Parents(path, depth + 1);
        directories := AddNew(directories, path[..depth + 1]);
      }
      depth := depth + 1;
    }
  }

  // ---- Decoding ----

  /** What `readAsciiField` makes of a field's bytes. */
  function FieldText(b: Bytes): Text {
    DecodeLossy(b)
  }

  /** The blocks a body of `n` bytes takes. */
  function BlocksFor(n: nat): nat {
    (n + BLOCK_BYTES - 1) / BLOCK_BYTES
  }

  function AtMost(n: nat, limit: nat): nat {
    if n <= limit then n else limit
  }

  /** The path a header names. */
  function PathOf(header: Bytes): Text
    requires |header| == BLOCK_BYTES
  {
    var name := FieldText(ReadField(header, 0, NAME_FIELD_BYTES));
    var prefix := FieldText(ReadField(header, 345, PREFIX_FIELD_BYTES));
    if prefix == [] then name else prefix + [SLASH] + name
  }

  function SizeOf(header: Bytes): Parsed
    requires |header| == BLOCK_BYTES
  {
    ParseSize(FieldText(ReadField(header, 124, 12)))
  }

  /** The bytes a declared size covers: none when it is negative. */
  function Extent(size: int): nat {
    if size < 0 then 0 else size
  }

  /**
   The files in the tar still ahead, as long as no header steps back: a size of -512 or
   less takes the decoding loop to an earlier block.
   */
  function FilesOf(tar: Bytes): Result<seq<File>, CarrierError>
    decreases |tar|
  {
    if |tar| < BLOCK_BYTES || AllZero(tar[..BLOCK_BYTES]) then Ok([])
    else
      var header := tar[..BLOCK_BYTES];
      var body := tar[BLOCK_BYTES..];
      match SizeOf(header)
      case NotANumber => Ok(if header[156] != 0x35 then [Keyed(PathOf(header), [])] else [])
      case Size(size) =>
        if size <= -BLOCK_BYTES then Err(SteppedBack)
        else
          var file := Keyed(PathOf(header), body[..AtMost(Extent(size), |body|)]);
          var rest :- FilesOf(body[AtMost(BlocksFor(Extent(size)) * BLOCK_BYTES, |body|)..]);
          Ok(if header[156] != 0x35 then [file] + rest else rest)
  }

  /** A carrier read from front to back; a gzip stream is refused. */
  function Decoded(carrier: Bytes): Result<seq<File>, CarrierError> {
    if |carrier| >= 2 && carrier[0] == 0x1F && carrier[1] == 0x8B then Err(GzipRefused)
    else FilesOf(carrier)
  }

  function After(files: seq<File>, r: Result<seq<File>, CarrierError>): Result<seq<File>, CarrierError> {
    match r
    case Ok(rest) => Ok(files + rest)
    case Err(e) => Err(e)
  }

  lemma AfterTwice(a: seq<File>, b: seq<File>, r: Result<seq<File>, CarrierError>)
    ensures After(a, After(b, r)) == After(a + b, r)
    ensures After([], r) == r
  {
    assert r.Ok? ==> a + (b + r.value) == a + b + r.value && [] + r.value == r.value;
  }

  /** One entry and what is ahead of it. */
  lemma FilesOfStep(tar: Bytes)
    requires |tar| >= BLOCK_BYTES && !AllZero(tar[..BLOCK_BYTES])
    requires SizeOf(tar[..BLOCK_BYTES]).Size? && SizeOf(tar[..BLOCK_BYTES]).n > -BLOCK_BYTES
    ensures var header := tar[..BLOCK_BYTES];
            var size := Extent(SizeOf(header).n);
            var body := tar[BLOCK_BYTES..];
            var file := Keyed(PathOf(header), body[..AtMost(size, |body|)]);
            FilesOf(tar) == After(if header[156] != 0x35 then [file] else [],
                                  FilesOf(body[AtMost(BlocksFor(size) * BLOCK_BYTES, |body|)..]))
  {
    hide PathOf, SizeOf, BlocksFor;
    var body := tar[BLOCK_BYTES..];
    var size := Extent(SizeOf(tar[..BLOCK_BYTES]).n);
    AfterTwice([], [], FilesOf(body[AtMost(BlocksFor(size) * BLOCK_BYTES, |body|)..]));
  }

  // ---- Round trip ----

  /** Every unit is ASCII or U+FFFD: the units that survive being written as one byte and read as UTF-8. */
  predicate Plain(t: Text) {
    forall i :: 0 <= i < |t| ==> t[i] < 0x80 || t[i] == REPLACEMENT
  }

  predicate PlainPaths(files: seq<File>) {
    forall i :: 0 <= i < |files| ==> Plain(files[i].key)
  }

  /** A field written and read back. */
  function FieldBack(t: Text): Text {
    FieldText(UpToNul(AsciiBytes(t)))
  }

  lemma FieldBackExactly(t: Text)
    requires 0 !in t
    ensures |FieldBack(t)| <= |t|
    ensures FieldBack(t) == t <==> Plain(t)
  {
    hide DecodeLossy, UpToNul;
    var b := AsciiBytes(t);
    UpToNulLength(b);
    LossyLength(UpToNul(b));
    if Plain(t) {
      forall i | 0 <= i < |b| ensures b[i] != 0 && (b[i] < 0x80 || b[i] == 0xFD) && AloneUnit(b[i]) == t[i] {
        assert t[i] in t;
      }
      LossyAlone(b);
    }
  }

  /** A path written into a header and read back from it. */
  function PathBack(path: Text): Text {
    match SplitPath(path)
    case None => path
    case Some(p) =>
      if FieldBack(p.prefix) == [] then FieldBack(p.name)
      else FieldBack(p.prefix) + [SLASH] + FieldBack(p.name)
  }

  lemma PathBackExactly(path: Text)
    requires SplitPath(path).Some? && 0 !in path && path != [] && path[0] != SLASH
    ensures PathBack(path) == path <==> Plain(path)
  {
    hide FieldBack, SplitPath, Encode;
    var p := SplitPath(path).value;
    SplitPathMeans(path);
    SplitPathParts(path);
    FieldBackExactly(p.name);
    FieldBackExactly(p.prefix);
    if |Encode(path)| > NAME_FIELD_BYTES {
      PlainParts(p.prefix, p.name);
      if PathBack(path) == path && FieldBack(p.prefix) != [] {
        SameParts(FieldBack(p.prefix), FieldBack(p.name), p.prefix, p.name);
      }
    }
  }

  lemma PlainParts(prefix: Text, name: Text)
    ensures Plain(prefix + [SLASH] + name) <==> Plain(prefix) && Plain(name)
    ensures prefix == [] ==> (prefix + [SLASH] + name)[0] == SLASH
  {
    var path := prefix + [SLASH] + name;
    assert forall i :: 0 <= i < |prefix| ==> path[i] == prefix[i];
    assert forall i :: 0 <= i < |name| ==> path[|prefix| + 1 + i] == name[i];
    if Plain(path) {
      forall i | 0 <= i < |name| ensures name[i] < 0x80 || name[i] == REPLACEMENT {
        assert path[|prefix| + 1 + i] == name[i];
      }
    }
  }

  lemma SameParts(a: Text, b: Text, prefix: Text, name: Text)
    requires a + [SLASH] + b == prefix + [SLASH] + name && |a| <= |prefix| && |b| <= |name|
    ensures a == prefix && b == name
  {
    assert |a| == |prefix|;
    assert a == (a + [SLASH] + b)[..|a|] && prefix == (prefix + [SLASH] + name)[..|prefix|];
    assert b == (a + [SLASH] + b)[|a| + 1..] && name == (prefix + [SLASH] + name)[|prefix| + 1..];
  }

  lemma PaddedLength(n: nat)
    ensures n + |Padding(n)| == BlocksFor(n) * BLOCK_BYTES
  {
  }

  lemma WrittenSizeReads(n: nat)
    ensures ParseSize(FieldText(UpToNul(PadOctal(n, 11)))) == Size(n)
  {
    hide ParseSize, PadOctal, DecodeLossy, UpToNul, OctalValue;
    var digits := PadOctal(n, 11);
    PaddedOctal(n, 11);
    assert forall i :: 0 <= i < |digits| ==> IsOctalDigit(digits[i]);
    UpToNulLength(digits);
    LossyAlone(digits);
    assert DecodeLossy(digits) == digits;
    ParsePadded(n, 11);
  }

  /** What the header of a written entry says. */
  lemma HeaderOf(path: Text, n: nat, isDirectory: bool)
    requires isDirectory ==> path != []
    requires EntryFields(path, n, isDirectory).Ok?
    ensures var header := HeaderBlock(EntryFields(path, n, isDirectory).value);
            PathOf(header) == PathBack(path) && SizeOf(header) == Size(n)
            && (header[156] == 0x35 <==> isDirectory) && !AllZero(header)
  {
    hide ParseSize, PadOctal, Contained, SplitPath, HeaderBlock, DecodeLossy, UpToNul, AllZero, ReadField;
    var f := EntryFields(path, n, isDirectory).value;
    EntryFieldsFit(path, n, isDirectory);
    HeaderReads(f);
    WrittenSizeReads(n);
  }

  lemma SplitPathParts(path: Text)
    requires SplitPath(path).Some?
    ensures var p := SplitPath(path).value;
            (forall c :: c in p.name ==> c in path) && (forall c :: c in p.prefix ==> c in path)
            && (Plain(path) ==> Plain(p.name) && Plain(p.prefix))
  {
    hide Encode;
  }

  lemma ContainedParts(path: Text)
    requires Contained(path)
    ensures 0 !in path && path != [] && path[0] != SLASH
  {
  }

  /** The files with each path as a header gives it back. */
  function Reread(files: seq<File>): seq<File> {
    if files == [] then [] else [Keyed(PathBack(files[0].key), files[0].val)] + Reread(files[1..])
  }

  lemma {:induction false} RereadAt(files: seq<File>)
    ensures |Reread(files)| == |files|
    ensures forall i :: 0 <= i < |files| ==> Reread(files)[i] == Keyed(PathBack(files[i].key), files[i].val)
  {
    hide PathBack;
    if files != [] {
      RereadAt(files[1..]);
    }
  }

  /** One written entry reads as its file, or as nothing when it is a directory. */
  lemma ItemReads(item: Keyed<Item>, rest: Bytes)
    requires item.val.isDirectory ==> item.key != []
    requires EncodeItem(item).Ok?
    ensures FilesOf(EncodeItem(item).value + rest) ==
            After(if item.val.isDirectory then [] else [Keyed(PathBack(item.key), item.val.bytes)], FilesOf(rest))
  {
    hide PathOf, SizeOf, PathBack, HeaderBlock, FilesOf, EntryFields, Padding, BlocksFor, AllZero;
    var bytes := item.val.bytes;
    var f := EntryFields(item.key, |bytes|, item.val.isDirectory).value;
    HeaderOf(item.key, |bytes|, item.val.isDirectory);
    PaddedLength(|bytes|);
    var tar := EncodeItem(item).value + rest;
    var body := bytes + Padding(|bytes|) + rest;
    assert tar == HeaderBlock(f) + body;
    assert tar[..BLOCK_BYTES] == HeaderBlock(f) && tar[BLOCK_BYTES..] == body;
    FilesOfStep(tar);
    assert body[..|bytes|] == bytes;
    assert body[BlocksFor(|bytes|) * BLOCK_BYTES..] == rest;
  }

  function ItemBytes(item: Item): Bytes {
    item.bytes
  }

  lemma {:induction false} ItemsRead(items: seq<Keyed<Item>>, rest: Bytes)
    requires NamedDirectories(items) && EncodeItems(items).Ok?
    ensures FilesOf(EncodeItems(items).value + rest) ==
            After(Reread(MapValues(ItemBytes, Select(IsFile, items))), FilesOf(rest))
  {
    hide EncodeItem, FilesOf, PathBack;
    if items == [] {
      assert [] + rest == rest;
      AfterTwice([], [], FilesOf(rest));
    } else {
      var head, tail := EncodeItem(items[0]).value, EncodeItems(items[1..]).value;
      ItemsRead(items[1..], rest);
      ItemReads(items[0], tail + rest);
      assert head + tail + rest == head + (tail + rest);
      var files := MapValues(ItemBytes, Select(IsFile, items[1..]));
      var first: seq<File> := if items[0].val.isDirectory then [] else [Keyed(PathBack(items[0].key), items[0].val.bytes)];
      AfterTwice(first, Reread(files), FilesOf(rest));
      SelectedFirst(items);
      if items[0].val.isDirectory {
        assert [] + files == files && [] + Reread(files) == Reread(files);
      } else {
        Uncons(Keyed(items[0].key, items[0].val.bytes), files);
      }
    }
  }

  lemma SelectedFirst(items: seq<Keyed<Item>>)
    requires items != []
    ensures MapValues(ItemBytes, Select(IsFile, items)) ==
            (if items[0].val.isDirectory then [] else [Keyed(items[0].key, items[0].val.bytes)])
            + MapValues(ItemBytes, Select(IsFile, items[1..]))
  {
    if IsFile(items[0]) {
      assert ([items[0]] + Select(IsFile, items[1..]))[1..] == Select(IsFile, items[1..]);
    }
  }

  lemma {:induction false} NoFiles(ds: seq<Text>)
    ensures Select(IsFile, DirectoryItems(ds)) == []
  {
    if ds != [] {
      NoFiles(ds[1..]);
      assert DirectoryItems(ds)[1..] == DirectoryItems(ds[1..]);
    }
  }

  lemma {:induction false} AllFiles(files: seq<File>)
    ensures Select(IsFile, MapValues(FileItem, files)) == MapValues(FileItem, files)
    ensures MapValues(ItemBytes, MapValues(FileItem, files)) == files
  {
    if files != [] {
      AllFiles(files[1..]);
      assert MapValues(FileItem, files)[1..] == MapValues(FileItem, files[1..]);
      assert files == [files[0]] + files[1..];
    }
  }

  /** The files among what is written are the files, in path order. */
  lemma OrderedFiles(files: seq<File>)
    ensures MapValues(ItemBytes, Select(IsFile, Ordered(files))) == Sort(files)
  {
    hide Sort, Select, MapValues;
    var ds := DirectoryItems(Directories([], files));
    var fs := MapValues(FileItem, files);
    SelectSort(IsFile, ds + fs);
    SelectAppend(IsFile, ds, fs);
    NoFiles(Directories([], files));
    AllFiles(files);
    assert [] + fs == fs;
    MapSort(FileItem, files);
    AllFiles(Sort(files));
  }

  lemma ZerosEnd()
    ensures FilesOf(Zeros(2 * BLOCK_BYTES)) == Ok([])
  {
  }

  /** Whatever the paths, a carrier reads as its files in path order, each path as its header gives it back. */
  lemma CarrierReads(files: seq<File>)
    requires CarrierOf(files).Ok?
    ensures FilesOf(CarrierOf(files).value) == Ok(Reread(Sort(files)))
  {
    hide FilesOf, EncodeItems, Sort, Ordered, Reread;
    OrderedNamed(files);
    ItemsRead(Ordered(files), Zeros(2 * BLOCK_BYTES));
    OrderedFiles(files);
    ZerosEnd();
    assert Reread(Sort(files)) + [] == Reread(Sort(files));
  }

  lemma {:induction false} EachEncodes(items: seq<Keyed<Item>>, i: nat)
    requires NamedDirectories(items) && EncodeItems(items).Ok? && i < |items|
    ensures EncodeItem(items[i]).Ok?
  {
    hide EncodeItem;
    if i > 0 {
      EachEncodes(items[1..], i - 1);
    }
  }

  /** A written file's path is contained and fits its header. */
  lemma FileWritten(files: seq<File>, k: nat)
    requires CarrierOf(files).Ok? && k < |files|
    ensures Contained(files[k].key) && SplitPath(files[k].key).Some?
  {
    hide EncodeItems, Ordered, Contained, SplitPath, HeaderBlock;
    var x := Keyed(files[k].key, Item(files[k].val, false));
    OrderedNamed(files);
    OrderedAre(files, x);
    var i :| 0 <= i < |Ordered(files)| && Ordered(files)[i] == x;
    EachEncodes(Ordered(files), i);
  }

  lemma NotGzip(files: seq<File>)
    requires PlainPaths(files) && CarrierOf(files).Ok?
    ensures Decoded(CarrierOf(files).value) == FilesOf(CarrierOf(files).value)
  {
    hide FilesOf, Ordered, Contained, SplitPath, ChecksumField;
    var items := Ordered(files);
    OrderedNamed(files);
    if items != [] {
      var f := EntryFields(items[0].key, |items[0].val.bytes|, items[0].val.isDirectory).value;
      EntryFieldsFit(items[0].key, |items[0].val.bytes|, items[0].val.isDirectory);
      var b := CarrierOf(files).value;
      assert b[1] == HeaderBlock(f)[1] == FieldByte(f.name, 0, 1);
      assert FieldByte(f.name, 0, 1) != 0x8B by {
        PlainItem(files, 0);
        SplitPathParts(items[0].key);
        NamePlain(SplitPath(items[0].key).value.name);
      }
    }
  }

  lemma NamePlain(t: Text)
    requires Plain(t)
    ensures forall i :: 0 <= i < |t| ==> AsciiBytes(t)[i] != 0x8B
  {
  }

  lemma PlainItem(files: seq<File>, i: nat)
    requires PlainPaths(files) && i < |Ordered(files)|
    ensures Plain(Ordered(files)[i].key)
  {
    hide Ordered;
    OrderedAre(files, Ordered(files)[i]);
  }

  /**
   The round trip, exactly: what decodes is the file set in path order, byte for byte, if
   and only if every path is made of ASCII and U+FFFD.
   */
  lemma CarrierRoundTrip(files: seq<File>)
    requires CarrierOf(files).Ok?
    ensures Decoded(CarrierOf(files).value) == Ok(Sort(files)) <==> PlainPaths(files)
  {
    hide FilesOf, CarrierOf, Sort, Reread, PathBack, Contained, SplitPath, Plain;
    CarrierReads(files);
    RereadAt(Sort(files));
    SortContents(files);
    forall k | 0 <= k < |files| ensures PathBack(files[k].key) == files[k].key <==> Plain(files[k].key) {
      FileWritten(files, k);
      ContainedParts(files[k].key);
      PathBackExactly(files[k].key);
    }
    if PlainPaths(files) {
      NotGzip(files);
      forall i | 0 <= i < |files| ensures Reread(Sort(files))[i] == Sort(files)[i] {
        assert Sort(files)[i] in multiset(files);
      }
      assert Reread(Sort(files)) == Sort(files);
    }
    if Decoded(CarrierOf(files).value) == Ok(Sort(files)) {
      forall k | 0 <= k < |files| ensures Plain(files[k].key) {
        assert files[k] in multiset(Sort(files));
        var i :| 0 <= i < |files| && Sort(files)[i] == files[k];
        assert Reread(Sort(files))[i] == Sort(files)[i];
      }
    }
  }
}
