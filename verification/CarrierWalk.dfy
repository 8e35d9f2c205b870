/**
 The decoding loop on every buffer. An offset walks the headers; a negative size takes it
 back, even below zero, where a slice counts from the end of the buffer. When the loop
 ends, what it returns then, and that reading from front to back is the same wherever no
 header steps back.
 */
module CarrierWalk {
  import opened Wrappers
  import opened Utf16
  import opened Utf8
  import opened Digest
  import opened Ustar
  import opened Carrier

  // ---- Slices ----

  /** Where an index of `subarray` points. */
  function Clamp(i: int, length: nat): (k: nat)
    ensures k <= length
  {
    if i < 0 then (if length + i < 0 then 0 else length + i) else AtMost(i, length)
  }

  /** `buffer.subarray(from, to)`. */
  function Sub(b: Bytes, from: int, to: int): Bytes {
    var s, e := Clamp(from, |b|), Clamp(to, |b|);
    if s <= e then b[s..e] else []
  }

  lemma SubInside(b: Bytes, from: nat, to: nat)
    requires from <= to <= |b|
    ensures Sub(b, from, to) == b[from..to]
  {
  }

  // ---- One turn ----

  /** `readAsciiField` on a header that may be short. */
  function FieldAt(header: Bytes, offset: nat, length: nat): Text {
    FieldText(UpToNul(Sub(header, offset, offset + length)))
  }

  function PathAt(header: Bytes): Text {
    var name, prefix := FieldAt(header, 0, NAME_FIELD_BYTES), FieldAt(header, 345, PREFIX_FIELD_BYTES);
    if prefix == [] then name else prefix + [SLASH] + name
  }

  predicate DirectoryAt(header: Bytes) {
    |header| > 156 && header[156] == 0x35
  }

  /** `Math.ceil(size / 512) * 512`. */
  function Stride(size: int): int {
    if size >= 0 then BlocksFor(size) * BLOCK_BYTES else -((-size) / BLOCK_BYTES * BLOCK_BYTES)
  }

  /** What a turn of the loop finds and where it goes on; nowhere when the loop ends here. */
  datatype Turn = Turn(found: seq<File>, next: Option<int>)

  function TurnAt(carrier: Bytes, offset: int): Turn {
    if offset + BLOCK_BYTES > |carrier| then Turn([], None)
    else
      var header := Sub(carrier, offset, offset + BLOCK_BYTES);
      if AllZero(header) then Turn([], None)
      else
        var start := offset + BLOCK_BYTES;
        match ParseSize(FieldAt(header, 124, 12))
        case NotANumber => Turn(if DirectoryAt(header) then [] else [Keyed(PathAt(header), [])], None)
        case Size(size) =>
          Turn(if DirectoryAt(header) then [] else [Keyed(PathAt(header), Sub(carrier, start, start + size))],
               Some(start + Stride(size)))
  }

  // ---- The walk ----

  /** The offset the loop is at after `k` turns. */
  function OffsetAt(carrier: Bytes, k: nat): Option<int> {
    if k == 0 then Some(0)
    else
      var offset :- OffsetAt(carrier, k - 1);
      TurnAt(carrier, offset).next
  }

  /** What the first `k` turns have found. */
  function FoundBy(carrier: Bytes, k: nat): seq<File> {
    if k == 0 then []
    else
      FoundBy(carrier, k - 1)
      + match OffsetAt(carrier, k - 1) { case None => [] case Some(offset) => TurnAt(carrier, offset).found }
  }

  /** The loop ends with its `k`-th turn. */
  predicate EndsAt(carrier: Bytes, k: nat) {
    OffsetAt(carrier, k).Some? && OffsetAt(carrier, k + 1).None?
  }

  ghost predicate Ends(carrier: Bytes) {
    exists k: nat :: EndsAt(carrier, k)
  }

  lemma {:induction false} NoneStays(carrier: Bytes, i: nat, k: nat)
    requires i <= k && OffsetAt(carrier, i).None?
    ensures OffsetAt(carrier, k).None?
  {
    hide TurnAt;
    if i < k {
      NoneStays(carrier, i, k - 1);
    }
  }

  lemma EndsOnce(carrier: Bytes, i: nat, k: nat)
    requires EndsAt(carrier, i) && EndsAt(carrier, k)
    ensures i == k
  {
    hide TurnAt;
    if i < k {
      NoneStays(carrier, i + 1, k);
    } else if k < i {
      NoneStays(carrier, k + 1, i);
    }
  }

  /** What the loop returns where it ends. */
  ghost function Walked(carrier: Bytes): seq<File>
    requires Ends(carrier)
  {
    var k: nat :| EndsAt(carrier, k);
    FoundBy(carrier, k + 1)
  }

  lemma WalkedAt(carrier: Bytes, k: nat)
    requires EndsAt(carrier, k)
    ensures Ends(carrier) && Walked(carrier) == FoundBy(carrier, k + 1)
  {
    hide EndsAt, FoundBy;
    var i: nat :| EndsAt(carrier, i) && Walked(carrier) == FoundBy(carrier, i + 1);
    EndsOnce(carrier, i, k);
  }

  predicate IsGzip(carrier: Bytes) {
    |carrier| >= 2 && carrier[0] == 0x1F && carrier[1] == 0x8B
  }

  /** What `decodeCarrier` answers. */
  ghost function Answer(carrier: Bytes): Result<seq<File>, CarrierError>
    requires !IsGzip(carrier) ==> Ends(carrier)
  {
    if IsGzip(carrier) then Err(GzipRefused) else Ok(Walked(carrier))
  }

  /** The body of the decoding loop. */
  method DecodeEntry(carrier: Bytes, offset: int) returns (found: seq<File>, next: Option<int>)
    requires offset + BLOCK_BYTES <= |carrier|
    ensures Turn(found, next) == TurnAt(carrier, offset)
  {
    hide AllZero, Sub, FieldAt, PathAt, ParseSize, Stride;
    var header := Sub(carrier, offset, offset + BLOCK_BYTES);
    if AllZero(header) {
      return [], None;
    }
    var path := PathAt(header);
    var size := ParseSize(FieldAt(header, 124, 12));
    var start := offset + BLOCK_BYTES;
    found := [];
    if !DirectoryAt(header) {
      found := [Keyed(path, if size.Size? then Sub(carrier, start, start + size.n) else [])];
    }
    next := if size.Size? then Some(start + Stride(size.n)) else None;
  }

  /** `decodeCarrier`, on every buffer on which its loop ends. */
  method DecodeCarrier(carrier: Bytes) returns (r: Result<seq<File>, CarrierError>)
    requires !IsGzip(carrier) ==> Ends(carrier)
    ensures r == Answer(carrier)
  {
    hide TurnAt, Ends, FoundBy, OffsetAt, EndsAt, Walked;
    if |carrier| >= 2 && carrier[0] == 0x1F && carrier[1] == 0x8B {
      return Err(GzipRefused);
    }
    WalkStarts(carrier);
    ghost var k: nat := 0;
    ghost var last := EndOf(carrier);
    var files: seq<File> := [];
    var offset: int := 0;
    while offset + BLOCK_BYTES <= |carrier|
      invariant k <= last && OffsetAt(carrier, k) == Some(offset) && files == FoundBy(carrier, k)
      decreases last - k
    {
      var found, next := DecodeEntry(carrier, offset);
      files := files + found;
      if next.None? {
        TurnEnds(carrier, k, found);
        return Ok(files);
      }
      StillGoing(carrier, k, last, found, next.value);
      offset, k := next.value, k + 1;
    }
    NoTurnLeft(carrier, offset);
    TurnEnds(carrier, k, []);
    assert files + [] == files;
    r := Ok(files);
  }

  lemma NoTurnLeft(carrier: Bytes, offset: int)
    requires offset + BLOCK_BYTES > |carrier|
    ensures TurnAt(carrier, offset) == Turn([], None)
  {
  }

  lemma EndOf(carrier: Bytes) returns (k: nat)
    requires Ends(carrier)
    ensures EndsAt(carrier, k)
  {
    k :| EndsAt(carrier, k);
  }

  lemma TurnEnds(carrier: Bytes, k: nat, found: seq<File>)
    requires OffsetAt(carrier, k).Some?
    requires TurnAt(carrier, OffsetAt(carrier, k).value) == Turn(found, None)
    ensures Ends(carrier) && Walked(carrier) == FoundBy(carrier, k) + found
  {
    hide TurnAt;
    assert EndsAt(carrier, k);
    WalkedAt(carrier, k);
  }

  lemma StillGoing(carrier: Bytes, k: nat, last: nat, found: seq<File>, next: int)
    requires EndsAt(carrier, last) && k <= last && OffsetAt(carrier, k).Some?
    requires TurnAt(carrier, OffsetAt(carrier, k).value) == Turn(found, Some(next))
    ensures k < last && OffsetAt(carrier, k + 1) == Some(next)
    ensures FoundBy(carrier, k + 1) == FoundBy(carrier, k) + found
  {
    hide TurnAt;
  }

  lemma WalkStarts(carrier: Bytes)
    ensures OffsetAt(carrier, 0) == Some(0) && FoundBy(carrier, 0) == []
  {
  }

  // ---- Where the walk is the reading from front to back ----

  /** The `k`-th turn goes back, or stays where it is. */
  predicate StepsBack(carrier: Bytes, k: nat) {
    OffsetAt(carrier, k).Some?
    && var next := TurnAt(carrier, OffsetAt(carrier, k).value).next;
       next.Some? && next.value <= OffsetAt(carrier, k).value
  }

  lemma WholeHeader(header: Bytes)
    requires |header| == BLOCK_BYTES
    ensures PathAt(header) == PathOf(header) && ParseSize(FieldAt(header, 124, 12)) == SizeOf(header)
    ensures DirectoryAt(header) <==> header[156] == 0x35
  {
    hide FieldText, ParseSize, UpToNul;
  }

  lemma StrideForward(size: int)
    ensures size > -BLOCK_BYTES ==> Stride(size) == BlocksFor(Extent(size)) * BLOCK_BYTES
    ensures size <= -BLOCK_BYTES ==> Stride(size) <= -BLOCK_BYTES
  {
  }

  /** A turn that goes forward. */
  lemma TurnForward(carrier: Bytes, offset: nat, header: Bytes, size: int)
    requires offset + BLOCK_BYTES <= |carrier| && header == carrier[offset..offset + BLOCK_BYTES] && !AllZero(header)
    requires SizeOf(header) == Size(size) && size > -BLOCK_BYTES
    ensures var turn, start := TurnAt(carrier, offset), offset + BLOCK_BYTES;
            var next := start + BlocksFor(Extent(size)) * BLOCK_BYTES;
            turn.next == Some(next)
            && FilesOf(carrier[offset..]) == After(turn.found, FilesOf(carrier[AtMost(next, |carrier|)..]))
  {
    hide PathOf, SizeOf, PathAt, FieldAt, ParseSize, DirectoryAt, AllZero, BlocksFor, Stride, FilesOf, Sub, After;
    var tar, start := carrier[offset..], offset + BLOCK_BYTES;
    assert tar[..BLOCK_BYTES] == header && tar[BLOCK_BYTES..] == carrier[start..];
    SubInside(carrier, offset, start);
    WholeHeader(header);
    StrideForward(size);
    FilesOfStep(tar);
    BodyReads(carrier, start, size);
  }

  /** One turn at an offset into the buffer and one entry of the reading. */
  lemma TurnReads(carrier: Bytes, offset: nat)
    requires offset + BLOCK_BYTES <= |carrier|
    ensures var turn, rest := TurnAt(carrier, offset), FilesOf(carrier[offset..]);
            if turn.next.None? then rest == Ok(turn.found)
            else if turn.next.value <= offset then rest == Err(SteppedBack)
            else offset + BLOCK_BYTES <= turn.next.value
                 && rest == After(turn.found, FilesOf(carrier[AtMost(turn.next.value, |carrier|)..]))
  {
    hide PathOf, SizeOf, PathAt, FieldAt, ParseSize, DirectoryAt, AllZero, BlocksFor, Stride, Sub;
    var tar, start := carrier[offset..], offset + BLOCK_BYTES;
    var header := carrier[offset..start];
    SubInside(carrier, offset, start);
    assert tar[..BLOCK_BYTES] == header;
    WholeHeader(header);
    if !AllZero(header) && SizeOf(header).Size? {
      StrideForward(SizeOf(header).n);
      if SizeOf(header).n > -BLOCK_BYTES {
        hide FilesOf, TurnAt, After;
        TurnForward(carrier, offset, header, SizeOf(header).n);
      }
    }
  }

  lemma BodyReads(carrier: Bytes, start: nat, size: int)
    requires BLOCK_BYTES <= start <= |carrier| && size > -BLOCK_BYTES
    ensures var body, n := carrier[start..], Extent(size);
            Sub(carrier, start, start + size) == body[..AtMost(n, |body|)]
            && carrier[AtMost(start + BlocksFor(n) * BLOCK_BYTES, |carrier|)..]
               == body[AtMost(BlocksFor(n) * BLOCK_BYTES, |body|)..]
  {
    hide BlocksFor;
  }

  /** From an offset on: the walk ends with what is read ahead, or a header it reaches steps back. */
  lemma {:induction false} WalkReads(carrier: Bytes, offset: nat, k: nat) returns (j: nat)
    requires OffsetAt(carrier, k) == Some(offset)
    ensures j >= k
    ensures var rest := FilesOf(carrier[AtMost(offset, |carrier|)..]);
            match rest {
              case Ok(files) =>
                EndsAt(carrier, j) && FoundBy(carrier, j + 1) == FoundBy(carrier, k) + files
                && forall i :: k <= i <= j ==> !StepsBack(carrier, i)
              case Err(_) => StepsBack(carrier, j)
            }
    decreases |carrier| - offset
  {
    hide TurnAt, FilesOf, FoundBy, OffsetAt;
    FoundNext(carrier, k);
    if offset + BLOCK_BYTES > |carrier| {
      NoTurnLeft(carrier, offset);
      NothingAhead(carrier[AtMost(offset, |carrier|)..]);
      return k;
    }
    TurnReads(carrier, offset);
    var turn := TurnAt(carrier, offset);
    if turn.next.None? || turn.next.value <= offset {
      return k;
    }
    j := WalkReads(carrier, turn.next.value, k + 1);
    var rest := FilesOf(carrier[AtMost(turn.next.value, |carrier|)..]);
    if rest.Ok? {
      Regroup(FoundBy(carrier, k), turn.found, rest.value);
    }
  }

  lemma FoundNext(carrier: Bytes, k: nat)
    requires OffsetAt(carrier, k).Some?
    ensures OffsetAt(carrier, k + 1) == TurnAt(carrier, OffsetAt(carrier, k).value).next
    ensures FoundBy(carrier, k + 1) == FoundBy(carrier, k) + TurnAt(carrier, OffsetAt(carrier, k).value).found
  {
    hide TurnAt;
  }

  lemma NothingAhead(tar: Bytes)
    requires |tar| < BLOCK_BYTES
    ensures FilesOf(tar) == Ok([])
  {
  }

  /** The walk ends with what reading from front to back gives exactly when no header it reaches steps back. */
  lemma ForwardExactly(carrier: Bytes)
    ensures FilesOf(carrier).Ok? <==> forall k: nat :: !StepsBack(carrier, k)
    ensures FilesOf(carrier).Ok? ==> Ends(carrier) && Walked(carrier) == FilesOf(carrier).value
  {
    hide TurnAt, FilesOf, FoundBy, OffsetAt, EndsAt, StepsBack, Walked, Ends;
    WalkStarts(carrier);
    assert carrier[0..] == carrier;
    var j := WalkReads(carrier, 0, 0);
    if FilesOf(carrier).Ok? {
      WalkedAt(carrier, j);
      assert [] + FilesOf(carrier).value == FilesOf(carrier).value;
      forall k: nat ensures !StepsBack(carrier, k) {
        if k > j {
          PastTheEnd(carrier, j, k);
        }
      }
    }
  }

  lemma PastTheEnd(carrier: Bytes, j: nat, k: nat)
    requires EndsAt(carrier, j) && k > j
    ensures !StepsBack(carrier, k)
  {
    hide TurnAt, OffsetAt;
    NoneStays(carrier, j + 1, k);
  }

  /** The round trip through the loop: it ends on every written carrier, with the files in path order exactly when every path is plain. */
  lemma WalkRoundTrip(files: seq<File>)
    requires CarrierOf(files).Ok?
    ensures Ends(CarrierOf(files).value)
    ensures Answer(CarrierOf(files).value) == Ok(Sort(files)) <==> PlainPaths(files)
  {
    hide CarrierOf, FilesOf, Ends, Walked, Sort, PlainPaths;
    CarrierReads(files);
    ForwardExactly(CarrierOf(files).value);
    CarrierRoundTrip(files);
  }

  // ---- When the walk ends ----

  /** The same offset after `i` turns and after `j`. */
  predicate SameOffset(carrier: Bytes, i: nat, j: nat) {
    OffsetAt(carrier, i).Some? && OffsetAt(carrier, i) == OffsetAt(carrier, j)
  }

  ghost predicate NeverRevisits(carrier: Bytes) {
    forall i: nat, j: nat :: i < j ==> !SameOffset(carrier, i, j)
  }

  /** From one offset the walk goes one way. */
  lemma {:induction false} SameAfter(carrier: Bytes, i: nat, j: nat, d: nat)
    requires SameOffset(carrier, i, j)
    ensures OffsetAt(carrier, i + d) == OffsetAt(carrier, j + d)
  {
    hide TurnAt;
    if d > 0 {
      SameAfter(carrier, i, j, d - 1);
    }
  }

  lemma RevisitNeverEnds(carrier: Bytes, i: nat, j: nat)
    requires i < j && SameOffset(carrier, i, j)
    ensures !Ends(carrier)
  {
    hide TurnAt, OffsetAt;
    if Ends(carrier) {
      var last := EndOf(carrier);
      if j > last {
        NoneStays(carrier, last + 1, j);
      } else {
        SameAfter(carrier, i, j, last + 1 - j);
        NoneStays(carrier, i + (last + 1 - j), last);
      }
    }
  }

  /** Where a turn goes on from is a block number between `-n - 1` and `n - 1`, for `n` whole blocks. */
  lemma OffsetBounds(carrier: Bytes, offset: int)
    requires TurnAt(carrier, offset).next.Some?
    ensures -|carrier| - BLOCK_BYTES < offset <= |carrier| - BLOCK_BYTES
  {
    hide FieldAt, PathAt, ParseSize, Stride;
  }

  lemma {:induction false} OffsetIsBlock(carrier: Bytes, k: nat)
    requires OffsetAt(carrier, k).Some?
    ensures OffsetAt(carrier, k).value % BLOCK_BYTES == 0
  {
    hide FieldAt, PathAt, ParseSize, Sub, AllZero, DirectoryAt, BlocksFor;
    if k > 0 {
      OffsetIsBlock(carrier, k - 1);
    }
  }

  ghost predicate DistinctInts(s: seq<int>) {
    forall i, j :: 0 <= i < j < |s| ==> s[i] != s[j]
  }

  /** No more distinct numbers than places for them. */
  lemma {:induction false} Pigeonhole(s: seq<int>, low: int, high: int)
    requires DistinctInts(s) && low <= high && forall i :: 0 <= i < |s| ==> low <= s[i] < high
    ensures |s| <= high - low
    decreases high - low
  {
    if s != [] {
      if top :| 0 <= top < |s| && s[top] == high - 1 {
        Pigeonhole(s[..top] + s[top + 1..], low, high - 1);
      } else {
        assert low <= s[0] < high && s[0] != high - 1;
        Pigeonhole(s, low, high - 1);
      }
    }
  }

  /** The turns the walk can take without coming back to an offset. */
  function TurnBound(carrier: Bytes): nat {
    2 * (|carrier| / BLOCK_BYTES) + 2
  }

  /** Without a revisit the walk is over within the bound. */
  lemma EndsWithinBound(carrier: Bytes)
    requires NeverRevisits(carrier)
    ensures OffsetAt(carrier, TurnBound(carrier)).None?
  {
    hide TurnAt, OffsetAt;
    var n := TurnBound(carrier);
    if OffsetAt(carrier, n).Some? {
      var blocks := |carrier| / BLOCK_BYTES;
      forall k: nat | k < n ensures OffsetAt(carrier, k).Some? {
        if OffsetAt(carrier, k).None? {
          NoneStays(carrier, k, n);
        }
      }
      var s := seq(n, k requires 0 <= k < n => OffsetAt(carrier, k).value / BLOCK_BYTES);
      forall k: nat | k < n ensures -blocks - 1 <= s[k] < blocks && s[k] * BLOCK_BYTES == OffsetAt(carrier, k).value {
        BlockNumber(carrier, k);
      }
      forall i, j | 0 <= i < j < n ensures s[i] != s[j] {
        assert !SameOffset(carrier, i, j);
      }
      Pigeonhole(s, -blocks - 1, blocks);
    }
  }

  lemma BlockNumber(carrier: Bytes, k: nat)
    requires OffsetAt(carrier, k).Some? && OffsetAt(carrier, k + 1).Some?
    ensures var b := OffsetAt(carrier, k).value / BLOCK_BYTES;
            -(|carrier| / BLOCK_BYTES) - 1 <= b < |carrier| / BLOCK_BYTES && b * BLOCK_BYTES == OffsetAt(carrier, k).value
  {
    hide TurnAt;
    OffsetIsBlock(carrier, k);
    OffsetBounds(carrier, OffsetAt(carrier, k).value);
  }

  lemma {:induction false} EndBefore(carrier: Bytes, k: nat)
    requires OffsetAt(carrier, k).None?
    ensures Ends(carrier)
  {
    hide TurnAt;
    if OffsetAt(carrier, k - 1).None? {
      EndBefore(carrier, k - 1);
    } else {
      assert EndsAt(carrier, k - 1);
    }
  }

  /**
   The loop ends exactly when it never comes back to an offset, and that shows within two
   turns a block and two more.
   */
  lemma EndsExactly(carrier: Bytes)
    ensures Ends(carrier) <==> NeverRevisits(carrier)
    ensures Ends(carrier) <==> OffsetAt(carrier, TurnBound(carrier)).None?
  {
    hide TurnAt, OffsetAt, Ends, SameOffset;
    if NeverRevisits(carrier) {
      EndsWithinBound(carrier);
      EndBefore(carrier, TurnBound(carrier));
    } else {
      var i: nat, j: nat :| i < j && SameOffset(carrier, i, j);
      RevisitNeverEnds(carrier, i, j);
    }
    if OffsetAt(carrier, TurnBound(carrier)).None? {
      EndBefore(carrier, TurnBound(carrier));
    }
  }

  /** The size the header at an offset declares. */
  function SizeAt(carrier: Bytes, offset: int): Parsed {
    ParseSize(FieldAt(Sub(carrier, offset, offset + BLOCK_BYTES), 124, 12))
  }

  /** There is a header at this offset. */
  predicate HeaderAt(carrier: Bytes, offset: int) {
    offset + BLOCK_BYTES <= |carrier| && !AllZero(Sub(carrier, offset, offset + BLOCK_BYTES))
  }

  /** A header declaring from -512 down to -1023, once reached, is read for ever. */
  lemma StuckForEver(carrier: Bytes, k: nat)
    requires OffsetAt(carrier, k).Some? && HeaderAt(carrier, OffsetAt(carrier, k).value)
    requires var size := SizeAt(carrier, OffsetAt(carrier, k).value); size.Size? && -2 * BLOCK_BYTES < size.n <= -BLOCK_BYTES
    ensures !Ends(carrier)
  {
    hide FieldAt, PathAt, ParseSize, Sub, AllZero, DirectoryAt, OffsetAt, Ends;
    FoundNext(carrier, k);
    RevisitNeverEnds(carrier, k, k + 1);
  }

  /** A first header declaring from -1024 down to -1535 takes the loop just before the buffer, where it ends. */
  lemma BackBeforeTheBuffer(carrier: Bytes)
    requires HeaderAt(carrier, 0)
    requires var size := SizeAt(carrier, 0); size.Size? && -3 * BLOCK_BYTES < size.n <= -2 * BLOCK_BYTES
    ensures StepsBack(carrier, 0) && EndsAt(carrier, 1) && FilesOf(carrier).Err?
  {
    hide FieldAt, PathAt, ParseSize, DirectoryAt;
    assert TurnAt(carrier, 0).next == Some(-BLOCK_BYTES);
    assert Sub(carrier, -BLOCK_BYTES, 0) == [];
    assert TurnAt(carrier, -BLOCK_BYTES).next.None?;
    WalkStarts(carrier);
    FoundNext(carrier, 0);
    FoundNext(carrier, 1);
    ForwardExactly(carrier);
  }

  /** One header for `a` with this size field. */
  function Lone(size: Bytes): Bytes {
    HeaderBlock(Fields([0x61], [], size, false))
  }

  /** `-1000` and `-2000` in octal. */
  const MINUS_512: Bytes := [0x2D, 0x31, 0x30, 0x30, 0x30]
  const MINUS_1024: Bytes := [0x2D, 0x32, 0x30, 0x30, 0x30]

  lemma LoneHeader(size: Bytes)
    requires |size| <= 12 && forall i :: 0 <= i < |size| ==> 0 < size[i] < 0x80
    ensures HeaderAt(Lone(size), 0) && SizeAt(Lone(size), 0) == ParseSize(size)
  {
    hide ParseSize, UpToNul, DecodeLossy, AllZero, HeaderBlock;
    var f := Fields([0x61], [], size, false);
    HeaderReads(f);
    SubInside(Lone(size), 0, BLOCK_BYTES);
    assert Lone(size)[0..BLOCK_BYTES] == Lone(size);
    UpToNulLength(size);
    LossyAlone(size);
    assert DecodeLossy(size) == size;
  }

  lemma SizesParse()
    ensures ParseSize(MINUS_512) == Size(-512) && ParseSize(MINUS_1024) == Size(-1024)
  {
    FourDigits(MINUS_512);
    FourDigits(MINUS_1024);
  }

  lemma FourDigits(field: Bytes)
    requires |field| == 5 && field[0] == 0x2D && forall i :: 1 <= i < 5 ==> IsOctalDigit(field[i])
    ensures ParseSize(field) ==
            Size(-(512 * (field[1] as int - 0x30) + 64 * (field[2] as int - 0x30) + 8 * (field[3] as int - 0x30) + (field[4] as int - 0x30)))
  {
    var body: Text := field[1..];
    WholeRun(body, []);
    assert body + [] == body && body[..4] == body;
    assert body[..3][..2] == body[..2] && body[..2][..1] == body[..1] && body[..1][..0] == [];
    assert OctalValue(body[..1]) == field[1] as int - 0x30;
    assert OctalValue(body[..2]) == 8 * OctalValue(body[..1]) + (field[2] as int - 0x30);
    assert OctalValue(body[..3]) == 8 * OctalValue(body[..2]) + (field[3] as int - 0x30);
    assert OctalValue(body) == 8 * OctalValue(body[..3]) + (field[4] as int - 0x30);
  }

  /** One header on which the loop never ends, and one that steps back and ends all the same. */
  lemma BackwardHeaders()
    ensures !Ends(Lone(MINUS_512))
    ensures StepsBack(Lone(MINUS_1024), 0) && Ends(Lone(MINUS_1024))
  {
    hide ParseSize, HeaderAt, SizeAt, Lone, StepsBack;
    SizesParse();
    LoneHeader(MINUS_512);
    LoneHeader(MINUS_1024);
    WalkStarts(Lone(MINUS_512));
    StuckForEver(Lone(MINUS_512), 0);
    BackBeforeTheBuffer(Lone(MINUS_1024));
    assert EndsAt(Lone(MINUS_1024), 1);
  }
}
