/**
 One POSIX ustar header block (section 10.1.1 of IEEE Std 1003.1-1988): the path split,
 the octal numbers, the fields written in place into a 512-byte buffer, the checksum.
 The path split measures UTF-8 bytes; a field is written one byte a code unit.
 */
module Ustar {
  import opened Wrappers
  import opened Utf16
  import opened Utf8

  const BLOCK_BYTES := 512
  const NAME_FIELD_BYTES := 100
  const PREFIX_FIELD_BYTES := 155
  const SLASH: CodeUnit := 0x2F
  const DOT: CodeUnit := 0x2E
  const BACKSLASH: CodeUnit := 0x5C

  const FILE_MODE: Bytes := [0x30, 0x30, 0x30, 0x30, 0x36, 0x34, 0x34]
  const DIRECTORY_MODE: Bytes := [0x30, 0x30, 0x30, 0x30, 0x37, 0x35, 0x35]
  const NO_OWNER_ID: Bytes := [0x30, 0x30, 0x30, 0x30, 0x30, 0x30, 0x30]
  const EPOCH: Bytes := [0x30, 0x30, 0x30, 0x30, 0x30, 0x30, 0x30, 0x30, 0x30, 0x30, 0x30]
  const OWNER_NAME: Bytes := [0x72, 0x6F, 0x6F, 0x74]
  const USTAR_MAGIC: Bytes := [0x75, 0x73, 0x74, 0x61, 0x72, 0x00, 0x30, 0x30]

  datatype CarrierError = PathRefused | PathUnrepresentable | FieldOverflow | GzipRefused | SteppedBack

  /** `Buffer.from(value, 'ascii')`. */
  function AsciiBytes(t: Text): (b: Bytes)
    ensures |b| == |t| && forall i :: 0 <= i < |t| ==> b[i] == t[i] % 256
  {
    seq(|t|, i requires 0 <= i < |t| => t[i] % 256)
  }

  function Zeros(n: nat): (b: Bytes)
    ensures |b| == n && forall i :: 0 <= i < n ==> b[i] == 0
  {
    seq(n, _ => 0)
  }

  // ---- Paths ----

  /** `requireContainedPath`: the member extracts inside the carrier root. */
  predicate Contained(path: Text) {
    path != []
    && path[0] != SLASH
    && BACKSLASH !in path
    && 0 !in path
    && forall i :: 0 <= i < |Split(path, SLASH)| ==> ProperSegment(Split(path, SLASH)[i])
  }

  predicate ProperSegment(segment: Text) {
    segment != [] && segment != [DOT] && segment != [DOT, DOT]
  }

  /** The cut at the slash at `i` fits both fields. */
  predicate CutFits(path: Text, i: nat)
    requires i < |path|
  {
    path[i] == SLASH && |Encode(path[..i])| <= PREFIX_FIELD_BYTES && |Encode(path[i + 1..])| <= NAME_FIELD_BYTES
  }

  /** The first slash from `i` on whose cut fits. */
  function FirstCut(path: Text, i: nat): (cut: Option<nat>)
    requires i <= |path|
    ensures cut.Some? ==> i <= cut.value < |path| && CutFits(path, cut.value)
    ensures cut.None? ==> forall j :: i <= j < |path| ==> !CutFits(path, j)
    decreases |path| - i
  {
    if i == |path| then None
    else if CutFits(path, i) then Some(i)
    else FirstCut(path, i + 1)
  }

  datatype UstarPath = UstarPath(name: Text, prefix: Text)

  /** `splitUstarPath` as a value. */
  function SplitPath(path: Text): Option<UstarPath> {
    if |Encode(path)| <= NAME_FIELD_BYTES then Some(UstarPath(path, []))
    else
      var cut :- FirstCut(path, 0);
      Some(UstarPath(path[cut + 1..], path[..cut]))
  }

  /** `splitUstarPath`: try every cut between segments, shortest prefix first. */
  method SplitUstarPath(path: Text) returns (r: Option<UstarPath>)
    ensures r == SplitPath(path)
  {
    if |Encode(path)| <= NAME_FIELD_BYTES {
      return Some(UstarPath(path, []));
    }
    var cut := 0;
    while cut < |path|
      invariant cut <= |path|
      invariant FirstCut(path, 0) == FirstCut(path, cut)
    {
      if CutFits(path, cut) {
        return Some(UstarPath(path[cut + 1..], path[..cut]));
      }
      cut := cut + 1;
    }
    r := None;
  }

  /** A path the two fields can hold. */
  predicate Representable(path: Text) {
    |Encode(path)| <= NAME_FIELD_BYTES || exists i :: 0 <= i < |path| && CutFits(path, i)
  }

  lemma SplitPathMeans(path: Text)
    ensures SplitPath(path).Some? <==> Representable(path)
    ensures SplitPath(path).Some? ==>
              var p := SplitPath(path).value;
              |p.name| <= NAME_FIELD_BYTES && |p.prefix| <= PREFIX_FIELD_BYTES
              && (|Encode(path)| <= NAME_FIELD_BYTES ==> p.prefix == [])
              && path == if |Encode(path)| <= NAME_FIELD_BYTES then p.name else p.prefix + [SLASH] + p.name
  {
    hide Encode;
    EncodeLength(path);
    if |Encode(path)| > NAME_FIELD_BYTES && SplitPath(path).Some? {
      var cut := FirstCut(path, 0).value;
      EncodeLength(path[..cut]);
      EncodeLength(path[cut + 1..]);
      assert path == path[..cut] + [path[cut]] + path[cut + 1..];
    }
  }

  // ---- Octal numbers ----

  function Octal(n: nat): Bytes {
    if n < 8 then [0x30 + n] else Octal(n / 8) + [0x30 + n % 8]
  }

  predicate IsOctalDigit(u: CodeUnit) {
    0x30 <= u < 0x38
  }

  function Power8(k: nat): nat {
    if k == 0 then 1 else 8 * Power8(k - 1)
  }

  /** `padStart(width, '0')`. */
  function PadOctal(n: nat, width: nat): (b: Bytes)
    ensures |b| >= width
  {
    var digits := Octal(n);
    seq(if |digits| < width then width - |digits| else 0, _ => 0x30) + digits
  }

  function OctalRun(b: Text): (n: nat)
    ensures n <= |b|
  {
    if b != [] && IsOctalDigit(b[0]) then 1 + OctalRun(b[1..]) else 0
  }

  /** The value of a run of octal digits. */
  function OctalValue(digits: Text): nat
    requires forall i :: 0 <= i < |digits| ==> IsOctalDigit(digits[i])
  {
    if digits == [] then 0
    else
      var last := digits[|digits| - 1];
      assert IsOctalDigit(last);
      8 * OctalValue(digits[..|digits| - 1]) + (last as int - 0x30)
  }

  lemma {:induction false} OctalDigits(n: nat)
    ensures Octal(n) != [] && forall i :: 0 <= i < |Octal(n)| ==> IsOctalDigit(Octal(n)[i])
    ensures OctalValue(Octal(n)) == n
  {
    if n >= 8 {
      OctalDigits(n / 8);
      assert Octal(n)[..|Octal(n)| - 1] == Octal(n / 8);
    }
  }

  lemma {:induction false} OctalWidth(n: nat, k: nat)
    requires k > 0
    ensures |Octal(n)| <= k <==> n < Power8(k)
  {
    if n < 8 {
      if k > 1 {
        PowerAtLeast(k);
      }
    } else if k == 1 {
      OctalDigits(n / 8);
    } else {
      OctalWidth(n / 8, k - 1);
    }
  }

  lemma {:induction false} PowerAtLeast(k: nat)
    requires k > 0
    ensures Power8(k) >= 8
  {
    if k > 1 {
      PowerAtLeast(k - 1);
    }
  }

  lemma {:induction false} LeadingZeros(zeros: nat, digits: Text)
    requires forall i :: 0 <= i < |digits| ==> IsOctalDigit(digits[i])
    ensures var b: Text := seq(zeros, _ => 0x30) + digits;
            (forall i :: 0 <= i < |b| ==> IsOctalDigit(b[i])) && OctalValue(b) == OctalValue(digits)
    decreases |digits|, zeros
  {
    var b: Text := seq(zeros, _ => 0x30) + digits;
    if digits != [] {
      LeadingZeros(zeros, digits[..|digits| - 1]);
      assert b[..|b| - 1] == seq(zeros, _ => 0x30) + digits[..|digits| - 1];
    } else if zeros > 0 {
      LeadingZeros(zeros - 1, digits);
      assert b[..|b| - 1] == seq(zeros - 1, _ => 0x30) + digits;
    }
  }

  lemma PaddedOctal(n: nat, width: nat)
    ensures forall i :: 0 <= i < |PadOctal(n, width)| ==> IsOctalDigit(PadOctal(n, width)[i])
    ensures OctalValue(PadOctal(n, width)) == n
    ensures width > 0 && n < Power8(width) ==> |PadOctal(n, width)| == width
  {
    OctalDigits(n);
    LeadingZeros(if |Octal(n)| < width then width - |Octal(n)| else 0, Octal(n));
    if width > 0 {
      OctalWidth(n, width);
    }
  }

  lemma {:induction false} WholeRun(digits: Text, rest: Text)
    requires forall i :: 0 <= i < |digits| ==> IsOctalDigit(digits[i])
    requires rest != [] ==> !IsOctalDigit(rest[0])
    ensures OctalRun(digits + rest) == |digits|
  {
    if digits == [] {
      assert digits + rest == rest;
    } else {
      WholeRun(digits[1..], rest);
      assert (digits + rest)[1..] == digits[1..] + rest;
    }
  }

  /** What `trim` takes off, `parseInt` skips: white space and line ends. */
  predicate IsTrimmed(u: CodeUnit) {
    0x09 <= u <= 0x0D || u == 0x20 || u == 0xA0 || u == 0x1680 || 0x2000 <= u <= 0x200A
    || u == 0x2028 || u == 0x2029 || u == 0x202F || u == 0x205F || u == 0x3000 || u == 0xFEFF
  }

  function TrimStart(t: Text): Text {
    if t != [] && IsTrimmed(t[0]) then TrimStart(t[1..]) else t
  }

  /** What `Number.parseInt(text.trim() || '0', 8)` gives. */
  datatype Parsed = Size(n: int) | NotANumber

  lemma {:induction false} RunIsOctal(b: Text)
    ensures forall i :: 0 <= i < OctalRun(b) ==> IsOctalDigit(b[i])
  {
    if b != [] && IsOctalDigit(b[0]) {
      RunIsOctal(b[1..]);
    }
  }

  function ParseSize(field: Text): Parsed {
    ParseTrimmed(TrimStart(field))
  }

  function ParseTrimmed(text: Text): Parsed {
    if text == [] then Size(0)
    else
      var body := if text[0] == 0x2B || text[0] == 0x2D then text[1..] else text;
      var n := OctalRun(body);
      RunIsOctal(body);
      if n == 0 then NotANumber
      else if text[0] == 0x2D then Size(0 - OctalValue(body[..n]))
      else Size(OctalValue(body[..n]))
  }

  lemma {:induction false} SpaceTrimmed(space: Text, t: Text)
    requires (forall i :: 0 <= i < |space| ==> IsTrimmed(space[i])) && (t != [] ==> !IsTrimmed(t[0]))
    ensures TrimStart(space + t) == t
  {
    if space == [] {
      assert space + t == t;
    } else {
      SpaceTrimmed(space[1..], t);
      assert (space + t)[1..] == space[1..] + t;
    }
  }

  /**
   A size field reads as the octal number its digits spell, past white space and under its
   sign, whatever follows; as zero when it is blank; and as no number otherwise.
   */
  lemma SizeReads(space: Text, sign: Text, digits: Text, rest: Text)
    requires forall i :: 0 <= i < |space| ==> IsTrimmed(space[i])
    requires sign in {[], [0x2B], [0x2D]}
    requires forall i :: 0 <= i < |digits| ==> IsOctalDigit(digits[i])
    requires rest != [] ==> !IsOctalDigit(rest[0])
    requires sign == [] && digits == [] && rest != [] ==> !IsTrimmed(rest[0]) && rest[0] != 0x2B && rest[0] != 0x2D
    ensures ParseSize(space + (sign + (digits + rest))) ==
            if digits != [] then Size(if sign == [0x2D] then 0 - OctalValue(digits) else OctalValue(digits))
            else if sign == [] && rest == [] then Size(0) else NotANumber
  {
    hide ParseTrimmed, TrimStart, OctalValue, IsTrimmed;
    var t := sign + (digits + rest);
    DigitsNotTrimmed(sign, digits, rest);
    SpaceTrimmed(space, t);
    TrimmedReads(sign, digits, rest);
  }

  lemma DigitsNotTrimmed(sign: Text, digits: Text, rest: Text)
    requires sign in {[], [0x2B], [0x2D]}
    requires forall i :: 0 <= i < |digits| ==> IsOctalDigit(digits[i])
    requires sign == [] && digits == [] && rest != [] ==> !IsTrimmed(rest[0])
    ensures sign + (digits + rest) != [] ==> !IsTrimmed((sign + (digits + rest))[0])
  {
    if sign == [] {
      assert sign + (digits + rest) == digits + rest;
      if digits == [] {
        assert digits + rest == rest;
      }
    }
  }

  lemma TrimmedReads(sign: Text, digits: Text, rest: Text)
    requires sign in {[], [0x2B], [0x2D]}
    requires forall i :: 0 <= i < |digits| ==> IsOctalDigit(digits[i])
    requires rest != [] ==> !IsOctalDigit(rest[0])
    requires sign == [] && digits == [] && rest != [] ==> rest[0] != 0x2B && rest[0] != 0x2D
    ensures ParseTrimmed(sign + (digits + rest)) ==
            if digits != [] then Size(if sign == [0x2D] then 0 - OctalValue(digits) else OctalValue(digits))
            else if sign == [] && rest == [] then Size(0) else NotANumber
  {
    hide OctalValue, OctalRun;
    var body := digits + rest;
    var t := sign + body;
    WholeRun(digits, rest);
    assert body[..|digits|] == digits;
    if sign == [] {
      assert t == body;
      if digits == [] {
        assert body == rest;
      }
    } else {
      Uncons(sign[0], body);
      assert t == [sign[0]] + body;
    }
  }

  lemma ParsePadded(n: nat, width: nat)
    requires width > 0
    ensures ParseSize(PadOctal(n, width)) == Size(n)
  {
    hide OctalValue, PadOctal, OctalRun;
    var b: Text := PadOctal(n, width);
    PaddedOctal(n, width);
    WholeRun(b, []);
    assert b + [] == b && b[..|b|] == b;
    assert IsOctalDigit(b[0]);
  }

  // ---- The header block ----

  /** The values of one header's variable fields. */
  datatype Fields = Fields(name: Bytes, prefix: Bytes, size: Bytes, isDirectory: bool)

  predicate FieldsFit(f: Fields) {
    |f.name| <= NAME_FIELD_BYTES && |f.prefix| <= PREFIX_FIELD_BYTES && |f.size| <= 12
  }

  function FieldByte(value: Bytes, offset: nat, i: int): Byte {
    if offset <= i < offset + |value| then value[i - offset] else 0
  }

  /** The header before its checksum is stored: the checksum field holds eight spaces. */
  function BlankByte(f: Fields, i: nat): Byte {
    if i < 100 then FieldByte(f.name, 0, i)
    else if i < 108 then FieldByte(if f.isDirectory then DIRECTORY_MODE else FILE_MODE, 100, i)
    else if i < 116 then FieldByte(NO_OWNER_ID, 108, i)
    else if i < 124 then FieldByte(NO_OWNER_ID, 116, i)
    else if i < 136 then FieldByte(f.size, 124, i)
    else if i < 148 then FieldByte(EPOCH, 136, i)
    else if i < 156 then 0x20
    else if i == 156 then if f.isDirectory then 0x35 else 0x30
    else if i < 257 then 0
    else if i < 265 then FieldByte(USTAR_MAGIC, 257, i)
    else if i < 297 then FieldByte(OWNER_NAME, 265, i)
    else if i < 329 then FieldByte(OWNER_NAME, 297, i)
    else if i < 345 then 0
    else if i < 500 then FieldByte(f.prefix, 345, i)
    else 0
  }

  function Sum(b: Bytes): nat {
    if b == [] then 0 else Sum(b[..|b| - 1]) + b[|b| - 1]
  }

  function BlankBlock(f: Fields): (b: Bytes)
    ensures |b| == BLOCK_BYTES && forall i :: 0 <= i < BLOCK_BYTES ==> b[i] == BlankByte(f, i)
  {
    seq(BLOCK_BYTES, i requires 0 <= i < BLOCK_BYTES => BlankByte(f, i))
  }

  /** Six octal digits, a NUL and a space. */
  function ChecksumField(f: Fields): Bytes {
    PadOctal(Sum(BlankBlock(f)), 6) + [0x00, 0x20]
  }

  function HeaderBlock(f: Fields): (b: Bytes)
    ensures |b| == BLOCK_BYTES
    ensures forall i :: 0 <= i < BLOCK_BYTES ==>
              b[i] == if 148 <= i < 156 then FieldByte(ChecksumField(f), 148, i) else BlankByte(f, i)
  {
    seq(BLOCK_BYTES, i requires 0 <= i < BLOCK_BYTES =>
      if 148 <= i < 156 then FieldByte(ChecksumField(f), 148, i) else BlankByte(f, i))
  }

  lemma {:induction false} SumBound(b: Bytes)
    ensures Sum(b) <= 255 * |b|
  {
    if b != [] {
      SumBound(b[..|b| - 1]);
    }
  }

  lemma ChecksumFits(f: Fields)
    ensures Sum(BlankBlock(f)) < Power8(6)
    ensures |ChecksumField(f)| == 8
  {
    SumBound(BlankBlock(f));
    assert Power8(6) == 262144 by {
      assert Power8(2) == 64;
      assert Power8(4) == 4096;
    }
    PaddedOctal(Sum(BlankBlock(f)), 6);
  }

  /** `writeField`: refuse an overlong value, otherwise copy it into the block. */
  method WriteField(block: array<Byte>, offset: nat, length: nat, value: Bytes) returns (ok: bool)
    requires offset + length <= block.Length
    modifies block
    ensures ok <==> |value| <= length
    ensures forall i :: 0 <= i < block.Length ==>
              block[i] == if ok && offset <= i < offset + |value| then value[i - offset] else old(block[i])
  {
    if |value| > length {
      return false;
    }
    forall i | 0 <= i < |value| {
      block[offset + i] := value[i];
    }
    ok := true;
  }

  /** The variable fields of one entry, or why there are none. */
  function EntryFields(path: Text, byteLength: nat, isDirectory: bool): Result<Fields, CarrierError>
    requires isDirectory ==> path != []
  {
    if !Contained(if isDirectory then path[..|path| - 1] else path) then Err(PathRefused)
    else
      match SplitPath(path)
      case None => Err(PathUnrepresentable)
      case Some(p) =>
        var size := PadOctal(byteLength, 11);
        if |size| > 12 then Err(FieldOverflow)
        else Ok(Fields(AsciiBytes(p.name), AsciiBytes(p.prefix), size, isDirectory))
  }

  lemma EntryFieldsFit(path: Text, byteLength: nat, isDirectory: bool)
    requires isDirectory ==> path != []
    requires EntryFields(path, byteLength, isDirectory).Ok?
    ensures FieldsFit(EntryFields(path, byteLength, isDirectory).value)
  {
    SplitPathMeans(path);
  }

  /** `buildHeaderBlock`: the fields are written in place, then summed, then the sum is written. */
  method BuildHeaderBlock(path: Text, byteLength: nat, isDirectory: bool)
    returns (r: Result<Bytes, CarrierError>)
    requires isDirectory ==> path != []
    ensures match EntryFields(path, byteLength, isDirectory) {
              case Ok(f) => r == Ok(HeaderBlock(f))
              case Err(e) => r == Err(e)
            }
  {
    hide Contained, SplitPath, PadOctal, HeaderBlock, BlankByte, Encode;
    if !Contained(if isDirectory then path[..|path| - 1] else path) {
      return Err(PathRefused);
    }
    var cut := SplitUstarPath(path);
    if cut.None? {
      return Err(PathUnrepresentable);
    }
    SplitPathMeans(path);
    var name, prefix := AsciiBytes(cut.value.name), AsciiBytes(cut.value.prefix);
    var size := PadOctal(byteLength, 11);
    var block := new Byte[BLOCK_BYTES](_ => 0);
    ghost var f := Fields(name, prefix, size, isDirectory);
    var ok := BeginHeaderBlock(block, f, name, size, isDirectory);
    if !ok {
      return Err(FieldOverflow);
    }
    FinishHeaderBlock(block, f, prefix, isDirectory);
    r := Ok(block[..]);
  }

  /** The first half of the header; refuses a size too wide for its field. */
  method BeginHeaderBlock(block: array<Byte>, ghost f: Fields, name: Bytes, size: Bytes, isDirectory: bool)
    returns (ok: bool)
    requires block.Length == BLOCK_BYTES
    requires name == f.name && size == f.size && isDirectory == f.isDirectory && |name| <= NAME_FIELD_BYTES
    requires forall i :: 0 <= i < BLOCK_BYTES ==> block[i] == 0
    modifies block
    ensures ok <==> |size| <= 12
    ensures ok ==> forall i :: 0 <= i < 148 ==> block[i] == BlankByte(f, i)
    ensures forall i :: 148 <= i < BLOCK_BYTES ==> block[i] == 0
  {
    hide BlankByte;
    var mode := if isDirectory then DIRECTORY_MODE else FILE_MODE;
    ok := WriteField(block, 0, NAME_FIELD_BYTES, name);
    assert forall i :: 0 <= i < BLOCK_BYTES ==> block[i] == FieldByte(name, 0, i);
    ok := WriteField(block, 100, 8, mode);
    ok := WriteField(block, 108, 8, NO_OWNER_ID);
    ok := WriteField(block, 116, 8, NO_OWNER_ID);
    assert forall i :: 0 <= i < 100 ==> block[i] == FieldByte(name, 0, i);
    assert forall i :: 100 <= i < 108 ==> block[i] == FieldByte(mode, 100, i);
    assert forall i :: 108 <= i < 116 ==> block[i] == FieldByte(NO_OWNER_ID, 108, i);
    assert forall i :: 116 <= i < 124 ==> block[i] == FieldByte(NO_OWNER_ID, 116, i);
    assert forall i :: 124 <= i < BLOCK_BYTES ==> block[i] == 0;
    ok := WriteField(block, 124, 12, size);
    if ok {
      var epoch := WriteField(block, 136, 12, EPOCH);
      assert forall i :: 124 <= i < 136 ==> block[i] == FieldByte(size, 124, i);
      assert forall i :: 136 <= i < 148 ==> block[i] == FieldByte(EPOCH, 136, i);
      forall i | 0 <= i < 148 ensures block[i] == BlankByte(f, i) {
        BlankByteLow(f, i);
      }
    }
  }

  lemma BlankByteLow(f: Fields, i: nat)
    requires i < 148
    ensures BlankByte(f, i) ==
            if i < 100 then FieldByte(f.name, 0, i)
            else if i < 108 then FieldByte(if f.isDirectory then DIRECTORY_MODE else FILE_MODE, 100, i)
            else if i < 116 then FieldByte(NO_OWNER_ID, 108, i)
            else if i < 124 then FieldByte(NO_OWNER_ID, 116, i)
            else if i < 136 then FieldByte(f.size, 124, i)
            else FieldByte(EPOCH, 136, i)
  {
  }

  /** The second half of the header, then its checksum. */
  method FinishHeaderBlock(block: array<Byte>, ghost f: Fields, prefix: Bytes, isDirectory: bool)
    requires block.Length == BLOCK_BYTES && FieldsFit(f)
    requires prefix == f.prefix && isDirectory == f.isDirectory
    requires forall i :: 0 <= i < 148 ==> block[i] == BlankByte(f, i)
    requires forall i :: 148 <= i < BLOCK_BYTES ==> block[i] == 0
    modifies block
    ensures block[..] == HeaderBlock(f)
  {
    hide HeaderBlock, ChecksumField;
    forall i | 148 <= i < 156 {
      block[i] := 0x20;
    }
    block[156] := if isDirectory then 0x35 else 0x30;
    var ok := WriteField(block, 257, 8, USTAR_MAGIC);
    ok := WriteField(block, 265, 32, OWNER_NAME);
    ok := WriteField(block, 297, 32, OWNER_NAME);
    ok := WriteField(block, 345, PREFIX_FIELD_BYTES, prefix);
    assert forall i :: 0 <= i < BLOCK_BYTES ==> block[i] == BlankByte(f, i);
    StoreChecksum(block, f);
  }

  /** Sum the block, then write the sum over the eight spaces. */
  method StoreChecksum(block: array<Byte>, ghost f: Fields)
    requires block.Length == BLOCK_BYTES
    requires forall i :: 0 <= i < BLOCK_BYTES ==> block[i] == BlankByte(f, i)
    modifies block
    ensures block[..] == HeaderBlock(f)
  {
    hide BlankByte;
    assert block[..] == BlankBlock(f);
    var checksum: nat := 0;
    for i := 0 to BLOCK_BYTES
      invariant checksum == Sum(block[..i])
    {
      assert block[..i + 1][..i] == block[..i];
      checksum := checksum + block[i];
    }
    assert block[..BLOCK_BYTES] == block[..];
    ChecksumFits(f);
    var ok := WriteField(block, 148, 8, PadOctal(checksum, 6) + [0x00, 0x20]);
    assert block[..] == HeaderBlock(f);
  }

  // ---- Reading a header back ----

  /** The field up to its first NUL. */
  function ReadField(block: Bytes, offset: nat, length: nat): Bytes
    requires offset + length <= |block|
  {
    UpToNul(block[offset..offset + length])
  }

  function UpToNul(b: Bytes): Bytes {
    if b == [] || b[0] == 0 then [] else [b[0]] + UpToNul(b[1..])
  }

  /** Padding with NULs does not show. */
  lemma {:induction false} UpToNulPadded(value: Bytes, b: Bytes)
    requires |value| <= |b|
    requires forall i :: 0 <= i < |b| ==> b[i] == if i < |value| then value[i] else 0
    ensures UpToNul(b) == UpToNul(value)
  {
    if value != [] {
      UpToNulPadded(value[1..], b[1..]);
      assert b[0] == value[0];
    }
  }

  lemma {:induction false} UpToNulLength(b: Bytes)
    ensures |UpToNul(b)| <= |b|
    ensures |UpToNul(b)| == |b| <==> 0 !in b
    ensures 0 !in b ==> UpToNul(b) == b
  {
    if b != [] {
      UpToNulLength(b[1..]);
      HeadAndTail(b);
    }
  }

  predicate AllZero(b: Bytes) {
    forall i :: 0 <= i < |b| ==> b[i] == 0
  }

  /** Every variable field of a written header reads back up to its first NUL, and no header is a zero block. */
  lemma HeaderReads(f: Fields)
    requires FieldsFit(f)
    ensures ReadField(HeaderBlock(f), 0, NAME_FIELD_BYTES) == UpToNul(f.name)
    ensures ReadField(HeaderBlock(f), 345, PREFIX_FIELD_BYTES) == UpToNul(f.prefix)
    ensures ReadField(HeaderBlock(f), 124, 12) == UpToNul(f.size)
    ensures HeaderBlock(f)[156] == if f.isDirectory then 0x35 else 0x30
    ensures !AllZero(HeaderBlock(f))
  {
    var h := HeaderBlock(f);
    UpToNulPadded(f.name, h[0..100]);
    UpToNulPadded(f.prefix, h[345..500]);
    UpToNulPadded(f.size, h[124..136]);
    assert h[100] == 0x30;
  }

  /** `0000644` and `0000755` under a NUL, three zero numbers, `ustar`, NUL, `00`, twice `root`, and NULs in between. */
  lemma FixedFields(f: Fields)
    requires FieldsFit(f)
    ensures var h := HeaderBlock(f);
            && h[100..108] == [0x30, 0x30, 0x30, 0x30] + (if f.isDirectory then [0x37, 0x35, 0x35] else [0x36, 0x34, 0x34]) + [0x00]
            && h[108..116] == [0x30, 0x30, 0x30, 0x30, 0x30, 0x30, 0x30, 0x00]
            && h[116..124] == [0x30, 0x30, 0x30, 0x30, 0x30, 0x30, 0x30, 0x00]
            && h[136..148] == [0x30, 0x30, 0x30, 0x30, 0x30, 0x30, 0x30, 0x30, 0x30, 0x30, 0x30, 0x00]
            && h[156] == (if f.isDirectory then 0x35 else 0x30)
            && AllZero(h[157..257])
            && h[257..265] == [0x75, 0x73, 0x74, 0x61, 0x72, 0x00, 0x30, 0x30]
            && h[265..269] == [0x72, 0x6F, 0x6F, 0x74] && AllZero(h[269..297])
            && h[297..301] == [0x72, 0x6F, 0x6F, 0x74] && AllZero(h[301..345])
            && AllZero(h[500..])
  {
    var h := HeaderBlock(f);
    forall i | 157 <= i < 257 || 269 <= i < 297 || 301 <= i < 345 || 500 <= i < 512 ensures h[i] == 0 {
    }
  }

  /** The stored checksum is six octal digits spelling the sum of the header with spaces in their place. */
  lemma ChecksumVerifies(f: Fields)
    ensures var h := HeaderBlock(f);
            ParseSize(h[148..154]) == Size(Sum(h[..148] + [0x20, 0x20, 0x20, 0x20, 0x20, 0x20, 0x20, 0x20] + h[156..]))
            && h[154] == 0x00 && h[155] == 0x20
            && forall i :: 148 <= i < 154 ==> IsOctalDigit(h[i])
  {
    var h := HeaderBlock(f);
    ChecksumFits(f);
    var sum := Sum(BlankBlock(f));
    PaddedOctal(sum, 6);
    ParsePadded(sum, 6);
    assert h[148..154] == PadOctal(sum, 6);
    assert h[..148] + [0x20, 0x20, 0x20, 0x20, 0x20, 0x20, 0x20, 0x20] + h[156..] == BlankBlock(f);
    assert forall i :: 148 <= i < 154 ==> h[i] == h[148..154][i - 148];
  }
}
