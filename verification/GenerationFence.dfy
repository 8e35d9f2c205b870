/**
 The activation fence: the one input every activation is compared against.
 */
module GenerationFence {
  import opened Wrappers
  import opened Utf16

  /** `gala:expect-nothing-served` */
  const EXPECT_NOTHING_SERVED: Text := [0x67, 0x61, 0x6C, 0x61, 0x3A, 0x65, 0x78, 0x70, 0x65, 0x63, 0x74, 0x2D, 0x6E, 0x6F, 0x74, 0x68, 0x69, 0x6E, 0x67, 0x2D, 0x73, 0x65, 0x72, 0x76, 0x65, 0x64]

  datatype Fence = ExpectsNothing | Expects(generationId: Text)

  predicate IsLowerHex(c: CodeUnit) {
    0x30 <= c <= 0x39 || 0x61 <= c <= 0x66
  }

  /** A lowercase UUIDv7. */
  predicate IsGenerationId(t: Text) {
    |t| == 36
    && t[8] == 0x2D && t[13] == 0x2D && t[18] == 0x2D && t[23] == 0x2D
    && t[14] == 0x37
    && (t[19] == 0x38 || t[19] == 0x39 || t[19] == 0x61 || t[19] == 0x62)
    && forall i :: 0 <= i < 36 && i != 8 && i != 13 && i != 18 && i != 23 ==> IsLowerHex(t[i])
  }

  /** `requireGenerationFence`; an absent or malformed value is refused, never read as "no fence". */
  function RequireGenerationFence(value: Option<Text>): Option<Fence> {
    if value == Some(EXPECT_NOTHING_SERVED) then Some(ExpectsNothing)
    else if value.Some? && IsGenerationId(value.value) then Some(Expects(value.value))
    else None
  }

  predicate FenceDisagrees(fence: Fence, observed: Option<Text>) {
    match fence
    case ExpectsNothing => observed.Some?
    case Expects(id) => observed != Some(id)
  }

  function FenceFor(observed: Option<Text>): Text {
    match observed
    case None => EXPECT_NOTHING_SERVED
    case Some(id) => id
  }

  /** The fence built for an observation agrees with that observation and with no other. */
  lemma FenceForPins(observed: Option<Text>, later: Option<Text>)
    requires observed.Some? ==> IsGenerationId(observed.value)
    ensures RequireGenerationFence(Some(FenceFor(observed))).Some?
    ensures FenceDisagrees(RequireGenerationFence(Some(FenceFor(observed))).value, later) <==> later != observed
  {
    assert |EXPECT_NOTHING_SERVED| == 26;
  }

  /** No accepted fence value is unfenced: each agrees with exactly one observation. */
  lemma EveryFenceFences(value: Option<Text>, a: Option<Text>, b: Option<Text>)
    requires RequireGenerationFence(value).Some?
    requires !FenceDisagrees(RequireGenerationFence(value).value, a)
    ensures FenceDisagrees(RequireGenerationFence(value).value, b) <==> a != b
    ensures value == Some(FenceFor(a))
  {
  }

  /** A value the fence input may take. */
  predicate FenceAccepted(value: Option<Text>) {
    value == Some(EXPECT_NOTHING_SERVED) || (value.Some? && IsGenerationId(value.value))
  }

  /** The value says that this is what is served. */
  predicate FenceNames(value: Option<Text>, observed: Option<Text>) {
    value == Some(FenceFor(observed)) && (observed.Some? ==> IsGenerationId(observed.value))
  }

  /** A fence is read exactly when it is accepted, and agrees with what its value names. */
  lemma FenceReads(value: Option<Text>, observed: Option<Text>)
    ensures RequireGenerationFence(value).Some? <==> FenceAccepted(value)
    ensures RequireGenerationFence(value).Some? ==>
              (FenceDisagrees(RequireGenerationFence(value).value, observed) <==> !FenceNames(value, observed))
    ensures FenceNames(value, observed) ==> FenceAccepted(value)
  {
    assert |EXPECT_NOTHING_SERVED| == 26;
  }
}
