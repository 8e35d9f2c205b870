/**
 Writing one object: a single put up to the part ceiling, above it a multipart upload cut
 into consecutive slices and torn down by one abort when anything after its creation fails.
 */
module Multipart {
  import opened Wrappers
  import opened Utf16
  import opened Utf8

  const MAXIMUM_SINGLE_PART_BYTES := 5242880

  /** The declared file-size limit of the adapter. */
  const MAXIMUM_FILE_BYTES := 5368709120

  datatype Part = Part(partNumber: nat, etag: Text)

  datatype Request =
    | PutWhole(body: Bytes)
    | CreateUpload
    | PutPart(partNumber: nat, uploadId: Text, body: Bytes)
    | CompleteUpload(uploadId: Text, parts: seq<Part>)
    | AbortUpload(uploadId: Text)

  datatype Failure = CallThrew | StatusUnexpected | CreateMalformed | PartMalformed

  /** An answer: the failure the call ends in, or what it carried. */
  datatype Reply = Failed(failure: Failure) | Answered(carried: Option<Text>)

  /** What the provider answers to each call; `parts` by part number. */
  datatype Provider = Provider(put: Reply, create: Reply, parts: nat -> Reply, complete: Reply)

  // ---- Slices ----

  function Slices(bytes: Bytes): (slices: seq<Bytes>)
    decreases |bytes|
  {
    if bytes == [] then []
    else if |bytes| <= MAXIMUM_SINGLE_PART_BYTES then [bytes]
    else [bytes[..MAXIMUM_SINGLE_PART_BYTES]] + Slices(bytes[MAXIMUM_SINGLE_PART_BYTES..])
  }

  function Joined(slices: seq<Bytes>): Bytes {
    if slices == [] then [] else slices[0] + Joined(slices[1..])
  }

  function PartCount(n: nat): nat {
    (n + MAXIMUM_SINGLE_PART_BYTES - 1) / MAXIMUM_SINGLE_PART_BYTES
  }

  /** The slices are consecutive, full but for the last, none empty, as many as the ceiling asks. */
  lemma {:induction false} SlicesCover(bytes: Bytes)
    ensures Joined(Slices(bytes)) == bytes
    ensures |Slices(bytes)| == PartCount(|bytes|)
    ensures forall i :: 0 <= i < |Slices(bytes)| - 1 ==> |Slices(bytes)[i]| == MAXIMUM_SINGLE_PART_BYTES
    ensures forall i :: 0 <= i < |Slices(bytes)| ==> 0 < |Slices(bytes)[i]| <= MAXIMUM_SINGLE_PART_BYTES
    decreases |bytes|
  {
    if |bytes| > MAXIMUM_SINGLE_PART_BYTES {
      var head, rest := bytes[..MAXIMUM_SINGLE_PART_BYTES], bytes[MAXIMUM_SINGLE_PART_BYTES..];
      SlicesCover(rest);
      Uncons(head, Slices(rest));
      assert head + rest == bytes;
    } else if bytes != [] {
      assert [bytes][1..] == [] && bytes + [] == bytes;
    }
  }

  /** A file of the declared maximum size takes exactly 1024 parts, a smaller one no more. */
  lemma PartsAtTheLimit(bytes: Bytes)
    requires |bytes| <= MAXIMUM_FILE_BYTES
    ensures |Slices(bytes)| <= 1024 && (|bytes| == MAXIMUM_FILE_BYTES ==> |Slices(bytes)| == 1024)
  {
    SlicesCover(bytes);
  }

  /** The part starting at an offset. */
  function PartFrom(bytes: Bytes, from: nat): Bytes
    requires from <= |bytes|
  {
    if from + MAXIMUM_SINGLE_PART_BYTES <= |bytes| then bytes[from..from + MAXIMUM_SINGLE_PART_BYTES] else bytes[from..]
  }

  lemma PartOfRest(bytes: Bytes, m: nat, from: nat)
    requires m + from <= |bytes|
    ensures PartFrom(bytes[m..], from) == PartFrom(bytes, m + from)
  {
  }

  lemma {:induction false} SliceAt(bytes: Bytes, k: nat)
    requires k < |Slices(bytes)|
    ensures k * MAXIMUM_SINGLE_PART_BYTES < |bytes|
    ensures Slices(bytes)[k] == PartFrom(bytes, k * MAXIMUM_SINGLE_PART_BYTES)
    decreases |bytes|
  {
    hide PartFrom;
    if k > 0 {
      var rest, inRest := bytes[MAXIMUM_SINGLE_PART_BYTES..], (k - 1) * MAXIMUM_SINGLE_PART_BYTES;
      assert Slices(bytes)[k] == Slices(rest)[k - 1];
      SliceAt(rest, k - 1);
      PartOfRest(bytes, MAXIMUM_SINGLE_PART_BYTES, inRest);
    } else {
      FirstPart(bytes);
    }
  }

  lemma FirstPart(bytes: Bytes)
    requires bytes != []
    ensures Slices(bytes) != [] && Slices(bytes)[0] == PartFrom(bytes, 0)
  {
  }

  // ---- What the provider assembles ----

  /** The bodies put under the listed part numbers, in the order of the list. */
  function Assembled(log: seq<Request>, parts: seq<Part>): Bytes {
    if parts == [] then [] else BodyOf(log, parts[0].partNumber) + Assembled(log, parts[1..])
  }

  /** The last body put under a part number. */
  function BodyOf(log: seq<Request>, partNumber: nat): Bytes {
    if log == [] then []
    else
      var last := log[|log| - 1];
      if last.PutPart? && last.partNumber == partNumber then last.body else BodyOf(log[..|log| - 1], partNumber)
  }

  // ---- The upload ----

  /** The part requests of an upload, from part `k + 1` up to but not including part `n + 1`. */
  function PartRequests(slices: seq<Bytes>, id: Text, n: nat): (r: seq<Request>)
    requires n <= |slices|
    ensures |r| == n && forall i :: 0 <= i < n ==> r[i] == PutPart(i + 1, id, slices[i])
  {
    seq(n, i requires 0 <= i < n => PutPart(i + 1, id, slices[i]))
  }

  /** How the call on one part ends: a part without an ETag is malformed. */
  function PartFailure(reply: Reply): Option<Failure> {
    match reply
    case Failed(failure) => Some(failure)
    case Answered(etag) => if etag.None? then Some(PartMalformed) else None
  }

  /** A thrown failure is kept; an answer without an ETag is malformed. */
  lemma PartFailureMeans(reply: Reply)
    ensures reply.Failed? ==> PartFailure(reply) == Some(reply.failure)
    ensures reply.Answered? ==> PartFailure(reply) == if reply.carried.None? then Some(PartMalformed) else None
  {
  }

  /** Part `i + 1` went through with this ETag. */
  ghost predicate PartThrough(provider: Provider, i: nat, part: Part) {
    var reply := provider.parts(i + 1);
    reply.Answered? && reply.carried.Some? && part == Part(i + 1, reply.carried.value)
  }

  /** The first `n` parts went through, with these ETags. */
  ghost predicate PartsThrough(provider: Provider, n: nat, parts: seq<Part>) {
    |parts| == n && forall i :: 0 <= i < n ==> PartThrough(provider, i, parts[i])
  }

  /**
   How an upload ends: refused before it has an identifier; aborted once, right after the
   first part that fails or the completion that fails, with that failure; or completed with
   every part, in order.
   */
  ghost predicate UploadEnds(bytes: Bytes, provider: Provider, failure: Option<Failure>, log: seq<Request>, parts: seq<Part>) {
    if provider.create.Failed? then failure == Some(provider.create.failure) && log == [CreateUpload]
    else if provider.create.carried.None? then failure == Some(CreateMalformed) && log == [CreateUpload]
    else
      var id, slices := provider.create.carried.value, Slices(bytes);
      |parts| <= |slices| && PartsThrough(provider, |parts|, parts)
      && if |parts| < |slices| then
           && failure == (match provider.parts(|parts| + 1)
                          case Failed(f) => Some(f)
                          case Answered(etag) => if etag.None? then Some(PartMalformed) else None)
           && failure.Some?
           && log == [CreateUpload] + PartRequests(slices, id, |parts| + 1) + [AbortUpload(id)]
         else if provider.complete.Failed? then
           failure == Some(provider.complete.failure)
           && log == [CreateUpload] + PartRequests(slices, id, |slices|) + [CompleteUpload(id, parts), AbortUpload(id)]
         else
           failure.None?
           && log == [CreateUpload] + PartRequests(slices, id, |slices|) + [CompleteUpload(id, parts)]
  }

  /**
   The upload puts every slice under its number and completes with the list in order, or it
   stops at the first call that fails and aborts that upload once, keeping the failure.
   */
  method UploadMultipart(bytes: Bytes, provider: Provider) returns (failure: Option<Failure>, log: seq<Request>, parts: seq<Part>)
    ensures UploadEnds(bytes, provider, failure, log, parts)
  {
    hide Slices, PartFailure, PartRequests, PartsThrough, UploadEnds;
    RefusedAtOnce(bytes, provider);
    log, parts, failure := [CreateUpload], [], None;
    if provider.create.Failed? {
      return Some(provider.create.failure), log, parts;
    }
    if provider.create.carried.None? {
      return Some(CreateMalformed), log, parts;
    }
    var uploadId := provider.create.carried.value;
    ghost var slices := Slices(bytes);
    var offset, partNumber := 0, 1;
    NothingPut(slices, uploadId, provider);
    MorePartsIff(bytes, 0);
    while offset < |bytes|
      invariant 1 <= partNumber <= |slices| + 1 && offset == (partNumber - 1) * MAXIMUM_SINGLE_PART_BYTES
      invariant offset < |bytes| <==> partNumber - 1 < |slices|
      invariant |parts| == partNumber - 1 && PartsThrough(provider, partNumber - 1, parts)
      invariant log == [CreateUpload] + PartRequests(slices, uploadId, partNumber - 1)
    {
      SliceAt(bytes, partNumber - 1);
      MorePartsIff(bytes, partNumber);
      var slice := if offset + MAXIMUM_SINGLE_PART_BYTES <= |bytes| then bytes[offset..offset + MAXIMUM_SINGLE_PART_BYTES] else bytes[offset..];
      OneMoreRequest(slices, uploadId, partNumber - 1);
      Regroup([CreateUpload], PartRequests(slices, uploadId, partNumber - 1), [PutPart(partNumber, uploadId, slice)]);
      log := log + [PutPart(partNumber, uploadId, slice)];
      var reply := provider.parts(partNumber);
      PartFailureMeans(reply);
      if PartFailure(reply).Some? {
        AbortedAt(bytes, provider, parts);
        failure, log := PartFailure(reply), log + [AbortUpload(uploadId)];
        return;
      }
      OneMorePart(provider, partNumber - 1, parts);
      parts := parts + [Part(partNumber, reply.carried.value)];
      offset, partNumber := offset + MAXIMUM_SINGLE_PART_BYTES, partNumber + 1;
    }
    AllPut(bytes, provider, parts);
    log := log + [CompleteUpload(uploadId, parts)];
    if provider.complete.Failed? {
      failure, log := Some(provider.complete.failure), log + [AbortUpload(uploadId)];
    }
  }

  lemma RefusedAtOnce(bytes: Bytes, provider: Provider)
    ensures provider.create.Failed? ==> UploadEnds(bytes, provider, Some(provider.create.failure), [CreateUpload], [])
    ensures provider.create.Answered? && provider.create.carried.None? ==>
              UploadEnds(bytes, provider, Some(CreateMalformed), [CreateUpload], [])
  {
  }

  lemma AbortedAt(bytes: Bytes, provider: Provider, parts: seq<Part>)
    requires provider.create.Answered? && provider.create.carried.Some?
    requires |parts| < |Slices(bytes)| && PartsThrough(provider, |parts|, parts)
    requires PartFailure(provider.parts(|parts| + 1)).Some?
    ensures var id := provider.create.carried.value;
            UploadEnds(bytes, provider, PartFailure(provider.parts(|parts| + 1)),
                       [CreateUpload] + PartRequests(Slices(bytes), id, |parts| + 1) + [AbortUpload(id)], parts)
  {
    hide Slices, PartRequests, PartsThrough;
  }

  lemma AllPut(bytes: Bytes, provider: Provider, parts: seq<Part>)
    requires provider.create.Answered? && provider.create.carried.Some?
    requires |parts| == |Slices(bytes)| && PartsThrough(provider, |parts|, parts)
    ensures var id, slices := provider.create.carried.value, Slices(bytes);
            var put := [CreateUpload] + PartRequests(slices, id, |slices|);
            if provider.complete.Failed? then
              UploadEnds(bytes, provider, Some(provider.complete.failure), put + [CompleteUpload(id, parts)] + [AbortUpload(id)], parts)
            else UploadEnds(bytes, provider, None, put + [CompleteUpload(id, parts)], parts)
  {
    hide Slices, PartRequests, PartsThrough;
    var id := provider.create.carried.value;
    Regroup([CreateUpload] + PartRequests(Slices(bytes), id, |Slices(bytes)|), [CompleteUpload(id, parts)], [AbortUpload(id)]);
    assert [CompleteUpload(id, parts)] + [AbortUpload(id)] == [CompleteUpload(id, parts), AbortUpload(id)];
  }

  lemma NothingPut(slices: seq<Bytes>, id: Text, provider: Provider)
    ensures PartsThrough(provider, 0, []) && [CreateUpload] + PartRequests(slices, id, 0) == [CreateUpload]
  {
  }

  lemma OneMoreRequest(slices: seq<Bytes>, id: Text, k: nat)
    requires k < |slices|
    ensures PartRequests(slices, id, k + 1) == PartRequests(slices, id, k) + [PutPart(k + 1, id, slices[k])]
  {
  }

  lemma OneMorePart(provider: Provider, k: nat, parts: seq<Part>)
    requires PartsThrough(provider, k, parts) && PartFailure(provider.parts(k + 1)).None?
    ensures provider.parts(k + 1).Answered? && provider.parts(k + 1).carried.Some?
    ensures PartsThrough(provider, k + 1, parts + [Part(k + 1, provider.parts(k + 1).carried.value)])
  {
    var longer := parts + [Part(k + 1, provider.parts(k + 1).carried.value)];
    forall i | 0 <= i < k + 1 ensures PartThrough(provider, i, longer[i]) {
      if i < k {
        assert longer[i] == parts[i];
      }
    }
  }

  lemma MorePartsIff(bytes: Bytes, k: nat)
    ensures k * MAXIMUM_SINGLE_PART_BYTES < |bytes| <==> k < |Slices(bytes)|
  {
    SlicesCover(bytes);
  }

  /** What a completed upload leaves under its key is the object's bytes. */
  lemma CompletedIsWhole(bytes: Bytes, id: Text, parts: seq<Part>, provider: Provider)
    requires |parts| == |Slices(bytes)| && PartsThrough(provider, |parts|, parts)
    ensures Assembled(PartRequests(Slices(bytes), id, |parts|), parts) == bytes
  {
    SlicesCover(bytes);
    AssembledFrom(Slices(bytes), id, parts, provider, 0);
    assert parts[0..] == parts && Slices(bytes)[0..] == Slices(bytes);
  }

  lemma {:induction false} AssembledFrom(slices: seq<Bytes>, id: Text, parts: seq<Part>, provider: Provider, k: nat)
    requires k <= |parts| == |slices| && PartsThrough(provider, |parts|, parts)
    ensures Assembled(PartRequests(slices, id, |slices|), parts[k..]) == Joined(slices[k..])
    decreases |parts| - k
  {
    if k < |parts| {
      AssembledFrom(slices, id, parts, provider, k + 1);
      assert parts[k..][1..] == parts[k + 1..] && slices[k..][1..] == slices[k + 1..];
      BodyAt(slices, id, |slices|, k);
    }
  }

  lemma {:induction false} BodyAt(slices: seq<Bytes>, id: Text, n: nat, k: nat)
    requires k < n <= |slices|
    ensures BodyOf(PartRequests(slices, id, n), k + 1) == slices[k]
  {
    var log := PartRequests(slices, id, n);
    if k < n - 1 {
      assert log[..n - 1] == PartRequests(slices, id, n - 1);
      BodyAt(slices, id, n - 1, k);
    }
  }

  /** `putObject`: one put up to the ceiling, a multipart upload above it. */
  method PutObject(bytes: Bytes, provider: Provider) returns (failure: Option<Failure>, log: seq<Request>, parts: seq<Part>)
    ensures |bytes| <= MAXIMUM_SINGLE_PART_BYTES ==>
              log == [PutWhole(bytes)] && failure == (if provider.put.Failed? then Some(provider.put.failure) else None)
    ensures |bytes| > MAXIMUM_SINGLE_PART_BYTES ==> UploadEnds(bytes, provider, failure, log, parts)
    ensures |bytes| > MAXIMUM_SINGLE_PART_BYTES && failure.None? ==>
              provider.create.Answered? && provider.create.carried.Some?
              && |parts| == |Slices(bytes)| >= 2
              && log == [CreateUpload] + PartRequests(Slices(bytes), provider.create.carried.value, |parts|)
                        + [CompleteUpload(provider.create.carried.value, parts)]
              && Assembled(PartRequests(Slices(bytes), provider.create.carried.value, |parts|), parts) == bytes
  {
    if |bytes| <= MAXIMUM_SINGLE_PART_BYTES {
      failure := if provider.put.Failed? then Some(provider.put.failure) else None;
      return failure, [PutWhole(bytes)], [];
    }
    failure, log, parts := UploadMultipart(bytes, provider);
    SlicesCover(bytes);
    if failure.None? {
      CompletedIsWhole(bytes, provider.create.carried.value, parts, provider);
    }
  }
}
