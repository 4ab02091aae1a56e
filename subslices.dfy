/** `subslices` (audioBookify.py:20-23) and the batching of requests built on it in
    `TTS_API_Wrapper.spawn_requests` (audioBookify.py:185-214). */
module Subslices {
  import opened SeqUtil

  /** The per-minute request quota the wrapper paces against. */
  const MaxRequestsPerMin: nat := 50

  /** Yields `lst[i:i+n]` for every `i` in `range(0, len(lst), n)`, collected in order. */
  method Subslices<T>(lst: seq<T>, n: int) returns (slices: seq<seq<T>>)
    requires n > 0
    ensures Flatten(slices) == lst
    ensures |slices| == RangeLen(0, |lst|, n)
    ensures forall k :: 0 <= k < |slices| ==> 1 <= |slices[k]| <= n
    ensures forall k :: 0 <= k < |slices| - 1 ==> |slices[k]| == n
  {
    slices := [];
    var i := 0;
    while i < |lst|
      invariant 0 <= i
      invariant Flatten(slices) == lst[..Min(i, |lst|)]
      invariant |slices| + RangeLen(i, |lst|, n) == RangeLen(0, |lst|, n)
      invariant forall k :: 0 <= k < |slices| ==> 1 <= |slices[k]| <= n
      invariant forall k :: 0 <= k < |slices| && (k < |slices| - 1 || i <= |lst|) ==> |slices[k]| == n
      decreases |lst| - i
    {
      var piece := lst[i..Min(i + n, |lst|)];
      FlattenAppend(slices, [piece]);
      assert Flatten([piece]) == piece + Flatten([piece][1..]);
      assert lst[..Min(i + n, |lst|)] == lst[..i] + piece;
      slices := slices + [piece];
      i := i + n;
    }
  }

  /** The request side of `spawn_requests`: the chunks are cut into batches of at most
      `MaxRequestsPerMin` (one batch per minute window), each batch is gathered, and the
      responses are appended batch after batch. The network call is the parameter `request`;
      `asyncio.gather` returns its results in argument order. */
  method SpawnRequests<R>(chunks: seq<string>, request: string -> R)
    returns (responses: seq<R>, batches: seq<seq<string>>)
    ensures |responses| == |chunks|
    ensures forall i :: 0 <= i < |chunks| ==> responses[i] == request(chunks[i])
    ensures Flatten(batches) == chunks
    ensures |batches| == RangeLen(0, |chunks|, MaxRequestsPerMin)
    ensures forall b :: 0 <= b < |batches| ==> 1 <= |batches[b]| <= MaxRequestsPerMin
  {
    batches := Subslices(chunks, MaxRequestsPerMin);
    responses := [];
    var b := 0;
    while b < |batches|
      invariant 0 <= b <= |batches|
      invariant |responses| == |Flatten(batches[..b])|
      invariant forall i :: 0 <= i < |responses| ==> responses[i] == request(Flatten(batches[..b])[i])
    {
      var batch := batches[b];
      var gathered := seq(|batch|, j requires 0 <= j < |batch| => request(batch[j]));
      assert batches[..b + 1] == batches[..b] + [batch];
      FlattenAppend(batches[..b], [batch]);
      assert Flatten([batch]) == batch + Flatten([batch][1..]);
      responses := responses + gathered;
      b := b + 1;
    }
    assert batches[..b] == batches;
  }
}
