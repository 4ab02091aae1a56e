/** `TTS_API_Wrapper.estimate_cost` (audioBookify.py:104-106, 129-143). Prices are kept in
    thousandths of a dollar per token, so `0.015` is 15 and `0.03` is 30. */
module Cost {
  import opened Wrappers
  import opened SeqUtil

  /** Characters per billed token. */
  const TokenSize: nat := 1000

  /** `cost_per_token`, in thousandths of a dollar. */
  const CostPerToken: map<string, nat> := map["tts-1" := 15, "tts-1-hd" := 30]

  /** The model name the price table has no entry for: Python raises `KeyError`. */
  datatype CostError = UnknownModel(model: string)

  /** `math.ceil(len(chunk) / token_size)`: the least number of tokens that hold `len`
      characters. */
  function Tokens(len: nat): (t: nat)
    ensures t * TokenSize >= len
    ensures t > 0 ==> (t - 1) * TokenSize < len
    ensures t == 0 <==> len == 0
  {
    (len + TokenSize - 1) / TokenSize
  }

  /** What one chunk costs at `price` per token. */
  function ChunkCost(chunk: string, price: nat): nat
  {
    Tokens(|chunk|) * price
  }

  /** The running total of the loop after it has seen every chunk of `chunks`. */
  function TotalCost(chunks: seq<string>, price: nat): (total: nat)
    ensures price > 0 ==> (total == 0 <==> forall i :: 0 <= i < |chunks| ==> chunks[i] == [])
    decreases |chunks|
  {
    if chunks == [] then 0
    else TotalCost(chunks[..|chunks| - 1], price) + ChunkCost(chunks[|chunks| - 1], price)
  }

  /** The tokens billed for all chunks. */
  function TotalTokens(chunks: seq<string>): nat
    decreases |chunks|
  {
    if chunks == [] then 0
    else TotalTokens(chunks[..|chunks| - 1]) + Tokens(|chunks[|chunks| - 1]|)
  }

  /** `estimate_cost`. The price is looked up inside the loop, once per chunk, so an unknown
      model only raises when there is a chunk to price; with no chunks the estimate is 0. */
  method EstimateCost(chunks: seq<string>, model: string) returns (r: Result<nat, CostError>)
    ensures model in CostPerToken ==> r == Success(TotalCost(chunks, CostPerToken[model]))
    ensures model !in CostPerToken && |chunks| > 0 ==> r == Failure(UnknownModel(model))
    ensures model !in CostPerToken && |chunks| == 0 ==> r == Success(0)
  {
    var total: nat := 0;
    var i := 0;
    while i < |chunks|
      invariant 0 <= i <= |chunks|
      invariant model in CostPerToken ==> total == TotalCost(chunks[..i], CostPerToken[model])
      invariant model !in CostPerToken ==> i == 0 && total == 0
    {
      var numTokens := Tokens(|chunks[i]|);
      if model !in CostPerToken {
        return Failure(UnknownModel(model));
      }
      var chunkCost := numTokens * CostPerToken[model];
      assert chunks[..i + 1][..i] == chunks[..i];
      total := total + chunkCost;
      i := i + 1;
    }
    assert chunks[..i] == chunks;
    return Success(total);
  }

  /** The estimate is additive over the chunk list. */
  lemma {:induction false} TotalCostAppend(a: seq<string>, b: seq<string>, price: nat)
    ensures TotalCost(a + b, price) == TotalCost(a, price) + TotalCost(b, price)
    decreases |b|
  {
    if b != [] {
      var b' := b[..|b| - 1];
      assert (a + b)[..|a + b| - 1] == a + b';
      TotalCostAppend(a, b', price);
    } else {
      assert a + b == a;
    }
  }

  /** The estimate is the token count times the price. */
  lemma {:induction false} TotalCostIsTokensTimesPrice(chunks: seq<string>, price: nat)
    ensures TotalCost(chunks, price) == TotalTokens(chunks) * price
    decreases |chunks|
  {
    if chunks != [] {
      var init := chunks[..|chunks| - 1];
      TotalCostIsTokensTimesPrice(init, price);
      assert (TotalTokens(init) + Tokens(|chunks[|chunks| - 1]|)) * price
          == TotalTokens(init) * price + Tokens(|chunks[|chunks| - 1]|) * price;
    }
  }

  /** `tts-1-hd` costs exactly twice what `tts-1` costs for the same chunks. */
  lemma HdCostsTwiceStandard(chunks: seq<string>)
    ensures TotalCost(chunks, CostPerToken["tts-1-hd"]) == 2 * TotalCost(chunks, CostPerToken["tts-1"])
  {
    TotalCostIsTokensTimesPrice(chunks, 15);
    TotalCostIsTokensTimesPrice(chunks, 30);
  }

  /** A longer text is never billed fewer tokens. */
  lemma TokensMonotone(a: nat, b: nat)
    requires a <= b
    ensures Tokens(a) <= Tokens(b)
  {
  }

  /** A chunk's contribution never decreases as the chunk grows, and an empty chunk costs
      nothing. */
  lemma ChunkCostMonotone(a: string, b: string, price: nat)
    requires |a| <= |b|
    ensures ChunkCost(a, price) <= ChunkCost(b, price)
    ensures |a| == 0 ==> ChunkCost(a, price) == 0
  {
    TokensMonotone(|a|, |b|);
    MulMonotone(Tokens(|a|), Tokens(|b|), price);
  }

  lemma MulMonotone(x: nat, y: nat, p: nat)
    requires x <= y
    ensures x * p <= y * p
  {
    assert y * p == x * p + (y - x) * p;
  }

  /** Billing two pieces separately costs at least what one piece holding both costs, and
      at most one token more. */
  lemma TokensSplit(a: nat, b: nat)
    ensures Tokens(a + b) <= Tokens(a) + Tokens(b) <= Tokens(a + b) + 1
  {
  }

  /** Cutting a text into chunks never makes the estimate cheaper than billing the text as a
      whole, and adds at most one token per chunk. */
  lemma {:induction false} ChunkingBounds(chunks: seq<string>)
    ensures Tokens(|Flatten(chunks)|) <= TotalTokens(chunks) <= Tokens(|Flatten(chunks)|) + |chunks|
    decreases |chunks|
  {
    if chunks != [] {
      var init, last := chunks[..|chunks| - 1], chunks[|chunks| - 1];
      assert chunks == init + [last];
      FlattenAppend(init, [last]);
      assert Flatten([last]) == last + Flatten([last][1..]);
      ChunkingBounds(init);
      TokensSplit(|Flatten(init)|, |last|);
      TokensMonotone(|Flatten(init)|, |Flatten(init)| + |last|);
    }
  }
}
