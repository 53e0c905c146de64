/** The order-flow-imbalance stage of include/modules/ofi_dsp.hpp: a branchy per-quote value through
    a three-stage pipeline with bubbles. */
module Ofi {
  import opened Words

  datatype Option<+T> = None | Some(value: T)

  datatype BookQuote = BookQuote(bidPrice: int, bidQty: int, askPrice: int, askQty: int)

  datatype Stage = Stage(valid: bool, value: int)

  const BUBBLE: Stage := Stage(false, 0)
  const NO_QUOTE: BookQuote := BookQuote(0, 0, 0, 0)
  const STAGES: nat := 3

  function Saturate(value: int): int
  {
    if value > INT32_MAX then INT32_MAX else if value < INT32_MIN then INT32_MIN else value
  }

  function Indicator(b: bool): int
  {
    if b then 1 else 0
  }

  /** The order-flow imbalance of Cont, Kukanov and Stoikov: four indicators on the best prices of two quotes. The
      first quote counts with its bid quantity for and its ask quantity against. */
  function Imbalance(previous: Option<BookQuote>, q: BookQuote): int
  {
    match previous
    case None => q.bidQty - q.askQty
    case Some(p) =>
      Indicator(q.bidPrice >= p.bidPrice) * q.bidQty - Indicator(q.bidPrice <= p.bidPrice) * p.bidQty
      - Indicator(q.askPrice <= p.askPrice) * q.askQty + Indicator(q.askPrice >= p.askPrice) * p.askQty
  }

  /** What a quote contributes to the stream: its imbalance, saturated to int32. */
  function Contribution(previous: Option<BookQuote>, q: BookQuote): int
  {
    Saturate(Imbalance(previous, q))
  }

  function Distance(a: int, b: int): nat
  {
    if a < b then b - a else a - b
  }

  /** No int32 is nearer to x. */
  ghost predicate Nearest(value: int, x: int)
  {
    IsInt32(value) && forall w :: IsInt32(w) ==> Distance(value, x) <= Distance(w, x)
  }

  lemma ContributionIsNearest(previous: Option<BookQuote>, q: BookQuote)
    ensures Nearest(Contribution(previous, q), Imbalance(previous, q))
    ensures forall v :: Nearest(v, Imbalance(previous, q)) ==> v == Contribution(previous, q)
  {
    assert forall v :: Nearest(v, Imbalance(previous, q)) ==> IsInt32(Contribution(previous, q)) && IsInt32(v);
  }

  /** The same quote seen from the other side of the book. */
  function Mirrored(q: BookQuote): BookQuote
  {
    BookQuote(-q.askPrice, q.askQty, -q.bidPrice, q.bidQty)
  }

  /** Time reversed, and bid and ask exchanged, an imbalance changes its sign. Of the two sides only one need move: a
      better bid counts with its quantity, a bid that stays with its change. From no quote at all it is as from
      empty levels at the same prices. */
  lemma ImbalanceLaws(p: BookQuote, q: BookQuote)
    ensures Imbalance(Some(q), p) == -Imbalance(Some(p), q)
    ensures Imbalance(Some(Mirrored(p)), Mirrored(q)) == -Imbalance(Some(p), q)
    ensures q.askPrice == p.askPrice && q.askQty == p.askQty ==>
      && (q.bidPrice > p.bidPrice ==> Imbalance(Some(p), q) == q.bidQty)
      && (q.bidPrice == p.bidPrice ==> Imbalance(Some(p), q) == q.bidQty - p.bidQty)
    ensures Imbalance(None, q) == Imbalance(Some(q.(bidQty := 0, askQty := 0)), q)
    ensures Imbalance(Some(p), q) == Imbalance(Some(p), q.(askPrice := p.askPrice, askQty := p.askQty))
      + Imbalance(Some(p), q.(bidPrice := p.bidPrice, bidQty := p.bidQty))
  {
  }

  class OfiDsp {
    var previous: BookQuote
    var validPrevious: bool
    const pipeline: array<Stage>
    var output: Stage

    ghost predicate Valid()
    {
      pipeline.Length == STAGES
    }

    ghost function Last(): Option<BookQuote>
      reads this`previous, this`validPrevious
    {
      if validPrevious then Some(previous) else None
    }

    constructor ()
      ensures Valid() && fresh(pipeline)
      ensures Last() == None && pipeline[..] == [BUBBLE, BUBBLE, BUBBLE] && output == BUBBLE
    {
      previous, validPrevious, output := NO_QUOTE, false, BUBBLE;
      pipeline := new Stage[STAGES](_ => BUBBLE);
    }

    function SideBid(q: BookQuote): int
      reads this
    {
      if !validPrevious || q.bidPrice > previous.bidPrice then q.bidQty
      else if q.bidPrice == previous.bidPrice then q.bidQty - previous.bidQty
      else -previous.bidQty
    }

    /** Already carries its sign. */
    function SideAsk(q: BookQuote): int
      reads this
    {
      if !validPrevious || q.askPrice < previous.askPrice then -q.askQty
      else if q.askPrice == previous.askPrice then previous.askQty - q.askQty
      else previous.askQty
    }

    /** The loop that moves every stage one down. */
    method Shift()
      requires Valid()
      modifies pipeline
      ensures pipeline[0] == old(pipeline[0]) && pipeline[1] == old(pipeline[0]) && pipeline[2] == old(pipeline[1])
    {
      var i := pipeline.Length - 1;
      while i > 0
        invariant 0 <= i < pipeline.Length
        invariant forall k :: 0 <= k <= i ==> pipeline[k] == old(pipeline[k])
        invariant forall k :: i < k < pipeline.Length ==> pipeline[k] == old(pipeline[k - 1])
      {
        pipeline[i] := pipeline[i - 1];
        i := i - 1;
      }
    }

    method Posedge(quote: BookQuote)
      requires Valid()
      modifies this, pipeline
      ensures pipeline[..] == [Stage(true, Contribution(old(Last()), quote))] + old(pipeline[..2])
      ensures Nearest(pipeline[0].value, Imbalance(old(Last()), quote))
      ensures Last() == Some(quote) && output == old(output)
    {
      ContributionIsNearest(Last(), quote);
      var value := SideBid(quote) + SideAsk(quote);
      Shift();
      pipeline[0] := Stage(true, Saturate(value));
      previous, validPrevious := quote, true;
    }

    method PosedgeIdle()
      requires Valid()
      modifies pipeline
      ensures pipeline[..] == [BUBBLE] + old(pipeline[..2])
    {
      Shift();
      pipeline[0] := BUBBLE;
    }

    method Negedge()
      requires Valid()
      modifies this`output
      ensures output == pipeline[2]
    {
      output := pipeline[pipeline.Length - 1];
    }

    /** One cycle per input, idle where there is no quote, and the output seen at each negedge. */
    method Drive(inputs: seq<Option<BookQuote>>) returns (outputs: seq<Stage>)
      requires Valid() && Last() == None && pipeline[..] == [BUBBLE, BUBBLE, BUBBLE]
      modifies this, pipeline
      ensures |outputs| == |inputs|
      ensures forall t :: 0 <= t < |inputs| ==> outputs[t] == Entered(inputs, t - 2)
    {
      outputs := [];
      for t := 0 to |inputs|
        invariant |outputs| == t && Last() == LastQuote(inputs, t)
        invariant pipeline[0] == Entered(inputs, t - 1) && pipeline[1] == Entered(inputs, t - 2)
        invariant forall u :: 0 <= u < t ==> outputs[u] == Entered(inputs, u - 2)
      {
        ghost var was := pipeline[..2];
        match inputs[t] {
          case Some(q) => Posedge(q);
          case None => PosedgeIdle();
        }
        assert pipeline[..][1] == was[0] && pipeline[..][2] == was[1];
        assert pipeline[..][0] == Entered(inputs, t);
        Negedge();
        outputs := outputs + [output];
      }
    }
  }

  /** The last quote among the first t inputs. */
  function LastQuote(inputs: seq<Option<BookQuote>>, t: nat): Option<BookQuote>
    requires t <= |inputs|
  {
    if t == 0 then None
    else if inputs[t - 1].Some? then inputs[t - 1]
    else LastQuote(inputs, t - 1)
  }

  /** The stage that input t puts into the pipeline; a bubble before the first cycle. */
  function Entered(inputs: seq<Option<BookQuote>>, t: int): Stage
    requires t < |inputs|
  {
    if t < 0 || inputs[t].None? then BUBBLE
    else Stage(true, Contribution(LastQuote(inputs, t), inputs[t].value))
  }

  // ---- sums over a run ----

  /** The valid outputs of a run added up. */
  function SumOf(outputs: seq<Stage>): int
  {
    if outputs == [] then 0
    else
      var n := |outputs| - 1;
      SumOf(outputs[..n]) + if outputs[n].valid then outputs[n].value else 0
  }

  /** The quotes among the inputs, in order. */
  function QuotesOf(inputs: seq<Option<BookQuote>>): seq<BookQuote>
  {
    if inputs == [] then []
    else
      var n := |inputs| - 1;
      QuotesOf(inputs[..n]) + if inputs[n].Some? then [inputs[n].value] else []
  }

  function LastOf(quotes: seq<BookQuote>): Option<BookQuote>
  {
    if quotes == [] then None else Some(quotes[|quotes| - 1])
  }

  /** The contributions of some quotes, each against the one before it. */
  function OfiSum(quotes: seq<BookQuote>): int
  {
    if quotes == [] then 0
    else
      var n := |quotes| - 1;
      OfiSum(quotes[..n]) + Contribution(LastOf(quotes[..n]), quotes[n])
  }

  lemma {:induction false} LastQuoteIs(inputs: seq<Option<BookQuote>>, t: nat)
    requires t <= |inputs|
    ensures LastQuote(inputs, t) == LastOf(QuotesOf(inputs[..t]))
  {
    if t > 0 {
      LastQuoteIs(inputs, t - 1);
      assert inputs[..t][..t - 1] == inputs[..t - 1];
    }
  }

  /** Bubbles add nothing, so the outputs of a run add up to the contributions of the quotes that have
      come through, whatever the idle cycles. */
  lemma {:induction false} OutputsSum(inputs: seq<Option<BookQuote>>, outputs: seq<Stage>)
    requires |outputs| <= |inputs| && forall t :: 0 <= t < |outputs| ==> outputs[t] == Entered(inputs, t - 2)
    ensures SumOf(outputs) == OfiSum(QuotesOf(inputs[..Max(0, |outputs| - 2)]))
    decreases |outputs|
  {
    var n := |outputs| - 1;
    if n >= 0 {
      OutputsSum(inputs, outputs[..n]);
      if n >= 2 {
        LastQuoteIs(inputs, n - 2);
        assert inputs[..n - 1][..n - 2] == inputs[..n - 2];
        var quotes := QuotesOf(inputs[..n - 2]);
        if inputs[n - 2].Some? {
          assert (quotes + [inputs[n - 2].value])[..|quotes|] == quotes;
        } else {
          assert quotes + [] == quotes;
        }
      }
    }
  }

  /** The best prices stand still and no change saturates. */
  ghost predicate Quiet(quotes: seq<BookQuote>)
  {
    && (forall i :: 0 <= i < |quotes| ==>
         quotes[i].bidPrice == quotes[0].bidPrice && quotes[i].askPrice == quotes[0].askPrice)
    && forall i :: 0 < i < |quotes| ==> IsInt32(Imbalance(Some(quotes[i - 1]), quotes[i]))
  }

  /** Then the contributions after the first add up to the change in bid quantity less the change in ask
      quantity. */
  lemma {:induction false} QuietSum(quotes: seq<BookQuote>)
    requires quotes != [] && Quiet(quotes)
    ensures var first, last := quotes[0], quotes[|quotes| - 1];
      OfiSum(quotes) == OfiSum([first]) + (last.bidQty - first.bidQty) - (last.askQty - first.askQty)
  {
    var n := |quotes| - 1;
    if n == 0 {
      assert quotes == [quotes[0]];
    } else {
      QuietSum(quotes[..n]);
      var p, q := quotes[n - 1], quotes[n];
      assert Imbalance(Some(p), q) == (q.bidQty - p.bidQty) - (q.askQty - p.askQty);
    }
  }

  /** So do the outputs of a run with any idle cycles, less the first one. */
  lemma {:induction false} QuietOutputs(inputs: seq<Option<BookQuote>>, outputs: seq<Stage>)
    requires |outputs| == |inputs| && forall t :: 0 <= t < |outputs| ==> outputs[t] == Entered(inputs, t - 2)
    requires 2 <= |inputs| && QuotesOf(inputs[..|inputs| - 2]) != [] && Quiet(QuotesOf(inputs[..|inputs| - 2]))
    ensures var quotes := QuotesOf(inputs[..|inputs| - 2]);
      var first, last := quotes[0], quotes[|quotes| - 1];
      && SumOf(outputs) - Contribution(None, first) == (last.bidQty - first.bidQty) - (last.askQty - first.askQty)
      && (IsInt32(first.bidQty - first.askQty) ==> SumOf(outputs) == last.bidQty - last.askQty)
  {
    OutputsSum(inputs, outputs);
    var quotes := QuotesOf(inputs[..|inputs| - 2]);
    QuietSum(quotes);
    assert [quotes[0]][..0] == [];
    assert OfiSum([quotes[0]]) == OfiSum([quotes[0]][..0]) + Contribution(LastOf([quotes[0]][..0]), quotes[0]);
  }
}
