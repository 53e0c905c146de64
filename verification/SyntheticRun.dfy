/** The pipeline on the generated stream. */
module SyntheticRuns {
  import opened Words
  import opened Parser
  import opened Ofi
  import opened Ledgers
  import opened RestingOrders
  import opened Schedules
  import opened Pipelines
  import opened Simulations
  import opened SyntheticStreams

  lemma {:induction false} GeneratedArrival(messages: seq<Message>, i: nat)
    requires Paced(messages) && i < |messages|
    ensures messages[i].arrival <= 5 + 40 * i
  {
    if i > 0 {
      GeneratedArrival(messages, i - 1);
      assert Prior(i) == i - 1;
    }
  }

  /** Generated messages take at most six blocks, so the wire never falls far behind. */
  lemma {:induction false} GeneratedFinish(messages: seq<Message>, i: nat)
    requires Paced(messages) && i < |messages|
    requires forall j :: 0 <= j < |messages| ==> 4 <= |messages[j].bytes| <= 36
    ensures StreamOf(messages).Framed(i) == StreamOf(messages).Finish(i) <= 11 + 46 * i
  {
    GeneratedArrival(messages, i);
    StreamOf(messages).NothingStalls(i);
    assert StreamOf(messages).Blocks(i) <= 6;
    if i > 0 {
      GeneratedFinish(messages, i - 1);
    }
  }

  lemma {:induction false} GeneratedAccepted(messages: seq<Message>, quotes: seq<BookQuote>, l: Ledger)
    requires Described(messages, quotes, l)
    ensures StreamOf(messages).AllAccepted() && |messages| == |quotes|
    ensures forall i :: 0 <= i < |messages| ==> StreamOf(messages).Quote(i) == quotes[i] && 4 <= |messages[i].bytes| <= 36
  {
    forall i | 0 <= i < |messages|
      ensures StreamOf(messages).Accepted(i) && StreamOf(messages).Quote(i) == quotes[i] && 4 <= |messages[i].bytes| <= 36
    {
      assert AsExpected(StreamOf(messages), i, quotes[i]);
    }
  }

  lemma {:induction false} GeneratedMessage(messages: seq<Message>, quotes: seq<BookQuote>, l: Ledger, i: nat)
    requires Described(messages, quotes, l) && i < |messages|
    ensures var stream := StreamOf(messages);
      && stream.Accepted(i) && InRange(EventOf(messages[i].bytes))
      && TotalsFit(stream.After(i + 1).orders) && stream.After(i + 1).overflow == 0
  {
    hide EventOf, Resting, InRange, Stream.Accepted, Stream.After, Stream.Quote;
    assert AsExpected(StreamOf(messages), i, quotes[i]);
  }

  lemma {:induction false} NoTotals(stream: Stream)
    ensures TotalsFit(stream.After(0).orders) && stream.After(0).overflow == 0
  {
    NothingRests();
    SoundTotalsFit(EMPTY);
  }

  /** The generated stream meets what the results about the books ask for. */
  lemma {:induction false} GeneratedInRange(messages: seq<Message>, quotes: seq<BookQuote>, l: Ledger)
    requires Described(messages, quotes, l)
    ensures AcceptedInRange(StreamOf(messages), |messages|) && TotalsFitUpTo(StreamOf(messages), |messages|)
    ensures StreamOf(messages).After(|messages|).overflow == 0
  {
    hide Described, EventOf, InRange, TotalsFit, Stream.After, Supported, ApplyEvent;
    var stream, n := StreamOf(messages), |messages|;
    forall i | 0 <= i < n ensures stream.Accepted(i) && InRange(EventOf(messages[i].bytes)) {
      GeneratedMessage(messages, quotes, l, i);
    }
    forall j | 0 <= j <= n ensures TotalsFit(stream.After(j).orders) && stream.After(j).overflow == 0 {
      if j > 0 {
        GeneratedMessage(messages, quotes, l, j - 1);
      } else {
        NoTotals(stream);
      }
    }
  }

  lemma {:induction false} GeneratedEnd(messages: seq<Message>)
    requires Paced(messages) && forall j :: 0 <= j < |messages| ==> 4 <= |messages[j].bytes| <= 36
    ensures StreamOf(messages).EndCycle() <= 21 + 46 * |messages|
  {
    if messages != [] {
      GeneratedFinish(messages, |messages| - 1);
    }
  }

  lemma {:induction false} ShownQuotes(p: Pipeline, quotes: seq<BookQuote>)
    requires p.Wired() && |quotes| == p.stream.Count() <= |p.records|
    requires forall i :: 0 <= i < |quotes| ==> p.stream.Quote(i) == quotes[i] && Delivered(p, i)
    ensures forall i :: 0 <= i < |quotes| ==> p.state[i].quote == quotes[i]
  {
    hide Delivered, QuoteOf, Stream.Quote;
    forall i | 0 <= i < |quotes| ensures p.state[i].quote == quotes[i] {
      DeliveredQuote(p, i);
    }
  }

  /** For any seed, or any sequence of words in place of the generator's, and any number of messages, the
      pipeline delivers the generated stream in full within 21 + 46 cycles a message, and shows after each
      message the quote that the generator expects. */
  method RunGenerated(source: WordSource, seed: nat, count: nat, limit: nat)
    returns (g: SyntheticItchStream, p: Pipeline, cycle: nat)
    requires seed < WORD && FIRST_REFERENCE + count <= Pow256(8) && 21 + 46 * count <= limit
    ensures |g.messages| == |g.quotes| == count && p.Wired() && p.stream == StreamOf(g.messages)
    ensures Described(g.messages, g.quotes, g.ledger) && Paced(g.messages) && g.Counted(g.messages)
    ensures IsGenerated(source, seed, g.messages, g.turns)
    ensures AcceptedInRange(p.stream, count) && TotalsFitUpTo(p.stream, count) && p.stream.After(count).overflow == 0
    ensures !p.error && p.completed == |p.records| == count && cycle == p.stream.EndCycle() <= 21 + 46 * count
    ensures forall i :: 0 <= i < count ==> Delivered(p, i)
    ensures forall i :: 0 <= i < count ==> p.state[i].quote == g.quotes[i]
    ensures Sums(p, count) && p.keeper.book.overflowCount == 0
  {
    hide AcceptedInRange, TotalsFitUpTo, Stream.After, Described, RunResult, Delivered, Pow256, Paced,
      Stream.EndCycle, Stream.AllAccepted, Stream.Quote, Sums, Stream.Fits, AsExpected, Pipeline.Wired,
      SyntheticItchStream.Tracking, SyntheticItchStream.Drawing, IsGenerated, SyntheticItchStream.Counted;
    g := new SyntheticItchStream(source, seed);
    g.Generate(count);
    GeneratedAccepted(g.messages, g.quotes, g.ledger);
    GeneratedInRange(g.messages, g.quotes, g.ledger);
    GeneratedEnd(g.messages);
    p, cycle := Simulate(StreamOf(g.messages), limit);
    CompleteRun(p, limit, cycle);
    ShownQuotes(p, g.quotes);
  }
}
