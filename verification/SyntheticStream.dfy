/** The generator of include/pipeline/synthetic_itch.hpp: a pseudo-random stream of messages, with the
    quote expected after each. */
module SyntheticStreams {
  import opened Words
  import opened Parser
  import opened Ofi
  import opened Ledgers
  import opened RestingOrders
  import opened Schedules
  import opened SyntheticLedger

  const MESSAGE_BYTES: nat := 36
  const MOST_LIVE: nat := 100
  const FIRST_REFERENCE: nat := 1000
  const SIDE_S: byte := 83
  /** "AAPL" and four spaces. */
  const SYMBOL: seq<byte> := [65, 65, 80, 76, 32, 32, 32, 32]

  const WORD: nat := 0x1_0000_0000

  /** One step of the 32-bit xorshift generator. */
  function XorShift(x: nat): nat
  {
    var a := Xor(x, Shl(x, 13) % WORD);
    var b := Xor(a, Shr(a, 17));
    Xor(b, Shl(b, 5) % WORD)
  }

  /** Where the words come from: the generator, or any sequence of 32-bit words in its place. */
  datatype WordSource = Generator | Tape(words: nat -> nat) {

    /** The word drawn after `drawn` others, the last of which was `rng`. */
    function Word(rng: nat, drawn: nat): nat
    {
      match this
      case Generator => XorShift(rng)
      case Tape(words) => words(drawn) % WORD
    }

    /** The k-th word drawn, counted from one; the seed before any is drawn. */
    function Nth(seed: nat, k: nat): nat
    {
      if k == 0 then seed else Word(Nth(seed, k - 1), k - 1)
    }
  }

  lemma {:induction false} ShrSmaller(n: nat, k: nat)
    ensures Shr(n, k) <= n
    decreases k
  {
    if k > 0 {
      ShrSmaller(n / 2, k - 1);
    }
  }

  lemma XorShiftWord(x: nat)
    requires x < WORD
    ensures XorShift(x) < WORD
  {
    BitWidths();
    var a := Xor(x, Shl(x, 13) % WORD);
    XorBound(x, Shl(x, 13) % WORD, 32);
    ShrSmaller(a, 17);
    XorBound(a, Shr(a, 17), 32);
    var b := Xor(a, Shr(a, 17));
    XorBound(b, Shl(b, 5) % WORD, 32);
  }

  lemma LeftMixed(x: nat, up: nat, k: nat)
    requires k < 32
    ensures Bit(Xor(x, Shl(x, up) % WORD), k) <==> Bit(x, k) != (up <= k && Bit(x, k - up))
  {
    BitWidths();
    XorBit(x, Shl(x, up) % WORD, k);
    LowBits(Shl(x, up), k);
    ShlBit(x, up, k);
  }

  /** Bit by bit: each takes up the one 13 below it, then the one 17 above it, then the one 5 below it. */
  lemma XorShiftBit(x: nat, k: nat)
    requires x < WORD && k < 32
    ensures var a := Xor(x, Shl(x, 13) % WORD);
      var b := Xor(a, Shr(a, 17));
      && (Bit(a, k) <==> Bit(x, k) != (13 <= k && Bit(x, k - 13)))
      && (Bit(b, k) <==> Bit(a, k) != (k < 15 && Bit(a, k + 17)))
      && (Bit(XorShift(x), k) <==> Bit(b, k) != (5 <= k && Bit(b, k - 5)))
  {
    var a := Xor(x, Shl(x, 13) % WORD);
    var b := Xor(a, Shr(a, 17));
    BitWidths();
    XorBound(x, Shl(x, 13) % WORD, 32);
    hide Xor, Shl, Shr, Bit, Pow2;
    LeftMixed(x, 13, k);
    XorBit(a, Shr(a, 17), k);
    ShrBit(a, 17, k);
    if 15 <= k { HighBits(a, 32, k + 17); }
    LeftMixed(b, 5, k);
  }

  // ---- bytes ----

  /** The buffer with p written at an offset. */
  function Overwritten(buffer: seq<byte>, at: nat, p: seq<byte>): (r: seq<byte>)
    requires at + |p| <= |buffer|
    ensures |r| == |buffer|
  {
    buffer[..at] + p + buffer[at + |p|..]
  }

  /** Writes the n low bytes of a value, most significant first. */
  method Put(m: array<byte>, at: nat, value: nat, n: nat)
    requires at + n <= m.Length
    modifies m
    ensures m[..] == Overwritten(old(m[..]), at, PutBytes(value, n))
  {
    hide PutBytes, Overwritten, Shr;
    ghost var was, p := m[..], PutBytes(value, n);
    NothingWritten(was, at);
    assert p[..0] == [] && p[..n] == p;
    for i := 0 to n
      invariant m[..] == Overwritten(was, at, p[..i])
    {
      PutAt(value, n, i);
      OneMoreWritten(was, at, p, i);
      m[at + i] := Shr(value, (n - 1 - i) * 8) % 256;
    }
  }

  lemma NothingWritten(buffer: seq<byte>, at: nat)
    requires at <= |buffer|
    ensures Overwritten(buffer, at, []) == buffer
  {
  }

  lemma OneMoreWritten(buffer: seq<byte>, at: nat, p: seq<byte>, i: nat)
    requires at + |p| <= |buffer| && i < |p|
    ensures Overwritten(buffer, at, p[..i + 1]) == Overwritten(buffer, at, p[..i])[at + i := p[i]]
  {
  }

  function Header(index: nat): (h: seq<byte>)
    ensures |h| == 10
  {
    PutBytes(1, 4) + [0, 0] + PutBytes(index, 4)
  }

  method MakeHeader(m: array<byte>, code: byte, index: nat)
    requires m.Length == MESSAGE_BYTES && forall j :: 0 <= j < m.Length ==> m[j] == 0
    modifies m
    ensures m[..] == [code] + Header(index) + Zeros(25)
  {
    m[0] := code;
    Put(m, 1, 1, 4);
    Put(m, 7, index, 4);
  }

  function SideByte(bid: bool): byte
  {
    if bid then SIDE_B else SIDE_S
  }

  function AddEvent(o: Live): Event
    requires o.level < PRICE_LEVELS && 0 < o.remaining
  {
    Event(Add, o.reference, 0, o.remaining, LevelPrice(o.bid, o.level), SideByte(o.bid), SYMBOL + [0])
  }

  function ReduceEvent(execute: bool, reference: nat, shares: nat): Event
  {
    Event(if execute then Executed else Cancel, reference, 0, shares, 0, 0, NO_STOCK)
  }

  method Copy(m: array<byte>, at: nat, p: seq<byte>)
    requires at + |p| <= m.Length
    modifies m
    ensures m[..] == Overwritten(old(m[..]), at, p)
  {
    forall j | 0 <= j < |p| { m[at + j] := p[j]; }
  }

  /** Writing right behind what has been written. */
  lemma WrittenNext(front: seq<byte>, p: seq<byte>, n: nat)
    requires |p| <= n
    ensures Overwritten(front + Zeros(n), |front|, p) == front + p + Zeros(n - |p|)
  {
  }

  method AddBytes(o: Live, index: nat) returns (bytes: seq<byte>)
    requires o.level < PRICE_LEVELS && 0 < o.remaining
    ensures WellFormed(AddEvent(o)) ==> bytes == Serialise(AddEvent(o), Header(index), [])
    ensures |bytes| == 36 && bytes[0] == TYPE_A
  {
    var price: nat := LevelPrice(o.bid, o.level);
    hide PutBytes, LevelPrice, SideByte, Header, Overwritten, Zeros, WellFormed;
    var m := new byte[MESSAGE_BYTES](_ => 0);
    MakeHeader(m, TYPE_A, index);
    ghost var a := [TYPE_A] + Header(index);
    Put(m, 11, o.reference, 8);
    WrittenNext(a, PutBytes(o.reference, 8), 25);
    ghost var b := a + PutBytes(o.reference, 8);
    Copy(m, 19, [SideByte(o.bid)]);
    WrittenNext(b, [SideByte(o.bid)], 17);
    ghost var c := b + [SideByte(o.bid)];
    Put(m, 20, o.remaining, 4);
    WrittenNext(c, PutBytes(o.remaining, 4), 16);
    ghost var d := c + PutBytes(o.remaining, 4);
    Copy(m, 24, SYMBOL);
    WrittenNext(d, SYMBOL, 12);
    Put(m, 32, price, 4);
    WrittenNext(d + SYMBOL, PutBytes(price, 4), 4);
    bytes := m[..];
    assert Zeros(0) == [];
    assert (SYMBOL + [0])[..8] == SYMBOL;
  }

  method ReduceBytes(execute: bool, reference: nat, shares: nat, index: nat) returns (bytes: seq<byte>)
    ensures WellFormed(ReduceEvent(execute, reference, shares)) ==>
      bytes == Serialise(ReduceEvent(execute, reference, shares), Header(index), Zeros(if execute then 8 else 0))
    ensures |bytes| == (if execute then 31 else 23) && bytes[0] == if execute then TYPE_E else TYPE_X
  {
    hide PutBytes, Header, Overwritten, Zeros, WellFormed;
    var m := new byte[MESSAGE_BYTES](_ => 0);
    var code := if execute then TYPE_E else TYPE_X;
    MakeHeader(m, code, index);
    ghost var a := [code] + Header(index);
    Put(m, 11, reference, 8);
    WrittenNext(a, PutBytes(reference, 8), 25);
    ghost var b := a + PutBytes(reference, 8);
    Put(m, 19, shares, 4);
    WrittenNext(b, PutBytes(shares, 4), 17);
    ghost var whole := b + PutBytes(shares, 4);
    assert m[..] == whole + Zeros(13);
    var n := if execute then 31 else 23;
    bytes := m[..n];
    CutZeros(whole, 13, n - 23);
  }

  lemma CutZeros(front: seq<byte>, n: nat, k: nat)
    requires k <= n
    ensures (front + Zeros(n))[..|front| + k] == front + Zeros(k)
  {
  }

  // ---- the stream against the interpreter ----

  function StreamOf(messages: seq<Message>): Stream
  {
    Stream(messages, ORDER_CAPACITY, EMPTY_ASK)
  }

  /** The interpreter's ledger depends on the messages applied so far only. */
  lemma {:induction false} AfterPrefix(messages: seq<Message>, m: Message, k: nat)
    requires k <= |messages|
    ensures StreamOf(messages + [m]).After(k) == StreamOf(messages).After(k)
  {
    hide EventOf, Supported, ApplyEvent;
    if k > 0 {
      AfterPrefix(messages, m, k - 1);
      assert (messages + [m])[k - 1] == messages[k - 1];
    }
  }

  /** Message i is accepted, drops no level, leaves room in the table, and has the expected quote. */
  ghost predicate AsExpected(stream: Stream, i: nat, quote: BookQuote)
    requires i < stream.Count()
  {
    && Supported(stream.messages[i].bytes) && InRange(EventOf(stream.messages[i].bytes))
    && |stream.messages[i].bytes| <= MESSAGE_BYTES && LightTotals(stream.After(i + 1).orders)
    && stream.Accepted(i)
    && stream.Quote(i) == quote
    && stream.After(i + 1).overflow == 0 && |stream.After(i + 1).orders| <= MOST_LIVE
  }

  /** The stream and its quotes so far, and the ledger that the interpreter has after them. */
  ghost predicate Described(messages: seq<Message>, quotes: seq<BookQuote>, l: Ledger)
  {
    && |messages| == |quotes|
    && StreamOf(messages).After(|messages|) == l
    && forall i :: 0 <= i < |messages| ==> AsExpected(StreamOf(messages), i, quotes[i])
  }

  lemma DescribedSnoc(messages: seq<Message>, quotes: seq<BookQuote>, l: Ledger, m: Message, quote: BookQuote,
                      after: Ledger)
    requires Described(messages, quotes, l)
    requires Supported(m.bytes) && InRange(EventOf(m.bytes)) && |m.bytes| <= MESSAGE_BYTES
    requires ApplyEvent(l, EventOf(m.bytes), ORDER_CAPACITY) == Applied(after, true)
    requires quote == QuoteOf(after, EMPTY_ASK) && after.overflow == 0 && |after.orders| <= MOST_LIVE
    requires LightTotals(after.orders)
    ensures Described(messages + [m], quotes + [quote], after)
  {
    hide EventOf, Supported, ApplyEvent, QuoteOf, InRange, LightTotals;
    var s, t := StreamOf(messages), StreamOf(messages + [m]);
    var n := |messages|;
    AfterPrefix(messages, m, n);
    assert t.messages[n] == m;
    assert t.After(n + 1) == after;
    forall i | 0 <= i <= n ensures AsExpected(t, i, (quotes + [quote])[i]) {
      if i < n {
        AfterPrefix(messages, m, i);
        AfterPrefix(messages, m, i + 1);
        assert AsExpected(s, i, quotes[i]);
      }
    }
  }

  lemma NothingDescribed()
    ensures Described([], [], EMPTY)
  {
  }

  /** One of the first four messages: an order on alternating sides. */
  predicate IsSeed(bytes: seq<byte>, index: nat)
  {
    Supported(bytes) && EventOf(bytes).kind == Add && (EventOf(bytes).side == SIDE_B <==> index % 2 == 0)
  }

  /** The first message arrives in cycle 5, and the gaps are 3 to 40 cycles. */
  predicate Paced(messages: seq<Message>)
  {
    && (messages != [] ==> messages[0].arrival == 5)
    && forall i :: 0 < i < |messages| ==> 3 <= messages[i].arrival - messages[Prior(i)].arrival <= 40
  }

  /** A named i - 1, so that quantifiers over neighbours have a term to match. */
  function Prior(i: int): int
  {
    i - 1
  }

  /** The message of a new order reads back as that order. */
  lemma AddedEvent(o: Live, index: nat, l: Ledger)
    requires o.level < PRICE_LEVELS && 0 < o.remaining <= 500 && o.reference < Pow256(8)
    ensures WellFormed(AddEvent(o)) && InRange(AddEvent(o))
    ensures Supported(Serialise(AddEvent(o), Header(index), []))
    ensures EventOf(Serialise(AddEvent(o), Header(index), [])) == AddEvent(o)
    ensures ApplyEvent(l, AddEvent(o), ORDER_CAPACITY)
      == AddOrder(l, o.reference, o.bid, LevelPrice(o.bid, o.level), o.remaining, ORDER_CAPACITY)
  {
    hide EventOf, Serialise, Supported, AddOrder;
    SmallWord(o.remaining);
    SmallWord(LevelPrice(o.bid, o.level));
    SerialiseRoundTrip(AddEvent(o), Header(index), []);
  }

  lemma SmallWord(v: nat)
    requires v < 0x8000_0000
    ensures v < Pow256(4) && ToInt32(v) == v
  {
    ByteWidths();
  }

  /** The message of a reduction reads back as that reduction. */
  lemma ReducedEvent(execute: bool, reference: nat, shares: nat, index: nat, l: Ledger)
    requires 0 < shares <= 500 && reference < Pow256(8)
    ensures WellFormed(ReduceEvent(execute, reference, shares)) && InRange(ReduceEvent(execute, reference, shares))
    ensures var p := Serialise(ReduceEvent(execute, reference, shares), Header(index), Zeros(if execute then 8 else 0));
      Supported(p) && EventOf(p) == ReduceEvent(execute, reference, shares)
    ensures ApplyEvent(l, ReduceEvent(execute, reference, shares), ORDER_CAPACITY) == ReduceOrder(l, reference, shares)
  {
    hide EventOf, Serialise, Supported, ReduceOrder;
    SmallWord(shares);
    SerialiseRoundTrip(ReduceEvent(execute, reference, shares), Header(index), Zeros(if execute then 8 else 0));
  }

  // ---- which stream the words make ----

  /** The number of words drawn, and the live orders as the generator lists them. */
  datatype Turn = Turn(drawn: nat, live: seq<Live>)

  /** The three words after the first `at` make an order: the lesser of two draws of a level, and 100 to 500 shares. */
  predicate Adds(source: WordSource, seed: nat, at: nat, index: nat, bid: bool, was: seq<Live>, e: Event, live: seq<Live>)
  {
    var level := Min(source.Nth(seed, at + 1) % 5, source.Nth(seed, at + 2) % 5);
    var shares := 100 * (1 + source.Nth(seed, at + 3) % 5);
    && e == Event(Add, 1000 + index, 0, shares, if bid then 1892500 - 100 * level else 1893000 + 100 * level,
                  if bid then 66 else 83, [65, 65, 80, 76, 32, 32, 32, 32, 0])
    && live == was + [Live(1000 + index, shares, level, bid)]
  }

  /** The two words after the first `at` choose a live order and whether it gives all its shares, as it does if it has
      no more than 100. An order used up makes room for the last one. */
  predicate Takes(source: WordSource, seed: nat, at: nat, execute: bool, was: seq<Live>, e: Event, live: seq<Live>)
  {
    && was != []
    && var j, n := source.Nth(seed, at + 1) % |was|, |was| - 1;
       var o := was[j];
       var shares := if source.Nth(seed, at + 2) % 2 == 1 || o.remaining <= 100 then o.remaining else 100;
       && 0 < shares
       && e == Event(if execute then Executed else Cancel, o.reference, 0, shares, 0, 0, NO_STOCK)
       && live == if shares < o.remaining then was[j := o.(remaining := o.remaining - shares)] else was[j := was[n]][..n]
  }

  /** What message `index` is, and how many words it takes: a pick, a side for an order behind the first four, what
      the order or reduction takes, and one for the gap behind it. */
  predicate Sent(source: WordSource, seed: nat, index: nat, was: Turn, e: Event, now: Turn)
  {
    var n, pick := |was.live|, source.Nth(seed, was.drawn + 1) % 100;
    if index < 4 then
      Adds(source, seed, was.drawn + 1, index, index % 2 == 0, was.live, e, now.live) && now.drawn == was.drawn + 5
    else if n == 0 || (n < 100 && pick < 45) then
      && Adds(source, seed, was.drawn + 2, index, source.Nth(seed, was.drawn + 2) % 2 == 0, was.live, e, now.live)
      && now.drawn == was.drawn + 6
    else
      Takes(source, seed, was.drawn + 1, pick < 80, was.live, e, now.live) && now.drawn == was.drawn + 4
  }

  /** The bytes of an event: locate word zero, tracking number one, and the index as timestamp. */
  predicate IsMessage(bytes: seq<byte>, e: Event, index: nat)
  {
    && (e.kind == Add || e.kind == Executed || e.kind == Cancel) && WellFormed(e)
    && bytes == Serialise(e, [0, 0, 0, 1, 0, 0] + PutBytes(index, 4), Zeros(if e.kind == Executed then 8 else 0))
  }

  /** Message i is the one that the words make; the first arrives in cycle 5, and a later one 3 cycles and the last word
      drawn for the message before it, modulo 38, after that. */
  predicate Made(source: WordSource, seed: nat, messages: seq<Message>, turns: seq<Turn>, i: nat)
    requires i < |messages| < |turns|
  {
    var m := messages[i];
    && Supported(m.bytes) && IsMessage(m.bytes, EventOf(m.bytes), i)
    && Sent(source, seed, i, turns[i], EventOf(m.bytes), turns[i + 1])
    && m.arrival == if i == 0 then 5 else messages[i - 1].arrival + 3 + source.Nth(seed, turns[i].drawn) % 38
  }

  ghost predicate IsGenerated(source: WordSource, seed: nat, messages: seq<Message>, turns: seq<Turn>)
  {
    && |turns| == |messages| + 1 && turns[0] == Turn(0, [])
    && forall i :: 0 <= i < |messages| ==> Made(source, seed, messages, turns, i)
  }

  lemma MadeOnce(source: WordSource, seed: nat, m: seq<Message>, t: seq<Turn>, n: seq<Message>, u: seq<Turn>, i: nat)
    requires i < |m| < |t| && i < |n| < |u| && t[i] == u[i] && (i > 0 ==> m[i - 1] == n[i - 1])
    requires Made(source, seed, m, t, i) && Made(source, seed, n, u, i)
    ensures m[i] == n[i] && t[i + 1] == u[i + 1]
  {
    hide Supported, EventOf, Serialise, WordSource.Nth, Sent, WellFormed, PutBytes;
    SentOnce(source, seed, i, t[i], EventOf(m[i].bytes), t[i + 1], EventOf(n[i].bytes), u[i + 1]);
  }

  /** The words determine the stream, byte by byte and cycle by cycle. */
  lemma {:induction false} GeneratedIsUnique(source: WordSource, seed: nat, m: seq<Message>, t: seq<Turn>,
                                             n: seq<Message>, u: seq<Turn>, k: nat)
    requires IsGenerated(source, seed, m, t) && IsGenerated(source, seed, n, u) && k <= |m| && k <= |n|
    ensures t[k] == u[k] && forall i :: 0 <= i < k ==> m[i] == n[i]
    decreases k
  {
    hide Made;
    if k > 0 {
      GeneratedIsUnique(source, seed, m, t, n, u, k - 1);
      MadeOnce(source, seed, m, t, n, u, k - 1);
    }
  }

  /** The number of messages whose first byte is that type. */
  function TypeCount(messages: seq<Message>, code: byte): nat
  {
    if messages == [] then 0
    else
      var n := |messages| - 1;
      TypeCount(messages[..n], code) + if messages[n].bytes != [] && messages[n].bytes[0] == code then 1 else 0
  }

  lemma NothingCounted()
    ensures forall code :: TypeCount([], code) == 0
  {
  }

  lemma TypeCountSnoc(messages: seq<Message>, m: Message, code: byte)
    ensures TypeCount(messages + [m], code)
      == TypeCount(messages, code) + if m.bytes != [] && m.bytes[0] == code then 1 else 0
  {
    assert (messages + [m])[..|messages|] == messages;
  }

  lemma NothingGenerated(source: WordSource, seed: nat)
    ensures IsGenerated(source, seed, [], [Turn(0, [])])
  {
  }

  /** One more message. */
  lemma {:induction false} GeneratedSnoc(source: WordSource, seed: nat, messages: seq<Message>, turns: seq<Turn>,
                                         m: Message, now: Turn)
    requires IsGenerated(source, seed, messages, turns)
    requires Supported(m.bytes) && IsMessage(m.bytes, EventOf(m.bytes), |messages|)
    requires Sent(source, seed, |messages|, turns[|messages|], EventOf(m.bytes), now)
    requires var i := |messages|;
      m.arrival == if i == 0 then 5 else messages[i - 1].arrival + 3 + source.Nth(seed, turns[i].drawn) % 38
    ensures IsGenerated(source, seed, messages + [m], turns + [now])
  {
    hide Supported, EventOf, WordSource.Nth, Sent, IsMessage;
    forall i | 0 <= i < |messages| + 1 ensures Made(source, seed, messages + [m], turns + [now], i) {
      if i < |messages| {
        assert Made(source, seed, messages, turns, i);
      }
    }
  }

  /** Taking the drawn shares from the drawn order. */
  lemma ShrinksAsDrawn(source: WordSource, seed: nat, at: nat, execute: bool, was: seq<Live>, j: nat, shares: nat)
    requires j < |was| && j == source.Nth(seed, at + 1) % |was| && 0 < was[j].remaining
    requires shares
      == if source.Nth(seed, at + 2) % 2 != 0 || was[j].remaining <= 100 then was[j].remaining else 100
    ensures Takes(source, seed, at, execute, was, ReduceEvent(execute, was[j].reference, shares), Shrunk(was, j, shares))
  {
    hide WordSource.Nth;
  }

  lemma AddEventIs(o: Live)
    requires o.level < PRICE_LEVELS && 0 < o.remaining
    ensures AddEvent(o) == Event(Add, o.reference, 0, o.remaining,
                                 if o.bid then 1892500 - 100 * o.level else 1893000 + 100 * o.level,
                                 if o.bid then 66 else 83, [65, 65, 80, 76, 32, 32, 32, 32, 0])
  {
  }

  lemma HeaderIs(index: nat)
    ensures Header(index) == [0, 0, 0, 1, 0, 0] + PutBytes(index, 4)
  {
    assert PutBytes(1, 4) == [0, 0, 0, 1];
  }

  lemma SentOnce(source: WordSource, seed: nat, index: nat, was: Turn, e: Event, now: Turn, f: Event, then': Turn)
    requires Sent(source, seed, index, was, e, now) && Sent(source, seed, index, was, f, then')
    ensures e == f && now == then'
  {
    hide WordSource.Nth;
  }

  /** What has been made of a stream, and when the next message arrives. */
  ghost predicate SoFar(source: WordSource, seed: nat, messages: seq<Message>, quotes: seq<BookQuote>, turns: seq<Turn>,
                        l: Ledger, arrival: nat)
  {
    && IsGenerated(source, seed, messages, turns) && Described(messages, quotes, l)
    && Paced(messages) && StreamOf(messages).Fits()
    && (forall j :: 0 <= j < |messages| && j < 4 ==> IsSeed(messages[j].bytes, j))
    && var n := |messages|;
       arrival == if n == 0 then 5 else messages[n - 1].arrival + 3 + source.Nth(seed, turns[n].drawn) % 38
  }

  lemma SoFarIs(source: WordSource, seed: nat, messages: seq<Message>, quotes: seq<BookQuote>, turns: seq<Turn>,
                l: Ledger, arrival: nat)
    requires SoFar(source, seed, messages, quotes, turns, l, arrival)
    ensures IsGenerated(source, seed, messages, turns) && Described(messages, quotes, l)
    ensures Paced(messages) && StreamOf(messages).Fits()
    ensures forall j :: 0 <= j < |messages| && j < 4 ==> IsSeed(messages[j].bytes, j)
  {
  }

  lemma NothingSoFar(source: WordSource, seed: nat)
    ensures SoFar(source, seed, [], [], [Turn(0, [])], EMPTY, 5)
  {
    NothingDescribed();
    NothingGenerated(source, seed);
  }

  lemma {:induction false} SoFarSnoc(source: WordSource, seed: nat, messages: seq<Message>, quotes: seq<BookQuote>,
                                     turns: seq<Turn>, l: Ledger, m: Message, q: BookQuote, now: Turn, after: Ledger,
                                     next: nat)
    requires SoFar(source, seed, messages, quotes, turns, l, m.arrival)
    requires Supported(m.bytes) && InRange(EventOf(m.bytes)) && 1 <= |m.bytes| <= MESSAGE_BYTES
    requires IsMessage(m.bytes, EventOf(m.bytes), |messages|)
    requires Sent(source, seed, |messages|, turns[|messages|], EventOf(m.bytes), now)
    requires |messages| < 4 ==> IsSeed(m.bytes, |messages|)
    requires ApplyEvent(l, EventOf(m.bytes), ORDER_CAPACITY) == Applied(after, true)
    requires q == QuoteOf(after, EMPTY_ASK) && after.overflow == 0 && |after.orders| <= MOST_LIVE
    requires LightTotals(after.orders) && next == m.arrival + 3 + source.Nth(seed, now.drawn) % 38
    ensures SoFar(source, seed, messages + [m], quotes + [q], turns + [now], after, next)
  {
    hide Supported, EventOf, InRange, ApplyEvent, QuoteOf, WordSource.Nth, Described, LightTotals, Sent, IsMessage, Made,
      IsSeed;
    DescribedSnoc(messages, quotes, l, m, q, after);
    GeneratedSnoc(source, seed, messages, turns, m, now);
  }

  class SyntheticItchStream {
    const live: array<Live>
    const bidQty: array<int>
    const askQty: array<int>
    var liveCount: nat
    var adds: nat
    var executes: nat
    var cancels: nat
    const source: WordSource
    var rng: nat
    var drawn: nat
    var messages: seq<Message>
    var quotes: seq<BookQuote>
    /** The interpreter's ledger after the messages so far. */
    ghost var ledger: Ledger
    ghost const seed: nat
    /** What had been drawn and was live before each message, and after the last. */
    ghost var turns: seq<Turn>

    ghost predicate Wired()
    {
      && live.Length == ORDER_CAPACITY && bidQty.Length == askQty.Length == PRICE_LEVELS && bidQty != askQty
    }

    ghost predicate Tracking(next: nat)
      requires Wired()
      reads this`liveCount, this`ledger, live, bidQty, askQty
    {
      liveCount <= MOST_LIVE && Tracks(live[..liveCount], bidQty[..], askQty[..], ledger, next)
    }

    /** Of these messages, how many have been of each type. */
    ghost predicate Counted(messages: seq<Message>)
      reads this`adds, this`executes, this`cancels
    {
      adds == TypeCount(messages, 65) && executes == TypeCount(messages, 69) && cancels == TypeCount(messages, 88)
    }

    /** The last word drawn is the one that is due. */
    ghost predicate Drawing()
      reads this`rng, this`drawn
    {
      rng < WORD && rng == source.Nth(seed, drawn)
    }

    constructor (source: WordSource, seed: nat)
      requires seed < WORD
      ensures this.source == source && this.seed == seed && Drawing() && drawn == 0
      ensures Wired() && Tracking(FIRST_REFERENCE) && messages == [] && quotes == [] && ledger == EMPTY
      ensures liveCount == adds == executes == cancels == 0
      ensures fresh(live) && fresh(bidQty) && fresh(askQty)
    {
      live := new Live[ORDER_CAPACITY](_ => Live(0, 0, 0, false));
      bidQty := new int[PRICE_LEVELS](_ => 0);
      askQty := new int[PRICE_LEVELS](_ => 0);
      this.source, this.seed, turns := source, seed, [Turn(0, [])];
      liveCount, adds, executes, cancels, rng, drawn := 0, 0, 0, 0, seed, 0;
      messages, quotes, ledger := [], [], EMPTY;
      new;
      TracksNothing();
      assert live[..liveCount] == [];
      assert bidQty[..] == askQty[..] == [0, 0, 0, 0, 0];
    }

    /** The next pseudo-random word. */
    method Next() returns (r: nat)
      requires Drawing()
      modifies `rng, `drawn
      ensures Drawing() && drawn == old(drawn) + 1 && r == source.Nth(seed, drawn)
    {
      match source {
        case Generator =>
          XorShiftWord(rng);
          rng := Xor(rng, Shl(rng, 13) % WORD);
          rng := Xor(rng, Shr(rng, 17));
          rng := Xor(rng, Shl(rng, 5) % WORD);
        case Tape(words) =>
          rng := words(drawn) % WORD;
      }
      drawn := drawn + 1;
      r := rng;
    }

    method Remember(o: Live)
      requires Wired() && liveCount < live.Length && o.level < PRICE_LEVELS
      modifies `liveCount, live, bidQty, askQty
      ensures liveCount == old(liveCount) + 1 && live[..liveCount] == old(live[..liveCount]) + [o]
      ensures bidQty[..]
        == if o.bid then old(bidQty[..])[o.level := old(bidQty[o.level]) + o.remaining] else old(bidQty[..])
      ensures askQty[..]
        == if o.bid then old(askQty[..]) else old(askQty[..])[o.level := old(askQty[o.level]) + o.remaining]
    {
      live[liveCount] := o;
      liveCount := liveCount + 1;
      var qty := if o.bid then bidQty else askQty;
      qty[o.level] := qty[o.level] + o.remaining;
    }

    /** Takes shares from a live order; the last one takes the place of one that is used up. */
    method Withdraw(index: nat, shares: int)
      requires Wired() && index < liveCount <= live.Length && live[index].level < PRICE_LEVELS
      modifies `liveCount, live, bidQty, askQty
      ensures liveCount <= old(liveCount) && live[..liveCount] == Shrunk(old(live[..liveCount]), index, shares)
      ensures var o := old(live[index]);
        && bidQty[..] == (if o.bid then old(bidQty[..])[o.level := old(bidQty[o.level]) - shares] else old(bidQty[..]))
        && askQty[..] == (if o.bid then old(askQty[..]) else old(askQty[..])[o.level := old(askQty[o.level]) - shares])
    {
      var o := live[index];
      var qty := if o.bid then bidQty else askQty;
      qty[o.level] := qty[o.level] - shares;
      live[index] := o.(remaining := o.remaining - shares);
      if live[index].remaining == 0 {
        live[index] := live[liveCount - 1];
        liveCount := liveCount - 1;
      }
    }

    /** A new order of 100 to 500 shares, its level biased towards the best. */
    method AddOrder(index: nat, bid: bool) returns (bytes: seq<byte>)
      requires Wired() && Tracking(FIRST_REFERENCE + index) && Drawing() && liveCount < MOST_LIVE
      requires FIRST_REFERENCE + index < Pow256(8)
      modifies `liveCount, `adds, `rng, `drawn, `ledger, live, bidQty, askQty
      ensures Drawing() && drawn == old(drawn) + 3 && Tracking(FIRST_REFERENCE + index + 1)
      ensures |bytes| == 36 && Supported(bytes) && InRange(EventOf(bytes)) && IsMessage(bytes, EventOf(bytes), index)
      ensures Adds(source, seed, old(drawn), index, bid, old(live[..liveCount]), EventOf(bytes), live[..liveCount])
      ensures liveCount == old(liveCount) + 1
      ensures ApplyEvent(old(ledger), EventOf(bytes), ORDER_CAPACITY) == Applied(ledger, true)
      ensures adds == old(adds) + 1 && bytes[0] == 65
    {
      hide Tracks, Supported, EventOf, Serialise, InRange, ApplyEvent, WellFormed, WordSource.Nth, LevelPrice,
        Ledgers.AddOrder, Pow256, PutBytes, Header, AddEvent;
      var a := Next();
      var b := Next();
      var level := Min(a % PRICE_LEVELS, b % PRICE_LEVELS);
      var r := Next();
      var shares := 100 * (1 + r % 5);
      var o := Live(FIRST_REFERENCE + index, shares, level, bid);
      bytes := AddBytes(o, index);
      AddedEvent(o, index, ledger);
      AddEventIs(o);
      HeaderIs(index);
      TracksAdd(live[..liveCount], bidQty[..], askQty[..], ledger, o);
      ledger := Ledgers.AddOrder(ledger, o.reference, bid, LevelPrice(bid, level), shares, ORDER_CAPACITY).ledger;
      Remember(o);
      adds := adds + 1;
    }

    /** All that is left of a live order, or 100 shares of it, executed or cancelled. */
    method ReduceOrder(index: nat, execute: bool) returns (bytes: seq<byte>)
      requires Wired() && Tracking(FIRST_REFERENCE + index) && Drawing() && 0 < liveCount
      requires FIRST_REFERENCE + index < Pow256(8)
      modifies `liveCount, `executes, `cancels, `rng, `drawn, `ledger, live, bidQty, askQty
      ensures Drawing() && drawn == old(drawn) + 2 && Tracking(FIRST_REFERENCE + index + 1)
      ensures |bytes| == (if execute then 31 else 23) && Supported(bytes) && InRange(EventOf(bytes))
      ensures IsMessage(bytes, EventOf(bytes), index)
      ensures Takes(source, seed, old(drawn), execute, old(live[..liveCount]), EventOf(bytes), live[..liveCount])
      ensures liveCount <= old(liveCount)
      ensures ApplyEvent(old(ledger), EventOf(bytes), ORDER_CAPACITY) == Applied(ledger, true)
      ensures executes == old(executes) + (if execute then 1 else 0)
      ensures cancels == old(cancels) + (if execute then 0 else 1) && bytes[0] == if execute then 69 else 88
    {
      hide Tracks, Supported, EventOf, Serialise, InRange, ApplyEvent, WellFormed, WordSource.Nth, LevelPrice,
        Ledgers.ReduceOrder, Pow256, PutBytes, Header, Takes, Shrunk;
      var r := Next();
      var at := r % liveCount;
      var full := Next();
      var o := live[at];
      TracksLive(live[..liveCount], bidQty[..], askQty[..], ledger, FIRST_REFERENCE + index, at);
      var shares := if full % 2 != 0 || o.remaining <= 100 then o.remaining else 100;
      bytes := ReduceBytes(execute, o.reference, shares, index);
      ReducedEvent(execute, o.reference, shares, index, ledger);
      HeaderIs(index);
      ShrinksAsDrawn(source, seed, old(drawn), execute, live[..liveCount], at, shares);
      TracksReduce(live[..liveCount], bidQty[..], askQty[..], ledger, FIRST_REFERENCE + index, at, shares);
      ledger := Ledgers.ReduceOrder(ledger, o.reference, shares).ledger;
      Withdraw(at, shares);
      TracksLater(live[..liveCount], bidQty[..], askQty[..], ledger, FIRST_REFERENCE + index);
      if execute {
        executes := executes + 1;
      } else {
        cancels := cancels + 1;
      }
    }

    /** The best level with a quantity on each side. */
    method UpdateQuote(ghost next: nat) returns (q: BookQuote)
      requires Wired() && Tracking(next)
      ensures q == QuoteOf(ledger, EMPTY_ASK)
    {
      hide Tracks, LevelPrice, QuoteOf;
      q := BookQuote(0, 0, EMPTY_ASK, 0);
      var b := 0;
      while b < PRICE_LEVELS && bidQty[b] <= 0
        invariant b <= PRICE_LEVELS && forall v :: 0 <= v < b ==> bidQty[v] <= 0
      {
        b := b + 1;
      }
      if b < PRICE_LEVELS {
        q := q.(bidPrice := LevelPrice(true, b), bidQty := bidQty[b]);
      }
      var a := 0;
      while a < PRICE_LEVELS && askQty[a] <= 0
        invariant a <= PRICE_LEVELS && forall v :: 0 <= v < a ==> askQty[v] <= 0
      {
        a := a + 1;
      }
      if a < PRICE_LEVELS {
        q := q.(askPrice := LevelPrice(false, a), askQty := askQty[a]);
      }
      TracksQuote(live[..liveCount], bidQty[..], askQty[..], ledger, next, b, a);
    }

    /** One message: an order while there are none to reduce, or one in 45 of 100 draws below 100 live
        orders; otherwise an execution or a cancellation. */
    method Send(index: nat) returns (bytes: seq<byte>)
      requires Wired() && Tracking(FIRST_REFERENCE + index) && Drawing() && liveCount <= index
      requires FIRST_REFERENCE + index < Pow256(8)
      modifies `liveCount, `adds, `executes, `cancels, `rng, `drawn, `ledger, live, bidQty, askQty
      ensures Drawing() && Tracking(FIRST_REFERENCE + index + 1) && liveCount <= index + 1
      ensures 4 <= |bytes| <= 36 && Supported(bytes) && InRange(EventOf(bytes))
      ensures index < 4 ==> IsSeed(bytes, index)
      ensures IsMessage(bytes, EventOf(bytes), index)
      ensures adds == old(adds) + (if bytes[0] == 65 then 1 else 0)
      ensures executes == old(executes) + (if bytes[0] == 69 then 1 else 0)
      ensures cancels == old(cancels) + (if bytes[0] == 88 then 1 else 0)
      ensures Sent(source, seed, index, Turn(old(drawn), old(live[..liveCount])), EventOf(bytes),
                   Turn(drawn + 1, live[..liveCount]))
      ensures ApplyEvent(old(ledger), EventOf(bytes), ORDER_CAPACITY) == Applied(ledger, true)
    {
      hide Tracks, Supported, EventOf, InRange, ApplyEvent, WordSource.Nth, Pow256, IsMessage;
      var r := Next();
      var pick := r % 100;
      var mustAdd := index < 4 || liveCount == 0;
      var mustReduce := liveCount >= 100;
      if mustAdd || (!mustReduce && pick < 45) {
        var bid := index % 2 == 0;
        if 4 <= index {
          var side := Next();
          bid := side % 2 == 0;
        }
        bytes := AddOrder(index, bid);
      } else if pick < 80 {
        bytes := ReduceOrder(index, true);
      } else {
        bytes := ReduceOrder(index, false);
      }
    }

    /** The stream as far as message i, and the state in which it is made. */
    ghost predicate Going(i: nat, arrival: nat)
      requires Wired()
      reads this, live, bidQty, askQty
    {
      && |messages| == i && |turns| == i + 1 && liveCount <= i && Drawing() && Tracking(FIRST_REFERENCE + i)
      && SoFar(source, seed, messages, quotes, turns, ledger, arrival)
      && turns[i] == Turn(drawn, live[..liveCount]) && Counted(messages)
    }

    /** The body of the loop: one message, the gap behind it, and the quote after it. */
    method Emit(i: nat, arrival: nat) returns (next: nat)
      requires Wired() && Going(i, arrival) && FIRST_REFERENCE + i < Pow256(8)
      modifies this, live, bidQty, askQty
      ensures Going(i + 1, next)
    {
      hide Tracks, Supported, EventOf, InRange, ApplyEvent, QuoteOf, WordSource.Nth, Pow256, LightTotals, SoFar, Sent,
        IsMessage, TypeCount, IsSeed;
      ghost var was := ledger;
      var bytes := Send(i);
      var m := Message(bytes, arrival);
      var gap := Next();
      next := arrival + 3 + gap % 38;
      var q := UpdateQuote(FIRST_REFERENCE + i + 1);
      TracksSize(live[..liveCount], bidQty[..], askQty[..], ledger, FIRST_REFERENCE + i + 1);
      TracksLight(live[..liveCount], bidQty[..], askQty[..], ledger, FIRST_REFERENCE + i + 1);
      ghost var turn := Turn(drawn, live[..liveCount]);
      SoFarSnoc(source, seed, messages, quotes, turns, was, m, q, turn, ledger, next);
      TypeCountSnoc(messages, m, 65);
      TypeCountSnoc(messages, m, 69);
      TypeCountSnoc(messages, m, 88);
      messages, quotes, turns := messages + [m], quotes + [q], turns + [turn];
    }

    /** The whole stream: every message is the one that the words make and accepted by the interpreter, none drops a
        level or fills the table, and the quote after each is the one expected. */
    method Generate(count: nat)
      requires Wired() && Tracking(FIRST_REFERENCE) && Drawing() && drawn == 0
      requires messages == [] && quotes == [] && ledger == EMPTY
      requires liveCount == adds == executes == cancels == 0 && FIRST_REFERENCE + count <= Pow256(8)
      modifies this, live, bidQty, askQty
      ensures |messages| == count && Described(messages, quotes, ledger) && IsGenerated(source, seed, messages, turns)
      ensures Paced(messages) && StreamOf(messages).Fits() && Counted(messages)
      ensures forall i :: 0 <= i < count && i < 4 ==> IsSeed(messages[i].bytes, i)
    {
      hide Tracks, WordSource.Nth, Pow256, SoFar, TypeCount, IsSeed, Described, IsGenerated;
      var arrival := 5;
      turns := [Turn(0, [])];
      NothingSoFar(source, seed);
      NothingCounted();
      assert live[..liveCount] == [];
      for i := 0 to count
        invariant Going(i, arrival)
      {
        arrival := Emit(i, arrival);
      }
      SoFarIs(source, seed, messages, quotes, turns, ledger, arrival);
    }
  }
}
