/** The two independent accounts that the pipeline of include/pipeline/tick_to_trade.hpp is proved
    against: when each message leaves the wire (a queueing recurrence), and what a plain sequential
    interpreter makes of the messages. */
module Schedules {
  import opened Words
  import opened Parser
  import opened Ofi
  import opened Ledgers
  import Pcs

  datatype Message = Message(bytes: seq<byte>, arrival: nat)

  /** Mentioning At(i) is what makes the verifier look at message i. */
  ghost predicate At(i: int)
  {
    true
  }

  /** How far the pipeline has come at the start of a cycle: how many messages had moved on to the parser
      1 to 10 cycles ago, how many had been received until the last cycle and until this one, and how
      many have been picked up from the wire. */
  datatype Clock = Clock(d10: int, d9: int, d8: int, d7: int, d6: int, d5: int, d4: int, d3: int, d2: int, d1: int,
                         e1: int, e0: int, next: int) {

    /** Counts grow. The parser takes one message in any two cycles; the MAC and the wire hold one each. */
    predicate Spaced(count: nat)
    {
      && 0 <= d10 <= d9 <= d8 <= d7 <= d6 <= d5 <= d4 <= d3 <= d2 <= d1 <= e1 <= e0 <= next <= count
      && d8 <= d10 + 1 && d7 <= d9 + 1 && d6 <= d8 + 1 && d5 <= d7 + 1 && d4 <= d6 + 1
      && d3 <= d5 + 1 && d2 <= d4 + 1 && d1 <= d3 + 1 && e0 <= d1 + 1 && next <= e0 + 1
    }
  }

  /** The stream concept of the pipeline: the messages and the two constants of the stream type. */
  datatype Stream = Stream(messages: seq<Message>, orderCapacity: nat, emptyAsk: int) {

    function Count(): nat
    {
      |messages|
    }

    // ---- time ----

    function Blocks(i: nat): nat
      requires i < Count()
    {
      Pcs.BlockCount(|messages[i].bytes|)
    }

    /** The cycle in which the first block of message i is received. */
    function Start(i: nat): nat
      requires i < Count()
      ensures messages[i].arrival <= Start(i)
      decreases i, 0
    {
      if i == 0 then messages[i].arrival else Max(messages[i].arrival, Finish(i - 1))
    }

    /** The first cycle in which the MAC has it and the wire is free again: the MAC must be free, too. */
    function Finish(i: nat): nat
      requires i < Count()
      decreases i, 2
    {
      if i == 0 then Start(i) + Blocks(i) else Max(Start(i) + Blocks(i), Framed(i - 1) + 1)
    }

    /** The cycle in which it moves on to the parser, which takes two cycles for each message. */
    function Framed(i: nat): nat
      requires i < Count()
      decreases i, 3
    {
      if i == 0 then Finish(i) else Max(Finish(i), Framed(i - 1) + 2)
    }

    /** Inclusive cycles from arrival to the posted decision record. */
    function Latency(i: nat): nat
      requires i < Count()
      ensures 10 <= Latency(i)
    {
      StartsInTime(i);
      Framed(i) + 10 - messages[i].arrival
    }

    lemma StartsInTime(i: nat)
      requires i < Count()
      ensures messages[i].arrival <= Start(i) && Start(i) + Blocks(i) <= Finish(i) <= Framed(i)
    {
    }

    /** Each message takes at least one block and fits the buffers of the first stages. */
    predicate Fits()
    {
      forall i :: 0 <= i < Count() ==> 1 <= |messages[i].bytes| <= 44
    }

    /** Each message takes at least two blocks, as the supported ones do. */
    predicate Flows()
    {
      forall i :: 0 <= i < Count() ==> 4 <= |messages[i].bytes|
    }

    /** Then nothing ever waits behind the wire: a message leaves it when its last block is in, and moves
        on at once. */
    lemma {:induction false} NothingStalls(i: nat)
      requires i < Count() && forall j :: 0 <= j <= i ==> 4 <= |messages[j].bytes|
      ensures Framed(i) == Finish(i) == Start(i) + Blocks(i)
      ensures Latency(i) == (Start(i) - messages[i].arrival) + Blocks(i) + 10
      ensures Pcs.JustHolds(Blocks(i), |messages[i].bytes|)
    {
      assert 2 <= Blocks(i);
      if i > 0 {
        NothingStalls(i - 1);
      }
    }

    lemma {:induction false} FramedGrows(i: nat, j: nat)
      requires i <= j < Count()
      ensures Framed(i) + 2 * (j - i) <= Framed(j)
      decreases j
    {
      if i < j {
        FramedGrows(i, j - 1);
      }
    }

    lemma {:induction false} FinishGrows(i: nat, j: nat)
      requires Fits() && i <= j < Count()
      ensures Start(i) <= Start(j) && Finish(i) + (j - i) <= Finish(j)
      ensures i < j ==> Finish(i) <= Start(j) && Framed(i) < Finish(j)
      decreases j
    {
      if i < j {
        FinishGrows(i, j - 1);
        FramedGrows(i, j - 1);
        assert 1 <= Blocks(j);
      }
    }

    function DoneAmong(n: nat, t: int): (k: nat)
      requires n <= Count()
      ensures k <= n
    {
      if n == 0 then 0 else if Framed(n - 1) <= t then n else DoneAmong(n - 1, t)
    }

    function ReceivedAmong(n: nat, t: int): (k: nat)
      requires n <= Count()
      ensures k <= n
    {
      if n == 0 then 0 else if Finish(n - 1) <= t then n else ReceivedAmong(n - 1, t)
    }

    function StartedAmong(n: nat, t: int): (k: nat)
      requires n <= Count()
      ensures k <= n
    {
      if n == 0 then 0 else if Start(n - 1) <= t then n else StartedAmong(n - 1, t)
    }

    lemma {:induction false} DoneAmongIs(n: nat, t: int)
      requires n <= Count()
      ensures forall i :: 0 <= i < n ==> (i < DoneAmong(n, t) <==> Framed(i) <= t)
      decreases n
    {
      hide Framed, Start, Finish;
      if n > 0 {
        DoneAmongIs(n - 1, t);
        forall i | 0 <= i < n ensures Framed(i) <= Framed(n - 1) { FramedGrows(i, n - 1); }
      }
    }

    lemma {:induction false} ReceivedAmongIs(n: nat, t: int)
      requires Fits() && n <= Count()
      ensures forall i :: 0 <= i < n ==> (i < ReceivedAmong(n, t) <==> Finish(i) <= t)
      decreases n
    {
      hide Framed, Start, Finish;
      if n > 0 {
        ReceivedAmongIs(n - 1, t);
        forall i | 0 <= i < n ensures Finish(i) <= Finish(n - 1) { FinishGrows(i, n - 1); }
      }
    }

    lemma {:induction false} StartedAmongIs(n: nat, t: int)
      requires Fits() && n <= Count()
      ensures forall i :: 0 <= i < n ==> (i < StartedAmong(n, t) <==> Start(i) <= t)
      decreases n
    {
      hide Framed, Start, Finish;
      if n > 0 {
        StartedAmongIs(n - 1, t);
        forall i | 0 <= i < n ensures Start(i) <= Start(n - 1) { FinishGrows(i, n - 1); }
      }
    }

    /** How many messages have moved on to the parser by cycle t. */
    function Done(t: int): (k: nat)
      ensures k <= Count() && forall i :: 0 <= i < Count() ==> (i < k <==> Framed(i) <= t)
    {
      DoneAmongIs(Count(), t);
      DoneAmong(Count(), t)
    }

    /** How many messages the MAC has received by cycle t. */
    function Received(t: int): (k: nat)
      requires Fits()
      ensures k <= Count() && forall i :: 0 <= i < Count() ==> (i < k <==> Finish(i) <= t)
    {
      ReceivedAmongIs(Count(), t);
      ReceivedAmong(Count(), t)
    }

    /** How many messages have been picked up from the wire by cycle t. */
    function Started(t: int): (k: nat)
      requires Fits()
      ensures k <= Count() && forall i :: 0 <= i < Count() ==> (i < k <==> Start(i) <= t)
    {
      StartedAmongIs(Count(), t);
      StartedAmong(Count(), t)
    }

    /** Two messages never move on in neighbouring cycles. */
    lemma Spacing(t: int)
      ensures Done(t - 2) <= Done(t - 1) <= Done(t) <= Done(t - 2) + 1
    {
      var a, c := Done(t - 2), Done(t);
      if c > 0 { assert Framed(c - 1) <= t; }
      if a > 0 { assert Framed(a - 1) <= t - 2; }
      var b := Done(t - 1);
      if b > 0 { assert Framed(b - 1) <= t - 1; }
      if a + 1 < Count() { FramedGrows(a, a + 1); }
    }

    /** At most one message is on the wire, and at most one in the MAC. */
    lemma OneEach(t: int)
      requires Fits()
      ensures Received(t) <= Started(t - 1) <= Received(t) + 1
      ensures Done(t - 1) <= Received(t - 1) <= Received(t) <= Done(t - 1) + 1
      ensures Done(t) <= Received(t)
    {
      var d, f, e, r, s := Done(t - 1), Done(t), Received(t - 1), Received(t), Started(t - 1);
      if d > 0 { assert Framed(d - 1) <= t - 1; StartsInTime(d - 1); }
      if f > 0 { assert Framed(f - 1) <= t; StartsInTime(f - 1); }
      if e > 0 { assert Finish(e - 1) <= t - 1; }
      if r > 0 { assert Finish(r - 1) <= t; assert 1 <= Blocks(r - 1); StartsInTime(r - 1); }
      if r + 1 < Count() { FinishGrows(r, r + 1); }
      if d + 1 < Count() { FinishGrows(d, d + 1); }
    }

    /** The clock of the whole pipeline at the start of cycle t. */
    function ClockAt(t: int): (c: Clock)
      requires Fits()
      ensures c.Spaced(Count())
    {
      Spacing(t - 1); Spacing(t - 2); Spacing(t - 3); Spacing(t - 4);
      Spacing(t - 5); Spacing(t - 6); Spacing(t - 7); Spacing(t - 8);
      OneEach(t);
      Clock(Done(t - 10), Done(t - 9), Done(t - 8), Done(t - 7), Done(t - 6), Done(t - 5),
            Done(t - 4), Done(t - 3), Done(t - 2), Done(t - 1), Received(t - 1), Received(t), Started(t - 1))
    }

    lemma NothingYet(t: int)
      requires Fits() && t <= 0
      ensures Done(t) == 0 && Received(t) == 0 && Started(t - 1) == 0
    {
      if Count() > 0 {
        StartsInTime(0);
        assert 1 <= Blocks(0);
        assert t < Finish(0) <= Framed(0) && t - 1 < Start(0);
      }
    }

    lemma ClockAtZero()
      requires Fits()
      ensures ClockAt(0) == Clock(0, 0, 0, 0, 0, 0, 0, 0, 0, 0, 0, 0, 0)
    {
      forall t: int | -10 <= t <= 0 ensures Done(t) == 0 && Received(t) == 0 { NothingYet(t); }
      NothingYet(0);
    }

    /** A message moves on in the cycle it is counted from. */
    lemma MovesAt(i: nat, t: int)
      requires Done(t - 1) <= i < Done(t)
      ensures Framed(i) == t
    {
    }

    // ---- data ----

    /** The ledger after the first k messages, applied one by one to an empty table and book. */
    ghost function After(k: nat): Ledger
      requires k <= Count()
    {
      if k == 0 then EMPTY
      else if Supported(messages[k - 1].bytes) then
        ApplyEvent(After(k - 1), EventOf(messages[k - 1].bytes), orderCapacity).ledger
      else After(k - 1)
    }

    /** Message i is supported and the interpreter accepts it. */
    ghost predicate Accepted(i: nat)
      requires i < Count()
    {
      && Supported(messages[i].bytes)
      && ApplyEvent(After(i), EventOf(messages[i].bytes), orderCapacity).ok
    }

    ghost predicate AllAccepted()
    {
      forall i {:trigger At(i)} :: At(i) && 0 <= i < Count() ==> Accepted(i)
    }

    /** Message k is the first that the interpreter does not accept. */
    ghost predicate FirstFailure(k: nat)
    {
      k < Count() && !Accepted(k) && forall i :: 0 <= i < k ==> Accepted(i)
    }

    /** The cycle in which such a message stops the pipeline: at the parser, or at the book. */
    ghost function FailCycle(k: nat): nat
      requires k < Count()
    {
      if Supported(messages[k].bytes) then Framed(k) + 3 else Framed(k) + 2
    }

    /** A message of one to three bytes takes one block and is never accepted. If it is the first such
        message it fails two cycles after it has been received, or three if the one before it has just
        been: then it waits a cycle for the parser. */
    lemma ShortMessageFails(k: nat)
      requires Fits() && k < Count() && |messages[k].bytes| < 4
      requires forall i :: 0 <= i < k ==> 4 <= |messages[i].bytes|
      ensures !Supported(messages[k].bytes) && !Accepted(k) && Finish(k) == Start(k) + 1
      ensures FailCycle(k) == Finish(k) + if k > 0 && Finish(k - 1) + 1 == Finish(k) then 3 else 2
    {
      assert Blocks(k) == 1;
      if k > 0 {
        NothingStalls(k - 1);
      }
    }

    /** The engine's cycle when the last decision record is out. */
    function EndCycle(): nat
    {
      if Count() == 0 then 0 else Framed(Count() - 1) + 10
    }

    /** Before cycle t no unsupported message has left the parser, and no unaccepted one the book. */
    ghost predicate CleanAt(t: int)
      requires Fits()
    {
      && (forall i :: 0 <= i < Done(t - 3) ==> Supported(messages[i].bytes))
      && (forall i :: 0 <= i < Done(t - 4) ==> Accepted(i))
    }

    lemma CleanAtFirst(t: int)
      requires Fits() && t <= 0
      ensures CleanAt(t)
    {
      NothingYet(t - 3);
      NothingYet(t - 4);
    }

    lemma AlwaysClean(t: int)
      requires Fits() && AllAccepted()
      ensures CleanAt(t)
    {
      forall i | 0 <= i < Count() ensures Accepted(i) { assert At(i); }
      forall i | 0 <= i < Done(t - 3) ensures Supported(messages[i].bytes) { assert Accepted(i); }
    }

    lemma AcceptedIsSupported(i: nat)
      requires i < Count() && Accepted(i)
      ensures Supported(messages[i].bytes)
    {
    }

    /** With the counts at hand, the first failure alone decides. */
    lemma CleanIff(t: int, k: nat)
      requires Fits() && FirstFailure(k)
      ensures CleanAt(t) <==> Done(t - 4) <= k && (k < Done(t - 3) ==> Supported(messages[k].bytes))
    {
      hide Accepted, Supported, Done;
      Spacing(t - 3);
      if Done(t - 4) <= k && (k < Done(t - 3) ==> Supported(messages[k].bytes)) {
        forall i | 0 <= i < Done(t - 3) ensures Supported(messages[i].bytes) {
          if i < k { AcceptedIsSupported(i); }
        }
      }
    }

    /** The first failure decides from which cycle on it is not clean any more. */
    lemma CleanUntil(t: int, k: nat)
      requires Fits() && FirstFailure(k)
      ensures CleanAt(t) <==> t <= FailCycle(k)
    {
      hide CleanAt, Framed, Done, Accepted, Supported;
      Spacing(t - 3);
      CleanIff(t, k);
    }

    /** Every stream is accepted as a whole or has a first failure. */
    lemma {:induction false} FailureOrNone(n: nat) returns (k: nat)
      requires n <= Count()
      ensures k <= n && (forall i :: 0 <= i < k ==> Accepted(i))
      ensures k < n ==> FirstFailure(k)
    {
      if n == 0 {
        k := 0;
      } else {
        k := FailureOrNone(n - 1);
        if k == n - 1 && Accepted(k) {
          k := n;
        }
      }
    }

    ghost function Quote(i: nat): BookQuote
      requires i < Count()
    {
      QuoteOf(After(i + 1), emptyAsk)
    }

    ghost function Previous(i: nat): Option<BookQuote>
      requires i <= Count()
    {
      if i == 0 then None else Some(Quote(i - 1))
    }

    ghost function OfiOf(i: nat): int
      requires i < Count()
    {
      Contribution(Previous(i), Quote(i))
    }

    ghost function TotalOfi(k: nat): int
      requires k <= Count()
    {
      if k == 0 then 0 else TotalOfi(k - 1) + OfiOf(k - 1)
    }

    ghost function Quotes(k: nat): (q: seq<BookQuote>)
      requires k <= Count()
      ensures |q| == k
    {
      seq(k, i requires 0 <= i < k => Quote(i))
    }

    /** The interpreter's total is that of its quotes, each against the one before it. */
    lemma {:induction false} TotalIsSum(k: nat)
      requires k <= Count()
      ensures TotalOfi(k) == OfiSum(Quotes(k))
    {
      hide Quote, Contribution;
      if k > 0 {
        TotalIsSum(k - 1);
        assert Quotes(k)[..k - 1] == Quotes(k - 1);
      }
    }

    /** No sum of fewer than 2 to the 31 values runs over an int64. */
    lemma {:induction false} TotalFits(k: nat)
      requires k <= Count()
      ensures INT32_MIN * k <= TotalOfi(k) <= INT32_MAX * k
    {
      hide Quote, Imbalance;
      if k > 0 {
        TotalFits(k - 1);
      }
    }
  }
}
