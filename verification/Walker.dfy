/** The length-framed message walker of tools/itch_analysis.hpp. */
module Walkers {
  import opened Words

  /** Message lengths of the NASDAQ TotalView-ITCH 5.0 specification; 0 for any other type. */
  function SpecLength(t: byte): (n: nat)
    ensures n <= 50
  {
    match t
    case 83 => 12   // S
    case 82 => 39   // R
    case 72 => 25   // H
    case 89 => 20   // Y
    case 76 => 26   // L
    case 86 => 35   // V
    case 87 => 12   // W
    case 75 => 28   // K
    case 74 => 35   // J
    case 104 => 21  // h
    case 65 => 36   // A
    case 70 => 40   // F
    case 69 => 31   // E
    case 67 => 36   // C
    case 88 => 23   // X
    case 68 => 19   // D
    case 85 => 35   // U
    case 80 => 44   // P
    case 81 => 40   // Q
    case 66 => 19   // B
    case 73 => 50   // I
    case 78 => 20   // N
    case _ => 0
  }

  predicate SpecMessage(m: seq<byte>)
  {
    m != [] && SpecLength(m[0]) == |m|
  }

  function Frame(m: seq<byte>): (framed: seq<byte>)
    ensures |framed| == 2 + |m|
  {
    PutBytes(|m|, 2) + m
  }

  function Framed(messages: seq<seq<byte>>): seq<byte>
  {
    if messages == [] then [] else Frame(messages[0]) + Framed(messages[1..])
  }

  datatype Stop = End | TruncatedTail | BadFraming

  /** Why the walker stops in front of `rest`; None if it does not. */
  datatype Verdict = Continue(length: nat) | Halt(stop: Stop)

  function Judge(rest: seq<byte>): (v: Verdict)
    ensures v.Continue? ==> 2 + v.length <= |rest| && SpecMessage(rest[2..2 + v.length])
  {
    if rest == [] then Halt(End)
    else if |rest| < 2 then Halt(TruncatedTail)
    else
      var framed := BigEndian(rest[..2]);
      if |rest| - 2 < framed then Halt(TruncatedTail)
      else if framed == 0 || SpecLength(rest[2]) != framed then Halt(BadFraming)
      else Continue(framed)
  }

  datatype Walked = Walked(messages: seq<seq<byte>>, stop: Stop)

  /** The messages that walking `data` returns, and why it stops. */
  function Walk(data: seq<byte>): Walked
  {
    match Judge(data)
    case Halt(stop) => Walked([], stop)
    case Continue(length) =>
      var rest := Walk(data[2 + length..]);
      Walked([data[2..2 + length]] + rest.messages, rest.stop)
  }

  class Walker {
    const data: seq<byte>
    var offset: nat
    var stop: Stop

    constructor (data: seq<byte>)
      ensures this.data == data && offset == 0 && stop == End
    {
      this.data := data;
      offset, stop := 0, End;
    }

    /** The next message body, or nothing once `stop` is decided. */
    method Next() returns (found: bool, m: seq<byte>)
      requires offset <= |data|
      modifies this
      ensures offset <= |data|
      ensures var verdict := Judge(data[old(offset)..]);
              match verdict
              case Continue(length) =>
                && found && m == data[old(offset)..][2..2 + length]
                && offset == old(offset) + 2 + length && stop == old(stop)
              case Halt(reason) => !found && m == [] && offset == old(offset) && stop == reason
    {
      if offset >= |data| {
        stop := End;
        return false, [];
      }
      if |data| - offset < 2 {
        stop := TruncatedTail;
        return false, [];
      }
      ghost var rest := data[offset..];
      var framed := ReadBigEndian(data[offset..offset + 2]);
      assert rest[..2] == data[offset..offset + 2];
      if |data| - offset - 2 < framed {
        stop := TruncatedTail;
        return false, [];
      }
      if framed == 0 || SpecLength(data[offset + 2]) != framed {
        stop := BadFraming;
        return false, [];
      }
      m := data[offset + 2..offset + 2 + framed];
      assert m == rest[2..2 + framed];
      offset := offset + 2 + framed;
      found := true;
    }

    /** The loop every user of the walker runs. */
    method WalkAll() returns (messages: seq<seq<byte>>)
      requires offset <= |data|
      modifies this
      ensures Walk(data[old(offset)..]) == Walked(messages, stop)
    {
      hide Judge, SpecMessage;
      messages := [];
      ghost var all := Walk(data[offset..]);
      var found, m := Next();
      ghost var rest := Walk(data[offset..]);
      while found
        invariant offset <= |data| && rest == Walk(data[offset..])
        invariant all == if found then Walked(messages + [m] + rest.messages, rest.stop) else Walked(messages, stop)
        decreases |data| - offset, found
      {
        ghost var tail := data[offset..];
        messages := messages + [m];
        found, m := Next();
        rest := Walk(data[offset..]);
        assert found ==> tail[2 + |m|..] == data[offset..];
      }
    }
  }

  // ---- truncation ----

  lemma FrameJudged(m: seq<byte>, tail: seq<byte>)
    requires SpecMessage(m)
    ensures Judge(Frame(m) + tail) == Continue(|m|)
    ensures (Frame(m) + tail)[2..2 + |m|] == m && (Frame(m) + tail)[2 + |m|..] == tail
  {
    var data := Frame(m) + tail;
    assert data[..2] == PutBytes(|m|, 2);
    ByteWidths();
    PutGet(|m|, 2);
    assert data[2] == m[0];
  }

  /** A frame cut short is a truncated tail, never bad framing. */
  lemma CutFrameJudged(m: seq<byte>, n: nat)
    requires SpecMessage(m) && 0 < n < 2 + |m|
    ensures Judge(Frame(m)[..n]) == Halt(TruncatedTail)
  {
    if 2 <= n {
      assert Frame(m)[..n][..2] == PutBytes(|m|, 2);
      ByteWidths();
      PutGet(|m|, 2);
    }
  }

  lemma NothingToWalk()
    ensures Walk([]) == Walked([], End)
  {
  }

  lemma WalkCut(m: seq<byte>, n: nat)
    requires SpecMessage(m) && 0 < n < 2 + |m|
    ensures Walk(Frame(m)[..n]) == Walked([], TruncatedTail)
  {
    CutFrameJudged(m, n);
  }

  lemma WalkFrame(m: seq<byte>, tail: seq<byte>)
    requires SpecMessage(m)
    ensures Walk(Frame(m) + tail) == Walked([m] + Walk(tail).messages, Walk(tail).stop)
  {
    FrameJudged(m, tail);
  }

  // ---- any bytes ----

  /** The messages framed at the front of `data`, one after the other, up to bytes where the walker halts. */
  ghost predicate IsWalk(data: seq<byte>, w: Walked)
  {
    && (forall i :: 0 <= i < |w.messages| ==> SpecMessage(w.messages[i]))
    && Framed(w.messages) <= data
    && Judge(data[|Framed(w.messages)|..]) == Halt(w.stop)
  }

  /** A message that is judged whole is framed by the bytes in front of it. */
  lemma JudgedFrame(data: seq<byte>)
    requires Judge(data).Continue?
    ensures var n := Judge(data).length; data == Frame(data[2..2 + n]) + data[2 + n..]
  {
    GetPut(data[..2]);
  }

  lemma FramedCons(m: seq<byte>, messages: seq<seq<byte>>)
    ensures Framed([m] + messages) == Frame(m) + Framed(messages)
  {
    assert ([m] + messages)[1..] == messages;
  }

  lemma FrameBefore(m: seq<byte>, tail: seq<byte>, w: Walked)
    requires SpecMessage(m) && IsWalk(tail, w)
    ensures IsWalk(Frame(m) + tail, Walked([m] + w.messages, w.stop))
  {
    hide SpecMessage, Frame, Framed, Judge;
    FramedCons(m, w.messages);
    var framed := Framed(w.messages);
    assert tail == framed + tail[|framed|..];
    assert Frame(m) + tail == Frame(m) + framed + tail[|framed|..];
  }

  lemma {:induction false} WalkIsWalk(data: seq<byte>)
    ensures IsWalk(data, Walk(data))
  {
    hide SpecMessage, Frame, Framed, Judge, IsWalk;
    match Judge(data) {
      case Halt(stop) =>
        NothingWalked(data, stop);
      case Continue(n) =>
        WalkIsWalk(data[2 + n..]);
        JudgedFrame(data);
        FrameBefore(data[2..2 + n], data[2 + n..], Walk(data[2 + n..]));
    }
  }

  lemma NothingWalked(data: seq<byte>, stop: Stop)
    requires Judge(data) == Halt(stop)
    ensures IsWalk(data, Walked([], stop))
  {
    assert data[0..] == data;
  }

  lemma {:induction false} OnlyWalk(data: seq<byte>, w: Walked)
    requires IsWalk(data, w)
    ensures Walk(data) == w
    decreases |w.messages|
  {
    hide SpecMessage, Frame, Judge;
    if w.messages != [] {
      var m := w.messages[0];
      var tail := data[2 + |m|..];
      assert data == Frame(m) + tail;
      WalkFrame(m, tail);
      assert Framed(w.messages[1..]) <= tail;
      assert tail[|Framed(w.messages[1..])|..] == data[|Framed(w.messages)|..];
      OnlyWalk(tail, Walked(w.messages[1..], w.stop));
    } else {
      assert data[0..] == data;
    }
  }

  /** Whatever the bytes are, walking them gives the one such run of messages and the one such reason. */
  lemma WalkIff(data: seq<byte>, w: Walked)
    ensures Walk(data) == w <==> IsWalk(data, w)
  {
    WalkIsWalk(data);
    if IsWalk(data, w) {
      OnlyWalk(data, w);
    }
  }

  lemma {:induction false} FramedConcat(a: seq<seq<byte>>, b: seq<seq<byte>>)
    ensures Framed(a + b) == Framed(a) + Framed(b)
  {
    if a == [] {
      assert a + b == b;
    } else {
      assert (a + b)[1..] == a[1..] + b;
      FramedConcat(a[1..], b);
    }
  }

  /** More bytes only go on from where the walk has stopped. */
  lemma WalkMore(data: seq<byte>, w: Walked, more: seq<byte>)
    requires IsWalk(data, w)
    ensures var rest := Walk(data[|Framed(w.messages)|..] + more);
      Walk(data + more) == Walked(w.messages + rest.messages, rest.stop)
  {
    hide SpecMessage, Frame, Framed, Judge, Walk;
    var front := Framed(w.messages);
    var tail := data[|front|..] + more;
    var rest := Walk(tail);
    WalkIsWalk(tail);
    FramedConcat(w.messages, rest.messages);
    assert data + more == front + tail;
    assert (data + more)[|front| + |Framed(rest.messages)|..] == tail[|Framed(rest.messages)|..];
    OnlyWalk(data + more, Walked(w.messages + rest.messages, rest.stop));
  }

  lemma JudgeMore(rest: seq<byte>, more: seq<byte>)
    requires Judge(rest) == Halt(BadFraming)
    ensures Judge(rest + more) == Halt(BadFraming)
  {
    assert (rest + more)[..2] == rest[..2];
  }

  lemma JudgeZeros(rest: seq<byte>)
    requires Judge(rest) == Halt(TruncatedTail)
    ensures Judge(rest + Zeros(0x1_0000)) != Halt(TruncatedTail)
  {
    ByteWidths();
    BigEndianBound((rest + Zeros(0x1_0000))[..2]);
  }

  /** Bad framing is the reason that no further bytes can change; any other result some further bytes do. */
  lemma BadFramingIsFinal(data: seq<byte>)
    ensures Walk(data).stop == BadFraming <==> forall more :: Walk(data + more) == Walk(data)
  {
    hide Judge, Framed, SpecMessage;
    var w := Walk(data);
    WalkIsWalk(data);
    var rest := data[|Framed(w.messages)|..];
    forall more | w.stop == BadFraming ensures Walk(data + more) == w {
      WalkMore(data, w, more);
      JudgeMore(rest, more);
    }
    if w.stop == TruncatedTail {
      JudgeZeros(rest);
      WalkMore(data, w, Zeros(0x1_0000));
      assert Walk(data + Zeros(0x1_0000)) != w;
    } else if w.stop == End {
      OneByteMore(rest);
      WalkMore(data, w, [0]);
      assert Walk(data + [0]) != w;
    }
  }

  lemma OneByteMore(rest: seq<byte>)
    requires Judge(rest) == Halt(End)
    ensures Judge(rest + [0]) == Halt(TruncatedTail)
  {
  }

  /** Bytes cut off inside one frame, or none. */
  ghost predicate Cut(rest: seq<byte>)
  {
    rest == [] || exists m :: SpecMessage(m) && rest < Frame(m)
  }

  /** Some further bytes complete the file exactly when what is left over is the beginning of a frame. */
  lemma CompletableIff(data: seq<byte>, rest: seq<byte>)
    requires data == Framed(Walk(data).messages) + rest
    ensures (exists more :: Walk(data + more).stop == End) <==> Cut(rest)
  {
    hide Judge, Framed, SpecMessage, Frame;
    var w := Walk(data);
    WalkIsWalk(data);
    assert data[|Framed(w.messages)|..] == rest;
    if Cut(rest) {
      var more := Completion(rest);
      WalkMore(data, w, more);
      assert Walk(data + more).stop == End;
    }
    forall more | Walk(data + more).stop == End ensures Cut(rest) {
      WalkMore(data, w, more);
      CutOff(rest, more, w.stop);
    }
  }

  /** A truncated tail need not be one that can be completed: the length in front of no message begins with a 5. */
  lemma StrayByteExample()
    ensures Walk([5]) == Walked([], TruncatedTail) && forall more :: Walk([5] + more).stop != End
  {
    forall m | SpecMessage(m) ensures Frame(m)[0] == 0 {
      assert PutBytes(|m|, 2) == PutBytes(|m| / 256, 1) + [|m| % 256];
    }
    assert !Cut([5]);
    CompletableIff([5], [5]);
  }

  lemma Completion(rest: seq<byte>) returns (more: seq<byte>)
    requires Cut(rest)
    ensures Walk(rest + more).stop == End
  {
    if rest == [] {
      more := [];
    } else {
      var m :| SpecMessage(m) && rest < Frame(m);
      more := Frame(m)[|rest|..];
      assert rest + more == Frame(m) + [];
      WalkFrame(m, []);
    }
  }

  lemma AllFramed(data: seq<byte>)
    requires Walk(data).stop == End
    ensures var messages := Walk(data).messages;
      Framed(messages) == data && forall i :: 0 <= i < |messages| ==> SpecMessage(messages[i])
  {
    hide SpecMessage, Frame, Framed, Walk;
    WalkIsWalk(data);
    assert data[|Framed(Walk(data).messages)|..] == [];
  }

  lemma CutOff(rest: seq<byte>, more: seq<byte>, stop: Stop)
    requires Judge(rest) == Halt(stop) && Walk(rest + more).stop == End
    ensures Cut(rest)
  {
    hide SpecMessage, Frame, Judge;
    var w := Walk(rest + more);
    if rest != [] {
      AllFramed(rest + more);
      var m := w.messages[0];
      assert Frame(m) <= rest + more;
      if |Frame(m)| <= |rest| {
        assert rest == Frame(m) + rest[|Frame(m)|..];
        FrameJudged(m, rest[|Frame(m)|..]);
      } else {
        assert rest == Frame(m)[..|rest|];
      }
    }
  }

  /** The walker stops at the end exactly on files that frame messages one after the other. */
  lemma EndsIff(data: seq<byte>)
    ensures Walk(data).stop == End
      <==> exists messages :: Framed(messages) == data && forall i :: 0 <= i < |messages| ==> SpecMessage(messages[i])
  {
    hide SpecMessage, Framed, Walk;
    if Walk(data).stop == End {
      AllFramed(data);
    }
    forall messages | Framed(messages) == data && forall i :: 0 <= i < |messages| ==> SpecMessage(messages[i])
      ensures Walk(data).stop == End
    {
      WholeFileWalk(messages);
    }
  }

  /** How many of the framed messages lie wholly within the first n bytes. */
  function Whole(messages: seq<seq<byte>>, n: nat): (k: nat)
    ensures k <= |messages|
  {
    if messages == [] || n < 2 + |messages[0]| then 0
    else 1 + Whole(messages[1..], n - (2 + |messages[0]|))
  }

  /** The bytes that are left over after the messages wholly within the first n bytes. */
  function LeftOver(messages: seq<seq<byte>>, n: nat): nat
  {
    if messages == [] || n < 2 + |messages[0]| then n
    else LeftOver(messages[1..], n - (2 + |messages[0]|))
  }

  /** Walking any prefix of a framed file returns exactly the messages wholly inside it, and stops at
      the end or at a truncated tail: at the end just when the cut leaves nothing over. */
  lemma {:induction false} PrefixWalk(messages: seq<seq<byte>>, n: nat)
    requires forall i :: 0 <= i < |messages| ==> SpecMessage(messages[i])
    requires n <= |Framed(messages)|
    ensures Walk(Framed(messages)[..n])
         == Walked(messages[..Whole(messages, n)], if LeftOver(messages, n) == 0 then End else TruncatedTail)
    decreases |messages|
  {
    hide Judge, SpecMessage, Walk, Frame;
    NothingToWalk();
    if messages != [] {
      var m, rest := messages[0], messages[1..];
      if n < 2 + |m| {
        assert Framed(messages)[..n] == Frame(m)[..n];
        if 0 < n { WalkCut(m, n); }
      } else {
        var left := n - (2 + |m|);
        PrefixWalk(rest, left);
        assert Framed(messages)[..n] == Frame(m) + Framed(rest)[..left];
        WalkFrame(m, Framed(rest)[..left]);
        assert messages[..Whole(rest, left) + 1] == [m] + rest[..Whole(rest, left)];
      }
    }
  }

  /** The messages counted as whole are those that end within n, and the next one does not. */
  lemma {:induction false} WholeIsExact(messages: seq<seq<byte>>, n: nat)
    requires n <= |Framed(messages)|
    ensures |Framed(messages[..Whole(messages, n)])| + LeftOver(messages, n) == n
    ensures Whole(messages, n) < |messages| ==> LeftOver(messages, n) < 2 + |messages[Whole(messages, n)]|
    ensures Whole(messages, n) == |messages| ==> LeftOver(messages, n) == 0
    decreases |messages|
  {
    if messages != [] && 2 + |messages[0]| <= n {
      var left := n - (2 + |messages[0]|);
      WholeIsExact(messages[1..], left);
      assert messages[..Whole(messages, n)][1..] == messages[1..][..Whole(messages[1..], left)];
    }
  }

  /** A whole file gives all its messages back. */
  lemma {:induction false} WholeFileWalk(messages: seq<seq<byte>>)
    requires forall i :: 0 <= i < |messages| ==> SpecMessage(messages[i])
    ensures Walk(Framed(messages)) == Walked(messages, End)
  {
    hide SpecMessage, Frame, Walk;
    NothingToWalk();
    if messages != [] {
      WholeFileWalk(messages[1..]);
      WalkFrame(messages[0], Framed(messages[1..]));
    }
  }
}
