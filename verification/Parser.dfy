/** The ITCH 5.0 parser of include/modules/parser_itch50.hpp. */
module Parser {
  import opened Words

  datatype ItchType = Add | AddMpid | Executed | ExecutedPrice | Cancel | DeleteOrder | Replace | Unknown

  datatype Event = Event(kind: ItchType, orderReference: nat, newReference: nat, shares: nat,
                         price: nat, side: byte, stock: seq<byte>)

  datatype ParseStatus = Ok | UnknownType | Truncated | EventLimit

  const MAX_EVENTS: nat := 32
  const NO_STOCK: seq<byte> := [0, 0, 0, 0, 0, 0, 0, 0, 0]
  const EMPTY_EVENT: Event := Event(Unknown, 0, 0, 0, 0, 0, NO_STOCK)

  /** The message types, as the ASCII codes on the wire. */
  const TYPE_A: byte := 65
  const TYPE_C: byte := 67
  const TYPE_D: byte := 68
  const TYPE_E: byte := 69
  const TYPE_F: byte := 70
  const TYPE_U: byte := 85
  const TYPE_X: byte := 88

  function LengthFor(t: byte): nat
  {
    if t == TYPE_A then 36
    else if t == TYPE_F then 40
    else if t == TYPE_E then 31
    else if t == TYPE_C then 36
    else if t == TYPE_X then 23
    else if t == TYPE_D then 19
    else if t == TYPE_U then 35
    else 0
  }

  /** A whole message of a supported type. */
  predicate Supported(p: seq<byte>)
  {
    p != [] && LengthFor(p[0]) == |p|
  }

  /** The fields of a supported message, at the offsets of sections 1.3 and 1.4 of the
      NASDAQ TotalView-ITCH 5.0 specification. */
  function EventOf(p: seq<byte>): Event
    requires Supported(p)
  {
    var reference := BigEndian(p[11..19]);
    if p[0] == TYPE_A || p[0] == TYPE_F then
      Event(if p[0] == TYPE_A then Add else AddMpid, reference, 0, BigEndian(p[20..24]),
            BigEndian(p[32..36]), p[19], p[24..32] + [0])
    else if p[0] == TYPE_U then
      Event(Replace, reference, BigEndian(p[19..27]), BigEndian(p[27..31]), BigEndian(p[31..35]), 0, NO_STOCK)
    else if p[0] == TYPE_D then
      Event(DeleteOrder, reference, 0, 0, 0, 0, NO_STOCK)
    else
      var kind := if p[0] == TYPE_E then Executed else if p[0] == TYPE_C then ExecutedPrice else Cancel;
      Event(kind, reference, 0, BigEndian(p[19..23]), 0, 0, NO_STOCK)
  }

  method Decode(p: seq<byte>) returns (ok: bool, out: Event)
    requires p != []
    ensures ok == Supported(p)
    ensures out == if ok then EventOf(p) else EMPTY_EVENT
  {
    out := EMPTY_EVENT;
    var length := |p|;
    if (length == 36 && p[0] == TYPE_A) || (length == 40 && p[0] == TYPE_F) {
      out := out.(kind := if p[0] == TYPE_A then Add else AddMpid);
      var reference := ReadBigEndian(p[11..19]);
      out := out.(orderReference := reference, side := p[19], shares := U32be(p[20..24]),
                  stock := p[24..32] + [0], price := U32be(p[32..36]));
      return true, out;
    }
    if (length == 31 && p[0] == TYPE_E) || (length == 36 && p[0] == TYPE_C) {
      var reference := ReadBigEndian(p[11..19]);
      out := out.(kind := if p[0] == TYPE_E then Executed else ExecutedPrice,
                  orderReference := reference, shares := U32be(p[19..23]));
      return true, out;
    }
    if length == 23 && p[0] == TYPE_X {
      var reference := ReadBigEndian(p[11..19]);
      out := out.(kind := Cancel, orderReference := reference, shares := U32be(p[19..23]));
      return true, out;
    }
    if length == 19 && p[0] == TYPE_D {
      var reference := ReadBigEndian(p[11..19]);
      out := out.(kind := DeleteOrder, orderReference := reference);
      return true, out;
    }
    if length == 35 && p[0] == TYPE_U {
      var reference := ReadBigEndian(p[11..19]);
      var newReference := ReadBigEndian(p[19..27]);
      out := out.(kind := Replace, orderReference := reference, newReference := newReference,
                  shares := U32be(p[27..31]), price := U32be(p[31..35]));
      return true, out;
    }
    return false, out;
  }

  // ---- what parsing a buffer means ----

  predicate CanContinue(rest: seq<byte>, count: nat)
  {
    rest != [] && count < MAX_EVENTS && 0 < LengthFor(rest[0]) <= |rest|
  }

  function StopReason(rest: seq<byte>, count: nat): ParseStatus
  {
    if rest == [] then Ok
    else if MAX_EVENTS <= count then EventLimit
    else if LengthFor(rest[0]) == 0 then UnknownType
    else Truncated
  }

  /** After `done` messages, `messages` is the longest run of complete supported messages at the
      front of `bytes` that the event limit allows, and `status` says why it ends. */
  ghost predicate ParseFrom(bytes: seq<byte>, messages: seq<seq<byte>>, status: ParseStatus, done: nat)
  {
    && done + |messages| <= MAX_EVENTS
    && (forall i :: 0 <= i < |messages| ==> Supported(messages[i]))
    && Flatten(messages) <= bytes
    && var rest := bytes[|Flatten(messages)|..];
       status == StopReason(rest, done + |messages|) && !CanContinue(rest, done + |messages|)
  }

  ghost predicate IsParse(bytes: seq<byte>, messages: seq<seq<byte>>, status: ParseStatus)
  {
    ParseFrom(bytes, messages, status, 0)
  }

  lemma NoParse(bytes: seq<byte>, status: ParseStatus, done: nat)
    requires ParseFrom(bytes, [], status, done)
    ensures !CanContinue(bytes, done) && status == StopReason(bytes, done)
  {
    assert bytes[0..] == bytes;
  }

  /** A parse starts with the message at the front, and the rest of it is a parse of the rest. */
  lemma FirstOfParse(bytes: seq<byte>, messages: seq<seq<byte>>, status: ParseStatus, done: nat)
    requires ParseFrom(bytes, messages, status, done) && messages != []
    ensures CanContinue(bytes, done) && |messages[0]| <= |bytes| && messages[0] == bytes[..LengthFor(bytes[0])]
    ensures ParseFrom(bytes[|messages[0]|..], messages[1..], status, done + 1)
  {
    hide StopReason;
    FlattenHead(messages);
    hide Flatten;
    var m, rest := messages[0], messages[1..];
    var front := Flatten(messages);
    assert front[..|m|] == m && front[|m|..] == Flatten(rest);
    assert bytes[..|front|] == front;
    assert bytes[..|m|] == m;
    assert bytes[|m|..][..|Flatten(rest)|] == Flatten(rest);
    assert bytes[|m|..][|Flatten(rest)|..] == bytes[|front|..];
  }

  /** A buffer has one parse. */
  lemma {:induction false} ParseIsUnique(bytes: seq<byte>, m: seq<seq<byte>>, ms: ParseStatus,
                                         n: seq<seq<byte>>, ns: ParseStatus, done: nat)
    requires ParseFrom(bytes, m, ms, done) && ParseFrom(bytes, n, ns, done)
    ensures m == n && ms == ns
    decreases |m|
  {
    hide ParseFrom, CanContinue, LengthFor;
    if m == [] {
      NoParse(bytes, ms, done);
      if n == [] {
        NoParse(bytes, ns, done);
      } else {
        FirstOfParse(bytes, n, ns, done);
      }
    } else if n == [] {
      NoParse(bytes, ns, done);
      FirstOfParse(bytes, m, ms, done);
    } else {
      FirstOfParse(bytes, m, ms, done);
      FirstOfParse(bytes, n, ns, done);
      ParseIsUnique(bytes[|m[0]|..], m[1..], ms, n[1..], ns, done + 1);
      assert m == [m[0]] + m[1..] && n == [n[0]] + n[1..];
    }
  }

  /** Bytes that begin a supported message and end before it does. */
  ghost predicate Begins(rest: seq<byte>)
  {
    rest != [] && exists m :: Supported(m) && rest < m
  }

  /** What a status tells of the bytes behind the messages: there are none, the limit of 32 is reached, the next
      message has not arrived in full, or no supported message begins there. */
  ghost predicate Explains(bytes: seq<byte>, messages: seq<seq<byte>>, status: ParseStatus)
  {
    && Flatten(messages) <= bytes
    && var rest := bytes[|Flatten(messages)|..];
       match status
       case Ok => rest == []
       case EventLimit => rest != [] && |messages| == 32
       case Truncated => |messages| < 32 && Begins(rest)
       case UnknownType => rest != [] && |messages| < 32 && forall m :: Supported(m) ==> !(rest < m) && !(m <= rest)
  }

  lemma StatusExplains(bytes: seq<byte>, messages: seq<seq<byte>>, status: ParseStatus)
    requires IsParse(bytes, messages, status)
    ensures Explains(bytes, messages, status)
  {
    hide Flatten;
    var rest := bytes[|Flatten(messages)|..];
    if status == Truncated {
      var m := rest + Zeros(LengthFor(rest[0]) - |rest|);
      assert Supported(m) && rest < m;
    }
  }

  class Itch50Parser {
    const events: array<Event>
    var eventCount: nat
    var byteCount: nat
    var consumed: nat
    var status: ParseStatus

    ghost predicate Valid()
      reads this
    {
      events.Length == MAX_EVENTS && eventCount <= MAX_EVENTS
    }

    /** The stored events are those of `messages`, which is the parse of `bytes`. */
    ghost predicate Holds(bytes: seq<byte>, messages: seq<seq<byte>>)
      requires Valid()
      reads this, events
    {
      && IsParse(bytes, messages, status)
      && eventCount == |messages|
      && byteCount == |bytes|
      && consumed == |Flatten(messages)|
      && forall i :: 0 <= i < |messages| ==> events[i] == EventOf(messages[i])
    }

    constructor ()
      ensures Valid() && fresh(events)
      ensures eventCount == byteCount == consumed == 0 && status == Ok
    {
      events := new Event[MAX_EVENTS](_ => EMPTY_EVENT);
      eventCount, byteCount, consumed, status := 0, 0, 0, Ok;
    }

    method Parse(bytes: seq<byte>) returns (count: nat, ghost messages: seq<seq<byte>>)
      requires Valid()
      modifies this, events
      ensures Valid() && Holds(bytes, messages) && count == eventCount && Explains(bytes, messages, status)
    {
      hide EventOf, Flatten, Explains;
      FlattenNothing();
      eventCount, byteCount, status := 0, |bytes|, Ok;
      messages := [];
      var offset := 0;
      while offset < |bytes|
        invariant Valid() && status == Ok && byteCount == |bytes|
        invariant offset <= |bytes| && eventCount == |messages|
        invariant forall i :: 0 <= i < |messages| ==> Supported(messages[i]) && events[i] == EventOf(messages[i])
        invariant Flatten(messages) == bytes[..offset]
        decreases |bytes| - offset
      {
        if eventCount >= MAX_EVENTS {
          status := EventLimit;
          break;
        }
        var length := LengthFor(bytes[offset]);
        if length == 0 {
          status := UnknownType;
          break;
        }
        if |bytes| - offset < length {
          status := Truncated;
          break;
        }
        var p := bytes[offset..offset + length];
        var ok, event := Decode(p);
        if ok {
          events[eventCount] := event;
          eventCount := eventCount + 1;
        }
        assert bytes[..offset + length] == bytes[..offset] + p;
        FlattenSnoc(messages, p);
        messages := messages + [p];
        offset := offset + length;
      }
      consumed := offset;
      StatusExplains(bytes, messages, status);
      return eventCount, messages;
    }
  }

  /** A buffer is exactly one supported message just when its parse is one message that uses it up. */
  lemma OneMessage(bytes: seq<byte>, messages: seq<seq<byte>>, status: ParseStatus)
    requires IsParse(bytes, messages, status)
    ensures Supported(bytes) <==> |messages| == 1 && status == Ok && |Flatten(messages)| == |bytes|
    ensures Supported(bytes) ==> messages == [bytes]
  {
    if |messages| == 1 {
      assert messages == [messages[0]];
      assert Flatten(messages) == Flatten(messages[..0]) + messages[0];
    }
    if Supported(bytes) {
      var one := [bytes];
      assert one[..0] == [];
      assert Flatten(one) == bytes;
      ParseIsUnique(bytes, messages, status, one, Ok, 0);
    }
  }

  // ---- serialising ----

  /** The bytes after the fields that the parser reads: MPID, match number, printable flag and price. */
  function TrailerLength(kind: ItchType): nat
  {
    match kind
    case AddMpid => 4
    case Executed => 8
    case ExecutedPrice => 13
    case _ => 0
  }

  function TypeCode(kind: ItchType): byte
    requires kind != Unknown
  {
    match kind
    case Add => TYPE_A
    case AddMpid => TYPE_F
    case Executed => TYPE_E
    case ExecutedPrice => TYPE_C
    case Cancel => TYPE_X
    case DeleteOrder => TYPE_D
    case Replace => TYPE_U
  }

  /** The fields of an event fit their widths, and those its type does not carry are zero. */
  predicate WellFormed(e: Event)
  {
    && e.kind != Unknown
    && e.orderReference < Pow256(8) && e.newReference < Pow256(8) && e.shares < Pow256(4) && e.price < Pow256(4)
    && |e.stock| == 9 && e.stock[8] == 0
    && (e.kind != Replace ==> e.newReference == 0)
    && (e.kind == DeleteOrder ==> e.shares == 0)
    && (!e.kind.Add? && !e.kind.AddMpid? ==> e.side == 0 && e.stock == NO_STOCK)
    && (!e.kind.Add? && !e.kind.AddMpid? && !e.kind.Replace? ==> e.price == 0)
  }

  /** The message carrying an event, with any locate, tracking number and timestamp in the header. */
  function Serialise(e: Event, header: seq<byte>, trailer: seq<byte>): seq<byte>
    requires WellFormed(e) && |header| == 10 && |trailer| == TrailerLength(e.kind)
  {
    var start := [TypeCode(e.kind)] + header + PutBytes(e.orderReference, 8);
    match e.kind
    case Add => start + [e.side] + PutBytes(e.shares, 4) + e.stock[..8] + PutBytes(e.price, 4)
    case AddMpid => start + [e.side] + PutBytes(e.shares, 4) + e.stock[..8] + PutBytes(e.price, 4) + trailer
    case DeleteOrder => start
    case Replace => start + PutBytes(e.newReference, 8) + PutBytes(e.shares, 4) + PutBytes(e.price, 4)
    case Executed | ExecutedPrice | Cancel => start + PutBytes(e.shares, 4) + trailer
  }

  lemma SerialisedLength(e: Event, header: seq<byte>, trailer: seq<byte>)
    requires WellFormed(e) && |header| == 10 && |trailer| == TrailerLength(e.kind)
    ensures Serialise(e, header, trailer)[..1] == [TypeCode(e.kind)]
    ensures |Serialise(e, header, trailer)| == LengthFor(TypeCode(e.kind))
    ensures Supported(Serialise(e, header, trailer))
  {
    hide PutBytes, Pow256;
  }

  lemma FourFields(head: seq<byte>, a: seq<byte>, b: seq<byte>, c: seq<byte>, d: seq<byte>)
    ensures var p, i := head + a + b + c + d, |head|;
            var j := i + |a|;
            var k := j + |b|;
            p[i..j] == a && p[j..k] == b && p[k..k + |c|] == c && p[k + |c|..] == d
  {
  }

  lemma FiveFields(head: seq<byte>, a: seq<byte>, b: seq<byte>, c: seq<byte>, d: seq<byte>, e: seq<byte>)
    ensures var p, i := head + a + b + c + d + e, |head|;
            var j := i + |a|;
            var k := j + |b|;
            var l := k + |c|;
            p[i..j] == a && p[j..k] == b && p[k..l] == c && p[l..l + |d|] == d && p[l + |d|..] == e
  {
  }

  lemma SliceOfFront(front: seq<byte>, back: seq<byte>, i: nat, j: nat)
    requires i <= j <= |front|
    ensures (front + back)[i..j] == front[i..j]
  {
  }

  /** The slices of an add message that the parser reads. */
  lemma AddSlices(e: Event, header: seq<byte>, trailer: seq<byte>)
    requires WellFormed(e) && |header| == 10 && |trailer| == TrailerLength(e.kind)
    requires e.kind == Add || e.kind == AddMpid
    ensures var p := Serialise(e, header, trailer);
      && p[11..19] == PutBytes(e.orderReference, 8) && p[19..20] == [e.side] && p[20..24] == PutBytes(e.shares, 4)
      && p[24..32] == e.stock[..8] && p[32..36] == PutBytes(e.price, 4)
  {
    hide PutBytes, Pow256;
    var head, a, c := [TypeCode(e.kind)] + header, PutBytes(e.orderReference, 8), PutBytes(e.shares, 4);
    var d, f := e.stock[..8], PutBytes(e.price, 4);
    FiveFields(head, a, [e.side], c, d, f);
    var front := head + a + [e.side] + c + d + f;
    assert front[32..] == front[32..36];
    SliceOfFront(front, trailer, 11, 19);
    SliceOfFront(front, trailer, 19, 20);
    SliceOfFront(front, trailer, 20, 24);
    SliceOfFront(front, trailer, 24, 32);
    SliceOfFront(front, trailer, 32, 36);
  }

  lemma SerialiseAdd(e: Event, header: seq<byte>, trailer: seq<byte>)
    requires WellFormed(e) && |header| == 10 && |trailer| == TrailerLength(e.kind)
    requires e.kind == Add || e.kind == AddMpid
    ensures Supported(Serialise(e, header, trailer))
    ensures EventOf(Serialise(e, header, trailer)) == e
  {
    hide PutBytes, Pow256, BigEndian, Serialise;
    var p := Serialise(e, header, trailer);
    SerialisedLength(e, header, trailer);
    AddSlices(e, header, trailer);
    assert p[0] == p[..1][0] && p[19] == p[19..20][0];
    assert e.stock[..8] + [0] == e.stock;
    PutGet(e.orderReference, 8);
    PutGet(e.shares, 4);
    PutGet(e.price, 4);
  }

  /** The slices of a replace message that the parser reads. */
  lemma ReplaceSlices(e: Event, header: seq<byte>, trailer: seq<byte>)
    requires WellFormed(e) && |header| == 10 && |trailer| == TrailerLength(e.kind)
    requires e.kind == Replace
    ensures var p := Serialise(e, header, trailer);
      && p[11..19] == PutBytes(e.orderReference, 8) && p[19..27] == PutBytes(e.newReference, 8)
      && p[27..31] == PutBytes(e.shares, 4) && p[31..35] == PutBytes(e.price, 4)
  {
    hide PutBytes, Pow256;
    FourFields([TypeCode(e.kind)] + header, PutBytes(e.orderReference, 8), PutBytes(e.newReference, 8),
               PutBytes(e.shares, 4), PutBytes(e.price, 4));
    var p := Serialise(e, header, trailer);
    assert p[31..] == p[31..35];
  }

  lemma SerialiseReplace(e: Event, header: seq<byte>, trailer: seq<byte>)
    requires WellFormed(e) && |header| == 10 && |trailer| == TrailerLength(e.kind)
    requires e.kind == Replace
    ensures Supported(Serialise(e, header, trailer))
    ensures EventOf(Serialise(e, header, trailer)) == e
  {
    hide PutBytes, Pow256, BigEndian, Serialise;
    var p := Serialise(e, header, trailer);
    SerialisedLength(e, header, trailer);
    ReplaceSlices(e, header, trailer);
    assert p[0] == p[..1][0];
    PutGet(e.orderReference, 8);
    PutGet(e.newReference, 8);
    PutGet(e.shares, 4);
    PutGet(e.price, 4);
  }

  /** The slices of an execution, cancellation or deletion that the parser reads. */
  lemma ReduceSlices(e: Event, header: seq<byte>, trailer: seq<byte>)
    requires WellFormed(e) && |header| == 10 && |trailer| == TrailerLength(e.kind)
    requires e.kind == Executed || e.kind == ExecutedPrice || e.kind == Cancel || e.kind == DeleteOrder
    ensures Serialise(e, header, trailer)[11..19] == PutBytes(e.orderReference, 8)
    ensures e.kind != DeleteOrder ==> Serialise(e, header, trailer)[19..23] == PutBytes(e.shares, 4)
  {
    hide PutBytes, Pow256;
    var head, a, b := [TypeCode(e.kind)] + header, PutBytes(e.orderReference, 8), PutBytes(e.shares, 4);
    FourFields(head, a, [], [], []);
    FourFields(head, a, b, trailer, []);
    assert head + a + [] + [] + [] == head + a && head + a + b + trailer + [] == head + a + b + trailer;
  }

  lemma SerialiseReduce(e: Event, header: seq<byte>, trailer: seq<byte>)
    requires WellFormed(e) && |header| == 10 && |trailer| == TrailerLength(e.kind)
    requires e.kind == Executed || e.kind == ExecutedPrice || e.kind == Cancel || e.kind == DeleteOrder
    ensures Supported(Serialise(e, header, trailer))
    ensures EventOf(Serialise(e, header, trailer)) == e
  {
    hide PutBytes, Pow256, BigEndian, Serialise;
    var p := Serialise(e, header, trailer);
    SerialisedLength(e, header, trailer);
    ReduceSlices(e, header, trailer);
    assert p[0] == p[..1][0];
    PutGet(e.orderReference, 8);
    PutGet(e.shares, 4);
  }

  /** Reading a serialised message gives its event back. */
  lemma SerialiseRoundTrip(e: Event, header: seq<byte>, trailer: seq<byte>)
    requires WellFormed(e) && |header| == 10 && |trailer| == TrailerLength(e.kind)
    ensures Supported(Serialise(e, header, trailer))
    ensures EventOf(Serialise(e, header, trailer)) == e
  {
    hide Serialise, EventOf, Supported;
    match e.kind
    case Add => SerialiseAdd(e, header, trailer);
    case AddMpid => SerialiseAdd(e, header, trailer);
    case Replace => SerialiseReplace(e, header, trailer);
    case Executed | ExecutedPrice | Cancel | DeleteOrder => SerialiseReduce(e, header, trailer);
  }

  /** Parsing serialised messages back to back, up to the event limit, gives exactly them. */
  lemma ParseRoundTrip(sent: seq<seq<byte>>, messages: seq<seq<byte>>, status: ParseStatus)
    requires |sent| <= MAX_EVENTS && forall i :: 0 <= i < |sent| ==> Supported(sent[i])
    requires IsParse(Flatten(sent), messages, status)
    ensures messages == sent && status == Ok
  {
    ParseIsUnique(Flatten(sent), messages, status, sent, Ok, 0);
  }
}
