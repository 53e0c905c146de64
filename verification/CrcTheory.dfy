/** What the CRC of include/modules/phy_pcs.hpp guarantees: it is the polynomial remainder, it is
    affine, and it detects every change confined to four consecutive bytes. */
module CrcTheory {
  import opened Words
  import opened Gf2
  import opened Crc32

  // ---- the checksum is the remainder modulo the generator ----

  /** Data as a polynomial, the first bit sent being the highest power. */
  ghost function MessagePoly(data: seq<byte>): Poly
  {
    if data == [] then iset{}
    else Add(Shift(MessagePoly(data[..|data| - 1]), 8), BytePoly(data[|data| - 1]))
  }

  /** What is divided: the message times x to the 32, with the register's start value added to its first
      32 bits. */
  ghost function Divided(r: Poly, data: seq<byte>): Poly
  {
    Add(Shift(MessagePoly(data), 32), Shift(r, 8 * |data|))
  }

  /** A checksum starts from all ones. */
  ghost function Dividend(data: seq<byte>): Poly
  {
    Divided(WordPoly(ALL_ONES), data)
  }

  ghost predicate Below(r: Poly, degree: int)
  {
    forall e :: e in r ==> 0 <= e < degree
  }

  lemma TurnCongruent(p: Poly, r: Poly)
    requires Congruent(p, r) && Below(r, 32)
    ensures Congruent(MulX(p), Turn(r)) && Below(Turn(r), 32)
  {
    CongruentMulX(p, r);
    assert forall e :: e in MulX(r) <==> Lower(e, 1) in r;
    if 31 in r {
      CongruentReduce(MulX(p), MulX(r));
      assert Lower(32, 1) in r;
    }
  }

  lemma {:induction false} TurnsCongruent(p: Poly, r: Poly, n: nat)
    requires Congruent(p, r) && Below(r, 32)
    ensures Congruent(Shift(p, n), Turns(r, n)) && Below(Turns(r, n), 32)
  {
    if n == 0 {
      ShiftZero(p);
    } else {
      TurnsCongruent(p, r, n - 1);
      TurnCongruent(Shift(p, n - 1), Turns(r, n - 1));
      ShiftShift(p, n - 1, 1);
    }
  }

  lemma ShiftZero(p: Poly)
    ensures Shift(p, 0) == p
  {
    assert forall e :: e in Shift(p, 0) <==> Lower(e, 0) in p;
  }

  lemma DividedStep(r: Poly, data: seq<byte>, b: byte)
    ensures Divided(r, data + [b]) == Shift(Add(Divided(r, data), Shift(BytePoly(b), 24)), 8)
  {
    var m := MessagePoly(data);
    assert (data + [b])[..|data|] == data;
    ShiftAdd(Shift(m, 8), BytePoly(b), 32);
    ShiftShift(m, 8, 32);
    ShiftShift(m, 32, 8);
    ShiftShift(BytePoly(b), 24, 8);
    ShiftShift(r, 8 * |data|, 8);
    ShiftAdd(Divided(r, data), Shift(BytePoly(b), 24), 8);
    ShiftAdd(Shift(m, 32), Shift(r, 8 * |data|), 8);
    Reorder(Shift(m, 40), Shift(BytePoly(b), 32), Shift(r, 8 * |data| + 8));
  }

  lemma Reorder(p: Poly, q: Poly, r: Poly)
    ensures Add(Add(p, q), r) == Add(Add(p, r), q)
  {
  }

  lemma ByteShiftBelow(b: byte)
    ensures Below(Shift(BytePoly(b), 24), 32)
  {
    assert forall e :: e in Shift(BytePoly(b), 24) <==> Lower(e, 24) in BytePoly(b);
  }

  lemma NothingDivided(r: Poly)
    ensures Divided(r, []) == r
  {
    ShiftZero(r);
    assert forall e :: e in Shift(iset{}, 32) <==> Lower(e, 32) in iset{};
    AddZero(r);
  }

  /** Whatever the register starts from, it holds the remainder. */
  lemma {:induction false} RegisterIsRemainder(r: Poly, data: seq<byte>)
    requires Below(r, 32)
    ensures Below(Register(r, data), 32)
    ensures IsRemainder(Divided(r, data), Register(r, data))
    decreases |data|
  {
    hide Divided;
    if data == [] {
      NothingDivided(r);
      CongruentRefl(r);
    } else {
      var n := |data| - 1;
      var front, b := data[..n], data[n];
      RegisterIsRemainder(r, front);
      ByteShiftBelow(b);
      CongruentAdd(Divided(r, front), Register(r, front), Shift(BytePoly(b), 24));
      TurnsCongruent(Add(Divided(r, front), Shift(BytePoly(b), 24)), Add(Register(r, front), Shift(BytePoly(b), 24)), 8);
      DividedStep(r, front, b);
      assert data == front + [b];
    }
  }

  lemma OnesBelow()
    ensures Below(WordPoly(ALL_ONES), 32)
  {
  }

  /** A word is the checksum exactly when its complement is the remainder of the dividend. */
  lemma CrcIsRemainder(crc: nat, data: seq<byte>)
    requires crc <= ALL_ONES
    ensures IsCrc(crc, data) <==> IsRemainder(Dividend(data), WordPoly(ALL_ONES - crc))
  {
    OnesBelow();
    RegisterIsRemainder(WordPoly(ALL_ONES), data);
    if IsRemainder(Dividend(data), WordPoly(ALL_ONES - crc)) {
      RemainderIsUnique(Dividend(data), WordPoly(ALL_ONES - crc), Register(WordPoly(ALL_ONES), data));
    }
  }

  // ---- linearity ----

  function XorBytes(a: seq<byte>, b: seq<byte>): (c: seq<byte>)
    requires |a| == |b|
    ensures |c| == |a|
  {
    seq(|a|, i requires 0 <= i < |a| => XorByte(a[i], b[i]))
  }

  function XorByte(a: byte, b: byte): byte
  {
    assert Pow2(8) == 256;
    XorBound(a, b, 8);
    Xor(a, b)
  }

  lemma TurnLinear(r: Poly, s: Poly)
    ensures Turn(Add(r, s)) == Add(Turn(r), Turn(s))
  {
    ShiftAdd(r, s, 1);
    Cancel(MulX(r), MulX(s), GENERATOR);
  }

  lemma Cancel(p: Poly, q: Poly, g: Poly)
    ensures Add(Add(p, g), q) == Add(Add(p, q), g) == Add(p, Add(q, g))
    ensures Add(Add(p, g), Add(q, g)) == Add(p, q)
  {
  }

  lemma {:induction false} TurnsLinear(r: Poly, s: Poly, n: nat)
    ensures Turns(Add(r, s), n) == Add(Turns(r, n), Turns(s, n))
  {
    if n > 0 {
      TurnsLinear(r, s, n - 1);
      TurnLinear(Turns(r, n - 1), Turns(s, n - 1));
    }
  }

  lemma BytePolyXor(a: byte, b: byte)
    ensures BytePoly(XorByte(a, b)) == Add(BytePoly(a), BytePoly(b))
  {
    forall e ensures Term(XorByte(a, b), e, 8) == (Term(a, e, 8) != Term(b, e, 8)) {
      if 0 <= e < 8 { XorBit(a, b, 7 - e); }
    }
  }

  lemma UpdateLinear(r: Poly, s: Poly, a: byte, b: byte)
    ensures Update(Add(r, s), XorByte(a, b)) == Add(Update(r, a), Update(s, b))
  {
    var p, q := Shift(BytePoly(a), 24), Shift(BytePoly(b), 24);
    BytePolyXor(a, b);
    ShiftAdd(BytePoly(a), BytePoly(b), 24);
    Exchange(r, s, p, q);
    TurnsLinear(Add(r, p), Add(s, q), 8);
  }

  lemma Exchange(r: Poly, s: Poly, p: Poly, q: Poly)
    ensures Add(Add(r, s), Add(p, q)) == Add(Add(r, p), Add(s, q))
  {
  }

  /** The register is linear in its start value and the data together. */
  lemma {:induction false} RegisterLinear(r: Poly, s: Poly, a: seq<byte>, b: seq<byte>)
    requires |a| == |b|
    ensures Register(Add(r, s), XorBytes(a, b)) == Add(Register(r, a), Register(s, b))
    decreases |a|
  {
    if a != [] {
      var n := |a| - 1;
      RegisterLinear(r, s, a[..n], b[..n]);
      assert XorBytes(a, b)[..n] == XorBytes(a[..n], b[..n]);
      UpdateLinear(Register(r, a[..n]), Register(s, b[..n]), a[n], b[n]);
    }
  }

  /** The checksum is affine: that of a three-way exclusive or is the exclusive or of the three. */
  lemma CrcIsAffine(x: nat, y: nat, z: nat, a: seq<byte>, b: seq<byte>, c: seq<byte>)
    requires |a| == |b| == |c|
    requires IsCrc(x, a) && IsCrc(y, b) && IsCrc(z, c)
    ensures IsCrc(Xor(Xor(x, y), z), XorBytes(XorBytes(a, b), c))
  {
    hide Register, WordPoly, Xor, XorBytes, Pow2;
    var ones := WordPoly(ALL_ONES);
    RegisterLinear(ones, ones, a, b);
    RegisterLinear(Add(ones, ones), ones, XorBytes(a, b), c);
    Cancel(iset{}, ones, ones);
    AddZero(ones);
    BitWidths();
    XorBound(x, y, 32);
    XorBound(Xor(x, y), z, 32);
    ComplementPoly(x);
    ComplementPoly(y);
    ComplementPoly(z);
    ComplementPoly(Xor(Xor(x, y), z));
    WordXor(x, y);
    WordXor(Xor(x, y), z);
    var p, q, r := WordPoly(x), WordPoly(y), WordPoly(z);
    assert Add(Add(Add(ones, p), Add(ones, q)), Add(ones, r)) == Add(ones, Add(Add(p, q), r));
    assert Add(Add(ones, ones), ones) == ones;
  }

  lemma {:induction false} ComplementBits(w: nat, n: nat, k: nat)
    requires w < Pow2(n) && k < n
    ensures Bit(Pow2(n) - 1 - w, k) == !Bit(w, k)
    decreases k
  {
    assert (Pow2(n) - 1 - w) / 2 == Pow2(n - 1) - 1 - w / 2;
    if k > 0 {
      ComplementBits(w / 2, n - 1, k - 1);
    }
  }

  lemma ComplementPoly(w: nat)
    requires w <= ALL_ONES
    ensures WordPoly(ALL_ONES - w) == Add(WordPoly(ALL_ONES), WordPoly(w))
  {
    BitWidths();
    forall e ensures Term(ALL_ONES - w, e, 32) == (Term(ALL_ONES, e, 32) != Term(w, e, 32)) {
      if 0 <= e < 32 {
        ComplementBits(w, 32, 31 - e);
        ComplementBits(0, 32, 31 - e);
        HighBits(0, 0, 31 - e);
      }
    }
  }

  // ---- messages as polynomials ----

  lemma {:induction false} MessageBelow(data: seq<byte>)
    ensures Below(MessagePoly(data), 8 * |data|)
    decreases |data|
  {
    if data != [] {
      var n := |data| - 1;
      MessageBelow(data[..n]);
      ShiftBelow(MessagePoly(data[..n]), 8, 8 * n);
    }
  }

  lemma ShiftBelow(r: Poly, n: nat, degree: int)
    requires Below(r, degree)
    ensures Below(Shift(r, n), degree + n)
  {
    assert forall e :: e in Shift(r, n) <==> Lower(e, n) in r;
  }

  lemma BytePolyInjective(a: byte, b: byte)
    requires BytePoly(a) == BytePoly(b)
    ensures a == b
  {
    BitWidths();
    forall k | 0 <= k < 8 ensures Bit(a, k) == Bit(b, k) {
      assert 7 - k in BytePoly(a) <==> 7 - k in BytePoly(b);
    }
    SameBits(a, b, 8);
  }

  /** The last byte of a message is its eight lowest coefficients. */
  lemma LastByte(p: Poly, q: Poly, a: byte, b: byte)
    requires (forall e :: e in p ==> 0 <= e) && forall e :: e in q ==> 0 <= e
    requires Add(Shift(p, 8), BytePoly(a)) == Add(Shift(q, 8), BytePoly(b))
    ensures p == q && a == b
  {
    var l, r := Add(Shift(p, 8), BytePoly(a)), Add(Shift(q, 8), BytePoly(b));
    forall e ensures e in BytePoly(a) <==> e in BytePoly(b) {
      assert e in Shift(p, 8) <==> Lower(e, 8) in p;
      assert e in Shift(q, 8) <==> Lower(e, 8) in q;
      assert e in l <==> e in r;
    }
    BytePolyInjective(a, b);
    forall e ensures e in p <==> e in q {
      assert e + 8 in Shift(p, 8) <==> Lower(e + 8, 8) in p;
      assert e + 8 in Shift(q, 8) <==> Lower(e + 8, 8) in q;
      assert e + 8 in l <==> e + 8 in r;
    }
  }

  lemma {:induction false} MessageInjective(a: seq<byte>, b: seq<byte>)
    requires |a| == |b| && MessagePoly(a) == MessagePoly(b)
    ensures a == b
    decreases |a|
  {
    if a != [] {
      var n := |a| - 1;
      MessageBelow(a[..n]);
      MessageBelow(b[..n]);
      LastByte(MessagePoly(a[..n]), MessagePoly(b[..n]), a[n], b[n]);
      MessageInjective(a[..n], b[..n]);
      assert a == a[..n] + [a[n]] && b == b[..n] + [b[n]];
    }
  }

  lemma {:induction false} MessageXor(a: seq<byte>, b: seq<byte>)
    requires |a| == |b|
    ensures MessagePoly(XorBytes(a, b)) == Add(MessagePoly(a), MessagePoly(b))
    decreases |a|
  {
    if a != [] {
      var n := |a| - 1;
      MessageXor(a[..n], b[..n]);
      assert XorBytes(a, b)[..n] == XorBytes(a[..n], b[..n]);
      BytePolyXor(a[n], b[n]);
      ShiftAdd(MessagePoly(a[..n]), MessagePoly(b[..n]), 8);
      Exchange(Shift(MessagePoly(a[..n]), 8), Shift(MessagePoly(b[..n]), 8), BytePoly(a[n]), BytePoly(b[n]));
    }
  }

  lemma {:induction false} MessageConcat(a: seq<byte>, b: seq<byte>)
    ensures MessagePoly(a + b) == Add(Shift(MessagePoly(a), 8 * |b|), MessagePoly(b))
    decreases |b|
  {
    if b == [] {
      assert a + b == a;
      ShiftZero(MessagePoly(a));
      AddZero(MessagePoly(a));
    } else {
      var n := |b| - 1;
      assert (a + b)[..|a + b| - 1] == a + b[..n];
      MessageConcat(a, b[..n]);
      var high, low := Shift(MessagePoly(a), 8 * n), MessagePoly(b[..n]);
      ShiftAdd(high, low, 8);
      ShiftShift(MessagePoly(a), 8 * n, 8);
      AddAssoc(Shift(high, 8), Shift(low, 8), BytePoly(b[n]));
    }
  }

  // ---- burst detection ----

  lemma TurnInjective(r: Poly, s: Poly)
    requires Below(r, 32) && Below(s, 32) && Turn(r) == Turn(s)
    ensures r == s
  {
    assert forall e :: e in MulX(r) <==> Lower(e, 1) in r;
    assert forall e :: e in MulX(s) <==> Lower(e, 1) in s;
    assert 0 in Turn(r) <==> 31 in r;
    assert 0 in Turn(s) <==> 31 in s;
    forall e ensures e in r <==> e in s {
      assert e + 1 in Turn(r) <==> e + 1 in Turn(s);
      assert Lower(e + 1, 1) == e;
    }
  }

  lemma {:induction false} TurnsInjective(r: Poly, s: Poly, n: nat)
    requires Below(r, 32) && Below(s, 32)
    ensures Turns(r, n) == Turns(s, n) ==> r == s
  {
    if n > 0 && Turns(r, n) == Turns(s, n) {
      CongruentRefl(r);
      CongruentRefl(s);
      TurnsCongruent(r, r, n - 1);
      TurnsCongruent(s, s, n - 1);
      TurnInjective(Turns(r, n - 1), Turns(s, n - 1));
      TurnsInjective(r, s, n - 1);
    }
  }

  lemma {:induction false} TurnsOfZero(n: nat)
    ensures Turns(iset{}, n) == iset{}
  {
    if n > 0 {
      TurnsOfZero(n - 1);
      AddZero(iset{});
    }
  }

  /** No nonzero polynomial of degree below 32, times a power of x, is a multiple of the generator. */
  lemma ShortBurst(burst: Poly, k: nat)
    requires Below(burst, 32) && IsRemainder(Shift(burst, k), iset{})
    ensures burst == iset{}
  {
    CongruentRefl(burst);
    TurnsCongruent(burst, burst, k);
    RemainderIsUnique(Shift(burst, k), iset{}, Turns(burst, k));
    TurnsOfZero(k);
    TurnsInjective(burst, iset{}, k);
  }

  lemma FromZero(data: seq<byte>)
    ensures Below(Register(iset{}, data), 32)
    ensures IsRemainder(Shift(MessagePoly(data), 32), Register(iset{}, data))
  {
    RegisterIsRemainder(iset{}, data);
    assert forall e :: e in Shift(iset{}, 8 * |data|) <==> Lower(e, 8 * |data|) in iset{};
    assert Divided(iset{}, data) == Shift(MessagePoly(data), 32);
  }

  /** Another word is the checksum of other data of the same length exactly when the register makes the
      difference of the words of the difference of the data. */
  lemma DifferenceIff(a: seq<byte>, b: seq<byte>, x: nat, y: nat)
    requires |a| == |b| && IsCrc(x, a) && y <= ALL_ONES
    ensures IsCrc(y, b) <==> Register(iset{}, XorBytes(a, b)) == Add(WordPoly(x), WordPoly(y))
  {
    hide WordPoly, Register, XorBytes;
    var ones, p, q := WordPoly(ALL_ONES), WordPoly(x), WordPoly(y);
    RegisterLinear(ones, ones, a, b);
    Cancel(iset{}, ones, ones);
    AddZero(ones);
    ComplementPoly(x);
    ComplementPoly(y);
    Cancels(ones, p, q, Register(ones, b));
  }

  lemma Cancels(ones: Poly, p: Poly, q: Poly, r: Poly)
    ensures Add(ones, ones) == iset{}
    ensures Add(ones, q) == r <==> Add(Add(ones, p), r) == Add(p, q)
  {
    assert Add(Add(ones, p), Add(ones, q)) == Add(p, q);
    if Add(Add(ones, p), r) == Add(p, q) {
      forall e ensures e in Add(ones, q) <==> e in r {
        assert e in Add(Add(ones, p), r) <==> e in Add(p, q);
      }
    }
  }

  /** Two equally long messages that differ in bits spread over at most 32 never share a checksum. */
  lemma BitBurstDetected(a: seq<byte>, b: seq<byte>, burst: Poly, k: nat, x: nat, y: nat)
    requires |a| == |b| && IsCrc(x, a) && IsCrc(y, b)
    requires burst != iset{} && Below(burst, 32) && Add(MessagePoly(a), MessagePoly(b)) == Shift(burst, k)
    ensures x != y
  {
    hide WordPoly, Register, XorBytes, MessagePoly;
    if x == y {
      DifferenceIff(a, b, x, y);
      assert Add(WordPoly(x), WordPoly(x)) == iset{};
      MessageXor(a, b);
      FromZero(XorBytes(a, b));
      ShiftShift(burst, k, 32);
      ShortBurst(burst, k + 32);
    }
  }

  /** Two messages that differ only inside a window of four bytes never share a checksum. */
  lemma BurstDetected(head: seq<byte>, a: seq<byte>, b: seq<byte>, tail: seq<byte>, x: nat, y: nat)
    requires |a| == |b| <= 4 && a != b
    requires IsCrc(x, head + a + tail) && IsCrc(y, head + b + tail)
    ensures x != y
  {
    hide MessagePoly, IsCrc;
    var p, q, h, t := MessagePoly(a), MessagePoly(b), MessagePoly(head), MessagePoly(tail);
    MessageConcat(head + a, tail);
    MessageConcat(head + b, tail);
    MessageConcat(head, a);
    MessageConcat(head, b);
    MessageBelow(a);
    MessageBelow(b);
    if Add(p, q) == iset{} {
      SumIsNothing(p, q);
      MessageInjective(a, b);
    }
    WindowSum(h, p, q, t, 8 * |a|, 8 * |tail|);
    BitBurstDetected(head + a + tail, head + b + tail, Add(p, q), 8 * |tail|, x, y);
  }

  lemma SumIsNothing(p: Poly, q: Poly)
    requires Add(p, q) == iset{}
    ensures p == q
  {
    forall e ensures e in p <==> e in q {
      assert e !in Add(p, q);
    }
  }

  lemma WindowSum(h: Poly, p: Poly, q: Poly, t: Poly, j: nat, k: nat)
    ensures Add(Add(Shift(Add(Shift(h, j), p), k), t), Add(Shift(Add(Shift(h, j), q), k), t)) == Shift(Add(p, q), k)
  {
  }
}
