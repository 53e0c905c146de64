/** Which alterations of a payload and its stored checksum the check of include/modules/phy_pcs.hpp misses. */
module Codewords {
  import opened Words
  import opened Gf2
  import opened Crc32
  import opened CrcTheory

  // ---- multiples of the generator with a gap ----

  /** Coefficients are listed from the highest power down. */
  predicate Coefficient(q: seq<bool>, e: int)
  {
    0 <= e < |q| && q[|q| - 1 - e]
  }

  /** One coefficient of the product of q and the generator. */
  predicate ProductTerm(q: seq<bool>, e: int)
  {
    (((((((((((((Coefficient(q, e) != Coefficient(q, e - 1)) != Coefficient(q, e - 2)) != Coefficient(q, e - 4))
    != Coefficient(q, e - 5)) != Coefficient(q, e - 7)) != Coefficient(q, e - 8)) != Coefficient(q, e - 10))
    != Coefficient(q, e - 11)) != Coefficient(q, e - 12)) != Coefficient(q, e - 16)) != Coefficient(q, e - 22))
    != Coefficient(q, e - 23)) != Coefficient(q, e - 26)) != Coefficient(q, e - 32)
  }

  lemma {:induction false} ProductIs(q: seq<bool>, e: int)
    ensures e in Multiple(q) <==> ProductTerm(q, e)
  {
    if q != [] {
      var n := |q| - 1;
      ProductIs(q[..n], e - 1);
      var high := MulX(Multiple(q[..n]));
      assert e in high <==> Lower(e, 1) in Multiple(q[..n]);
      forall k ensures Coefficient(q, k) <==> (k == 0 && q[n]) != Coefficient(q[..n], k - 1) {}
      assert e in Multiple(q) <==> (e in high) != (q[n] && GeneratorTerm(e));
    }
  }

  /** The product has no coefficient from x to the `low` up to x to the 31. */
  predicate HasGap(q: seq<bool>, low: int)
  {
    forall e :: low <= e < 32 ==> !ProductTerm(q, e)
  }

  predicate IsZero(q: seq<bool>)
  {
    forall i :: 0 <= i < |q| ==> !q[i]
  }

  lemma Gap8(q: seq<bool>)
    requires |q| == 8 && HasGap(q, 24)
    ensures IsZero(q)
  {
    assert !ProductTerm(q, 24) && !ProductTerm(q, 25) && !ProductTerm(q, 26) && !ProductTerm(q, 27);
    assert !ProductTerm(q, 28) && !ProductTerm(q, 29) && !ProductTerm(q, 30) && !ProductTerm(q, 31);
  }

  lemma Gap24(q: seq<bool>)
    requires |q| == 24 && HasGap(q, 8)
    ensures IsZero(q)
  {
    hide ProductTerm, IsZero;
    NoneOf24(q);
  }

  lemma NoneOf24(q: seq<bool>)
    requires |q| == 24
    requires !ProductTerm(q, 8) && !ProductTerm(q, 9) && !ProductTerm(q, 10) && !ProductTerm(q, 11)
    requires !ProductTerm(q, 12) && !ProductTerm(q, 13) && !ProductTerm(q, 14) && !ProductTerm(q, 15)
    requires !ProductTerm(q, 16) && !ProductTerm(q, 17) && !ProductTerm(q, 18) && !ProductTerm(q, 19)
    requires !ProductTerm(q, 20) && !ProductTerm(q, 21) && !ProductTerm(q, 22) && !ProductTerm(q, 23)
    requires !ProductTerm(q, 24) && !ProductTerm(q, 25) && !ProductTerm(q, 26) && !ProductTerm(q, 27)
    requires !ProductTerm(q, 28) && !ProductTerm(q, 29) && !ProductTerm(q, 30) && !ProductTerm(q, 31)
    ensures IsZero(q)
  {
  }

  /** The one nonzero quotient of degree below 16 whose product has a gap of 16. */
  predicate MissedQuotient(e: int)
  {
    e == 0 || e == 3 || e == 5 || e == 6 || e == 10 || e == 15
  }

  lemma Gap16(q: seq<bool>)
    requires |q| == 16 && HasGap(q, 16) && !IsZero(q)
    ensures forall e :: Coefficient(q, e) <==> MissedQuotient(e)
  {
    assert !ProductTerm(q, 16) && !ProductTerm(q, 17) && !ProductTerm(q, 18) && !ProductTerm(q, 19);
    assert !ProductTerm(q, 20) && !ProductTerm(q, 21) && !ProductTerm(q, 22) && !ProductTerm(q, 23);
    assert !ProductTerm(q, 24) && !ProductTerm(q, 25) && !ProductTerm(q, 26) && !ProductTerm(q, 27);
    assert !ProductTerm(q, 28) && !ProductTerm(q, 29) && !ProductTerm(q, 30) && !ProductTerm(q, 31);
  }

  // ---- quotients ----

  lemma {:induction false} TurnsQuotient(r: Poly, n: nat) returns (q: seq<bool>)
    requires Below(r, 32)
    ensures |q| == n && Below(Turns(r, n), 32) && Shift(r, n) == Add(Multiple(q), Turns(r, n))
  {
    if n == 0 {
      q := [];
      ShiftZero(r);
      AddZero(r);
      CongruentRefl(r);
      TurnsCongruent(r, r, 0);
    } else {
      var front := TurnsQuotient(r, n - 1);
      var turned := Turns(r, n - 1);
      q := front + [31 in turned];
      assert q[..n - 1] == front;
      CongruentRefl(turned);
      TurnCongruent(turned, turned);
      ShiftShift(r, n - 1, 1);
      ShiftAdd(Multiple(front), turned, 1);
      Cancel(MulX(Multiple(front)), MulX(turned), GENERATOR);
    }
  }

  /** What the register makes of a few bytes, with the quotient of the division. */
  lemma Quotient(d: seq<byte>) returns (q: seq<bool>)
    requires |d| <= 4
    ensures |q| == 8 * |d| && Shift(MessagePoly(d), 32) == Add(Multiple(q), Register(iset{}, d))
  {
    hide MessagePoly, Register, Turns, Multiple;
    var r := Shift(MessagePoly(d), 32 - 8 * |d|);
    MessageBelow(d);
    ShiftBelow(MessagePoly(d), 32 - 8 * |d|, 8 * |d|);
    q := TurnsQuotient(r, 8 * |d|);
    ShiftShift(MessagePoly(d), 32 - 8 * |d|, 8 * |d|);
    FromZero(d);
    RemainderIsUnique(Shift(MessagePoly(d), 32), Turns(r, 8 * |d|), Register(iset{}, d));
  }

  // ---- stored checksums ----

  lemma {:induction false} BigEndianBit(s: seq<byte>, k: nat)
    requires k < 8 * |s|
    ensures Bit(BigEndian(s), k) == Bit(s[|s| - 1 - k / 8], k % 8)
  {
    hide Bit;
    var n := |s| - 1;
    BitWidths();
    BitConcat(BigEndian(s[..n]), s[n], 8, k);
    if 8 <= k {
      BigEndianBit(s[..n], k - 8);
      assert k / 8 == (k - 8) / 8 + 1 && k % 8 == (k - 8) % 8;
    }
  }

  /** Four stored bytes as a polynomial: the encoder stores the most significant byte first, which holds
      the coefficients of the lowest powers. */
  ghost function StoredPoly(s: seq<byte>): Poly
  {
    WordPoly(BigEndian(s))
  }

  lemma StoredTerm(s: seq<byte>, e: int)
    requires |s| == 4
    ensures e in StoredPoly(s) <==> 0 <= e < 32 && e % 8 in BytePoly(s[e / 8])
  {
    if 0 <= e < 32 {
      BigEndianBit(s, 31 - e);
    }
  }

  lemma {:induction false} MessageTerm(d: seq<byte>, e: int)
    ensures e in MessagePoly(d) <==> 0 <= e < 8 * |d| && e % 8 in BytePoly(d[|d| - 1 - e / 8])
  {
    if d != [] {
      var n := |d| - 1;
      MessageTerm(d[..n], e - 8);
      var high := Shift(MessagePoly(d[..n]), 8);
      assert e in high <==> Lower(e, 8) in MessagePoly(d[..n]);
    }
  }

  lemma ByteTerm(b: byte, e: int)
    ensures e in BytePoly(b) ==> 0 <= e < 8
    ensures b == 0 ==> e !in BytePoly(b)
  {
    if 0 <= e < 8 {
      HighBits(0, 0, 7 - e);
    }
  }

  predicate AllZero(s: seq<byte>)
  {
    forall k :: 0 <= k < |s| ==> s[k] == 0
  }

  lemma ZeroByte(b: byte)
    requires forall e :: e !in BytePoly(b)
    ensures b == 0
  {
    forall e ensures e !in BytePoly(0) { ByteTerm(0, e); }
    BytePolyInjective(b, 0);
  }

  lemma MessageIsZero(d: seq<byte>)
    ensures MessagePoly(d) == iset{} <==> AllZero(d)
  {
    if AllZero(d) {
      forall e ensures e !in MessagePoly(d) {
        MessageTerm(d, e);
        ByteTerm(0, e % 8);
      }
    }
    if MessagePoly(d) == iset{} {
      forall k | 0 <= k < |d| ensures d[k] == 0 {
        forall e ensures e !in BytePoly(d[k]) {
          ByteTerm(d[k], e);
          MessageTerm(d, 8 * (|d| - 1 - k) + e);
        }
        ZeroByte(d[k]);
      }
    }
  }

  lemma StoredInjective(s: seq<byte>, t: seq<byte>)
    requires |s| == |t| == 4 && StoredPoly(s) == StoredPoly(t)
    ensures s == t
  {
    hide StoredPoly, BytePoly;
    forall k | 0 <= k < 4 ensures s[k] == t[k] {
      forall e ensures e in BytePoly(s[k]) <==> e in BytePoly(t[k]) {
        ByteTerm(s[k], e);
        ByteTerm(t[k], e);
        StoredTerm(s, 8 * k + e);
        StoredTerm(t, 8 * k + e);
      }
      BytePolyInjective(s[k], t[k]);
    }
  }

  lemma StoredZero(s: seq<byte>)
    requires |s| == 4 && AllZero(s)
    ensures StoredPoly(s) == iset{}
  {
    forall e ensures e !in StoredPoly(s) {
      StoredTerm(s, e);
      ByteTerm(0, e % 8);
    }
  }

  // ---- the one alteration across the boundary that is missed ----

  const MISSED_DATA: seq<byte> := [0x61, 0xD8]
  const MISSED_CHECK: seq<byte> := [0xF4, 0xEE, 0, 0]

  predicate MissedDataTerm(e: int)
  {
    e == 0 || e == 1 || e == 3 || e == 4 || e == 9 || e == 10 || e == 15
  }

  predicate MissedCheckTerm(e: int)
  {
    e == 0 || e == 1 || e == 2 || e == 3 || e == 5 || e == 8 || e == 9 || e == 10 || e == 12 || e == 13 || e == 14
  }

  lemma MissedProduct(q: seq<bool>, e: int)
    requires forall k :: Coefficient(q, k) <==> MissedQuotient(k)
    ensures e in Multiple(q) <==> MissedCheckTerm(e) || MissedDataTerm(e - 32)
  {
    hide Coefficient;
    ProductIs(q, e);
  }

  lemma MissedBytes(e: int)
    ensures e in BytePoly(0x61) <==> e == 1 || e == 2 || e == 7
    ensures e in BytePoly(0xD8) <==> e == 0 || e == 1 || e == 3 || e == 4
    ensures e in BytePoly(0xF4) <==> e == 0 || e == 1 || e == 2 || e == 3 || e == 5
    ensures e in BytePoly(0xEE) <==> e == 0 || e == 1 || e == 2 || e == 4 || e == 5 || e == 6
  {
    if 0 <= e < 8 {
      var k := 7 - e;
      assert k == 0 || k == 1 || k == 2 || k == 3 || k == 4 || k == 5 || k == 6 || k == 7;
    }
  }

  lemma MissedTerms(e: int)
    ensures e in MessagePoly(MISSED_DATA) <==> MissedDataTerm(e)
    ensures e in StoredPoly(MISSED_CHECK) <==> MissedCheckTerm(e)
  {
    hide MessagePoly, StoredPoly, BytePoly;
    MessageTerm(MISSED_DATA, e);
    StoredTerm(MISSED_CHECK, e);
    MissedBytes(e % 8);
    ByteTerm(0, e % 8);
  }

  lemma MissedIsMissed()
    ensures Register(iset{}, MISSED_DATA) == StoredPoly(MISSED_CHECK)
  {
    hide MessagePoly, StoredPoly, Register, Multiple;
    var q := seq(16, i requires 0 <= i < 16 => MissedQuotient(15 - i));
    var data, check := Shift(MessagePoly(MISSED_DATA), 32), StoredPoly(MISSED_CHECK);
    forall e ensures e in data <==> e in Add(Multiple(q), check) {
      assert e in data <==> Lower(e, 32) in MessagePoly(MISSED_DATA);
      MissedProduct(q, e);
      MissedTerms(e);
      MissedTerms(e - 32);
    }
    assert data == Add(Multiple(q), check);
    forall e | e in check ensures e < 32 { MissedTerms(e); }
    FromZero(MISSED_DATA);
    RemainderIsUnique(data, check, Register(iset{}, MISSED_DATA));
  }

  lemma ZeroRegister(d: seq<byte>)
    requires AllZero(d)
    ensures Register(iset{}, d) == iset{}
    decreases |d|
  {
    hide MessagePoly, Register, AllZero;
    MessageIsZero(d);
    FromZero(d);
    assert forall e :: e in Shift(iset{}, 32) <==> Lower(e, 32) in iset{};
    assert Shift(iset{}, 32) == iset{};
    CongruentRefl(iset{});
    RemainderIsUnique(iset{}, iset{}, Register(iset{}, d));
  }

  /** What the last bytes of a payload and the first of its checksum have to do with a multiple of the
      generator, if the check misses that they are altered. */
  lemma Straddling(d: seq<byte>, t: seq<byte>) returns (q: seq<bool>)
    requires 1 <= |d| <= 3 && |t| == 4 && AllZero(t[4 - |d|..])
    requires Register(iset{}, d) == StoredPoly(t)
    ensures |q| == 8 * |d| && HasGap(q, 32 - 8 * |d|)
    ensures forall e :: e in Multiple(q) <==> e in StoredPoly(t) || e - 32 in MessagePoly(d)
    ensures forall e :: e in MessagePoly(d) ==> 0 <= e
    ensures forall e :: e in StoredPoly(t) ==> 0 <= e < 32
  {
    hide MessagePoly, StoredPoly, Register, Multiple, ProductTerm, BytePoly;
    q := Quotient(d);
    var data, check := Shift(MessagePoly(d), 32), StoredPoly(t);
    forall e
      ensures e in data <==> e - 32 in MessagePoly(d)
      ensures e in check ==> 0 <= e < 32 - 8 * |d|
      ensures e in MessagePoly(d) ==> 0 <= e
    {
      assert e in data <==> Lower(e, 32) in MessagePoly(d);
      MessageTerm(d, e);
      StoredTerm(t, e);
      if e in check && 4 - |d| <= e / 8 {
        assert t[e / 8] == t[4 - |d|..][e / 8 - (4 - |d|)];
        ByteTerm(0, e % 8);
      }
    }
    forall e ensures e in Multiple(q) <==> e in check || e - 32 in MessagePoly(d) {
      assert e in data <==> e in Add(Multiple(q), check);
    }
    forall e | 32 - 8 * |d| <= e < 32 ensures !ProductTerm(q, e) { ProductIs(q, e); }
  }

  /** Up to three payload bytes and the rest of four in the checksum: only one alteration is missed. */
  lemma StraddleMissed(d: seq<byte>, t: seq<byte>)
    requires 1 <= |d| <= 3 && |t| == 4 && AllZero(t[4 - |d|..])
    requires Register(iset{}, d) == StoredPoly(t)
    ensures (AllZero(d) && AllZero(t)) || (d == MISSED_DATA && t == MISSED_CHECK)
  {
    hide MessagePoly, StoredPoly, Register, Multiple, ProductTerm, HasGap, IsZero, AllZero, Coefficient, MissedQuotient;
    var q := Straddling(d, t);
    if |d| == 1 { Gap8(q); }
    if |d| == 3 { Gap24(q); }
    if IsZero(q) {
      NoProduct(q);
      NothingAltered(q, d, t);
    } else {
      Gap16(q);
      OneAltered(q, d, t);
    }
  }

  lemma OneAltered(q: seq<bool>, d: seq<byte>, t: seq<byte>)
    requires |d| == 2 && |t| == 4 && forall k :: Coefficient(q, k) <==> MissedQuotient(k)
    requires forall e :: e in Multiple(q) <==> e in StoredPoly(t) || e - 32 in MessagePoly(d)
    requires forall e :: e in MessagePoly(d) ==> 0 <= e
    requires forall e :: e in StoredPoly(t) ==> 0 <= e < 32
    ensures d == MISSED_DATA && t == MISSED_CHECK
  {
    hide MessagePoly, StoredPoly, Multiple, Coefficient;
    forall e
      ensures e in MessagePoly(d) <==> e in MessagePoly(MISSED_DATA)
      ensures e in StoredPoly(t) <==> e in StoredPoly(MISSED_CHECK)
    {
      MissedProduct(q, e + 32);
      MissedProduct(q, e);
      MissedTerms(e);
    }
    MessageInjective(d, MISSED_DATA);
    StoredInjective(t, MISSED_CHECK);
  }

  lemma NothingAltered(q: seq<bool>, d: seq<byte>, t: seq<byte>)
    requires |t| == 4 && forall e :: e !in Multiple(q)
    requires forall e :: e in Multiple(q) <==> e in StoredPoly(t) || e - 32 in MessagePoly(d)
    ensures AllZero(d) && AllZero(t)
  {
    hide MessagePoly, StoredPoly, Multiple;
    forall e ensures e !in MessagePoly(d) && e !in StoredPoly(t) {
      assert e !in Multiple(q) && e + 32 !in Multiple(q);
    }
    assert StoredPoly(t) == iset{} && MessagePoly(d) == iset{};
    MessageIsZero(d);
    StoredIsZero(t);
  }

  lemma NoProduct(q: seq<bool>)
    requires IsZero(q)
    ensures forall e :: e !in Multiple(q)
  {
    hide Multiple;
    forall e ensures e !in Multiple(q) { ProductIs(q, e); }
  }

  lemma StoredIsZero(t: seq<byte>)
    requires |t| == 4 && StoredPoly(t) == iset{}
    ensures AllZero(t)
  {
    hide StoredPoly;
    StoredZero(Zeros(4));
    StoredInjective(t, Zeros(4));
  }

  // ---- any alteration inside four consecutive bytes ----

  /** All bytes that are not zero lie in a window of four. */
  predicate InWindow(e: seq<byte>, i: nat)
  {
    forall k :: 0 <= k < |e| && e[k] != 0 ==> i <= k < i + 4
  }

  /** A payload and its stored checksum altered by this difference still agree. */
  ghost predicate Missed(e: seq<byte>)
    requires 4 <= |e|
  {
    Register(iset{}, e[..|e| - 4]) == StoredPoly(e[|e| - 4..])
  }

  /** The last two payload bytes and the first two of the checksum. */
  function MissedDifference(length: nat): (e: seq<byte>)
    requires 6 <= length
    ensures |e| == length
  {
    Zeros(length - 6) + MISSED_DATA + MISSED_CHECK
  }

  /** Leading zeros do not reach the register. */
  lemma LeadingZeros(zeros: seq<byte>, d: seq<byte>)
    requires AllZero(zeros)
    ensures Register(iset{}, zeros + d) == Register(iset{}, d)
  {
    hide MessagePoly, Register, AllZero;
    MessageConcat(zeros, d);
    MessageIsZero(zeros);
    assert forall e :: e in Shift(iset{}, 8 * |d|) <==> Lower(e, 8 * |d|) in iset{};
    assert Shift(iset{}, 8 * |d|) == iset{};
    AddZero(MessagePoly(d));
    FromZero(zeros + d);
    FromZero(d);
    RemainderIsUnique(Shift(MessagePoly(d), 32), Register(iset{}, zeros + d), Register(iset{}, d));
  }

  /** Four bytes of the payload that are not all zero always reach the register. */
  lemma InsideSeen(zeros: seq<byte>, d: seq<byte>, tail: seq<byte>)
    requires AllZero(zeros) && AllZero(tail) && |d| <= 4
    requires Register(iset{}, zeros + d + tail) == iset{}
    ensures AllZero(d)
  {
    hide MessagePoly, Register, AllZero;
    var all := d + tail;
    assert zeros + d + tail == zeros + all;
    LeadingZeros(zeros, all);
    MessageConcat(d, tail);
    MessageIsZero(tail);
    var burst := MessagePoly(d);
    AddZero(Shift(burst, 8 * |tail|));
    AddAssoc(Shift(burst, 8 * |tail|), iset{}, iset{});
    FromZero(all);
    ShiftShift(burst, 8 * |tail|, 32);
    MessageBelow(d);
    ShortBurst(burst, 8 * |tail| + 32);
    MessageIsZero(d);
  }

  lemma WindowInside(e: seq<byte>, i: nat)
    requires i + 8 <= |e| && InWindow(e, i) && Missed(e)
    ensures AllZero(e)
  {
    hide Register, StoredPoly;
    var n := |e| - 4;
    StoredZero(e[n..]);
    assert e[..n] == e[..i] + e[i..i + 4] + e[i + 4..n];
    InsideSeen(e[..i], e[i..i + 4], e[i + 4..n]);
    assert forall k :: i <= k < i + 4 ==> e[k] == e[i..i + 4][k - i];
  }

  lemma WindowBehind(e: seq<byte>, i: nat)
    requires 4 <= |e| <= i + 4 && InWindow(e, i) && Missed(e)
    ensures AllZero(e)
  {
    hide Register, StoredPoly;
    var n := |e| - 4;
    ZeroRegister(e[..n]);
    StoredIsZero(e[n..]);
    assert forall k :: n <= k < |e| ==> e[k] == e[n..][k - n];
  }

  lemma WindowAcross(e: seq<byte>, i: nat)
    requires i + 4 < |e| < i + 8 && InWindow(e, i) && Missed(e) && !AllZero(e)
    ensures 6 <= |e| && e == MissedDifference(|e|)
  {
    hide Register, StoredPoly;
    var n := |e| - 4;
    var d, t := e[i..n], e[n..];
    assert e[..n] == e[..i] + d && e == e[..i] + d + t && e[..i] == Zeros(i);
    assert forall k :: i <= k < n ==> e[k] == d[k - i];
    assert forall k :: n <= k < |e| ==> e[k] == t[k - n];
    LeadingZeros(e[..i], d);
    StraddleMissed(d, t);
  }

  lemma DifferenceMissed(length: nat)
    requires 6 <= length
    ensures Missed(MissedDifference(length))
  {
    hide Register, StoredPoly;
    var e := MissedDifference(length);
    assert e[..length - 4] == Zeros(length - 6) + MISSED_DATA && e[length - 4..] == MISSED_CHECK;
    LeadingZeros(Zeros(length - 6), MISSED_DATA);
    MissedIsMissed();
  }

  /** Of all the differences inside four consecutive bytes exactly one is missed. */
  lemma WindowMissed(e: seq<byte>, i: nat)
    requires 4 <= |e| && InWindow(e, i) && !AllZero(e)
    ensures Missed(e) <==> 6 <= |e| && e == MissedDifference(|e|)
  {
    hide Missed, InWindow, AllZero, MissedDifference;
    if Missed(e) {
      if i + 8 <= |e| {
        WindowInside(e, i);
      } else if |e| <= i + 4 {
        WindowBehind(e, i);
      } else {
        WindowAcross(e, i);
      }
    }
    if 6 <= |e| {
      DifferenceMissed(|e|);
    }
  }

  // ---- codewords ----

  /** The payload and its checksum, most significant byte first. */
  ghost function Codeword(payload: seq<byte>): (s: seq<byte>)
    ensures |s| == |payload| + 4
  {
    payload + PutBytes(Crc(payload), 4)
  }

  /** The last four bytes are the checksum of those before. */
  ghost predicate ChecksumAgrees(word: seq<byte>)
    requires 4 <= |word|
  {
    IsCrc(BigEndian(word[|word| - 4..]), word[..|word| - 4])
  }

  lemma StoredXor(s: seq<byte>, t: seq<byte>)
    requires |s| == |t| == 4
    ensures StoredPoly(XorBytes(s, t)) == Add(StoredPoly(s), StoredPoly(t))
  {
    hide StoredPoly, BytePoly, XorByte;
    forall e ensures e in StoredPoly(XorBytes(s, t)) <==> e in Add(StoredPoly(s), StoredPoly(t)) {
      StoredTerm(s, e);
      StoredTerm(t, e);
      StoredTerm(XorBytes(s, t), e);
      if 0 <= e < 32 {
        BytePolyXor(s[e / 8], t[e / 8]);
      }
    }
  }

  lemma ChecksumAgreesIff(payload: seq<byte>, word: seq<byte>)
    requires |word| == |payload| + 4
    ensures ChecksumAgrees(word) <==> Missed(XorBytes(Codeword(payload), word))
  {
    hide Register, IsCrc, PutBytes, BigEndian, XorByte;
    var n, sent := |payload|, Codeword(payload);
    var u, v := sent[n..], word[n..];
    ByteWidths();
    StoredBack(payload);
    BigEndianBound(v);
    DifferenceIff(payload, word[..n], BigEndian(u), BigEndian(v));
    StoredXor(u, v);
    var e := XorBytes(sent, word);
    assert e[..n] == XorBytes(payload, word[..n]);
    assert e[n..] == XorBytes(u, v);
  }

  lemma StoredBack(payload: seq<byte>)
    ensures BigEndian(Codeword(payload)[|payload|..]) == Crc(payload)
  {
    ByteWidths();
    PutGet(Crc(payload), 4);
    assert Codeword(payload)[|payload|..] == PutBytes(Crc(payload), 4);
  }

  lemma XorTwice(a: byte, b: byte)
    ensures XorByte(a, XorByte(a, b)) == b
  {
    hide XorByte, BytePoly;
    BytePolyXor(a, b);
    BytePolyXor(a, XorByte(a, b));
    var p, q := BytePoly(a), BytePoly(b);
    assert Add(p, Add(p, q)) == q;
    BytePolyInjective(XorByte(a, XorByte(a, b)), b);
  }

  lemma XorSame(a: byte, b: byte)
    ensures XorByte(a, b) == 0 <==> a == b
  {
    hide XorByte, BytePoly;
    BytePolyXor(a, b);
    if a == b {
      assert Add(BytePoly(a), BytePoly(a)) == iset{};
      ZeroByte(XorByte(a, b));
    } else if XorByte(a, b) == 0 {
      forall e ensures e !in BytePoly(0) { ByteTerm(0, e); }
      SumIsNothing(BytePoly(a), BytePoly(b));
      BytePolyInjective(a, b);
    }
  }

  lemma DifferenceIs(sent: seq<byte>, word: seq<byte>, e: seq<byte>)
    requires |sent| == |word| == |e|
    ensures XorBytes(sent, word) == e <==> word == XorBytes(sent, e)
  {
    hide XorByte;
    forall k | 0 <= k < |sent| ensures XorByte(sent[k], word[k]) == e[k] <==> word[k] == XorByte(sent[k], e[k]) {
      XorTwice(sent[k], word[k]);
      XorTwice(sent[k], e[k]);
    }
    if XorBytes(sent, word) == e {
      assert forall k :: 0 <= k < |sent| ==> XorBytes(sent, word)[k] == e[k];
    }
    if word == XorBytes(sent, e) {
      assert forall k :: 0 <= k < |sent| ==> XorBytes(sent, e)[k] == word[k];
    }
  }

  /** A codeword altered inside four consecutive bytes still agrees with its checksum exactly if the last
      two bytes of the payload are changed by 61 D8 and the first two of the checksum by F4 EE. */
  lemma CodewordAltered(payload: seq<byte>, word: seq<byte>, i: nat)
    requires |word| == |payload| + 4 && word != Codeword(payload)
    requires forall k :: 0 <= k < |word| && word[k] != Codeword(payload)[k] ==> i <= k < i + 4
    ensures ChecksumAgrees(word) <==> 2 <= |payload| && word == XorBytes(Codeword(payload), MissedDifference(|word|))
  {
    hide ChecksumAgrees, Missed, XorByte, MissedDifference, Codeword;
    var sent := Codeword(payload);
    var e := XorBytes(sent, word);
    forall k | 0 <= k < |e| ensures e[k] == 0 <==> word[k] == sent[k] { XorSame(sent[k], word[k]); }
    ChecksumAgreesIff(payload, word);
    WindowMissed(e, i);
    if 2 <= |payload| {
      DifferenceIs(sent, word, MissedDifference(|word|));
    }
  }
}
