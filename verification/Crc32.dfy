/** The CRC of include/modules/phy_pcs.hpp: the bitwise loop, what it computes over GF(2), and the
    errors it detects. */
module Crc32 {
  import opened Words
  import opened Gf2

  const POLYNOMIAL: nat := 0xEDB88320
  const ALL_ONES: nat := 0xFFFFFFFF

  // ---- words and bytes as polynomials ----

  /** Words are reflected: the most significant of `width` bits is the coefficient of x to the 0. */
  predicate Term(word: nat, e: int, width: nat)
  {
    0 <= e < width && Bit(word, width - 1 - e)
  }

  ghost function WordPoly(word: nat): Poly
  {
    iset e | Term(word, e, 32)
  }

  ghost function BytePoly(b: byte): Poly
  {
    iset e | Term(b, e, 8)
  }

  // ---- the register, one turn and one byte at a time ----

  /** Multiply by x, and subtract the generator if the degree reached 32. */
  ghost function Turn(r: Poly): Poly
  {
    if 31 in r then Add(MulX(r), GENERATOR) else MulX(r)
  }

  ghost function Turns(r: Poly, n: nat): Poly
  {
    if n == 0 then r else Turn(Turns(r, n - 1))
  }

  ghost function Update(r: Poly, b: byte): Poly
  {
    Turns(Add(r, Shift(BytePoly(b), 24)), 8)
  }

  /** The register after absorbing `data`. */
  ghost function Register(r: Poly, data: seq<byte>): Poly
    decreases |data|
  {
    if data == [] then r
    else Update(Register(r, data[..|data| - 1]), data[|data| - 1])
  }

  /** `crc` is the checksum of `data`. */
  ghost predicate IsCrc(crc: nat, data: seq<byte>)
  {
    crc <= ALL_ONES && WordPoly(ALL_ONES - crc) == Register(WordPoly(ALL_ONES), data)
  }

  // ---- the loop computes that register ----

  lemma WordXor(a: nat, b: nat)
    ensures WordPoly(Xor(a, b)) == Add(WordPoly(a), WordPoly(b))
  {
    forall e ensures Term(Xor(a, b), e, 32) == (Term(a, e, 32) != Term(b, e, 32)) {
      if 0 <= e < 32 { XorBit(a, b, 31 - e); }
    }
  }

  /** A right shift multiplies by x, and drops the coefficient of x to the 31. */
  lemma WordShift(a: nat)
    requires a <= ALL_ONES
    ensures forall e :: e in WordPoly(a / 2) <==> e in MulX(WordPoly(a)) && e < 32
    ensures 31 in WordPoly(a) <==> a % 2 == 1
  {
    BitWidths();
    HighBits(a, 32, 32);
    forall e ensures e in WordPoly(a / 2) <==> e in MulX(WordPoly(a)) && e < 32 {
      assert e in MulX(WordPoly(a)) <==> Lower(e, 1) in WordPoly(a);
      if 0 <= e < 32 {
        assert Bit(a / 2, 31 - e) == Bit(a, 32 - e);
      }
    }
  }

  lemma ByteWord(b: byte)
    ensures WordPoly(b) == Shift(BytePoly(b), 24)
  {
    BitWidths();
    forall e ensures e in WordPoly(b) <==> e in Shift(BytePoly(b), 24) {
      assert e in Shift(BytePoly(b), 24) <==> Lower(e, 24) in BytePoly(b);
      if 0 <= e < 24 {
        HighBits(b, 8, 31 - e);
      }
    }
  }

  /** The word whose bit k is the generator's coefficient of x to the 31 - i - k. */
  function Taps(i: nat): nat
    decreases 32 - i
  {
    if 32 <= i then 0 else (if GeneratorTerm(31 - i) then 1 else 0) + 2 * Taps(i + 1)
  }

  lemma TapsHalf(i: nat)
    ensures Taps(i) / 2 == Taps(i + 1) && (Taps(i) % 2 == 1 <==> i < 32 && GeneratorTerm(31 - i))
  {
    hide GeneratorTerm;
  }

  lemma {:induction false} TapsBits(i: nat, k: nat)
    ensures Bit(Taps(i), k) <==> i + k < 32 && GeneratorTerm(31 - i - k)
    decreases k
  {
    hide GeneratorTerm, Taps;
    TapsHalf(i);
    if k > 0 {
      TapsBits(i + 1, k - 1);
    }
  }

  lemma TapsFrom24()
    ensures Taps(24) == 0xED
  {
    assert Taps(30) == 0x3;
    assert Taps(28) == 0xE;
    assert Taps(26) == 0x3B;
  }

  lemma TapsFrom16()
    ensures Taps(16) == 0xEDB8
  {
    TapsFrom24();
    assert Taps(22) == 0x3B6;
    assert Taps(20) == 0xEDB;
    assert Taps(18) == 0x3B6E;
  }

  lemma TapsFrom8()
    ensures Taps(8) == 0xEDB883
  {
    TapsFrom16();
    assert Taps(14) == 0x3B6E2;
    assert Taps(12) == 0xEDB88;
    assert Taps(10) == 0x3B6E20;
  }

  lemma TapsFrom0()
    ensures Taps(0) == 0xEDB88320
  {
    TapsFrom8();
    assert Taps(6) == 0x3B6E20C;
    assert Taps(4) == 0xEDB8832;
    assert Taps(2) == 0x3B6E20C8;
  }

  /** The reflected constant is the generator without its leading term. */
  lemma PolynomialIsGenerator()
    ensures forall e :: e in WordPoly(POLYNOMIAL) <==> e in GENERATOR && e < 32
  {
    TapsFrom0();
    forall e | 0 <= e < 32 ensures Term(POLYNOMIAL, e, 32) <==> e in GENERATOR {
      TapsBits(0, 31 - e);
    }
    GeneratorTerms();
  }

  lemma GeneratorTerms()
    ensures forall e :: e in GENERATOR ==> 0 <= e <= 32
  {
  }

  /** One turn of the loop body is one polynomial turn. */
  lemma TurnWord(crc: nat)
    requires crc <= ALL_ONES
    ensures var next := Xor(crc / 2, if crc % 2 == 1 then POLYNOMIAL else 0);
            next <= ALL_ONES && WordPoly(next) == Turn(WordPoly(crc))
  {
    var tap := if crc % 2 == 1 then POLYNOMIAL else 0;
    var next := Xor(crc / 2, tap);
    BitWidths();
    XorBound(crc / 2, tap, 32);
    WordXor(crc / 2, tap);
    WordShift(crc);
    var r := WordPoly(crc);
    if crc % 2 == 1 {
      PolynomialIsGenerator();
      assert 32 in MulX(r) by { assert Lower(32, 1) in r; }
    } else {
      WordZero();
      assert 32 !in MulX(r) by { assert Lower(32, 1) !in r; }
    }
    forall e ensures e in WordPoly(next) <==> e in Turn(r) {
      if e > 32 { assert e !in MulX(r) by { assert Lower(e, 1) !in r; } }
    }
  }

  lemma WordZero()
    ensures WordPoly(0) == iset{}
  {
    forall k: nat ensures !Bit(0, k) { HighBits(0, 0, k); }
  }

  lemma WordPolyInjective(a: nat, b: nat)
    requires a <= ALL_ONES && b <= ALL_ONES
    requires WordPoly(a) == WordPoly(b)
    ensures a == b
  {
    BitWidths();
    forall k | 0 <= k < 32 ensures Bit(a, k) == Bit(b, k) {
      assert 31 - k in WordPoly(a) <==> 31 - k in WordPoly(b);
    }
    SameBits(a, b, 32);
  }

  /** No data has two checksums. */
  lemma CrcIsUnique(x: nat, y: nat, data: seq<byte>)
    requires IsCrc(x, data) && IsCrc(y, data)
    ensures x == y
  {
    WordPolyInjective(ALL_ONES - x, ALL_ONES - y);
  }

  method Compute(data: seq<byte>) returns (r: nat)
    ensures IsCrc(r, data)
  {
    var crc: nat := ALL_ONES;
    for i := 0 to |data|
      invariant crc <= ALL_ONES
      invariant WordPoly(crc) == Register(WordPoly(ALL_ONES), data[..i])
    {
      ghost var was := WordPoly(crc);
      AbsorbByte(crc, data[i]);
      crc := Xor(crc, data[i]);
      ghost var mixed := WordPoly(crc);
      for bit := 0 to 8
        invariant crc <= ALL_ONES
        invariant WordPoly(crc) == Turns(mixed, bit)
      {
        TurnWord(crc);
        // The mask 0 - (crc & 1) of the source keeps the polynomial or clears it.
        crc := Xor(crc / 2, if crc % 2 == 1 then POLYNOMIAL else 0);
      }
      assert data[..i + 1][..i] == data[..i];
      assert WordPoly(crc) == Update(was, data[i]);
    }
    assert data[..|data|] == data;
    r := ALL_ONES - crc;
  }

  lemma AbsorbByte(crc: nat, b: byte)
    requires crc <= ALL_ONES
    ensures Xor(crc, b) <= ALL_ONES
    ensures WordPoly(Xor(crc, b)) == Add(WordPoly(crc), Shift(BytePoly(b), 24))
  {
    BitWidths();
    XorBound(crc, b, 32);
    WordXor(crc, b);
    ByteWord(b);
  }

  /** Every string of bytes has a checksum. */
  lemma {:induction false} CrcExists(data: seq<byte>) returns (crc: nat)
    ensures IsCrc(crc, data)
    decreases |data|
  {
    if data == [] {
      crc := 0;
    } else {
      var n := |data| - 1;
      var front := CrcExists(data[..n]);
      var mixed := Xor(ALL_ONES - front, data[n]);
      AbsorbByte(ALL_ONES - front, data[n]);
      var turned := TurnsExist(mixed, 8);
      crc := ALL_ONES - turned;
    }
  }

  lemma {:induction false} TurnsExist(crc: nat, n: nat) returns (turned: nat)
    requires crc <= ALL_ONES
    ensures turned <= ALL_ONES && WordPoly(turned) == Turns(WordPoly(crc), n)
    decreases n
  {
    if n == 0 {
      turned := crc;
    } else {
      var t := TurnsExist(crc, n - 1);
      TurnWord(t);
      turned := Xor(t / 2, if t % 2 == 1 then POLYNOMIAL else 0);
    }
  }

  /** The checksum of `data`. */
  ghost function Crc(data: seq<byte>): (crc: nat)
    ensures IsCrc(crc, data)
  {
    assert exists crc: nat :: IsCrc(crc, data) by {
      var crc := CrcExists(data);
    }
    var crc: nat :| IsCrc(crc, data);
    crc
  }
}
