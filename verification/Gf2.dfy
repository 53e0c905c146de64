/** Polynomials over GF(2) and division by the CRC-32 generator of section 3.2.9 of IEEE 802.3. */
module Gf2 {

  /** A polynomial is the set of its exponents; addition is symmetric difference. */
  type Poly = iset<int>

  ghost const GENERATOR: Poly := iset e | GeneratorTerm(e)

  predicate GeneratorTerm(e: int)
  {
    || e == 32 || e == 26 || e == 23 || e == 22 || e == 16 || e == 12 || e == 11 || e == 10
    || e == 8 || e == 7 || e == 5 || e == 4 || e == 2 || e == 1 || e == 0
  }

  ghost function Add(p: Poly, q: Poly): Poly
  {
    iset e | (e in p) != (e in q)
  }

  /** A named e - k, so that what is said of shifted exponents has a term to match. */
  function Lower(e: int, k: int): int
  {
    e - k
  }

  /** p times x to the k. */
  ghost function Shift(p: Poly, k: int): Poly
  {
    iset e | Lower(e, k) in p
  }

  ghost function MulX(p: Poly): Poly
  {
    Shift(p, 1)
  }

  /** The product of the generator and the polynomial with the coefficients `quotient`, highest first. */
  ghost function Multiple(quotient: seq<bool>): Poly
  {
    if quotient == [] then iset{}
    else
      var high := MulX(Multiple(quotient[..|quotient| - 1]));
      if quotient[|quotient| - 1] then Add(high, GENERATOR) else high
  }

  /** p and q differ by a multiple of the generator. */
  ghost predicate Congruent(p: Poly, q: Poly)
  {
    exists quotient: seq<bool> :: p == Add(Multiple(quotient), q)
  }

  ghost predicate IsRemainder(p: Poly, r: Poly)
  {
    (forall e :: e in r ==> e < 32) && Congruent(p, r)
  }

  lemma CongruentRefl(p: Poly)
    ensures Congruent(p, p)
  {
    assert p == Add(Multiple([]), p);
  }

  lemma ShiftAdd(p: Poly, q: Poly, k: int)
    ensures Shift(Add(p, q), k) == Add(Shift(p, k), Shift(q, k))
  {
  }

  lemma ShiftShift(p: Poly, j: int, k: int)
    ensures Shift(Shift(p, j), k) == Shift(p, j + k)
  {
  }

  lemma AddAssoc(p: Poly, q: Poly, r: Poly)
    ensures Add(Add(p, q), r) == Add(p, Add(q, r))
    ensures Add(p, q) == Add(q, p)
  {
  }

  lemma CongruentAdd(p: Poly, q: Poly, r: Poly)
    requires Congruent(p, q)
    ensures Congruent(Add(p, r), Add(q, r))
  {
    var quotient :| p == Add(Multiple(quotient), q);
    AddAssoc(Multiple(quotient), q, r);
    assert Add(p, r) == Add(Multiple(quotient), Add(q, r));
  }

  lemma CongruentMulX(p: Poly, q: Poly)
    requires Congruent(p, q)
    ensures Congruent(MulX(p), MulX(q))
  {
    var quotient :| p == Add(Multiple(quotient), q);
    ShiftAdd(Multiple(quotient), q, 1);
    var longer := quotient + [false];
    assert longer[..|longer| - 1] == quotient;
    assert MulX(p) == Add(Multiple(longer), MulX(q));
  }

  /** Adding the generator itself does not change the class. */
  lemma CongruentReduce(p: Poly, q: Poly)
    requires Congruent(p, q)
    ensures Congruent(p, Add(q, GENERATOR))
  {
    var quotient :| p == Add(Multiple(quotient), q);
    var flipped := if quotient == [] then [true] else quotient[..|quotient| - 1] + [!quotient[|quotient| - 1]];
    FlipLast(quotient, flipped);
    var g := Add(Multiple(quotient), GENERATOR);
    assert Add(g, Add(q, GENERATOR)) == Add(Multiple(quotient), q);
  }

  lemma FlipLast(quotient: seq<bool>, flipped: seq<bool>)
    requires flipped == if quotient == [] then [true] else quotient[..|quotient| - 1] + [!quotient[|quotient| - 1]]
    ensures Multiple(flipped) == Add(Multiple(quotient), GENERATOR)
  {
    if quotient == [] {
      assert Multiple(flipped[..0]) == iset{};
    } else {
      assert flipped[..|flipped| - 1] == quotient[..|quotient| - 1];
      var high := MulX(Multiple(quotient[..|quotient| - 1]));
      assert Add(Add(high, GENERATOR), GENERATOR) == high;
    }
  }

  ghost predicate HasDegree(p: Poly, degree: int)
  {
    degree in p && forall e :: e in p ==> e <= degree
  }

  lemma MulXDegree(p: Poly, degree: int)
    requires HasDegree(p, degree)
    ensures HasDegree(MulX(p), degree + 1)
  {
    assert Lower(degree + 1, 1) in p;
    assert forall e | e in MulX(p) :: Lower(e, 1) in p;
  }

  lemma AddDegree(p: Poly, q: Poly, degree: int)
    requires HasDegree(p, degree) && forall e :: e in q ==> e < degree
    ensures HasDegree(Add(p, q), degree)
  {
  }

  lemma GeneratorDegree()
    ensures HasDegree(GENERATOR, 32)
  {
  }

  lemma AddZero(p: Poly)
    ensures Add(iset{}, p) == p && MulX(iset{}) == iset{}
  {
  }

  /** A nonzero multiple of the generator has degree at least 32. */
  lemma {:induction false} MultipleDegree(quotient: seq<bool>) returns (degree: int)
    ensures degree == -1 ==> Multiple(quotient) == iset{}
    ensures degree != -1 ==> 32 <= degree && HasDegree(Multiple(quotient), degree)
  {
    if quotient == [] {
      degree := -1;
    } else {
      var front := quotient[..|quotient| - 1];
      var d := MultipleDegree(front);
      GeneratorDegree();
      AddZero(GENERATOR);
      if d != -1 {
        degree := d + 1;
        MulXDegree(Multiple(front), d);
        AddDegree(MulX(Multiple(front)), GENERATOR, degree);
      } else {
        degree := if quotient[|quotient| - 1] then 32 else -1;
      }
    }
  }

  lemma {:induction false} MultiplesAdd(a: seq<bool>, b: seq<bool>) returns (c: seq<bool>)
    requires |a| == |b|
    ensures |c| == |a| && Multiple(c) == Add(Multiple(a), Multiple(b))
  {
    if a == [] {
      c := [];
    } else {
      var n := |a| - 1;
      var front := MultiplesAdd(a[..n], b[..n]);
      c := front + [a[n] != b[n]];
      assert c[..n] == front;
      ShiftAdd(Multiple(a[..n]), Multiple(b[..n]), 1);
      var x, y := MulX(Multiple(a[..n])), MulX(Multiple(b[..n]));
      assert Add(Add(x, GENERATOR), y) == Add(Add(x, y), GENERATOR);
      assert Add(x, Add(y, GENERATOR)) == Add(Add(x, y), GENERATOR);
      assert Add(Add(x, GENERATOR), Add(y, GENERATOR)) == Add(x, y);
    }
  }

  /** Leading zero coefficients do not matter. */
  lemma {:induction false} Pad(quotient: seq<bool>, zeros: nat) returns (longer: seq<bool>)
    ensures |longer| == |quotient| + zeros && Multiple(longer) == Multiple(quotient)
  {
    if quotient != [] {
      var n := |quotient| - 1;
      var front := Pad(quotient[..n], zeros);
      longer := front + [quotient[n]];
      assert longer[..|longer| - 1] == front;
    } else if zeros == 0 {
      longer := [];
    } else {
      var front := Pad(quotient, zeros - 1);
      longer := front + [false];
      assert longer[..|longer| - 1] == front;
      assert MulX(iset{}) == iset{};
    }
  }

  /** There is only one remainder. */
  lemma RemainderIsUnique(p: Poly, r: Poly, s: Poly)
    requires IsRemainder(p, r) && IsRemainder(p, s)
    ensures r == s
  {
    var a :| p == Add(Multiple(a), r);
    var b :| p == Add(Multiple(b), s);
    var a' := Pad(a, |b|);
    var b' := Pad(b, |a|);
    var c := MultiplesAdd(a', b');
    forall e ensures e in Multiple(c) <==> (e in r) != (e in s) {
      assert e in p <==> (e in Multiple(a)) != (e in r);
      assert e in p <==> (e in Multiple(b)) != (e in s);
    }
    var degree := MultipleDegree(c);
    assert degree == -1;
    assert forall e :: e in Multiple(c) <==> (e in r) != (e in s);
  }
}
