/** Unsigned machine words as natural numbers: the bit operations the sources use, by arithmetic. */
module Words {

  type byte = i: int | 0 <= i < 256

  function Min(a: int, b: int): int
  {
    if a < b then a else b
  }

  function Max(a: int, b: int): int
  {
    if a < b then b else a
  }

  const INT32_MIN: int := -0x80000000
  const INT32_MAX: int := 0x7FFFFFFF

  predicate IsInt32(v: int)
  {
    INT32_MIN <= v <= INT32_MAX
  }

  /** The value that 32 bits of two's complement keep of an integer. */
  function ToInt32(v: int): (w: int)
    ensures IsInt32(w) && (IsInt32(v) ==> w == v)
  {
    var u := v % 0x1_0000_0000;
    if u <= INT32_MAX then u else u - 0x1_0000_0000
  }

  /** It differs from the integer by a multiple of 2 to the 32, and no other int32 does. */
  lemma ToInt32Is(v: int, w: int)
    ensures w == ToInt32(v) <==> IsInt32(w) && (w - v) % 0x1_0000_0000 == 0
  {
  }

  function Zeros(n: nat): (s: seq<byte>)
    ensures |s| == n
  {
    seq<byte>(n, _ => 0)
  }

  function Xor(a: nat, b: nat): nat
  {
    if a == 0 && b == 0 then 0 else 2 * Xor(a / 2, b / 2) + (a + b) % 2
  }

  function Or(a: nat, b: nat): nat
  {
    if a == 0 && b == 0 then 0 else 2 * Or(a / 2, b / 2) + (if a % 2 == 1 || b % 2 == 1 then 1 else 0)
  }

  function Pow2(n: nat): (p: nat)
    ensures 0 < p
  {
    if n == 0 then 1 else 2 * Pow2(n - 1)
  }

  lemma BitWidths()
    ensures Pow2(8) == 256 && Pow2(32) == 0x1_0000_0000
  {
    assert Pow2(8) == 256;
    assert Pow2(16) == 0x10000;
    assert Pow2(24) == 0x1000000;
  }

  predicate Bit(n: nat, k: nat)
    decreases k
  {
    if k == 0 then n % 2 == 1 else Bit(n / 2, k - 1)
  }

  lemma XorStep(a: nat, b: nat)
    ensures Xor(a, b) / 2 == Xor(a / 2, b / 2) && Xor(a, b) % 2 == (a + b) % 2
  {
  }

  lemma SumParity(a: nat, b: nat)
    ensures (a + b) % 2 == 1 <==> (a % 2 == 1) != (b % 2 == 1)
  {
  }

  lemma {:induction false} XorBit(a: nat, b: nat, k: nat)
    ensures Bit(Xor(a, b), k) == (Bit(a, k) != Bit(b, k))
    decreases k
  {
    XorStep(a, b);
    if k > 0 {
      XorBit(a / 2, b / 2, k - 1);
    } else {
      SumParity(a, b);
    }
  }

  lemma {:induction false} XorBound(a: nat, b: nat, n: nat)
    requires a < Pow2(n) && b < Pow2(n)
    ensures Xor(a, b) < Pow2(n)
  {
    if n > 0 {
      XorBound(a / 2, b / 2, n - 1);
    }
  }

  /** Two words below 2 to the n with the same n low bits are equal. */
  lemma {:induction false} SameBits(a: nat, b: nat, n: nat)
    requires a < Pow2(n) && b < Pow2(n)
    requires forall k :: 0 <= k < n ==> Bit(a, k) == Bit(b, k)
    ensures a == b
  {
    if n > 0 {
      assert Bit(a, 0) == Bit(b, 0);
      forall k | 0 <= k < n - 1 ensures Bit(a / 2, k) == Bit(b / 2, k) {
        assert Bit(a, k + 1) == Bit(b, k + 1);
      }
      SameBits(a / 2, b / 2, n - 1);
    }
  }

  lemma {:induction false} HighBits(a: nat, n: nat, k: nat)
    requires a < Pow2(n) && n <= k
    ensures !Bit(a, k)
    decreases k
  {
    if k > 0 {
      if n > 0 {
        HighBits(a / 2, n - 1, k - 1);
      } else {
        HighBits(0, 0, k - 1);
      }
    }
  }

  /** A left shift. */
  function Shl(n: nat, k: nat): nat
    decreases k
  {
    if k == 0 then n else 2 * Shl(n, k - 1)
  }

  lemma {:induction false} ShlAdd(n: nat, j: nat, k: nat)
    ensures Shl(n, j + k) == Shl(Shl(n, j), k)
    decreases k
  {
    if k > 0 {
      ShlAdd(n, j, k - 1);
    }
  }

  lemma ShlByte(n: nat)
    ensures Shl(n, 8) == 256 * n
  {
    assert Shl(n, 2) == 4 * n;
    assert Shl(n, 4) == 16 * n;
    assert Shl(n, 6) == 64 * n;
  }

  lemma {:induction false} OrShl(a: nat, b: nat, k: nat)
    ensures Or(Shl(a, k), Shl(b, k)) == Shl(Or(a, b), k)
    decreases k
  {
    if k > 0 {
      OrShl(a, b, k - 1);
      OrDouble(Shl(a, k - 1), Shl(b, k - 1));
    }
  }

  lemma OrDouble(a: nat, b: nat)
    ensures Or(2 * a, 2 * b) == 2 * Or(a, b)
  {
  }

  /** Or-ing a value below the lowest set bit of a word adds it. */
  lemma {:induction false} OrBelow(a: nat, b: nat, k: nat)
    requires b < Pow2(k)
    ensures Or(Shl(a, k), b) == Shl(a, k) + b
    decreases k
  {
    if k == 0 {
      OrZero(a);
    } else {
      OrBelow(a, b / 2, k - 1);
    }
  }

  lemma {:induction false} OrZero(a: nat)
    ensures Or(a, 0) == a
  {
    if a > 0 {
      OrZero(a / 2);
    }
  }

  /** A right shift. */
  function Shr(n: nat, k: nat): nat
    decreases k
  {
    if k == 0 then n else Shr(n / 2, k - 1)
  }

  lemma {:induction false} ShrAdd(n: nat, j: nat, k: nat)
    ensures Shr(n, j + k) == Shr(Shr(n, j), k)
    decreases j
  {
    if j > 0 {
      ShrAdd(n / 2, j - 1, k);
    }
  }

  lemma ShrByte(n: nat, k: nat)
    ensures Shr(n, 8) == n / 256
    ensures Shr(n, k + 8) == Shr(n / 256, k)
  {
    assert Shr(n, 2) == n / 4;
    assert Shr(n / 4, 2) == n / 16;
    ShrAdd(n, 2, 2);
    assert Shr(n / 16, 2) == n / 64;
    ShrAdd(n, 4, 2);
    assert Shr(n / 64, 2) == n / 256;
    ShrAdd(n, 6, 2);
    ShrAdd(n, 8, k);
  }

  lemma {:induction false} ShlBit(n: nat, j: nat, k: nat)
    ensures Bit(Shl(n, j), k) <==> j <= k && Bit(n, k - j)
    decreases j
  {
    if j > 0 && k > 0 {
      ShlBit(n, j - 1, k - 1);
    }
  }

  lemma {:induction false} ShrBit(n: nat, j: nat, k: nat)
    ensures Bit(Shr(n, j), k) == Bit(n, k + j)
    decreases j
  {
    if j > 0 {
      ShrBit(n / 2, j - 1, k);
    }
  }

  lemma {:induction false} BitConcat(a: nat, b: nat, m: nat, k: nat)
    requires b < Pow2(m)
    ensures Bit(a * Pow2(m) + b, k) == if k < m then Bit(b, k) else Bit(a, k - m)
    decreases m
  {
    if m > 0 {
      HalfConcat(a, b, Pow2(m - 1));
      if k > 0 {
        BitConcat(a, b / 2, m - 1, k - 1);
      }
    }
  }

  lemma HalfConcat(a: nat, b: nat, p: nat)
    ensures (a * (2 * p) + b) / 2 == a * p + b / 2 && (a * (2 * p) + b) % 2 == b % 2
  {
    assert a * (2 * p) == 2 * (a * p);
  }

  /** A 32-bit register keeps the low bits. */
  lemma LowBits(n: nat, k: nat)
    requires k < 32
    ensures Bit(n % 0x1_0000_0000, k) == Bit(n, k)
  {
    BitWidths();
    BitConcat(n / 0x1_0000_0000, n % 0x1_0000_0000, 32, k);
  }

  /** The value of big-endian bytes, most significant first. */
  function BigEndian(p: seq<byte>): nat
  {
    if p == [] then 0 else BigEndian(p[..|p| - 1]) * 256 + p[|p| - 1]
  }

  /** The unrolled four-byte reader. */
  function U32be(p: seq<byte>): (v: nat)
    requires |p| == 4
    ensures v == BigEndian(p) <= 0xFFFFFFFF
  {
    assert p[..3][..2] == p[..2] && p[..2][..1] == p[..1] && p[..1][..0] == [];
    assert BigEndian(p[..1]) == p[0];
    assert BigEndian(p[..2]) == BigEndian(p[..1]) * 256 + p[1];
    assert BigEndian(p[..3]) == BigEndian(p[..2]) * 256 + p[2];
    p[0] as int * 0x1000000 + p[1] as int * 0x10000 + p[2] as int * 0x100 + p[3]
  }

  /** The `n` low bytes of a value, most significant first. */
  function PutBytes(value: nat, n: nat): (p: seq<byte>)
    ensures |p| == n
    decreases n
  {
    if n == 0 then [] else PutBytes(value / 256, n - 1) + [value % 256]
  }

  function Pow256(n: nat): nat
  {
    if n == 0 then 1 else 256 * Pow256(n - 1)
  }

  /** The widths that occur, in full. */
  lemma ByteWidths()
    ensures Pow256(2) == 0x1_0000 && Pow256(4) == 0x1_0000_0000
    ensures Pow256(6) == 0x1_0000_0000_0000 && Pow256(8) == 0x1_0000_0000_0000_0000
  {
    assert Pow256(4) == 0x1_0000 * Pow256(2);
    assert Pow256(6) == 0x1_0000 * Pow256(4);
    assert Pow256(8) == 0x1_0000 * Pow256(6);
  }

  /** Reading back what was put gives the value, reduced to the width. */
  lemma {:induction false} PutGet(value: nat, n: nat)
    requires value < Pow256(n)
    ensures BigEndian(PutBytes(value, n)) == value
    decreases n
  {
    if n > 0 {
      PutGet(value / 256, n - 1);
      assert PutBytes(value, n)[..n - 1] == PutBytes(value / 256, n - 1);
    }
  }

  /** Putting back what was read gives the bytes. */
  lemma {:induction false} GetPut(p: seq<byte>)
    ensures PutBytes(BigEndian(p), |p|) == p
  {
    if p != [] {
      GetPut(p[..|p| - 1]);
    }
  }

  /** Byte i of what is put is the value shifted down to it. */
  lemma {:induction false} PutAt(value: nat, n: nat, i: nat)
    requires i < n
    ensures PutBytes(value, n)[i] == Shr(value, 8 * (n - 1 - i)) % 256
    decreases n
  {
    if i < n - 1 {
      PutAt(value / 256, n - 1, i);
      ShrByte(value, 8 * (n - 2 - i));
    }
  }

  /** Each byte read counts for its place, eight bits more than the next one. */
  lemma BigEndianAt(p: seq<byte>, i: nat)
    requires i < |p|
    ensures Shr(BigEndian(p), 8 * (|p| - 1 - i)) % 256 == p[i]
  {
    GetPut(p);
    PutAt(BigEndian(p), |p|, i);
  }

  lemma {:induction false} BigEndianBound(p: seq<byte>)
    ensures BigEndian(p) < Pow256(|p|)
  {
    if p != [] {
      BigEndianBound(p[..|p| - 1]);
    }
  }

  /** The shift-and-or reading loop. */
  method ReadBigEndian(p: seq<byte>) returns (value: nat)
    ensures value == BigEndian(p)
  {
    value := 0;
    for i := 0 to |p|
      invariant value == BigEndian(p[..i])
    {
      assert Pow2(8) == 256;
      OrBelow(value, p[i], 8);
      ShlByte(value);
      assert p[..i + 1][..i] == p[..i];
      value := Or(Shl(value, 8), p[i]);
    }
    assert p[..|p|] == p;
  }

  function Flatten(parts: seq<seq<byte>>): seq<byte>
  {
    if parts == [] then [] else Flatten(parts[..|parts| - 1]) + parts[|parts| - 1]
  }

  lemma FlattenNothing()
    ensures Flatten([]) == []
  {
  }

  lemma FlattenSnoc(parts: seq<seq<byte>>, last: seq<byte>)
    ensures Flatten(parts + [last]) == Flatten(parts) + last
  {
    assert (parts + [last])[..|parts|] == parts;
  }

  lemma {:induction false} FlattenHead(parts: seq<seq<byte>>)
    requires parts != []
    ensures Flatten(parts) == parts[0] + Flatten(parts[1..])
  {
    hide Flatten;
    var n := |parts| - 1;
    var front, last := parts[..n], parts[n];
    assert parts == front + [last];
    FlattenSnoc(front, last);
    FlattenNothing();
    if n == 0 {
      assert front == [] && parts[1..] == [];
    } else {
      FlattenHead(front);
      FlattenSnoc(front[1..], last);
      assert parts[1..] == front[1..] + [last];
    }
  }
}
