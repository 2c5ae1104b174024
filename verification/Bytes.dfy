/**
 Bytes, fixed-width integers and bitwise operations, shared by every other module.

 Bytes and machine words are bounded integers, so that the arithmetic of the sources
 (wrapping, truncation, byte order) is written out.  The bitwise operators act on
 naturals, one bit at a time.
 */
module Bytes {
  type byte = x: int | 0 <= x < 0x100

  const U16: nat := 0x1_0000
  const U32: nat := 0x1_0000_0000
  const U64: nat := 0x1_0000_0000_0000_0000

  datatype Option<+T> = None | Some(value: T)
  datatype Result<+T, +E> = Ok(value: T) | Err(error: E)

  // ---------- Bitwise operators ----------

  function And(a: nat, b: nat): (r: nat)
    ensures r <= a && r <= b
  {
    if a == 0 || b == 0 then 0 else (if a % 2 == 1 && b % 2 == 1 then 1 else 0) + 2 * And(a / 2, b / 2)
  }

  function Or(a: nat, b: nat): nat
    decreases a + b
  {
    if a == 0 && b == 0 then 0
    else (if a % 2 == 0 && b % 2 == 0 then 0 else 1) + 2 * Or(a / 2, b / 2)
  }

  function Xor(a: nat, b: nat): nat
    decreases a + b
  {
    if a == 0 && b == 0 then 0
    else (if a % 2 == b % 2 then 0 else 1) + 2 * Xor(a / 2, b / 2)
  }

  lemma {:induction false} AndSelf(a: nat)
    ensures And(a, a) == a
  {
    if a != 0 { AndSelf(a / 2); }
  }

  // 0xff is what an erased flash cell holds: programming it stores the byte itself.
  lemma AndErased(b: byte)
    ensures And(0xff, b) == b
  {
    AndOnes(b, 8);
  }

  lemma {:induction false} AndOnes(b: nat, k: nat)
    requires b < Pow2(k)
    ensures And(Pow2(k) - 1, b) == b
  {
    if k != 0 && b != 0 {
      assert (Pow2(k) - 1) / 2 == Pow2(k - 1) - 1;
      AndOnes(b / 2, k - 1);
    }
  }

  function Pow2(k: nat): (r: nat)
    ensures r >= 1
  {
    if k == 0 then 1 else 2 * Pow2(k - 1)
  }

  // "data only clears bits": the test the simulated flash makes, and what it means for AND.
  lemma {:induction false} OrKeepsMeansAndGives(was: nat, asked: nat)
    ensures Or(was, asked) == was <==> And(was, asked) == asked
    decreases was + asked
  {
    if was != 0 || asked != 0 {
      OrKeepsMeansAndGives(was / 2, asked / 2);
    }
  }

  // The last bit of each operation, and what is left of it.
  lemma AndBits(a: nat, b: nat)
    ensures And(a, b) % 2 == (if a % 2 == 1 && b % 2 == 1 then 1 else 0) && And(a, b) / 2 == And(a / 2, b / 2)
  {
  }

  lemma OrBits(a: nat, b: nat)
    ensures Or(a, b) % 2 == (if a % 2 == 0 && b % 2 == 0 then 0 else 1) && Or(a, b) / 2 == Or(a / 2, b / 2)
  {
  }

  lemma XorBits(a: nat, b: nat)
    ensures Xor(a, b) % 2 == (if a % 2 == b % 2 then 0 else 1) && Xor(a, b) / 2 == Xor(a / 2, b / 2)
  {
  }

  // Bit k of a number.
  function Bit(n: nat, k: nat): (r: nat)
    ensures r < 2
  {
    if k == 0 then n % 2 else Bit(n / 2, k - 1)
  }

  // AND, OR and XOR, bit by bit.
  lemma {:induction false} BitByBit(a: nat, b: nat, k: nat)
    ensures Bit(And(a, b), k) == 1 <==> Bit(a, k) == 1 && Bit(b, k) == 1
    ensures Bit(Or(a, b), k) == 1 <==> Bit(a, k) == 1 || Bit(b, k) == 1
    ensures Bit(Xor(a, b), k) == 1 <==> Bit(a, k) != Bit(b, k)
    decreases k
  {
    AndBits(a, b);
    OrBits(a, b);
    XorBits(a, b);
    hide And, Or, Xor;
    if k > 0 {
      BitByBit(a / 2, b / 2, k - 1);
    }
  }

  lemma SameBits(a: nat, b: nat)
    requires a % 2 == b % 2 && a / 2 == b / 2
    ensures a == b
  {
  }

  lemma {:induction false} XorCancels(a: nat, b: nat)
    ensures Xor(Xor(a, b), b) == a
    decreases a + b
  {
    if a != 0 || b != 0 {
      var x := Xor(a, b);
      XorBits(a, b);
      XorBits(x, b);
      hide Xor;
      XorCancels(a / 2, b / 2);
      SameBits(Xor(x, b), a);
    }
  }

  lemma {:induction false} XorCommutes(a: nat, b: nat)
    ensures Xor(a, b) == Xor(b, a)
    decreases a + b
  {
    if a != 0 || b != 0 {
      XorBits(a, b);
      XorBits(b, a);
      hide Xor;
      XorCommutes(a / 2, b / 2);
      SameBits(Xor(a, b), Xor(b, a));
    }
  }

  lemma {:induction false} XorBound(a: nat, b: nat, k: nat)
    requires a < Pow2(k) && b < Pow2(k)
    ensures Xor(a, b) < Pow2(k)
    decreases k
  {
    if a != 0 || b != 0 {
      XorBound(a / 2, b / 2, k - 1);
    }
  }

  lemma Pow2Values()
    ensures Pow2(8) == 0x100 && Pow2(16) == U16 && Pow2(32) == U32
  {
    assert Pow2(12) == 0x1000;
    assert Pow2(24) == 0x100_0000;
  }

  // ---------- Fixed-width integers ----------

  function Pow256(w: nat): (r: nat)
    ensures r >= 1
  {
    if w == 0 then 1 else 0x100 * Pow256(w - 1)
  }

  lemma Pow256Values()
    ensures Pow256(1) == 0x100 && Pow256(2) == U16 && Pow256(4) == U32 && Pow256(8) == U64
  {
  }

  // `to_le_bytes` of a word of `w` bytes; higher bytes are cut off.
  function Le(n: nat, w: nat): (r: seq<byte>)
    ensures |r| == w
    decreases w
  {
    if w == 0 then [] else [n % 0x100] + Le(n / 0x100, w - 1)
  }

  // `from_le_bytes`
  function LeValue(b: seq<byte>): nat {
    if b == [] then 0 else b[0] + 0x100 * LeValue(b[1..])
  }

  // `to_be_bytes`
  function Be(n: nat, w: nat): (r: seq<byte>)
    ensures |r| == w
    decreases w
  {
    if w == 0 then [] else Be(n / 0x100, w - 1) + [n % 0x100]
  }

  // `from_be_bytes`
  function BeValue(b: seq<byte>): nat {
    if b == [] then 0 else 0x100 * BeValue(b[..|b| - 1]) + b[|b| - 1]
  }

  // Byte i of a number written low byte first, and of one written high byte first.
  lemma {:induction false} BytesOf(n: nat, w: nat, i: nat)
    requires i < w
    ensures Le(n, w)[i] as int == n / Pow256(i) % 0x100
    ensures Be(n, w)[w - 1 - i] as int == n / Pow256(i) % 0x100
    decreases w
  {
    if i > 0 {
      BytesOf(n / 0x100, w - 1, i - 1);
      DivDiv(n, Pow256(i - 1));
    }
  }

  lemma DivDiv(n: nat, d: nat)
    requires d > 0
    ensures n / (0x100 * d) == n / 0x100 / d
  {
    var q, r := n / 0x100 / d, n / 0x100 % d;
    assert n / 0x100 == q * d + r;
    var s := n % 0x100;
    assert n == 0x100 * (q * d + r) + s == (0x100 * d) * q + (0x100 * r + s) by {
      assert 0x100 * (q * d) == (0x100 * d) * q;
    }
    assert 0x100 * r + s < 0x100 * d;
    Quotient(n, 0x100 * d, q, 0x100 * r + s);
  }

  lemma Quotient(n: nat, d: nat, q: nat, r: nat)
    requires d > 0 && n == d * q + r && r < d
    ensures n / d == q
  {
    var k := n / d;
    assert n == d * k + n % d;
    MulMonotone(d, k + 1, q);
    MulMonotone(d, q + 1, k);
  }

  lemma MulMonotone(d: nat, a: nat, b: nat)
    ensures a <= b ==> d * a <= d * b
  {
  }

  lemma {:induction false} LeRoundTrip(n: nat, w: nat)
    requires n < Pow256(w)
    ensures LeValue(Le(n, w)) == n
    decreases w
  {
    if w != 0 {
      LeRoundTrip(n / 0x100, w - 1);
      assert Le(n, w)[1..] == Le(n / 0x100, w - 1);
    }
  }

  lemma {:induction false} BeRoundTrip(n: nat, w: nat)
    requires n < Pow256(w)
    ensures BeValue(Be(n, w)) == n
    decreases w
  {
    if w != 0 {
      BeRoundTrip(n / 0x100, w - 1);
      assert Be(n, w)[..w - 1] == Be(n / 0x100, w - 1);
    }
  }

  lemma {:induction false} BeOfValue(b: seq<byte>)
    ensures BeValue(b) < Pow256(|b|)
    ensures Be(BeValue(b), |b|) == b
  {
    if b != [] {
      var front := b[..|b| - 1];
      BeOfValue(front);
      assert b == front + [b[|b| - 1]];
    }
  }

  // A four-byte little-endian word whose last byte was never programmed is huge.
  lemma LeTopByteErased(b: seq<byte>)
    requires |b| == 4 && b[3] == 0xff
    ensures LeValue(b) >= 0xff00_0000
  {
    var b1, b2, b3 := b[1..], b[2..], b[3..];
    assert b1[1..] == b2 && b2[1..] == b3 && b3[1..] == [];
    assert LeValue(b3) == 0xff;
    assert LeValue(b2) >= 0xff00;
    assert LeValue(b1) >= 0xff_0000;
  }

  // ---------- Sequences ----------

  function Filled(n: nat, b: byte): (r: seq<byte>)
    ensures |r| == n && forall i :: 0 <= i < n ==> r[i] == b
  {
    seq(n, i => b)
  }
}
