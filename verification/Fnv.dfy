/**
 The 32-bit FNV-1a checksum of the flash store and its strength: every step can be
 undone, so two payloads of the same length that differ in one byte never collide.
 */
module Fnv {
  import opened Bytes

  const OFFSET_BASIS: nat := 2166136261
  const PRIME: nat := 16777619
  const PRIME_INVERSE: nat := 899433627

  type Word = x: int | 0 <= x < 0x1_0000_0000

  function Mix(hash: Word, b: byte): Word {
    Xor(hash, b) * PRIME % U32
  }

  function Fold(hash: Word, data: seq<byte>): Word
    decreases data
  {
    if data == [] then hash else Fold(Mix(hash, data[0]), data[1..])
  }

  function Checksum(data: seq<byte>): Word {
    Fold(OFFSET_BASIS, data)
  }

  // The step with the multiplication and the exclusive-or undone.
  function Unmix(hash: Word, b: byte): nat {
    Xor(hash * PRIME_INVERSE % U32, b)
  }

  lemma MulInverse(x: Word)
    ensures (x * PRIME % U32) * PRIME_INVERSE % U32 == x
  {
    var q, r := x * PRIME / U32, x * PRIME % U32;
    assert PRIME * PRIME_INVERSE == 1 + U32 * 3513497;
    assert r * PRIME_INVERSE == x + U32 * (3513497 * x - q * PRIME_INVERSE);
  }

  // One step is a bijection in the hash, for every byte ...
  lemma MixUndone(hash: Word, b: byte)
    ensures Unmix(Mix(hash, b), b) == hash
  {
    Pow2Values();
    XorBound(hash, b, 32);
    MulInverse(Xor(hash, b));
    XorCancels(hash, b);
  }

  // ... and in the byte, for every hash.
  lemma MixSeparatesBytes(hash: Word, b: byte, c: byte)
    requires Mix(hash, b) == Mix(hash, c)
    ensures b == c
  {
    Pow2Values();
    XorBound(hash, b, 32);
    XorBound(hash, c, 32);
    MulInverse(Xor(hash, b));
    MulInverse(Xor(hash, c));
    XorCommutes(hash, b);
    XorCommutes(hash, c);
    XorCancels(b, hash);
    XorCancels(c, hash);
  }

  lemma {:induction false} FoldInjective(g: Word, h: Word, data: seq<byte>)
    requires Fold(g, data) == Fold(h, data)
    ensures g == h
    decreases data
  {
    if data != [] {
      FoldInjective(Mix(g, data[0]), Mix(h, data[0]), data[1..]);
      MixUndone(g, data[0]);
      MixUndone(h, data[0]);
    }
  }

  // Payloads of the same length that differ in exactly one byte have different checksums.
  lemma OneByteSeparates(p: seq<byte>, q: seq<byte>, i: nat)
    requires |p| == |q| && i < |p| && p[i] != q[i]
    requires forall j :: 0 <= j < |p| && j != i ==> p[j] == q[j]
    ensures Checksum(p) != Checksum(q)
  {
    OneByteSeparatesFrom(OFFSET_BASIS, p, q, i);
  }

  lemma {:induction false} OneByteSeparatesFrom(hash: Word, p: seq<byte>, q: seq<byte>, i: nat)
    requires |p| == |q| && i < |p| && p[i] != q[i]
    requires forall j :: 0 <= j < |p| && j != i ==> p[j] == q[j]
    ensures Fold(hash, p) != Fold(hash, q)
    decreases i
  {
    if i == 0 {
      assert p[1..] == q[1..];
      if Fold(hash, p) == Fold(hash, q) {
        FoldInjective(Mix(hash, p[0]), Mix(hash, q[0]), p[1..]);
        MixSeparatesBytes(hash, p[0], q[0]);
      }
    } else {
      OneByteSeparatesFrom(Mix(hash, p[0]), p[1..], q[1..], i - 1);
    }
  }

  // The published values of FNV-1a with 32 bits for nothing and for one letter.
  lemma KnownValues()
    ensures Checksum([]) == 0x811c9dc5 && Checksum([0x61]) == 0xe40c292c
  {
    XorOfA();
    assert Fold(0xe40c292c, []) == 0xe40c292c;
    assert ([0x61 as byte])[1..] == [];
    assert 0x811c9da4 * PRIME == 8461672 * U32 + 0xe40c292c;
    assert Mix(0x811c9dc5, 0x61) == 0xe40c292c;
    hide Xor, Mix;
  }

  lemma XorOfA()
    ensures Xor(0x811c9dc5, 0x61) == 0x811c9da4
  {
    hide Xor;
    XorZero(0x102393b);
    XorNext(0x2047277, 0x1);
    XorNext(0x408e4ee, 0x3);
    XorNext(0x811c9dc, 0x6);
    XorNext(0x102393b8, 0xc);
    XorNext(0x20472771, 0x18);
    XorNext(0x408e4ee2, 0x30);
    XorNext(0x811c9dc5, 0x61);
  }

  lemma XorNext(a: nat, b: nat)
    ensures Xor(a, b) == 2 * Xor(a / 2, b / 2) + (if a % 2 == b % 2 then 0 else 1)
  {
    XorBits(a, b);
    hide Xor;
  }

  lemma {:induction false} XorZero(a: nat)
    ensures Xor(a, 0) == a
  {
    if a != 0 {
      XorZero(a / 2);
    }
  }
}
