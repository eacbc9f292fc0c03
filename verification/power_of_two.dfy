/** Texture sizes: the doubling loop the renderer uses wherever a texture
    must cover an image or window of a given size. */
module PowerOfTwo {

  predicate IsPowerOfTwo(n: int)
    decreases if n > 0 then n else 0
  {
    n == 1 || (n > 1 && n % 2 == 0 && IsPowerOfTwo(n / 2))
  }

  /** A power of two above another is at least twice it. */
  lemma {:induction false} PowerOfTwoAbove(p: int, h: int)
    requires IsPowerOfTwo(p) && IsPowerOfTwo(h) && p > h
    ensures p >= 2 * h
    decreases p
  {
    if h > 1 {
      PowerOfTwoAbove(p / 2, h / 2);
    }
  }

  /** `for (t = 1; t < size; t <<= 1);`: the smallest power of two that is
      at least `size`, so 1 for every size up to 1. */
  method TextureSize(size: int) returns (t: int)
    requires size <= 0x4000_0000
    ensures IsPowerOfTwo(t) && t >= size
    ensures forall p :: IsPowerOfTwo(p) && p >= size ==> t <= p
  {
    t := 1;
    while t < size
      invariant IsPowerOfTwo(t) && 1 <= t
      invariant t == 1 || t / 2 < size
      decreases size - t
    {
      t := 2 * t;
    }
    forall p | IsPowerOfTwo(p) && p >= size
      ensures t <= p
    {
      if p < t {
        PowerOfTwoAbove(t, p);
      }
    }
  }

  function Pow2(k: nat): (p: nat)
    ensures p >= 1
  {
    if k == 0 then 1 else 2 * Pow2(k - 1)
  }

  lemma {:induction false} Pow2Add(a: nat, b: nat)
    ensures Pow2(a + b) == Pow2(a) * Pow2(b)
  {
    if a > 0 {
      Pow2Add(a - 1, b);
    }
  }

  lemma Pow2Thirty()
    ensures Pow2(30) == 0x4000_0000
  {
    Pow2Add(10, 20);
    Pow2Add(10, 10);
    assert Pow2(10) == 1024;
  }

  /** A power of two below 2^(k+1) is at most 2^k. */
  lemma {:induction false} PowerOfTwoBelow(t: int, k: nat)
    requires IsPowerOfTwo(t) && t < 2 * Pow2(k)
    ensures t <= Pow2(k)
  {
    if t > 1 && k > 0 {
      PowerOfTwoBelow(t / 2, k - 1);
    }
  }

  lemma Doubled(t: int)
    requires IsPowerOfTwo(t)
    ensures IsPowerOfTwo(2 * t) && (2 * t) / 2 == t
  {
    assert (2 * t) % 2 == 0;
  }

  lemma NoWrap(n: int)
    requires 0 <= n < 0x1_0000_0000
    ensures n % 0x1_0000_0000 == n
  {
  }

  /** The same loop on `unsigned int`: `t <<= 1` keeps the low 32 bits.
      Every size up to 2^31 ends with the smallest power of two at or above
      it, before the shift can wrap. */
  method UnsignedTextureSize(size: nat) returns (t: nat)
    requires size <= 0x8000_0000
    ensures IsPowerOfTwo(t) && t >= size && t <= 0x8000_0000
    ensures forall p :: IsPowerOfTwo(p) && p >= size ==> t <= p
  {
    t := 1;
    while t < size
      invariant IsPowerOfTwo(t) && 1 <= t
      invariant t == 1 || t / 2 < size
      decreases size - t
    {
      Doubled(t);
      NoWrap(2 * t);
      t := (t * 2) % 0x1_0000_0000;
    }
    forall p | IsPowerOfTwo(p) && p >= size
      ensures t <= p
    {
      if p < t {
        PowerOfTwoAbove(t, p);
      }
    }
    TopBitIsPowerOfTwo();
  }

  lemma {:induction false} Pow2IsPowerOfTwo(k: nat)
    ensures IsPowerOfTwo(Pow2(k))
  {
    if k > 0 {
      Pow2IsPowerOfTwo(k - 1);
      Doubled(Pow2(k - 1));
    }
  }

  lemma TopBitIsPowerOfTwo()
    ensures IsPowerOfTwo(0x8000_0000)
  {
    Pow2Thirty();
    Pow2IsPowerOfTwo(31);
    assert Pow2(31) == 2 * Pow2(30);
  }
}
