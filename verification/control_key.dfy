/** The mouse adapter's control keys: a key code with a modifier mask, used
    as the key of a hash table mapping keys to text-control events. */
module ControlKey {

  datatype ControlKey = ControlKey(keyCode: int, modifierMask: int)

  import opened Bytes

  const TwoTo24: int := 0x100_0000

  /** The constructor stores both fields verbatim. */
  function Make(keyCode: int, modifierMask: int): (k: ControlKey)
    ensures k.keyCode == keyCode && k.modifierMask == modifierMask
  {
    ControlKey(keyCode, modifierMask)
  }

  /** `operator!=`: the keys differ in the key code or the modifier mask,
      which is exactly inequality of keys. */
  function NotEqual(a: ControlKey, b: ControlKey): (r: bool)
    ensures r <==> a != b
  {
    a.keyCode != b.keyCode || a.modifierMask != b.modifierMask
  }

  /** `modifierMask << 24` on a 32-bit int: the mask's byte moves into the
      top byte, and a mask of 128 or more lands in the sign bit, giving a
      negative int congruent to mask * 2^24 modulo 2^32. */
  function ShiftedMask(mask: int): (s: int)
    requires 0 <= mask < 256
    ensures -TwoTo31 <= s < TwoTo31
    ensures (s - mask * TwoTo24) % TwoTo32 == 0
    ensures mask < 128 ==> s == mask * TwoTo24
    ensures 128 <= mask ==> s == mask * TwoTo24 - TwoTo32
  {
    ToInt32(mask * TwoTo24)
  }

  /** The keys the hash function accepts: the mask fits the byte the shift
      keeps, and the int sum `keyCode + (modifierMask << 24)` does not
      overflow. */
  predicate HashableKey(k: ControlKey)
  {
    && 0 <= k.modifierMask < 256
    && -TwoTo31 <= k.keyCode + ShiftedMask(k.modifierMask) < TwoTo31
  }

  /** `(keyCode + (modifierMask << 24)) % tableSize`: the int sum is
      converted to size_t (modulo 2^64) before the unsigned remainder. */
  function Hash(k: ControlKey, tableSize: int): (h: int)
    requires HashableKey(k) && 0 < tableSize < TwoTo64
    ensures 0 <= h < tableSize
    ensures k.keyCode >= 0 && k.modifierMask < 128 ==> h == (k.keyCode + k.modifierMask * TwoTo24) % tableSize
  {
    var sum := k.keyCode + ShiftedMask(k.modifierMask);
    var wrapped := sum % TwoTo64;
    assert sum >= 0 ==> wrapped == sum;
    wrapped % tableSize
  }

  /** A positive multiple of t is at least t. */
  lemma {:induction false} MultipleAtLeast(t: int, d: int)
    requires 0 < t && 1 <= d
    ensures t * d >= t
    decreases d
  {
    if d > 1 {
      MultipleAtLeast(t, d - 1);
      assert t * d == t * (d - 1) + t;
    }
  }

  /** The Euclidean remainder is the only one: x = t * q + r with
      0 <= r < t fixes r. */
  lemma RemainderUnique(x: int, t: int, q: int, r: int)
    requires 0 < t && x == t * q + r && 0 <= r < t
    ensures x % t == r
  {
    var q0 := x / t;
    var r0 := x % t;
    assert x == t * q0 + r0;
    var d := q - q0;
    assert t * d == r0 - r by {
      assert t * q - t * q0 == t * (q - q0);
    }
    if d > 0 {
      MultipleAtLeast(t, d);
    } else if d < 0 {
      MultipleAtLeast(t, -d);
    }
  }

  /** Two integers that differ by a multiple of m leave the same remainder
      modulo any divisor t of m. */
  lemma SameRemainder(a: int, b: int, m: int, t: int)
    requires 0 < t && 0 < m && m % t == 0 && (a - b) % m == 0
    ensures a % t == b % t
  {
    var j := (a - b) / m;
    var c := m / t;
    assert a - b == m * j;
    assert m == t * c;
    var n := c * j;
    assert a - b == t * n by {
      calc {
        a - b;
        m * j;
        (t * c) * j;
        t * (c * j);
      }
    }
    assert a == t * (b / t + n) + b % t by {
      assert b == t * (b / t) + b % t;
      assert t * (b / t) + t * n == t * (b / t + n);
    }
    RemainderUnique(a, t, b / t + n, b % t);
  }

  /** Neither wrap-around shows in a table whose size divides 2^32 (any
      power of two up to 2^32): the bucket is the remainder of the
      mathematical sum keyCode + mask * 2^24, for masks in the sign bit and
      for negative key codes alike. */
  lemma HashMatchesUnwrappedSum(k: ControlKey, tableSize: int)
    requires HashableKey(k) && 0 < tableSize && TwoTo32 % tableSize == 0
    ensures tableSize < TwoTo64
    ensures Hash(k, tableSize) == (k.keyCode + k.modifierMask * TwoTo24) % tableSize
  {
    assert tableSize <= TwoTo32;
    var exact := k.keyCode + k.modifierMask * TwoTo24;
    var sum := k.keyCode + ShiftedMask(k.modifierMask);
    var wrapped := sum % TwoTo64;
    assert (wrapped - sum) % TwoTo32 == 0 by {
      var q := sum / TwoTo64;
      assert wrapped - sum == TwoTo32 * (-TwoTo32 * q);
    }
    assert (sum - exact) % TwoTo32 == 0;
    SameRemainder(wrapped, sum, TwoTo32, tableSize);
    SameRemainder(sum, exact, TwoTo32, tableSize);
  }

  /** A negative key code wraps through size_t: code -1 without modifiers
      hashes like 2^64 - 1. */
  lemma NegativeKeyCodeWraps()
    ensures Hash(ControlKey(-1, 0), 10) == 5
  {
    assert (-1) % TwoTo64 == TwoTo64 - 1;
  }

  /** A mask of 128 lands in the sign bit: the sum -2^31 becomes
      2^64 - 2^31 as a size_t, so a table of 7 buckets puts the key in
      bucket 0 where the unwrapped 2^31 would give bucket 2. */
  lemma SignBitMaskWraps()
    ensures Hash(ControlKey(0, 0x80), 7) == 0
    ensures (0x80 * TwoTo24) % 7 == 2
  {
    assert ShiftedMask(0x80) == -TwoTo31;
    assert (-TwoTo31) % TwoTo64 == TwoTo64 - TwoTo31;
  }
}
