/** The two-word bit reader under the block decoders: bits are shifted out of `low`, which is
    refilled from `high`; the two words are read as one integer of 128 bits. */
module BitStream {

  // ----- shifts, masks and or on unbounded numbers, a bit at a time

  function Shr(x: nat, n: nat): nat {
    if n == 0 then x else Shr(x / 2, n - 1)
  }

  function Shl(x: nat, n: nat): nat {
    if n == 0 then x else 2 * Shl(x, n - 1)
  }

  function Pow2(n: nat): nat {
    Shl(1, n)
  }

  /** The low `n` bits of `x`. */
  function Low(x: nat, n: nat): (r: nat)
    ensures r < Pow2(n)
  {
    if n == 0 then 0 else x % 2 + 2 * Low(x / 2, n - 1)
  }

  function Or(a: nat, b: nat): nat {
    if a == 0 && b == 0 then 0 else (if a % 2 == 1 || b % 2 == 1 then 1 else 0) + 2 * Or(a / 2, b / 2)
  }

  /** `n` bits of `whole`, from bit `at` on. */
  function Field(whole: nat, at: nat, n: nat): (r: nat)
    ensures r < Pow2(n)
  {
    Low(Shr(whole, at), n)
  }

  lemma {:induction false} ShrBound(x: nat, n: nat, k: nat)
    requires n <= k && x < Pow2(k)
    ensures Shr(x, n) < Pow2(k - n)
  {
    if n > 0 { ShrBound(x / 2, n - 1, k - 1); }
  }

  lemma {:induction false} ShlBound(x: nat, n: nat, k: nat)
    requires x < Pow2(n)
    ensures Shl(x, k) + Pow2(k) <= Pow2(n + k)
  {
    if k > 0 { ShlBound(x, n, k - 1); }
  }

  lemma {:induction false} ShrSum(x: nat, m: nat, n: nat)
    ensures Shr(x, m + n) == Shr(Shr(x, m), n)
  {
    if m > 0 { ShrSum(x / 2, m - 1, n); }
  }

  lemma {:induction false} ShlOfSum(x: nat, y: nat, n: nat)
    ensures Shl(x + y, n) == Shl(x, n) + Shl(y, n)
  {
    if n > 0 { ShlOfSum(x, y, n - 1); }
  }

  lemma {:induction false} ShlShl(x: nat, m: nat, n: nat)
    ensures Shl(Shl(x, m), n) == Shl(x, m + n)
  {
    if n > 0 { ShlShl(x, m, n - 1); }
  }

  /** A number is its low bits and the rest. */
  lemma {:induction false} LowAndRest(x: nat, n: nat)
    ensures x == Low(x, n) + Shl(Shr(x, n), n)
  {
    if n > 0 { LowAndRest(x / 2, n - 1); }
  }

  lemma {:induction false} LowSum(x: nat, m: nat, n: nat)
    ensures Low(x, m + n) == Low(x, m) + Shl(Low(Shr(x, m), n), m)
  {
    if m > 0 { LowSum(x / 2, m - 1, n); }
  }

  /** Reading `m` bits and then `n` gives the two parts of what reading all at once would. */
  lemma FieldsJoin(whole: nat, at: nat, m: nat, n: nat)
    ensures Field(whole, at, m + n) == Field(whole, at, m) + Shl(Field(whole, at + m, n), m)
  {
    LowSum(Shr(whole, at), m, n);
    ShrSum(whole, at, m);
  }

  /** Numbers on disjoint bits: or is sum. */
  lemma {:induction false} OrIsSum(a: nat, b: nat, k: nat)
    requires a < Pow2(k)
    ensures Or(a, Shl(b, k)) == a + Shl(b, k)
  {
    if k == 0 {
      OrWithZero(b);
    } else {
      OrIsSum(a / 2, b, k - 1);
      assert Shl(b, k) / 2 == Shl(b, k - 1) && Shl(b, k) % 2 == 0;
    }
  }

  lemma {:induction false} OrWithZero(b: nat)
    ensures Or(0, b) == b
  {
    if b > 0 { OrWithZero(b / 2); }
  }

  /** Shifting a number out below another one. */
  lemma {:induction false} ShrUnder(low: nat, high: nat, n: nat, k: nat)
    requires n <= k
    ensures Shr(low + Shl(high, k), n) == Shr(low, n) + Shl(high, k - n)
    ensures Low(low + Shl(high, k), n) == Low(low, n)
  {
    if n > 0 {
      assert (low + Shl(high, k)) / 2 == low / 2 + Shl(high, k - 1);
      assert (low + Shl(high, k)) % 2 == low % 2;
      ShrUnder(low / 2, high, n - 1, k - 1);
    }
  }

  // ----- the reader

  /** The two words as one integer. */
  function Whole(low: nat, high: nat): nat {
    low + Shl(high, 64)
  }

  /** Shifting both words right by `n` bits, with the low bits of `high` moving to the top of
      `low`, shifts the 128-bit integer; the bits shifted out are its lowest. */
  lemma Shift(low: nat, high: nat, n: nat)
    requires low < Pow2(64) && high < Pow2(64) && n <= 64
    ensures var next := Or(Shr(low, n), Shl(Low(high, n), 64 - n));
            && next < Pow2(64) && Shr(high, n) < Pow2(64)
            && Whole(next, Shr(high, n)) == Shr(Whole(low, high), n)
            && Low(low, n) == Low(Whole(low, high), n)
  {
    ShrBound(low, n, 64);
    OrIsSum(Shr(low, n), Low(high, n), 64 - n);
    ShlBound(Low(high, n), n, 64 - n);
    LowAndRest(high, n);
    ShrUnder(low, high, n, 64);
    ShlOfSum(Low(high, n), Shl(Shr(high, n), n), 64 - n);
    ShlShl(Shr(high, n), n, 64 - n);
    assert Shl(high, 64 - n) == Shl(Low(high, n), 64 - n) + Shl(Shr(high, n), 64);
    ShlMonotone(Shr(high, n), n);
  }

  lemma {:induction false} ShlMonotone(x: nat, n: nat)
    ensures x <= Shl(x, n)
  {
    if n > 0 { ShlMonotone(x, n - 1); }
  }

  class Reader {
    var low: nat
    var high: nat
    /** The block, and how many of its bits have been read. */
    ghost const whole: nat
    ghost var taken: nat

    ghost predicate Valid()
      reads this
    {
      low < Pow2(64) && high < Pow2(64) && Whole(low, high) == Shr(whole, taken)
    }

    constructor (l: nat, h: nat)
      requires l < Pow2(64) && h < Pow2(64)
      ensures Valid() && whole == Whole(l, h) && taken == 0
    {
      low, high := l, h;
      whole, taken := Whole(l, h), 0;
    }

    /** Successive reads return the successive fields of the block. */
    method ReadBits(numBits: nat) returns (bits: nat)
      requires Valid() && 1 <= numBits <= 31
      modifies this
      ensures Valid() && taken == old(taken) + numBits
      ensures bits == Field(whole, old(taken), numBits) < Pow2(numBits)
    {
      Shift(low, high, numBits);
      ShrSum(whole, taken, numBits);
      bits := Low(low, numBits);
      low := Or(Shr(low, numBits), Shl(Low(high, numBits), 64 - numBits));
      high := Shr(high, numBits);
      taken := taken + numBits;
    }

    method ReadBit() returns (bit: nat)
      requires Valid()
      modifies this
      ensures Valid() && taken == old(taken) + 1
      ensures bit == Field(whole, old(taken), 1) < 2
    {
      bit := ReadBits(1);
    }
  }
}
