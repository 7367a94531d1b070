/** Base-128 varints of the Protocol Buffers encoding: what a string of bytes denotes, and
    which strings the 64-bit and the 32-bit decoder accept. */
module Varint {
  import opened Wrappers

  type byte = x: int | 0 <= x < 256

  const TWO_31: nat := 0x8000_0000
  const TWO_32: nat := 0x1_0000_0000
  const TWO_64: nat := 0x1_0000_0000_0000_0000

  /** The length of the varint at the start of `s`, or 0 when `s` ends before it does. */
  function Length(s: seq<byte>): (n: nat)
    ensures n <= |s|
    ensures n > 0 ==> s[n - 1] < 128 && forall i :: 0 <= i < n - 1 ==> s[i] >= 128
    ensures n == 0 ==> forall i :: 0 <= i < |s| ==> s[i] >= 128
  {
    if s == [] then 0
    else if s[0] < 128 then 1
    else
      var n := Length(s[1..]);
      if n == 0 then 0 else n + 1
  }

  /** 128 to the power `i`. */
  function Weight(i: nat): (w: nat)
    ensures w >= 1
  {
    if i == 0 then 1 else 128 * Weight(i - 1)
  }

  /** What the low seven bits of the first `n` bytes denote, least significant group first. */
  function Denoted(s: seq<byte>, n: nat): nat
    requires n <= |s|
  {
    if n == 0 then 0 else Denoted(s, n - 1) + Group(s[n - 1], n - 1)
  }

  function Group(b: byte, i: nat): (g: nat) {
    Product(b % 128, Weight(i))
  }

  function Product(x: nat, y: nat): nat {
    x * y
  }

  lemma ProductMonotone(x: nat, y: nat, w: nat)
    requires x <= y
    ensures Product(x, w) <= Product(y, w)
  {
    assert (y - x) * w >= 0;
  }

  /** A group of bits lies between its own lowest and highest place. */
  lemma GroupBounds(b: byte, i: nat)
    ensures Group(b, i) <= 127 * Weight(i)
    ensures b % 128 >= 1 ==> Group(b, i) >= Weight(i)
    ensures b % 128 == 0 ==> Group(b, i) == 0
    ensures b % 128 == 1 ==> Group(b, i) == Weight(i)
    ensures b % 128 >= 2 ==> Group(b, i) >= 2 * Weight(i)
  {
    var w := Weight(i);
    ProductMonotone(b % 128, 127, w);
    if b % 128 >= 1 { ProductMonotone(1, b % 128, w); }
    if b % 128 >= 2 { ProductMonotone(2, b % 128, w); }
  }

  lemma {:induction false} ValueBound(s: seq<byte>, n: nat)
    requires n <= |s|
    ensures Denoted(s, n) < Weight(n)
  {
    if n > 0 {
      ValueBound(s, n - 1);
      GroupBounds(s[n - 1], n - 1);
    }
  }

  lemma {:induction false} ValueGrows(s: seq<byte>, i: nat, n: nat)
    requires i <= n <= |s|
    ensures Denoted(s, i) <= Denoted(s, n)
    decreases n - i
  {
    if i < n {
      GroupBounds(s[n - 1], n - 1);
      ValueGrows(s, i, n - 1);
    }
  }

  lemma {:induction false} ValueOfPrefix(s: seq<byte>, t: seq<byte>, n: nat)
    requires n <= |s|
    ensures Denoted(s + t, n) == Denoted(s, n)
  {
    if n > 0 { ValueOfPrefix(s, t, n - 1); }
  }

  lemma {:induction false} LengthOfPrefix(s: seq<byte>, t: seq<byte>)
    requires Length(s) > 0
    ensures Length(s + t) == Length(s)
  {
    if s[0] >= 128 {
      LengthOfPrefix(s[1..], t);
      assert (s + t)[1..] == s[1..] + t;
    }
  }

  lemma WeightValues()
    ensures Weight(4) == 0x1000_0000 && 16 * Weight(4) == TWO_32
    ensures Weight(5) == 8 * TWO_32
    ensures 2 * Weight(9) == TWO_64
  {
    assert Weight(1) == 128;
    assert Weight(2) == 128 * 128;
    assert Weight(3) == 128 * 128 * 128;
    assert Weight(4) == 0x1000_0000;
    assert Weight(5) == 128 * Weight(4);
    assert Weight(6) == 128 * Weight(5);
    assert Weight(7) == 128 * Weight(6);
    assert Weight(8) == 128 * Weight(7);
    assert Weight(9) == 128 * Weight(8);
  }

  // ----- 64 bits

  /** The varint at the start of `s` as the 64-bit decoder reads it: at most ten bytes that
      denote a value below 2 to the power 64; with its length. */
  function Decode64(s: seq<byte>): (r: Option<(nat, nat)>)
    ensures r.Some? ==> 0 < r.value.1 <= |s| && r.value.0 < TWO_64
  {
    var n := Length(s);
    if 0 < n <= 10 && Denoted(s, n) < TWO_64 then Some((Denoted(s, n), n)) else None
  }

  /** Up to nine bytes always denote less than 2 to the power 63; ten bytes do not exceed 64
      bits exactly when the tenth is 0 or 1. */
  lemma TenthByte(s: seq<byte>, n: nat)
    requires n <= |s|
    ensures n <= 9 ==> Denoted(s, n) < TWO_64
    ensures n == 10 ==> (Denoted(s, n) < TWO_64 <==> s[9] % 128 <= 1)
  {
    WeightValues();
    if n <= 9 {
      ValueGrowsWithin(s, n);
    } else if n == 10 {
      ValueBound(s, 9);
      GroupBounds(s[9], 9);
    }
  }

  lemma ValueGrowsWithin(s: seq<byte>, n: nat)
    requires n <= 9 && n <= |s|
    ensures Denoted(s, n) < Weight(9)
  {
    ValueBound(s, n);
    WeightGrows(n, 9);
  }

  lemma {:induction false} WeightGrows(i: nat, j: nat)
    requires i <= j
    ensures Weight(i) <= Weight(j)
    decreases j - i
  {
    if i < j { WeightGrows(i, j - 1); }
  }

  // ----- 32 bits

  /** Whether the 32-bit decoder accepts the i-th byte (from the fifth on) after the low 32
      bits `low`: bits beyond the 32nd are all zero, or all one after a set sign bit. */
  predicate Extends(b: byte, i: nat, low: nat)
    requires i >= 4
  {
    if i == 4 then b / 16 % 8 == 0 || b / 8 % 16 == 15
    else i <= 9 && (b % 128 == 0 || (low >= TWO_31 && b == (if i < 9 then 255 else 1)))
  }

  predicate Accepts32(s: seq<byte>, n: nat)
    requires n <= |s|
  {
    n < 5 || AllExtend(s, n, Denoted(s, 5) % TWO_32)
  }

  predicate AllExtend(s: seq<byte>, n: nat, low: nat)
    requires n <= |s|
  {
    forall i {:trigger Extends(s[i], i, low)} :: 4 <= i < n ==> Extends(s[i], i, low)
  }

  /** The varint at the start of `s` as the 32-bit decoder reads it. */
  function Decode32(s: seq<byte>): (r: Option<(nat, nat)>)
    ensures r.Some? ==> 0 < r.value.1 <= |s| && r.value.0 < TWO_32
  {
    var n := Length(s);
    if n > 0 && Accepts32(s, n) then Some((Denoted(s, n) % TWO_32, n)) else None
  }

  lemma {:induction false} WeightIsMultiple(i: nat) returns (k: nat)
    requires i >= 5
    ensures Weight(i) == TWO_32 * k
  {
    WeightValues();
    if i == 5 {
      k := 8;
    } else {
      k := WeightIsMultiple(i - 1);
      k := 128 * k;
    }
  }

  /** Groups from the sixth on do not touch the low 32 bits. */
  lemma HighGroup(b: byte, i: nat, low: nat)
    requires i >= 5
    ensures (low + Group(b, i)) % TWO_32 == low % TWO_32
  {
    var k := WeightIsMultiple(i);
    var x := b % 128;
    assert x * (TWO_32 * k) == TWO_32 * (x * k);
    AddMultiple(low, x * k);
  }

  lemma AddMultiple(a: nat, k: nat)
    requires k >= 0
    ensures (a + TWO_32 * k) % TWO_32 == a % TWO_32
  {
  }

  lemma {:induction false} LowBits(s: seq<byte>, n: nat)
    requires 5 <= n <= |s|
    ensures Denoted(s, n) % TWO_32 == Denoted(s, 5) % TWO_32
  {
    if n > 5 {
      LowBits(s, n - 1);
      HighGroup(s[n - 1], n - 1, Denoted(s, n - 1));
    }
  }

  /** Whatever the 32-bit decoder accepts the 64-bit decoder accepts with the same length, and
      the results agree on 32 bits. */
  lemma Accepted32IsAccepted64(s: seq<byte>)
    requires Decode32(s).Some?
    ensures Decode64(s).Some? && Decode64(s).value.1 == Decode32(s).value.1
    ensures Decode32(s).value.0 == Decode64(s).value.0 % TWO_32
  {
    var n := Length(s);
    if n >= 5 {
      var i := if n > 10 then 10 else n - 1;
      assert Extends(s[i], i, Denoted(s, 5) % TWO_32);
    }
    TenthByte(s, n);
  }

  lemma SmallFifth(s: seq<byte>)
    requires 5 <= |s| && Denoted(s, 5) < TWO_32
    ensures s[4] / 16 % 8 == 0
  {
    FifthGroup(s[4]);
    assert Denoted(s, 5) == Denoted(s, 4) + Group(s[4], 4);
  }

  lemma SmallHigher(s: seq<byte>, i: nat)
    requires 5 <= i < |s| && Denoted(s, i + 1) < TWO_32
    ensures s[i] % 128 == 0
  {
    WeightValues();
    GroupBounds(s[i], i);
    WeightGrows(5, i);
  }

  /** The 32-bit decoder accepts every encoding, however long, of a value below 2 to the power
      32 that the 64-bit decoder accepts. */
  lemma SmallIsAccepted32(s: seq<byte>)
    requires Decode64(s).Some? && Decode64(s).value.0 < TWO_32
    ensures Decode32(s) == Decode64(s)
  {
    var n := Length(s);
    forall i | 4 <= i < n
      ensures Extends(s[i], i, Denoted(s, 5) % TWO_32)
    {
      ValueGrows(s, i + 1, n);
      if i == 4 { SmallFifth(s); } else { SmallHigher(s, i); }
    }
  }

  /** The fifth group holds four of the low 32 bits. */
  lemma FifthGroup(b: byte)
    ensures Group(b, 4) == b % 128 * 0x1000_0000
  {
    WeightValues();
  }

  function LowNibble(b: byte): nat {
    b % 16
  }

  /** The fifth byte gives the low 32 bits their top four. */
  lemma FifthByte(s: seq<byte>)
    requires |s| > 4
    ensures Denoted(s, 5) % TWO_32 == Denoted(s, 4) % TWO_32 + LowNibble(s[4]) * 0x1000_0000
  {
    WeightValues();
    ValueBound(s, 4);
    FifthGroup(s[4]);
    FifthSplit(Denoted(s, 4), s[4]);
  }

  lemma FifthSplit(low: nat, b: int)
    requires low < 0x1000_0000 && 0 <= b < 256
    ensures (low + b % 128 * 0x1000_0000) % TWO_32 == low % TWO_32 + b % 16 * 0x1000_0000
  {
    assert b % 128 == b % 16 + 16 * (b % 128 / 16);
    AddMultiple(low + b % 16 * 0x1000_0000, b % 128 / 16);
  }

  /** The encodings of negative numbers of 32 bits, sign-extended to 64, are accepted too. */
  lemma NegativeIsAccepted32(s: seq<byte>)
    requires Decode64(s).Some? && Decode64(s).value.0 >= TWO_64 - TWO_31
    ensures Decode32(s).Some? && Decode32(s).value == (Decode64(s).value.0 % TWO_32, Decode64(s).value.1)
  {
    var n := Length(s);
    AllOnes(s, n);
  }

  /** What is accepted with a value below 2 to the power 31 denotes exactly that value, so no
      bit beyond the 32nd is dropped. */
  lemma AcceptedIsExact(s: seq<byte>)
    requires Decode32(s).Some? && Decode32(s).value.0 < 0x8000_0000
    ensures Decode64(s) == Decode32(s)
  {
    var n := Length(s);
    Accepted32IsAccepted64(s);
    if n >= 5 {
      LowBits(s, n);
      assert Extends(s[4], 4, Denoted(s, 5) % TWO_32);
      FifthIsExact(s);
      forall i | 5 <= i < n
        ensures s[i] % 128 == 0
      {
        assert Extends(s[i], i, Denoted(s, 5) % TWO_32);
      }
      ZerosAdd(s, n);
    } else {
      WeightValues();
      ValueBound(s, n);
      WeightGrows(n, 4);
    }
  }

  /** Without the sign bit the fifth byte has no bits beyond the 32nd. */
  lemma FifthIsExact(s: seq<byte>)
    requires |s| > 4 && Denoted(s, 5) % TWO_32 < TWO_31 && Extends(s[4], 4, Denoted(s, 5) % TWO_32)
    ensures Denoted(s, 5) < TWO_32
  {
    FifthByte(s);
    FifthGroup(s[4]);
    WeightValues();
    ValueBound(s, 4);
    assert Denoted(s, 5) == Denoted(s, 4) + Group(s[4], 4);
  }

  /** Groups of zeros add nothing. */
  lemma {:induction false} ZerosAdd(s: seq<byte>, n: nat)
    requires 5 <= n <= |s| && forall i :: 5 <= i < n ==> s[i] % 128 == 0
    ensures Denoted(s, n) == Denoted(s, 5)
  {
    if n > 5 {
      GroupBounds(s[n - 1], n - 1);
      ZerosAdd(s, n - 1);
    }
  }

  lemma AllOnes(s: seq<byte>, n: nat)
    requires n == Length(s) && 0 < n <= 10 && TWO_64 > Denoted(s, n) >= TWO_64 - TWO_31
    ensures n == 10 && s[9] == 1
    ensures forall i :: 5 <= i < 9 ==> s[i] == 255
    ensures s[4] / 8 % 16 == 15 && Denoted(s, 5) % TWO_32 >= TWO_31
  {
    WeightValues();
    TenthByte(s, n);
    if n <= 9 { ValueGrowsWithin(s, n); }
    GroupBounds(s[9], 9);
    assert Denoted(s, 10) == Denoted(s, 9) + Group(s[9], 9);
    ValueBound(s, 9);
    TopGroup(s, 8);
    TopGroup(s, 7);
    TopGroup(s, 6);
    TopGroup(s, 5);
    ValueBound(s, 4);
    FifthGroup(s[4]);
  }

  /** If the first i + 1 groups come within 2 to the power 31 of their limit, the last of them
      is all ones and the others come as near to theirs. */
  lemma TopGroup(s: seq<byte>, i: nat)
    requires 5 <= i < |s| && Denoted(s, i + 1) >= Weight(i + 1) - TWO_31
    ensures s[i] % 128 == 127 && Denoted(s, i) >= Weight(i) - TWO_31
  {
    ValueBound(s, i);
    WeightValues();
    WeightGrows(5, i);
    var w := Weight(i);
    if s[i] % 128 < 127 {
      ProductMonotone(s[i] % 128, 126, w);
    }
  }
}
