/** The BC7 block format: where each field of a block of 128 bits lies, and what colour each of
    its 16 texels has. Positions are given in closed form; the decoder never computes them, it
    reads one field after the other. */
module Bc7Layout {
  import opened BitStream
  import opened Partitions

  // ----- modes

  datatype ModeInfo = ModeInfo(number: nat, subsets: nat, partitionBits: nat, rotationBits: nat, selectionBits: nat,
                               colorBits: nat, alphaBits: nat, uniquePBits: bool, sharedPBits: bool,
                               indexBits: nat, indexBits2: nat) {
    function Endpoints(): nat { 2 * subsets }
    function PBits(): nat { if uniquePBits then Endpoints() else if sharedPBits then subsets else 0 }
    function HasPBits(): nat { if uniquePBits || sharedPBits then 1 else 0 }

    predicate Sound() {
      && 1 <= subsets <= 3 && 2 <= indexBits <= 4
      && (indexBits2 == 0 || (2 <= indexBits2 <= 3 && subsets == 1))
      && 4 <= colorBits && colorBits + HasPBits() <= 8
      && (alphaBits == 0 || (4 <= alphaBits && alphaBits + HasPBits() <= 8))
      && partitionBits <= 6 && !(uniquePBits && sharedPBits)
    }
  }

  type Mode = m: ModeInfo | m.Sound() witness ModeInfo(0, 3, 4, 0, 0, 4, 0, true, false, 3, 0)

  function ModeAt(number: nat): (m: Mode)
    requires number < 8
    ensures m.number == number
  {
    match number
    case 0 => ModeInfo(0, 3, 4, 0, 0, 4, 0, true, false, 3, 0)
    case 1 => ModeInfo(1, 2, 6, 0, 0, 6, 0, false, true, 3, 0)
    case 2 => ModeInfo(2, 3, 6, 0, 0, 5, 0, false, false, 2, 0)
    case 3 => ModeInfo(3, 2, 6, 0, 0, 7, 0, true, false, 2, 0)
    case 4 => ModeInfo(4, 1, 0, 2, 1, 5, 6, false, false, 2, 3)
    case 5 => ModeInfo(5, 1, 0, 2, 0, 7, 8, false, false, 2, 2)
    case 6 => ModeInfo(6, 1, 0, 0, 0, 7, 7, true, false, 4, 0)
    case 7 => ModeInfo(7, 2, 6, 0, 0, 5, 5, true, false, 2, 0)
  }

  /** The number of zero bits below the first one bit, at most 8. */
  function LeadingZeros(whole: nat, from: nat): (n: nat)
    requires from <= 8
    ensures from <= n <= 8
    decreases 8 - from
  {
    if from < 8 && Field(whole, from, 1) == 0 then LeadingZeros(whole, from + 1) else from
  }

  function ModeOf(whole: nat): (mode: nat)
    ensures mode <= 8
  {
    LeadingZeros(whole, 0)
  }

  // ----- where the fields are

  /** `n` fields of `width` bits. */
  function Times(n: nat, width: nat): (bits: nat)
    ensures width >= 1 ==> bits >= n
  {
    if n == 0 then 0 else Times(n - 1, width) + width
  }

  function RotationAt(m: Mode): nat {
    m.number + 1 + m.partitionBits
  }

  function EndpointsAt(m: Mode): nat {
    RotationAt(m) + m.rotationBits + m.selectionBits
  }

  /** Endpoint `e` of colour channel `c`: all endpoints of a channel lie together. */
  function ColorAt(m: Mode, c: nat, e: nat): nat {
    EndpointsAt(m) + Times(c, Times(m.Endpoints(), m.colorBits)) + Times(e, m.colorBits)
  }

  function AlphaAt(m: Mode, e: nat): nat {
    ColorAt(m, 3, 0) + Times(e, m.alphaBits)
  }

  function PBitsAt(m: Mode): nat {
    AlphaAt(m, m.Endpoints())
  }

  function IndicesAt(m: Mode): nat {
    PBitsAt(m) + m.PBits()
  }

  /** The index of texel `t`; fix-ups before it have one bit less. */
  function IndexAt(m: Mode, row: seq<nat>, t: nat): nat
    requires t <= |row|
  {
    IndicesAt(m) + (Times(t, m.indexBits) - Fixups(row, t))
  }

  /** The second index of texel `t`; the first texel has one bit less. */
  function Index2At(m: Mode, row: seq<nat>, t: nat): nat
    requires |row| == 16 && m.indexBits2 > 0
  {
    IndexAt(m, row, 16) + (if t == 0 then 0 else Times(t, m.indexBits2) - 1)
  }

  lemma {:induction false} TimesIs(n: nat, width: nat)
    ensures Times(n, width) == n * width
  {
    if n > 0 { TimesIs(n - 1, width); }
  }

  lemma TimesOf(width: nat)
    ensures Times(2, width) == 2 * width && Times(3, width) == 3 * width && Times(4, width) == 4 * width
    ensures Times(6, width) == 6 * width && Times(16, width) == 16 * width
  {
    TimesIs(2, width);
    TimesIs(3, width);
    TimesIs(4, width);
    TimesIs(6, width);
    TimesIs(16, width);
  }

  /** The bit budget: whatever the mode and the partition, the fields fill the block exactly. */
  lemma FieldsFillBlock(mode: nat, row: seq<nat>)
    requires mode < 8 && Partition(row, ModeAt(mode).subsets)
    ensures var m := ModeAt(mode);
            if m.indexBits2 == 0 then IndexAt(m, row, 16) == 128 else Index2At(m, row, 16) == 128
  {
    var m := ModeAt(mode);
    EndpointBits(mode);
    TimesOf(m.indexBits);
    TimesOf(m.indexBits2);
  }

  lemma EndpointBits(mode: nat)
    requires mode < 8
    ensures IndicesAt(ModeAt(mode)) == (match mode case 0 => 83 case 1 => 82 case 2 => 99 case 3 => 98
                                           case 4 => 50 case 5 => 66 case 6 => 65 case _ => 98)
  {
    var m := ModeAt(mode);
    TimesOf(m.colorBits);
    TimesOf(m.alphaBits);
    TimesOf(Times(m.Endpoints(), m.colorBits));
  }

  // ----- endpoints

  /** The stored bits of channel `c` of endpoint `e`. */
  function Stored(whole: nat, m: Mode, e: nat, c: nat): nat {
    if c < 3 then Field(whole, ColorAt(m, c, e), m.colorBits)
    else Field(whole, AlphaAt(m, e), m.alphaBits)
  }

  /** With the p-bit of the endpoint, or of its subset, below them. */
  function WithPBit(whole: nat, m: Mode, e: nat, c: nat): nat {
    if m.HasPBits() == 0 then Stored(whole, m, e, c)
    else 2 * Stored(whole, m, e, c) + Field(whole, PBitsAt(m) + (if m.sharedPBits then e / 2 else e), 1)
  }

  /** `n` bits widened to 8: the high bits are repeated below. */
  function Widen(v: nat, n: nat): nat
    requires n <= 8
  {
    Shl(v, 8 - n) + Shr(Shl(v, 8 - n), n)
  }

  function Precision(m: Mode, c: nat): (n: nat)
    ensures n <= 8
    ensures c < 3 || m.alphaBits > 0 ==> n >= 4
  {
    (if c < 3 then m.colorBits else m.alphaBits) + m.HasPBits()
  }

  function Endpoint(whole: nat, m: Mode, e: nat, c: nat): nat {
    if c == 3 && m.alphaBits == 0 then 255
    else Widen(WithPBit(whole, m, e, c), Precision(m, c))
  }

  lemma Shifts(x: nat)
    ensures Shl(x, 1) == 2 * x && Shl(x, 2) == 4 * x && Shl(x, 3) == 8 * x && Shl(x, 4) == 16 * x
    ensures Shr(x, 1) == x / 2 && Shr(x, 2) == x / 4 && Shr(x, 3) == x / 8 && Shr(x, 4) == x / 16
  {
    assert Shl(x, 2) == 2 * Shl(x, 1) && Shl(x, 3) == 2 * Shl(x, 2) && Shl(x, 4) == 2 * Shl(x, 3);
    ShrSum(x, 1, 1);
    ShrSum(x, 2, 1);
    ShrSum(x, 3, 1);
  }

  /** Widening spelled out. */
  lemma WidenIs(v: nat, n: nat)
    requires 4 <= n <= 8 && v < Pow2(n)
    ensures Pow2(n) == 16 * Pow2(n - 4)
    ensures Widen(v, n) == (if n == 4 then 17 * v else if n == 5 then 8 * v + v / 4
                            else if n == 6 then 4 * v + v / 16 else if n == 7 then 2 * v + v / 64 else v)
  {
    assert Pow2(n) == 2 * Pow2(n - 1) && Pow2(n - 1) == 2 * Pow2(n - 2);
    assert Pow2(n - 2) == 2 * Pow2(n - 3) && Pow2(n - 3) == 2 * Pow2(n - 4);
    ShrShl(v, 8 - n, n);
    if n >= 6 { ShrSum(v, 4, 2 * n - 12); }
    Shifts(v);
    Shifts(v / 16);
    ShrBound(v, n, n);
  }

  /** Shifting left and then right. */
  lemma {:induction false} ShrShl(x: nat, m: nat, n: nat)
    requires m <= n
    ensures Shr(Shl(x, m), n) == Shr(x, n - m)
  {
    if m > 0 { ShrShl(x, m - 1, n - 1); }
  }

  /** Widening keeps the order, fits 8 bits, maps the lowest value to 0 and the highest to 255,
      and the original is its high bits. */
  lemma WidenIsFaithful(v: nat, w: nat, n: nat)
    requires 4 <= n <= 8 && v < w < Pow2(n)
    ensures Widen(v, n) < Widen(w, n) <= 255
    ensures Widen(0, n) == 0 && Widen(Pow2(n) - 1, n) == 255
    ensures Shr(Widen(v, n), 8 - n) == v
  {
    WidenIs(v, n);
    WidenIs(w, n);
    WidenIs(0, n);
    WidenIs(Pow2(n) - 1, n);
    Shifts(Widen(v, n));
    Shifts(1);
  }

  // ----- texels

  function Weights(bits: nat): (w: seq<nat>)
    requires 2 <= bits <= 4
    ensures |w| == Pow2(bits)
    ensures forall i :: 0 <= i < |w| ==> w[i] <= 64
  {
    if bits == 2 then PowTwo(); [0, 21, 43, 64]
    else if bits == 3 then PowTwo(); [0, 9, 18, 27, 37, 46, 55, 64]
    else PowTwo(); [0, 4, 9, 13, 17, 21, 26, 30, 34, 38, 43, 47, 51, 55, 60, 64]
  }

  lemma PowTwo()
    ensures Pow2(1) == 2 && Pow2(2) == 4 && Pow2(3) == 8 && Pow2(4) == 16
  {
    Shifts(1);
  }

  function Product(x: nat, n: nat): nat {
    if n == 0 then 0 else Product(x, n - 1) + x
  }

  lemma {:induction false} ProductIs(x: nat, n: nat)
    ensures Product(x, n) == x * n
  {
    if n > 0 { ProductIs(x, n - 1); }
  }

  function Interpolate(a: nat, b: nat, w: nat): nat
    requires w <= 64
  {
    (Product(a, 64 - w) + Product(b, w) + 32) / 64
  }

  predicate Between(v: nat, x: nat, y: nat) {
    x <= v <= y || y <= v <= x
  }

  /** An interpolated value lies between its two ends and reaches them at weights 0 and 64. */
  lemma InterpolateBetween(a: nat, b: nat, w: nat)
    requires w <= 64
    ensures Between(Interpolate(a, b, w), a, b)
    ensures w == 0 ==> Interpolate(a, b, w) == a
    ensures w == 64 ==> Interpolate(a, b, w) == b
  {
    ProductIs(a, 64 - w);
    ProductIs(b, w);
    Products(a, b, w);
  }

  lemma Products(a: int, b: int, w: int)
    requires 0 <= w <= 64
    ensures a * (64 - w) + b * w == 64 * a + (b - a) * w
    ensures a <= b ==> 0 <= (b - a) * w <= 64 * (b - a)
    ensures b <= a ==> 64 * (b - a) <= (b - a) * w <= 0
  {
    if a <= b { assert (b - a) * w >= 0; assert (b - a) * (64 - w) >= 0; }
    if b <= a { assert (a - b) * w >= 0; assert (a - b) * (64 - w) >= 0; }
  }

  datatype Pixel = Pixel(r: nat, g: nat, b: nat, a: nat)

  /** The partition of the block; a single subset has its first texel as fix-up. */
  function RowOf(sets: Sets, whole: nat, m: Mode): (row: seq<nat>)
    ensures Partition(row, m.subsets)
  {
    var p := Field(whole, m.number + 1, m.partitionBits);
    PartitionFits(whole, m);
    if m.subsets == 1 then OneSubset() else sets[m.subsets - 2][p]
  }

  lemma PartitionFits(whole: nat, m: Mode)
    ensures Field(whole, m.number + 1, m.partitionBits) < 64
  {
    assert Pow2(6) == 64 by { Shifts(1); ShlShl(1, 4, 2); Shifts(16); }
    PowGrows(m.partitionBits, 6);
  }

  lemma {:induction false} PowGrows(i: nat, j: nat)
    requires i <= j
    ensures Pow2(i) <= Pow2(j)
    decreases j - i
  {
    if i < j { PowGrows(i, j - 1); }
  }

  function Rotation(whole: nat, m: Mode): nat {
    Field(whole, RotationAt(m), m.rotationBits)
  }

  function Selection(whole: nat, m: Mode): nat {
    Field(whole, RotationAt(m) + m.rotationBits, m.selectionBits)
  }

  function Index(whole: nat, m: Mode, row: seq<nat>, t: nat): (i: nat)
    requires t < |row|
    ensures i < Pow2(m.indexBits)
  {
    Field(whole, IndexAt(m, row, t), m.indexBits - IsFixup(row[t]))
  }

  function Index2(whole: nat, m: Mode, row: seq<nat>, t: nat): (i: nat)
    requires t < |row| == 16 && m.indexBits2 > 0
    ensures i < Pow2(m.indexBits2)
  {
    Field(whole, Index2At(m, row, t), m.indexBits2 - (if t == 0 then 1 else 0))
  }

  /** The weight of channel `c` of texel `t`. With two indexes, the second is for alpha, or for
      colour if so selected. */
  function WeightOf(whole: nat, m: Mode, row: seq<nat>, t: nat, c: nat): (w: nat)
    requires t < |row| == 16
    ensures w <= 64
  {
    if m.indexBits2 != 0 && (if Selection(whole, m) == 0 then c == 3 else c < 3)
    then Weights(m.indexBits2)[Index2(whole, m, row, t)]
    else Weights(m.indexBits)[Index(whole, m, row, t)]
  }

  /** Channel `c` of texel `t`: the two endpoints of its subset, weighted by its index. */
  function Channel(whole: nat, m: Mode, row: seq<nat>, t: nat, c: nat): nat
    requires t < |row| == 16
  {
    var e := row[t] % 4 * 2;
    Interpolate(Endpoint(whole, m, e, c), Endpoint(whole, m, e + 1, c), WeightOf(whole, m, row, t, c))
  }

  /** Rotation swaps alpha with a colour channel. */
  function Rotated(rotation: nat, p: Pixel): Pixel {
    if rotation == 1 then p.(r := p.a, a := p.r)
    else if rotation == 2 then p.(g := p.a, a := p.g)
    else if rotation == 3 then p.(b := p.a, a := p.b)
    else p
  }

  function Texel(whole: nat, m: Mode, row: seq<nat>, t: nat): Pixel
    requires t < |row| == 16
  {
    Rotated(Rotation(whole, m),
            Pixel(Channel(whole, m, row, t, 0), Channel(whole, m, row, t, 1),
                  Channel(whole, m, row, t, 2), Channel(whole, m, row, t, 3)))
  }

  lemma EndpointFits(whole: nat, m: Mode, e: nat, c: nat)
    requires c < 4
    ensures Endpoint(whole, m, e, c) <= 255
  {
    var n := Precision(m, c);
    if c < 3 || m.alphaBits != 0 {
      var v := WithPBit(whole, m, e, c);
      assert v < Pow2(n);
      WidenIs(v, n);
      if v + 1 < Pow2(n) { WidenIsFaithful(v, v + 1, n); } else { WidenIsFaithful(0, v, n); }
    }
  }

  /** Every channel of every texel lies between the two endpoints of its subset. */
  lemma ChannelBetween(whole: nat, m: Mode, row: seq<nat>, t: nat, c: nat)
    requires t < |row| == 16
    ensures Between(Channel(whole, m, row, t, c), Endpoint(whole, m, row[t] % 4 * 2, c),
                    Endpoint(whole, m, row[t] % 4 * 2 + 1, c))
  {
    var e := row[t] % 4 * 2;
    InterpolateBetween(Endpoint(whole, m, e, c), Endpoint(whole, m, e + 1, c), WeightOf(whole, m, row, t, c));
  }

  lemma {:induction false} ChannelFits(whole: nat, m: Mode, row: seq<nat>, t: nat, c: nat)
    requires t < |row| == 16 && c < 4
    ensures Channel(whole, m, row, t, c) <= 255
  {
    ChannelBetween(whole, m, row, t, c);
    EndpointFits(whole, m, row[t] % 4 * 2, c);
    EndpointFits(whole, m, row[t] % 4 * 2 + 1, c);
  }

  /** Every texel fits 8 bits a channel. */
  lemma {:induction false} TexelFits(whole: nat, m: Mode, row: seq<nat>, t: nat)
    requires t < |row| == 16
    ensures var p := Texel(whole, m, row, t); p.r <= 255 && p.g <= 255 && p.b <= 255 && p.a <= 255
  {
    ChannelFits(whole, m, row, t, 0);
    ChannelFits(whole, m, row, t, 1);
    ChannelFits(whole, m, row, t, 2);
    ChannelFits(whole, m, row, t, 3);
  }
}
