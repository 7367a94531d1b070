/** What the layout of a BC7 block means: which bits a channel depends on, what it is at the
    first and the last index, and where the fields are in numbers. */
module Bc7Laws {
  import opened BitStream
  import opened Partitions
  import opened Bc7Layout

  // ----- blocks that agree on some bits

  /** The blocks agree below bit `n`, or from bit `n` on. */
  predicate AgreeBelow(v: nat, w: nat, n: nat) {
    Low(v, n) == Low(w, n)
  }

  predicate AgreeFrom(v: nat, w: nat, n: nat) {
    Shr(v, n) == Shr(w, n)
  }

  lemma {:induction false} LowOfShr(x: nat, m: nat, n: nat)
    ensures Low(Shr(x, m), n) == Shr(Low(x, m + n), m)
  {
    if m > 0 {
      LowOfShr(x / 2, m - 1, n);
      assert Low(x, m + n) / 2 == Low(x / 2, m - 1 + n);
    }
  }

  lemma {:induction false} LowOfLow(x: nat, m: nat, n: nat)
    requires m <= n
    ensures Low(Low(x, n), m) == Low(x, m)
  {
    if m > 0 {
      assert Low(x, n) % 2 == x % 2 && Low(x, n) / 2 == Low(x / 2, n - 1);
      LowOfLow(x / 2, m - 1, n - 1);
    }
  }

  lemma FieldBelow(v: nat, w: nat, k: nat, at: nat, n: nat)
    requires AgreeBelow(v, w, k) && at + n <= k
    ensures Field(v, at, n) == Field(w, at, n)
  {
    LowOfShr(v, at, n);
    LowOfShr(w, at, n);
    LowOfLow(v, at + n, k);
    LowOfLow(w, at + n, k);
  }

  lemma FieldFrom(v: nat, w: nat, k: nat, at: nat, n: nat)
    requires AgreeFrom(v, w, k) && k <= at
    ensures Field(v, at, n) == Field(w, at, n)
  {
    ShrSum(v, k, at - k);
    ShrSum(w, k, at - k);
  }

  lemma {:induction false} TimesGrows(i: nat, j: nat, width: nat)
    requires i <= j
    ensures Times(i, width) <= Times(j, width)
    decreases j - i
  {
    if i < j { TimesGrows(i, j - 1, width); }
  }

  lemma {:induction false} IndexGrows(m: Mode, row: seq<nat>, i: nat, j: nat)
    requires i <= j <= |row|
    ensures IndexAt(m, row, i) <= IndexAt(m, row, j)
    decreases j - i
  {
    if i < j { IndexGrows(m, row, i, j - 1); }
  }

  /** All bits of an endpoint lie before the indexes. */
  lemma EndpointBefore(m: Mode, e: nat, c: nat)
    requires e < m.Endpoints() && c < 4
    ensures c < 3 ==> ColorAt(m, c, e) + m.colorBits <= IndicesAt(m)
    ensures AlphaAt(m, e) + m.alphaBits <= IndicesAt(m)
    ensures m.HasPBits() == 1 ==> PBitsAt(m) + (if m.sharedPBits then e / 2 else e) + 1 <= IndicesAt(m)
  {
    var width := Times(m.Endpoints(), m.colorBits);
    TimesGrows(e + 1, m.Endpoints(), m.colorBits);
    TimesGrows(e + 1, m.Endpoints(), m.alphaBits);
    if c < 3 { TimesGrows(c + 1, 3, width); }
  }

  lemma StoredAgree(v: nat, w: nat, m: Mode, e: nat, c: nat)
    requires AgreeBelow(v, w, IndicesAt(m)) && e < m.Endpoints() && c < 4
    ensures Stored(v, m, e, c) == Stored(w, m, e, c)
  {
    EndpointBefore(m, e, c);
    if c < 3 {
      FieldBelow(v, w, IndicesAt(m), ColorAt(m, c, e), m.colorBits);
    } else {
      FieldBelow(v, w, IndicesAt(m), AlphaAt(m, e), m.alphaBits);
    }
  }

  lemma PBitsAgree(v: nat, w: nat, m: Mode, e: nat)
    requires AgreeBelow(v, w, IndicesAt(m)) && e < m.Endpoints() && m.HasPBits() == 1
    ensures var at := PBitsAt(m) + (if m.sharedPBits then e / 2 else e);
            Field(v, at, 1) == Field(w, at, 1)
  {
    EndpointBefore(m, e, 0);
    FieldBelow(v, w, IndicesAt(m), PBitsAt(m) + (if m.sharedPBits then e / 2 else e), 1);
  }

  /** Endpoints lie before the indexes. */
  lemma EndpointsAgree(v: nat, w: nat, m: Mode, e: nat, c: nat)
    requires AgreeBelow(v, w, IndicesAt(m)) && e < m.Endpoints() && c < 4
    ensures Endpoint(v, m, e, c) == Endpoint(w, m, e, c)
  {
    StoredAgree(v, w, m, e, c);
    if m.HasPBits() == 1 { PBitsAgree(v, w, m, e); }
    assert WithPBit(v, m, e, c) == WithPBit(w, m, e, c);
  }

  lemma HeadersAgree(v: nat, w: nat, m: Mode)
    requires AgreeBelow(v, w, IndicesAt(m))
    ensures Rotation(v, m) == Rotation(w, m) && Selection(v, m) == Selection(w, m)
  {
    FieldBelow(v, w, IndicesAt(m), RotationAt(m), m.rotationBits);
    FieldBelow(v, w, IndicesAt(m), RotationAt(m) + m.rotationBits, m.selectionBits);
  }

  /** The subset of a texel: its table entry without the mark of a fix-up. */
  function Subset(row: seq<nat>, t: nat): nat
    requires t < |row|
  {
    if row[t] >= 128 then row[t] - 128 else row[t]
  }

  lemma SubsetIn(m: Mode, row: seq<nat>, t: nat)
    requires Partition(row, m.subsets) && t < 16
    ensures row[t] % 4 == Subset(row, t) < m.subsets
  {
    assert IsEntry(row[t], m.subsets);
  }

  // ----- which index drives what

  /** With two indexes: whether channel `c` follows the first one. Without selection colour
      does, with it alpha. */
  predicate FollowsFirst(whole: nat, m: Mode, c: nat) {
    Selection(whole, m) == 0 <==> c < 3
  }

  lemma BelowLess(v: nat, w: nat, i: nat, k: nat)
    requires AgreeBelow(v, w, k) && i <= k
    ensures AgreeBelow(v, w, i)
  {
    LowOfLow(v, i, k);
    LowOfLow(w, i, k);
  }

  lemma FirstIndexAgrees(v: nat, w: nat, m: Mode, row: seq<nat>, t: nat)
    requires |row| == 16 && t < 16 && AgreeBelow(v, w, IndexAt(m, row, 16))
    ensures Index(v, m, row, t) == Index(w, m, row, t)
  {
    IndexGrows(m, row, t + 1, 16);
    FieldBelow(v, w, IndexAt(m, row, 16), IndexAt(m, row, t), m.indexBits - IsFixup(row[t]));
  }

  lemma SecondIndexAgrees(v: nat, w: nat, m: Mode, row: seq<nat>, t: nat)
    requires |row| == 16 && t < 16 && m.indexBits2 > 0 && AgreeFrom(v, w, Index2At(m, row, 0))
    ensures Index2(v, m, row, t) == Index2(w, m, row, t)
  {
    FieldFrom(v, w, Index2At(m, row, 0), Index2At(m, row, t), m.indexBits2 - (if t == 0 then 1 else 0));
  }

  /** Two blocks with two indexes that agree up to the second ones: the channels that follow
      the first index are the same. */
  lemma SecondIndexesDoNotMatter(v: nat, w: nat, m: Mode, row: seq<nat>, t: nat, c: nat)
    requires Partition(row, m.subsets) && t < 16 && c < 4 && m.indexBits2 > 0
    requires AgreeBelow(v, w, Index2At(m, row, 0))
    ensures Selection(v, m) == Selection(w, m)
    ensures FollowsFirst(v, m, c) ==> Channel(v, m, row, t, c) == Channel(w, m, row, t, c)
  {
    IndexGrows(m, row, 0, 16);
    BelowLess(v, w, IndicesAt(m), Index2At(m, row, 0));
    HeadersAgree(v, w, m);
    TexelEndpointsAgree(v, w, m, row, t, c);
    FirstIndexAgrees(v, w, m, row, t);
  }

  /** Two blocks that differ in the first indexes only: the other channels are the same. */
  lemma FirstIndexesDoNotMatter(v: nat, w: nat, m: Mode, row: seq<nat>, t: nat, c: nat)
    requires Partition(row, m.subsets) && t < 16 && c < 4 && m.indexBits2 > 0
    requires AgreeBelow(v, w, IndicesAt(m)) && AgreeFrom(v, w, Index2At(m, row, 0))
    ensures Selection(v, m) == Selection(w, m)
    ensures !FollowsFirst(v, m, c) ==> Channel(v, m, row, t, c) == Channel(w, m, row, t, c)
  {
    HeadersAgree(v, w, m);
    TexelEndpointsAgree(v, w, m, row, t, c);
    SecondIndexAgrees(v, w, m, row, t);
  }

  lemma TexelEndpointsAgree(v: nat, w: nat, m: Mode, row: seq<nat>, t: nat, c: nat)
    requires Partition(row, m.subsets) && t < 16 && c < 4 && AgreeBelow(v, w, IndicesAt(m))
    ensures Endpoint(v, m, row[t] % 4 * 2, c) == Endpoint(w, m, row[t] % 4 * 2, c)
    ensures Endpoint(v, m, row[t] % 4 * 2 + 1, c) == Endpoint(w, m, row[t] % 4 * 2 + 1, c)
  {
    SubsetIn(m, row, t);
    EndpointsAgree(v, w, m, row[t] % 4 * 2, c);
    EndpointsAgree(v, w, m, row[t] % 4 * 2 + 1, c);
  }

  // ----- the first and the last index

  /** The index that channel `c` of texel `t` follows, and how many bits it has. */
  function Followed(whole: nat, m: Mode, row: seq<nat>, t: nat, c: nat): (nat, nat)
    requires t < |row| == 16
  {
    if m.indexBits2 == 0 || FollowsFirst(whole, m, c) then (Index(whole, m, row, t), m.indexBits)
    else (Index2(whole, m, row, t), m.indexBits2)
  }

  /** `v` is what channel `c` must be at the first index, the first endpoint of the texel's
      subset, and at the last one, the second endpoint. */
  ghost predicate Reaches(whole: nat, m: Mode, row: seq<nat>, t: nat, c: nat, v: nat)
    requires t < |row| == 16
  {
    var (index, bits) := Followed(whole, m, row, t, c);
    && (index == 0 ==> v == Endpoint(whole, m, 2 * Subset(row, t), c))
    && (index == Pow2(bits) - 1 ==> v == Endpoint(whole, m, 2 * Subset(row, t) + 1, c))
  }

  lemma IndexesReachEndpoints(whole: nat, m: Mode, row: seq<nat>, t: nat, c: nat)
    requires Partition(row, m.subsets) && t < 16 && c < 4
    ensures Reaches(whole, m, row, t, c, Channel(whole, m, row, t, c))
  {
    var (index, bits) := Followed(whole, m, row, t, c);
    SubsetIn(m, row, t);
    var e := row[t] % 4 * 2;
    var w := WeightOf(whole, m, row, t, c);
    assert w == Weights(bits)[index];
    EndWeights(bits);
    InterpolateBetween(Endpoint(whole, m, e, c), Endpoint(whole, m, e + 1, c), w);
  }

  lemma EndWeights(bits: nat)
    requires 2 <= bits <= 4
    ensures Pow2(bits) > 1 && Weights(bits)[0] == 0 && Weights(bits)[Pow2(bits) - 1] == 64
  {
    PowTwo();
  }

  /** A weight is the whole number nearest to its share of 64. */
  lemma WeightsAreNearest(bits: nat, i: nat)
    requires 2 <= bits <= 4 && i < Pow2(bits)
    ensures var last: int := Pow2(bits) - 1;
            -last <= 2 * (Weights(bits)[i] * last - 64 * i) <= last
  {
    PowTwo();
  }

  /** An interpolated value is within one half of the exact mean. */
  lemma InterpolateIsNearest(a: nat, b: nat, w: nat)
    requires w <= 64
    ensures -32 <= 64 * Interpolate(a, b, w) - (a * (64 - w) + b * w) <= 32
  {
    ProductIs(a, 64 - w);
    ProductIs(b, w);
  }

  // ----- rotation and alpha

  /** Rotation 1, 2 or 3 exchanges alpha with red, green or blue; rotating twice is nothing. */
  lemma RotationExchanges(rotation: nat, p: Pixel)
    ensures var q := Rotated(rotation, p);
            && q.r == (if rotation == 1 then p.a else p.r) && q.g == (if rotation == 2 then p.a else p.g)
            && q.b == (if rotation == 3 then p.a else p.b)
            && q.a == (if rotation == 1 then p.r else if rotation == 2 then p.g else if rotation == 3 then p.b else p.a)
            && Rotated(rotation, q) == p
  {
  }

  /** A block without alpha bits is opaque. */
  lemma OpaqueWithoutAlpha(whole: nat, m: Mode, row: seq<nat>, t: nat)
    requires t < |row| == 16 && m.alphaBits == 0
    ensures Channel(whole, m, row, t, 3) == 255
  {
    InterpolateBetween(255, 255, WeightOf(whole, m, row, t, 3));
  }

  // ----- the mode

  /** The mode is the position of the lowest bit set, 8 when none of the lowest eight is. */
  lemma ModeIsLowestBit(whole: nat)
    ensures Low(whole, ModeOf(whole)) == 0
    ensures ModeOf(whole) < 8 ==> Field(whole, ModeOf(whole), 1) == 1
  {
    ZerosBelow(whole, 0);
  }

  lemma {:induction false} ZerosBelow(whole: nat, from: nat)
    requires from <= 8 && Low(whole, from) == 0
    ensures Low(whole, LeadingZeros(whole, from)) == 0
    ensures LeadingZeros(whole, from) < 8 ==> Field(whole, LeadingZeros(whole, from), 1) == 1
    decreases 8 - from
  {
    assert Pow2(1) == 2;
    if from < 8 && Field(whole, from, 1) == 0 {
      LowSum(whole, from, 1);
      ShlZero(from);
      ZerosBelow(whole, from + 1);
    }
  }

  lemma {:induction false} ShlZero(n: nat)
    ensures Shl(0, n) == 0
  {
    if n > 0 { ShlZero(n - 1); }
  }

  // ----- positions in numbers

  lemma StartBits(number: nat)
    requires number < 8
    ensures EndpointsAt(ModeAt(number)) == (match number case 0 => 5 case 1 => 8 case 2 => 9 case 3 => 10
                                            case 4 => 8 case 5 => 8 case 6 => 7 case _ => 14)
  {
  }

  lemma ColorBitsOf(number: nat)
    requires number < 8
    ensures Times(ModeAt(number).Endpoints(), ModeAt(number).colorBits) ==
            (match number case 0 => 24 case 1 => 24 case 2 => 30 case 3 => 28
                          case 4 => 10 case 5 => 14 case 6 => 14 case _ => 20)
  {
    TimesOf(ModeAt(number).colorBits);
  }

  lemma AlphaBitsOf(number: nat)
    requires number < 8
    ensures Times(ModeAt(number).Endpoints(), ModeAt(number).alphaBits) ==
            (match number case 0 => 0 case 1 => 0 case 2 => 0 case 3 => 0
                          case 4 => 12 case 5 => 16 case 6 => 14 case _ => 20)
  {
    TimesOf(ModeAt(number).alphaBits);
  }

  lemma ChannelStarts(m: Mode, width: nat)
    requires width == Times(m.Endpoints(), m.colorBits)
    ensures ColorAt(m, 0, 0) == EndpointsAt(m) && ColorAt(m, 1, 0) == EndpointsAt(m) + width
    ensures ColorAt(m, 2, 0) == EndpointsAt(m) + 2 * width && ColorAt(m, 3, 0) == EndpointsAt(m) + 3 * width
    ensures AlphaAt(m, 0) == ColorAt(m, 3, 0) && PBitsAt(m) == ColorAt(m, 3, 0) + Times(m.Endpoints(), m.alphaBits)
  {
    TimesOf(width);
    assert Times(1, width) == width && Times(0, m.colorBits) == 0;
  }

  /** Where the red bits of the first endpoint begin, and the green, blue and alpha ones. */
  lemma RedPosition(number: nat)
    requires number < 8
    ensures ColorAt(ModeAt(number), 0, 0) == (match number case 0 => 5 case 1 => 8 case 2 => 9 case 3 => 10
                                                           case 4 => 8 case 5 => 8 case 6 => 7 case _ => 14)
  {
    StartBits(number);
    ColorBitsOf(number);
    ChannelStarts(ModeAt(number), Times(ModeAt(number).Endpoints(), ModeAt(number).colorBits));
  }

  lemma GreenPosition(number: nat)
    requires number < 8
    ensures ColorAt(ModeAt(number), 1, 0) == (match number case 0 => 29 case 1 => 32 case 2 => 39 case 3 => 38
                                                           case 4 => 18 case 5 => 22 case 6 => 21 case _ => 34)
  {
    StartBits(number);
    ColorBitsOf(number);
    ChannelStarts(ModeAt(number), Times(ModeAt(number).Endpoints(), ModeAt(number).colorBits));
  }

  lemma BluePosition(number: nat)
    requires number < 8
    ensures ColorAt(ModeAt(number), 2, 0) == (match number case 0 => 53 case 1 => 56 case 2 => 69 case 3 => 66
                                                           case 4 => 28 case 5 => 36 case 6 => 35 case _ => 54)
  {
    StartBits(number);
    ColorBitsOf(number);
    ChannelStarts(ModeAt(number), Times(ModeAt(number).Endpoints(), ModeAt(number).colorBits));
  }

  lemma AlphaPosition(number: nat)
    requires number < 8
    ensures AlphaAt(ModeAt(number), 0) == (match number case 0 => 77 case 1 => 80 case 2 => 99 case 3 => 94
                                                        case 4 => 38 case 5 => 50 case 6 => 49 case _ => 74)
  {
    StartBits(number);
    ColorBitsOf(number);
    ChannelStarts(ModeAt(number), Times(ModeAt(number).Endpoints(), ModeAt(number).colorBits));
  }

  lemma PBitsPosition(number: nat)
    requires number < 8
    ensures PBitsAt(ModeAt(number)) == (match number case 0 => 77 case 1 => 80 case 2 => 99 case 3 => 94
                                                     case 4 => 50 case 5 => 66 case 6 => 63 case _ => 94)
  {
    StartBits(number);
    ColorBitsOf(number);
    ChannelStarts(ModeAt(number), Times(ModeAt(number).Endpoints(), ModeAt(number).colorBits));
    AlphaBitsOf(number);
  }

  /** The next endpoint follows after as many bits as the channel has. */
  lemma NextColor(number: nat, c: nat, e: nat)
    requires number < 8
    ensures ColorAt(ModeAt(number), c, e + 1) - ColorAt(ModeAt(number), c, e) ==
            (match number case 0 => 4 case 1 => 6 case 2 => 5 case 3 => 7
                          case 4 => 5 case 5 => 7 case 6 => 7 case _ => 5)
  {
  }

  lemma NextAlpha(number: nat, e: nat)
    requires number < 8
    ensures AlphaAt(ModeAt(number), e + 1) - AlphaAt(ModeAt(number), e) ==
            (match number case 0 => 0 case 1 => 0 case 2 => 0 case 3 => 0
                          case 4 => 6 case 5 => 8 case 6 => 7 case _ => 5)
  {
  }

  lemma PBitIs(whole: nat, m: Mode, e: nat, c: nat)
    requires m.HasPBits() == 1
    ensures WithPBit(whole, m, e, c) % 2 == Field(whole, PBitsAt(m) + (if m.sharedPBits then e / 2 else e), 1)
  {
    assert Pow2(1) == 2;
  }

  /** The lowest bit of every stored channel is the p-bit of the endpoint, in mode 1 that of its
      pair. */
  lemma PBitIsLowest(whole: nat, number: nat, e: nat, c: nat)
    requires number == 0 || number == 1 || number == 3 || number == 6 || number == 7
    ensures WithPBit(whole, ModeAt(number), e, c) % 2 ==
            Field(whole, PBitsAt(ModeAt(number)) + (if number == 1 then e / 2 else e), 1)
  {
    PBitIs(whole, ModeAt(number), e, c);
  }

  /** Where rotation begins in the two modes that have it, and the second indexes. */
  lemma RotationPosition()
    ensures RotationAt(ModeAt(4)) == 5 && ModeAt(4).rotationBits == 2 && ModeAt(4).selectionBits == 1
    ensures RotationAt(ModeAt(5)) == 6 && ModeAt(5).rotationBits == 2 && ModeAt(5).selectionBits == 0
  {
  }

  lemma SecondIndexPosition(number: nat, row: seq<nat>)
    requires (number == 4 || number == 5) && Partition(row, 1)
    ensures Index2At(ModeAt(number), row, 0) == if number == 4 then 81 else 97
  {
    EndpointBits(number);
    FirstIndexesTake(ModeAt(number), row);
  }

  lemma FirstIndexesTake(m: Mode, row: seq<nat>)
    requires Partition(row, 1) && m.indexBits == 2 && m.indexBits2 > 0
    ensures Index2At(m, row, 0) == IndicesAt(m) + 31
  {
    TimesOf(2);
  }

  /** The bits of an index of each mode, and of a second index where there is one. */
  lemma IndexBitsOf(number: nat)
    requires number < 8
    ensures ModeAt(number).indexBits ==
            (match number case 0 => 3 case 1 => 3 case 2 => 2 case 3 => 2
                          case 4 => 2 case 5 => 2 case 6 => 4 case _ => 2)
    ensures ModeAt(number).indexBits2 ==
            (match number case 0 => 0 case 1 => 0 case 2 => 0 case 3 => 0
                          case 4 => 3 case 5 => 2 case 6 => 0 case _ => 0)
  {
  }

  /** Which partition a block has: the number follows the mode. */
  lemma PartitionOf(sets: Sets, whole: nat, number: nat)
    requires number < 8
    ensures var row := RowOf(sets, whole, ModeAt(number));
            && (number == 0 ==> Field(whole, 1, 4) < 64 && row == sets[1][Field(whole, 1, 4)])
            && (number == 1 ==> Field(whole, 2, 6) < 64 && row == sets[0][Field(whole, 2, 6)])
            && (number == 2 ==> Field(whole, 3, 6) < 64 && row == sets[1][Field(whole, 3, 6)])
            && (number == 3 ==> Field(whole, 4, 6) < 64 && row == sets[0][Field(whole, 4, 6)])
            && (number == 7 ==> Field(whole, 8, 6) < 64 && row == sets[0][Field(whole, 8, 6)])
  {
    PartitionFits(whole, ModeAt(number));
  }

  /** The high bits of an endpoint are the stored ones with their p-bit. */
  lemma EndpointKeepsStored(whole: nat, m: Mode, e: nat, c: nat)
    requires c < 3 || m.alphaBits > 0
    ensures var n := (if c < 3 then m.colorBits else m.alphaBits) + m.HasPBits();
            n <= 8 && Shr(Endpoint(whole, m, e, c), 8 - n) == WithPBit(whole, m, e, c)
  {
    var n, v := Precision(m, c), WithPBit(whole, m, e, c);
    assert v < Pow2(n);
    WidenIs(v, n);
    if v + 1 < Pow2(n) {
      WidenIsFaithful(v, v + 1, n);
    } else {
      WidenTop(n);
    }
  }

  lemma WidenTop(n: nat)
    requires 4 <= n <= 8
    ensures Pow2(n) >= 16 && Shr(Widen(Pow2(n) - 1, n), 8 - n) == Pow2(n) - 1
  {
    PowTwo();
    PowGrows(4, n);
    var top: nat := Pow2(n) - 1;
    WidenIs(top, n);
    WidenIsFaithful(0, top, n);
    assert Widen(top, n) == 255;
    ShrOf255(n);
  }

  lemma ShrOf255(n: nat)
    requires 4 <= n <= 8
    ensures Shr(255, 8 - n) == Pow2(n) - 1
  {
    Shifts(255);
    Shifts(1);
    assert Pow2(5) == 2 * Pow2(4) && Pow2(6) == 2 * Pow2(5) && Pow2(7) == 2 * Pow2(6) && Pow2(8) == 2 * Pow2(7);
  }

  lemma Unrotated(whole: nat, m: Mode, row: seq<nat>, t: nat)
    requires t < |row| == 16 && Rotation(whole, m) == 0
    ensures var p := Texel(whole, m, row, t);
            && p.r == Channel(whole, m, row, t, 0) && p.g == Channel(whole, m, row, t, 1)
            && p.b == Channel(whole, m, row, t, 2) && p.a == Channel(whole, m, row, t, 3)
  {
  }

  /** Without rotation red, green, blue and alpha of a pixel are channels 0 to 3, and reach the
      endpoints of the texel's subset at the first and the last index. */
  lemma TexelReachesEndpoints(whole: nat, m: Mode, row: seq<nat>, t: nat, p: Pixel)
    requires Partition(row, m.subsets) && t < 16 && Rotation(whole, m) == 0 && p == Texel(whole, m, row, t)
    ensures Reaches(whole, m, row, t, 0, p.r)
    ensures Reaches(whole, m, row, t, 1, p.g)
    ensures Reaches(whole, m, row, t, 2, p.b)
    ensures Reaches(whole, m, row, t, 3, p.a)
  {
    Unrotated(whole, m, row, t);
    IndexesReachEndpoints(whole, m, row, t, 0);
    IndexesReachEndpoints(whole, m, row, t, 1);
    IndexesReachEndpoints(whole, m, row, t, 2);
    IndexesReachEndpoints(whole, m, row, t, 3);
  }
}
