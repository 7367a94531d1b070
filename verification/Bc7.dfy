/** The BC7 decoder: one pass over the bits of a block, field by field, that computes the texels
    `Bc7Layout` describes and reads exactly 128 bits. */
module Bc7 {
  import opened BitStream
  import opened Partitions
  import opened Bc7Layout

  // ----- mode and header

  /** Count zero bits up to the first one. */
  method ReadMode(stream: Reader) returns (mode: nat)
    requires stream.Valid() && stream.taken == 0
    modifies stream
    ensures stream.Valid() && mode == ModeOf(stream.whole)
    ensures stream.taken == if mode < 8 then mode + 1 else 8
  {
    mode := 0;
    while mode < 8
      invariant mode <= 8 && stream.Valid() && stream.taken == mode
      invariant LeadingZeros(stream.whole, mode) == ModeOf(stream.whole)
    {
      var bit := stream.ReadBit();
      if bit != 0 {
        break;
      }
      mode := mode + 1;
    }
  }

  method ReadHeader(stream: Reader, mode: nat, ghost m: Mode)
    returns (numPartitions: nat, partition: nat, rotation: nat, indexSelectionBit: nat)
    requires stream.Valid() && stream.taken == mode + 1 && HeaderOf(m, mode)
    modifies stream
    ensures stream.Valid() && stream.taken == EndpointsAt(m)
    ensures numPartitions == m.subsets && partition == Field(stream.whole, mode + 1, m.partitionBits)
    ensures rotation == Rotation(stream.whole, m) && indexSelectionBit == Selection(stream.whole, m)
  {
    partition, numPartitions, rotation, indexSelectionBit := 0, 1, 0, 0;
    if mode == 0 || mode == 1 || mode == 2 || mode == 3 || mode == 7 {
      numPartitions := if mode == 0 || mode == 2 then 3 else 2;
      partition := stream.ReadBits(if mode == 0 then 4 else 6);
    }
    if mode == 4 || mode == 5 {
      rotation := stream.ReadBits(2);
      if mode == 4 {
        indexSelectionBit := stream.ReadBit();
      }
    }
  }

  /** How the decoder tells the header fields of a mode. */
  predicate HeaderOf(m: Mode, mode: nat) {
    && m.number == mode < 8
    && m.subsets == (if mode == 0 || mode == 2 then 3 else if mode == 1 || mode == 3 || mode == 7 then 2 else 1)
    && m.partitionBits == (if mode == 0 then 4 else if m.subsets > 1 then 6 else 0)
    && m.rotationBits == (if mode == 4 || mode == 5 then 2 else 0)
    && m.selectionBits == (if mode == 4 then 1 else 0)
  }

  // ----- endpoints

  function ActualBitsCount(alpha: bool, mode: nat): nat
    requires mode < 8
  {
    if alpha then [0, 0, 0, 0, 6, 8, 7, 5][mode] else [4, 6, 5, 7, 5, 7, 7, 5][mode]
  }

  /** Bit `mode` of 0b11001011. */
  function ModeHasPBits(mode: nat): nat
    requires mode < 8
  {
    [1, 1, 0, 1, 0, 0, 1, 1][mode]
  }

  /** One channel of all endpoints. */
  method ReadChannel(stream: Reader, endpoints: array2<nat>, numEndpoints: nat, c: nat, bits: nat)
    requires stream.Valid() && endpoints.Length0 == 6 && endpoints.Length1 == 4
    requires numEndpoints <= 6 && c < 4 && 1 <= bits <= 8
    modifies stream, endpoints
    ensures stream.Valid() && stream.taken == old(stream.taken) + Times(numEndpoints, bits)
    ensures forall e :: 0 <= e < numEndpoints ==>
              endpoints[e, c] == Field(stream.whole, old(stream.taken) + Times(e, bits), bits)
    ensures forall e, k :: 0 <= e < 6 && 0 <= k < 4 && k != c ==> endpoints[e, k] == old(endpoints[e, k])
  {
    var j := 0;
    while j < numEndpoints
      invariant j <= numEndpoints && stream.Valid() && stream.taken == old(stream.taken) + Times(j, bits)
      invariant forall e :: 0 <= e < j ==>
                  endpoints[e, c] == Field(stream.whole, old(stream.taken) + Times(e, bits), bits)
      invariant forall e, k :: 0 <= e < 6 && 0 <= k < 4 && k != c ==> endpoints[e, k] == old(endpoints[e, k])
    {
      var v := stream.ReadBits(bits);
      endpoints[j, c] := v;
      j := j + 1;
    }
  }

  /** Channels that are stored: alpha only when the mode has alpha bits. */
  predicate Has(m: Mode, c: nat) {
    c < 3 || (c == 3 && m.alphaBits > 0)
  }

  /** Red, green and blue of all endpoints. */
  method ReadColors(stream: Reader, ghost m: Mode, endpoints: array2<nat>, numEndpoints: nat, colorBits: nat)
    requires stream.Valid() && stream.taken == EndpointsAt(m) && endpoints.Length0 == 6 && endpoints.Length1 == 4
    requires numEndpoints == m.Endpoints() && colorBits == m.colorBits
    modifies stream, endpoints
    ensures stream.Valid() && stream.taken == ColorAt(m, 3, 0)
    ensures forall e, c :: 0 <= e < numEndpoints && 0 <= c < 3 ==> endpoints[e, c] == Stored(stream.whole, m, e, c)
  {
    var i := 0;
    while i < 3
      invariant i <= 3 && stream.Valid() && stream.taken == ColorAt(m, i, 0)
      invariant forall e, c :: 0 <= e < numEndpoints && 0 <= c < i ==> endpoints[e, c] == Stored(stream.whole, m, e, c)
    {
      ReadChannel(stream, endpoints, numEndpoints, i, colorBits);
      i := i + 1;
    }
  }

  method ReadEndpoints(stream: Reader, ghost m: Mode, endpoints: array2<nat>, numEndpoints: nat, colorBits: nat,
                       alphaBits: nat)
    requires stream.Valid() && stream.taken == EndpointsAt(m) && endpoints.Length0 == 6 && endpoints.Length1 == 4
    requires numEndpoints == m.Endpoints() && colorBits == m.colorBits && alphaBits == m.alphaBits
    modifies stream, endpoints
    ensures stream.Valid() && stream.taken == PBitsAt(m)
    ensures forall e, c :: 0 <= e < numEndpoints && 0 <= c < 4 && Has(m, c) ==>
              endpoints[e, c] == Stored(stream.whole, m, e, c)
  {
    ReadColors(stream, m, endpoints, numEndpoints, colorBits);
    TimesIs(numEndpoints, 0);
    if alphaBits > 0 {
      ReadChannel(stream, endpoints, numEndpoints, 3, alphaBits);
    }
  }

  // ----- p-bits

  lemma OrCommutes(a: nat, b: nat)
    ensures Or(a, b) == Or(b, a)
  {
  }

  lemma InsertBit(x: nat, bit: nat)
    requires bit < 2
    ensures Or(2 * x, bit) == 2 * x + bit
  {
    assert Shl(x, 1) == 2 * x && Pow2(1) == 2 by { Shifts(x); Shifts(1); }
    OrIsSum(bit, x, 1);
    OrCommutes(2 * x, bit);
  }

  method ShiftEndpoints(endpoints: array2<nat>, numEndpoints: nat)
    requires endpoints.Length0 == 6 && endpoints.Length1 == 4 && numEndpoints <= 6
    modifies endpoints
    ensures forall e, c :: 0 <= e < numEndpoints && 0 <= c < 4 ==> endpoints[e, c] == 2 * old(endpoints[e, c])
  {
    var i := 0;
    while i < numEndpoints
      invariant i <= numEndpoints
      invariant forall e, c :: 0 <= e < i && 0 <= c < 4 ==> endpoints[e, c] == 2 * old(endpoints[e, c])
      invariant forall e, c :: i <= e < 6 && 0 <= c < 4 ==> endpoints[e, c] == old(endpoints[e, c])
    {
      var j := 0;
      while j < 4
        invariant j <= 4
        invariant forall e, c :: 0 <= e < i && 0 <= c < 4 ==> endpoints[e, c] == 2 * old(endpoints[e, c])
        invariant forall c :: 0 <= c < j ==> endpoints[i, c] == 2 * old(endpoints[i, c])
        invariant forall c :: j <= c < 4 ==> endpoints[i, c] == old(endpoints[i, c])
        invariant forall e, c :: i < e < 6 && 0 <= c < 4 ==> endpoints[e, c] == old(endpoints[e, c])
      {
        endpoints[i, j] := 2 * endpoints[i, j];
        j := j + 1;
      }
      i := i + 1;
    }
  }

  /** Insert a bit below the first `channels` channels of an endpoint. */
  method InsertPBit(endpoints: array2<nat>, e: nat, channels: nat, bit: nat)
    requires endpoints.Length0 == 6 && endpoints.Length1 == 4 && e < 6 && channels <= 4 && bit < 2
    requires forall c :: 0 <= c < 4 ==> endpoints[e, c] % 2 == 0
    modifies endpoints
    ensures forall c :: 0 <= c < channels ==> endpoints[e, c] == old(endpoints[e, c]) + bit
    ensures forall k, c :: 0 <= k < 6 && 0 <= c < 4 && (k != e || c >= channels) ==>
              endpoints[k, c] == old(endpoints[k, c])
  {
    var k := 0;
    while k < channels
      invariant k <= channels
      invariant forall c :: 0 <= c < k ==> endpoints[e, c] == old(endpoints[e, c]) + bit
      invariant forall i, c :: 0 <= i < 6 && 0 <= c < 4 && (i != e || c >= k) ==>
                  endpoints[i, c] == old(endpoints[i, c])
    {
      InsertBit(endpoints[e, k] / 2, bit);
      endpoints[e, k] := Or(endpoints[e, k], bit);
      k := k + 1;
    }
  }

  /** One p-bit for each endpoint. */
  method UniquePBits(stream: Reader, endpoints: array2<nat>, numEndpoints: nat)
    requires stream.Valid() && endpoints.Length0 == 6 && endpoints.Length1 == 4 && numEndpoints <= 6
    requires forall e, c :: 0 <= e < numEndpoints && 0 <= c < 4 ==> endpoints[e, c] % 2 == 0
    modifies stream, endpoints
    ensures stream.Valid() && stream.taken == old(stream.taken) + numEndpoints
    ensures forall e, c :: 0 <= e < numEndpoints && 0 <= c < 4 ==>
              endpoints[e, c] == old(endpoints[e, c]) + Field(stream.whole, old(stream.taken) + e, 1)
  {
    var i := 0;
    while i < numEndpoints
      invariant i <= numEndpoints && stream.Valid() && stream.taken == old(stream.taken) + i
      invariant forall e, c :: 0 <= e < i && 0 <= c < 4 ==>
                  endpoints[e, c] == old(endpoints[e, c]) + Field(stream.whole, old(stream.taken) + e, 1)
      invariant forall e, c :: i <= e < 6 && 0 <= c < 4 ==> endpoints[e, c] == old(endpoints[e, c])
    {
      var bit := stream.ReadBit();
      InsertPBit(endpoints, i, 4, bit);
      i := i + 1;
    }
  }

  /** One p-bit for both endpoints of a subset; the colour channels only. */
  method SharedPBits(stream: Reader, endpoints: array2<nat>)
    requires stream.Valid() && endpoints.Length0 == 6 && endpoints.Length1 == 4
    requires forall e, c :: 0 <= e < 4 && 0 <= c < 4 ==> endpoints[e, c] % 2 == 0
    modifies stream, endpoints
    ensures stream.Valid() && stream.taken == old(stream.taken) + 2
    ensures forall e, c :: 0 <= e < 4 && 0 <= c < 3 ==>
              endpoints[e, c] == old(endpoints[e, c]) + Field(stream.whole, old(stream.taken) + e / 2, 1)
  {
    var i := stream.ReadBit();
    var j := stream.ReadBit();
    InsertPBit(endpoints, 0, 3, i);
    InsertPBit(endpoints, 1, 3, i);
    InsertPBit(endpoints, 2, 3, j);
    InsertPBit(endpoints, 3, 3, j);
  }

  method ReadPBits(stream: Reader, mode: nat, ghost m: Mode, endpoints: array2<nat>, numEndpoints: nat)
    requires mode < 8 && BodyOf(m, mode) && numEndpoints == m.Endpoints() && (mode == 1 ==> numEndpoints == 4)
    requires stream.Valid() && stream.taken == PBitsAt(m) && endpoints.Length0 == 6 && endpoints.Length1 == 4
    requires forall e, c :: 0 <= e < numEndpoints && 0 <= c < 4 && Has(m, c) ==>
               endpoints[e, c] == Stored(stream.whole, m, e, c)
    modifies stream, endpoints
    ensures stream.Valid() && stream.taken == IndicesAt(m)
    ensures forall e, c :: 0 <= e < numEndpoints && 0 <= c < 4 && Has(m, c) ==>
              endpoints[e, c] == WithPBit(stream.whole, m, e, c)
  {
    if mode == 0 || mode == 1 || mode == 3 || mode == 6 || mode == 7 {
      ShiftEndpoints(endpoints, numEndpoints);
      if mode == 1 {
        SharedPBits(stream, endpoints);
      } else if ModeHasPBits(mode) == 1 {
        UniquePBits(stream, endpoints, numEndpoints);
      }
    }
  }

  // ----- widening to 8 bits

  function Widened(x: nat, j: nat): nat
    requires j <= 8
  {
    Or(Shl(x, 8 - j), Shr(Shl(x, 8 - j), j))
  }

  lemma WidenedIs(x: nat, j: nat)
    requires j <= 8 && x < Pow2(j)
    ensures Widened(x, j) == Widen(x, j)
  {
    ShlBound(x, j, 8 - j);
    ShrBound(Shl(x, 8 - j), j, 8);
    OrIsSum(Shr(Shl(x, 8 - j), j), x, 8 - j);
    OrCommutes(Shl(x, 8 - j), Shr(Shl(x, 8 - j), j));
  }

  lemma WithPBitFits(whole: nat, m: Mode, e: nat, c: nat)
    ensures WithPBit(whole, m, e, c) < Pow2(Precision(m, c))
  {
  }

  /** Widen all channels of one endpoint. */
  method WidenEndpoint(ghost whole: nat, ghost m: Mode, endpoints: array2<nat>, i: nat, colorPrecision: nat,
                       alphaPrecision: nat)
    requires endpoints.Length0 == 6 && endpoints.Length1 == 4 && i < 6
    requires colorPrecision == Precision(m, 0) && alphaPrecision == Precision(m, 3)
    requires forall c :: 0 <= c < 4 && Has(m, c) ==> endpoints[i, c] == WithPBit(whole, m, i, c)
    modifies endpoints
    ensures forall c :: 0 <= c < 4 && Has(m, c) ==> endpoints[i, c] == Endpoint(whole, m, i, c)
    ensures forall e, c :: 0 <= e < 6 && 0 <= c < 4 && e != i ==> endpoints[e, c] == old(endpoints[e, c])
  {
    var k := 0;
    while k < 3
      invariant k <= 3
      invariant forall c :: 0 <= c < k ==> endpoints[i, c] == Endpoint(whole, m, i, c)
      invariant forall c :: k <= c < 4 ==> endpoints[i, c] == old(endpoints[i, c])
      invariant forall e, c :: 0 <= e < 6 && 0 <= c < 4 && e != i ==> endpoints[e, c] == old(endpoints[e, c])
    {
      WithPBitFits(whole, m, i, k);
      WidenedIs(endpoints[i, k], colorPrecision);
      endpoints[i, k] := Widened(endpoints[i, k], colorPrecision);
      k := k + 1;
    }
    if Has(m, 3) {
      WithPBitFits(whole, m, i, 3);
      WidenedIs(endpoints[i, 3], alphaPrecision);
    }
    endpoints[i, 3] := Widened(endpoints[i, 3], alphaPrecision);
  }

  method WidenEndpoints(ghost whole: nat, ghost m: Mode, endpoints: array2<nat>, numEndpoints: nat,
                        colorPrecision: nat, alphaPrecision: nat, alphaBits: nat)
    requires endpoints.Length0 == 6 && endpoints.Length1 == 4 && numEndpoints == m.Endpoints() &&
             alphaBits == m.alphaBits
    requires colorPrecision == Precision(m, 0) && alphaPrecision == Precision(m, 3)
    requires forall e, c :: 0 <= e < numEndpoints && 0 <= c < 4 && Has(m, c) ==>
               endpoints[e, c] == WithPBit(whole, m, e, c)
    modifies endpoints
    ensures forall e, c :: 0 <= e < numEndpoints && 0 <= c < 4 ==> endpoints[e, c] == Endpoint(whole, m, e, c)
  {
    var i := 0;
    while i < numEndpoints
      invariant i <= numEndpoints
      invariant forall e, c :: 0 <= e < i && 0 <= c < 4 && Has(m, c) ==> endpoints[e, c] == Endpoint(whole, m, e, c)
      invariant forall e, c :: i <= e < 6 && 0 <= c < 4 ==> endpoints[e, c] == old(endpoints[e, c])
    {
      WidenEndpoint(whole, m, endpoints, i, colorPrecision, alphaPrecision);
      i := i + 1;
    }
    if alphaBits == 0 {
      SetOpaque(whole, m, endpoints, numEndpoints);
    }
  }

  /** Without alpha bits, alpha is 255. */
  method SetOpaque(ghost whole: nat, ghost m: Mode, endpoints: array2<nat>, numEndpoints: nat)
    requires endpoints.Length0 == 6 && endpoints.Length1 == 4 && numEndpoints <= 6 && m.alphaBits == 0
    modifies endpoints
    ensures forall e :: 0 <= e < numEndpoints ==> endpoints[e, 3] == Endpoint(whole, m, e, 3)
    ensures forall e, c :: 0 <= e < 6 && 0 <= c < 3 ==> endpoints[e, c] == old(endpoints[e, c])
  {
    var j := 0;
    while j < numEndpoints
      invariant j <= numEndpoints
      invariant forall e :: 0 <= e < j ==> endpoints[e, 3] == 255
      invariant forall e, c :: 0 <= e < 6 && 0 <= c < 3 ==> endpoints[e, c] == old(endpoints[e, c])
    {
      endpoints[j, 3] := 255;
      j := j + 1;
    }
  }

  // ----- indices and texels

  lemma IndexAtNext(m: Mode, row: seq<nat>, t: nat)
    requires t < |row| == 16
    ensures IndexAt(m, row, t + 1) == IndexAt(m, row, t) + m.indexBits - IsFixup(row[t])
  {
  }

  lemma Index2AtNext(m: Mode, row: seq<nat>, t: nat)
    requires |row| == 16 && m.indexBits2 > 0
    ensures Index2At(m, row, t + 1) == Index2At(m, row, t) + m.indexBits2 - (if t == 0 then 1 else 0)
  {
  }

  /** One colour index; that of a fix-up has one bit less. */
  method ReadIndex(stream: Reader, ghost m: Mode, row: seq<nat>, t: nat, bits: nat) returns (index: nat)
    requires stream.Valid() && t < |row| == 16 && stream.taken == IndexAt(m, row, t) && bits == m.indexBits
    modifies stream
    ensures stream.Valid() && stream.taken == IndexAt(m, row, t + 1)
    ensures index == Index(stream.whole, m, row, t)
  {
    IndexAtNext(m, row, t);
    var indexBits := if row[t] >= 128 then bits - 1 else bits;
    index := stream.ReadBits(indexBits);
  }

  /** The indices of the four texels of line `i`. */
  method ReadIndexLine(stream: Reader, ghost m: Mode, row: seq<nat>, i: nat, bits: nat, indices: array2<nat>)
    requires stream.Valid() && i < 4 && |row| == 16 && stream.taken == IndexAt(m, row, 4 * i) && bits == m.indexBits
    requires indices.Length0 == 4 && indices.Length1 == 4
    modifies stream, indices
    ensures stream.Valid() && stream.taken == IndexAt(m, row, 4 * i + 4)
    ensures forall j :: 0 <= j < 4 ==> indices[i, j] == Index(stream.whole, m, row, 4 * i + j)
    ensures forall k, j :: 0 <= k < 4 && 0 <= j < 4 && k != i ==> indices[k, j] == old(indices[k, j])
  {
    var j := 0;
    while j < 4
      invariant j <= 4 && stream.Valid() && stream.taken == IndexAt(m, row, 4 * i + j)
      invariant forall l :: 0 <= l < j ==> indices[i, l] == Index(stream.whole, m, row, 4 * i + l)
      invariant forall k, l :: 0 <= k < 4 && 0 <= l < 4 && k != i ==> indices[k, l] == old(indices[k, l])
    {
      var v := ReadIndex(stream, m, row, 4 * i + j, bits);
      indices[i, j] := v;
      j := j + 1;
    }
  }

  /** The colour indices of a block, all read. */
  ghost predicate Indices(whole: nat, m: Mode, row: seq<nat>, indices: array2<nat>)
    requires |row| == 16
    reads indices
  {
    && indices.Length0 == 4 && indices.Length1 == 4
    && forall t {:trigger Index(whole, m, row, t)} :: 0 <= t < 16 ==> indices[t / 4, t % 4] == Index(whole, m, row, t)
  }

  /** First pass: the colour indices. */
  method ReadIndices(stream: Reader, ghost m: Mode, row: seq<nat>, bits: nat) returns (indices: array2<nat>)
    requires stream.Valid() && stream.taken == IndicesAt(m) && |row| == 16 && bits == m.indexBits
    modifies stream
    ensures stream.Valid() && stream.taken == IndexAt(m, row, 16) && fresh(indices)
    ensures Indices(stream.whole, m, row, indices)
  {
    indices := new nat[4, 4];
    var i := 0;
    while i < 4
      invariant i <= 4 && stream.Valid() && stream.taken == IndexAt(m, row, 4 * i)
      invariant forall k, j :: 0 <= k < i && 0 <= j < 4 ==> indices[k, j] == Index(stream.whole, m, row, 4 * k + j)
    {
      ReadIndexLine(stream, m, row, i, bits, indices);
      i := i + 1;
    }
    forall t | 0 <= t < 16
      ensures indices[t / 4, t % 4] == Index(stream.whole, m, row, t)
    {
      assert t == 4 * (t / 4) + t % 4;
    }
  }

  /** Where the second pass has come to before texel `t`. */
  ghost function SecondAt(m: Mode, row: seq<nat>, t: nat): nat
    requires |row| == 16
  {
    if m.indexBits2 == 0 then IndexAt(m, row, 16) else Index2At(m, row, t)
  }

  /** The endpoints of a block, all decoded. */
  ghost predicate Decoded(whole: nat, m: Mode, endpoints: array2<nat>)
    reads endpoints
  {
    && endpoints.Length0 == 6 && endpoints.Length1 == 4
    && forall e, c {:trigger Endpoint(whole, m, e, c)} :: 0 <= e < m.Endpoints() && 0 <= c < 4 ==>
         endpoints[e, c] == Endpoint(whole, m, e, c)
  }

  method InterpolateChannel(a: nat, b: nat, weight: nat) returns (v: nat)
    requires weight <= 64
    ensures v == Interpolate(a, b, weight)
  {
    ProductIs(a, 64 - weight);
    ProductIs(b, weight);
    v := (a * (64 - weight) + b * weight + 32) / 64;
  }

  /** The low two bits of a table entry are its subset. */
  lemma EntrySubset(entry: nat, n: nat)
    requires IsEntry(entry, n) && 1 <= n <= 3
    ensures entry % 4 < n && (entry == entry % 4 || entry == 128 + entry % 4)
  {
  }

  /** The two pairs of weights and index of a texel: for the colour channels and for alpha. */
  method ReadWeights(stream: Reader, ghost m: Mode, row: seq<nat>, t: nat, index: nat,
                     indexBits: nat, indexBits2: nat, indexSelectionBit: nat) returns (color: nat, alpha: nat)
    requires stream.Valid() && t < |row| == 16 && stream.taken == SecondAt(m, row, t)
    requires index == Index(stream.whole, m, row, t) && indexBits == m.indexBits && indexBits2 == m.indexBits2
    requires indexSelectionBit == Selection(stream.whole, m)
    modifies stream
    ensures stream.Valid() && stream.taken == SecondAt(m, row, t + 1)
    ensures color <= 64 && alpha <= 64 && alpha == WeightOf(stream.whole, m, row, t, 3)
    ensures forall c :: 0 <= c < 3 ==> color == WeightOf(stream.whole, m, row, t, c)
  {
    color := Weights(indexBits)[index];
    alpha := color;
    if indexBits2 != 0 {
      Index2AtNext(m, row, t);
      var index2 := stream.ReadBits(if t == 0 then indexBits2 - 1 else indexBits2);
      assert index2 == Index2(stream.whole, m, row, t);
      if indexSelectionBit == 0 {
        alpha := Weights(indexBits2)[index2];
      } else {
        color := Weights(indexBits2)[index2];
      }
    }
  }

  /** The texels of a block, as its layout says. */
  ghost predicate Texels(pixels: seq<Pixel>, whole: nat, m: Mode, row: seq<nat>) {
    && |row| == |pixels| == 16
    && forall t {:trigger Texel(whole, m, row, t)} :: 0 <= t < 16 ==> pixels[t] == Texel(whole, m, row, t)
  }

  lemma EndpointsOf(whole: nat, m: Mode, endpoints: array2<nat>, e: nat)
    requires Decoded(whole, m, endpoints) && e + 1 < m.Endpoints()
    ensures forall c {:trigger endpoints[e, c]} :: 0 <= c < 4 ==> endpoints[e, c] == Endpoint(whole, m, e, c)
    ensures forall c {:trigger endpoints[e + 1, c]} :: 0 <= c < 4 ==>
              endpoints[e + 1, c] == Endpoint(whole, m, e + 1, c)
  {
  }

  /** Texel `j` of line `i`, the `t`-th of the block. */
  method DecodeTexel(stream: Reader, ghost m: Mode, row: seq<nat>, i: nat, j: nat, endpoints: array2<nat>,
                     indices: array2<nat>,
                     indexBits: nat, indexBits2: nat, rotation: nat, indexSelectionBit: nat, ghost pixels: seq<Pixel>)
    returns (p: Pixel)
    requires i < 4 && j < 4 && stream.Valid() && Partition(row, m.subsets) &&
             stream.taken == SecondAt(m, row, 4 * i + j)
    requires Decoded(stream.whole, m, endpoints) && Indices(stream.whole, m, row, indices)
    requires Texels(pixels, stream.whole, m, row) && indexBits == m.indexBits && indexBits2 == m.indexBits2
    requires rotation == Rotation(stream.whole, m) && indexSelectionBit == Selection(stream.whole, m)
    modifies stream
    ensures stream.Valid() && stream.taken == SecondAt(m, row, 4 * i + j + 1)
    ensures p == pixels[4 * i + j]
  {
    var t := 4 * i + j;
    var index := indices[i, j];
    assert t / 4 == i && t % 4 == j && index == Index(stream.whole, m, row, t);
    var e := row[t] % 4 * 2;
    EntrySubset(row[t], m.subsets);
    var color, alpha := ReadWeights(stream, m, row, t, index, indexBits, indexBits2, indexSelectionBit);
    EndpointsOf(stream.whole, m, endpoints, e);
    var r := InterpolateChannel(endpoints[e, 0], endpoints[e + 1, 0], color);
    var g := InterpolateChannel(endpoints[e, 1], endpoints[e + 1, 1], color);
    var b := InterpolateChannel(endpoints[e, 2], endpoints[e + 1, 2], color);
    var a := InterpolateChannel(endpoints[e, 3], endpoints[e + 1, 3], alpha);
    assert r == Channel(stream.whole, m, row, t, 0) && g == Channel(stream.whole, m, row, t, 1);
    assert b == Channel(stream.whole, m, row, t, 2) && a == Channel(stream.whole, m, row, t, 3);
    p := Rotate(rotation, r, g, b, a);
    assert p == Texel(stream.whole, m, row, t);
  }

  method Rotate(rotation: nat, r: nat, g: nat, b: nat, a: nat) returns (p: Pixel)
    ensures p == Rotated(rotation, Pixel(r, g, b, a))
  {
    p := Pixel(r, g, b, a);
    if rotation == 1 {
      p := Pixel(a, g, b, r);
    } else if rotation == 2 {
      p := Pixel(r, a, b, g);
    } else if rotation == 3 {
      p := Pixel(r, g, a, b);
    }
  }

  // ----- the block

  /** Where texel `t` goes: four lines of four texels of four bytes, `pitch` apart; lines may
      overlap, and a negative pitch stores them upwards. */
  function Place(at: int, pitch: int, t: nat): int {
    at + Lines(t / 4, pitch) + t % 4 * 4
  }

  function Lines(n: nat, pitch: int): int {
    if n == 0 then 0 else Lines(n - 1, pitch) + pitch
  }

  /** In one formula. */
  lemma PlaceIs(at: int, pitch: int, t: nat)
    ensures Place(at, pitch, t) == at + t / 4 * pitch + t % 4 * 4
  {
    LinesIs(t / 4, pitch);
  }

  lemma {:induction false} LinesIs(n: nat, pitch: int)
    ensures Lines(n, pitch) == n * pitch
  {
    if n > 0 { LinesIs(n - 1, pitch); }
  }

  ghost predicate InBounds(at: int, pitch: int, length: nat) {
    forall t {:trigger Place(at, pitch, t)} :: 0 <= t < 16 ==>
          0 <= Place(at, pitch, t) && Place(at, pitch, t) + 4 <= length
  }

  /** The bytes after one texel has been stored. */
  function WithPixel(bytes: seq<nat>, pos: nat, p: Pixel): (after: seq<nat>)
    requires pos + 4 <= |bytes|
    ensures |after| == |bytes|
  {
    bytes[pos := p.r][pos + 1 := p.g][pos + 2 := p.b][pos + 3 := p.a]
  }

  /** The bytes after the first `t` texels have been stored one after the other. */
  ghost function Painted(bytes: seq<nat>, at: int, pitch: int, pixels: seq<Pixel>, t: nat): (after: seq<nat>)
    requires InBounds(at, pitch, |bytes|) && t <= |pixels| == 16
    ensures |after| == |bytes|
  {
    if t == 0 then bytes
    else WithPixel(Painted(bytes, at, pitch, pixels, t - 1), Place(at, pitch, t - 1), pixels[t - 1])
  }

  lemma PaintedNext(bytes: seq<nat>, at: int, pitch: int, pixels: seq<Pixel>, t: nat, pos: int)
    requires InBounds(at, pitch, |bytes|) && t < |pixels| == 16 && pos == Place(at, pitch, t)
    ensures Painted(bytes, at, pitch, pixels, t + 1) ==
            WithPixel(Painted(bytes, at, pitch, pixels, t), pos, pixels[t])
  {
  }

  /** Nothing changes but the bytes of texels. */
  lemma {:induction false} PaintedElsewhere(bytes: seq<nat>, at: int, pitch: int, pixels: seq<Pixel>, t: nat, k: nat)
    requires InBounds(at, pitch, |bytes|) && t <= |pixels| == 16 && k < |bytes|
    requires forall u {:trigger Place(at, pitch, u)} :: 0 <= u < t ==>
               k < Place(at, pitch, u) || Place(at, pitch, u) + 4 <= k
    ensures Painted(bytes, at, pitch, pixels, t)[k] == bytes[k]
  {
    if t > 0 { PaintedElsewhere(bytes, at, pitch, pixels, t - 1, k); }
  }

  /** A texel that no later one overlaps is there when all have been stored. */
  lemma {:induction false} PaintedLast(bytes: seq<nat>, at: int, pitch: int, pixels: seq<Pixel>, u: nat, t: nat)
    requires InBounds(at, pitch, |bytes|) && u < t <= |pixels| == 16
    requires forall v :: u < v < t ==>
               Place(at, pitch, v) + 4 <= Place(at, pitch, u) || Place(at, pitch, u) + 4 <= Place(at, pitch, v)
    ensures var pos := Place(at, pitch, u);
            Painted(bytes, at, pitch, pixels, t)[pos..pos + 4] == [pixels[u].r, pixels[u].g, pixels[u].b, pixels[u].a]
  {
    if u < t - 1 {
      PaintedLast(bytes, at, pitch, pixels, u, t - 1);
      var before, after := Painted(bytes, at, pitch, pixels, t - 1), Painted(bytes, at, pitch, pixels, t);
      var pos := Place(at, pitch, u);
      assert after[pos..pos + 4] == before[pos..pos + 4];
    }
  }

  lemma {:induction false} PlacesAscend(at: int, pitch: int, u: nat, v: nat)
    requires u < v && pitch >= 16
    ensures Place(at, pitch, u) + 4 <= Place(at, pitch, v)
    decreases v - u
  {
    if u + 1 < v { PlacesAscend(at, pitch, u, v - 1); }
  }

  /** With lines that do not overlap every texel is there. */
  lemma AllPainted(bytes: seq<nat>, at: int, pitch: int, pixels: seq<Pixel>, u: nat)
    requires InBounds(at, pitch, |bytes|) && u < |pixels| == 16 && pitch >= 16
    ensures var pos := Place(at, pitch, u);
            Painted(bytes, at, pitch, pixels, |pixels|)[pos..pos + 4] ==
                [pixels[u].r, pixels[u].g, pixels[u].b, pixels[u].a]
  {
    forall v | u < v < 16
      ensures Place(at, pitch, u) + 4 <= Place(at, pitch, v)
    {
      PlacesAscend(at, pitch, u, v);
    }
    PaintedLast(bytes, at, pitch, pixels, u, 16);
  }

  /** Store texel `t` after those before it. */
  method StorePixel(dest: array<nat>, pos: nat, p: Pixel)
    requires pos + 4 <= dest.Length
    modifies dest
    ensures dest[..] == WithPixel(old(dest[..]), pos, p)
  {
    dest[pos], dest[pos + 1], dest[pos + 2], dest[pos + 3] := p.r, p.g, p.b, p.a;
  }

  lemma PlaceIn(at: int, pitch: int, i: nat, j: nat)
    requires j < 4
    ensures Place(at, pitch, 4 * i + j) == at + Lines(i, pitch) + 4 * j
  {
    assert (4 * i + j) / 4 == i && (4 * i + j) % 4 == j;
  }

  lemma TexelsOf(whole: nat, m: Mode, row: seq<nat>) returns (pixels: seq<Pixel>)
    requires |row| == 16
    ensures Texels(pixels, whole, m, row)
  {
    pixels := seq(16, t requires 0 <= t < 16 => Texel(whole, m, row, t));
  }

  /** The four texels of line `i`. */
  method DecodeLine(stream: Reader, ghost m: Mode, row: seq<nat>, endpoints: array2<nat>, indices: array2<nat>,
                    indexBits: nat, indexBits2: nat, rotation: nat, indexSelectionBit: nat,
                    dest: array<nat>, decompressed: int, i: nat, ghost at: int, ghost pitch: int,
                    ghost pixels: seq<Pixel>, ghost bytes: seq<nat>, ghost t: nat)
    requires Partition(row, m.subsets) && Decoded(stream.whole, m, endpoints) && Indices(stream.whole, m, row, indices)
    requires indexBits == m.indexBits && indexBits2 == m.indexBits2
    requires rotation == Rotation(stream.whole, m) && indexSelectionBit == Selection(stream.whole, m)
    requires InBounds(at, pitch, dest.Length) && Texels(pixels, stream.whole, m, row)
    requires i < 4 && t == 4 * i && decompressed == at + Lines(i, pitch) && |bytes| == dest.Length
    requires stream.Valid() && stream.taken == SecondAt(m, row, t)
    requires dest[..] == Painted(bytes, at, pitch, pixels, t)
    modifies stream, dest
    ensures stream.Valid() && stream.taken == SecondAt(m, row, t + 4)
    ensures dest[..] == Painted(bytes, at, pitch, pixels, t + 4)
  {
    var j := 0;
    while j < 4
      invariant j <= 4 && stream.Valid() && stream.taken == SecondAt(m, row, t + j)
      invariant dest[..] == Painted(bytes, at, pitch, pixels, t + j)
    {
      var p := DecodeTexel(stream, m, row, i, j, endpoints, indices, indexBits, indexBits2, rotation,
                           indexSelectionBit, pixels);
      PlaceIn(at, pitch, i, j);
      PaintedNext(bytes, at, pitch, pixels, t + j, decompressed + j * 4);
      StorePixel(dest, decompressed + j * 4, p);
      j := j + 1;
    }
  }

  /** Second pass: read the second indices, interpolate and store the texels. */
  method DecodeTexels(stream: Reader, ghost m: Mode, row: seq<nat>, endpoints: array2<nat>, indices: array2<nat>,
                      indexBits: nat, indexBits2: nat, rotation: nat, indexSelectionBit: nat,
                      dest: array<nat>, at: int, pitch: int, ghost pixels: seq<Pixel>)
    requires Partition(row, m.subsets) && Decoded(stream.whole, m, endpoints) && Indices(stream.whole, m, row, indices)
    requires indexBits == m.indexBits && indexBits2 == m.indexBits2
    requires rotation == Rotation(stream.whole, m) && indexSelectionBit == Selection(stream.whole, m)
    requires InBounds(at, pitch, dest.Length) && Texels(pixels, stream.whole, m, row)
    requires stream.Valid() && stream.taken == IndexAt(m, row, 16)
    modifies stream, dest
    ensures stream.Valid() && stream.taken == SecondAt(m, row, 16)
    ensures dest[..] == Painted(old(dest[..]), at, pitch, pixels, |pixels|)
  {
    ghost var bytes := dest[..];
    var decompressed := at;
    var i := 0;
    ghost var t := 0;
    while i < 4
      invariant i <= 4 && t == 4 * i && decompressed == at + Lines(i, pitch)
      invariant stream.Valid() && stream.taken == SecondAt(m, row, t)
      invariant dest[..] == Painted(bytes, at, pitch, pixels, t)
    {
      DecodeLine(stream, m, row, endpoints, indices, indexBits, indexBits2, rotation, indexSelectionBit,
                 dest, decompressed, i, at, pitch, pixels, bytes, t);
      decompressed := decompressed + pitch;
      i, t := i + 1, t + 4;
    }
  }

  const CLEAR: Pixel := Pixel(0, 0, 0, 0)

  ghost predicate AllClear(pixels: seq<Pixel>) {
    |pixels| == 16 && forall t {:trigger pixels[t]} :: 0 <= t < 16 ==> pixels[t] == CLEAR
  }

  method ClearLine(dest: array<nat>, decompressed: int, i: nat, ghost at: int, ghost pitch: int,
                   ghost pixels: seq<Pixel>, ghost bytes: seq<nat>, ghost t: nat)
    requires AllClear(pixels) && InBounds(at, pitch, dest.Length)
    requires i < 4 && t == 4 * i && decompressed == at + Lines(i, pitch) && |bytes| == dest.Length
    requires dest[..] == Painted(bytes, at, pitch, pixels, t)
    modifies dest
    ensures dest[..] == Painted(bytes, at, pitch, pixels, t + 4)
  {
    var j := 0;
    while j < 4
      invariant j <= 4 && dest[..] == Painted(bytes, at, pitch, pixels, t + j)
    {
      PlaceIn(at, pitch, i, j);
      PaintedNext(bytes, at, pitch, pixels, t + j, decompressed + j * 4);
      StorePixel(dest, decompressed + j * 4, CLEAR);
      j := j + 1;
    }
  }

  /** Store transparent black. */
  method ClearTexels(dest: array<nat>, at: int, pitch: int, ghost pixels: seq<Pixel>)
    requires AllClear(pixels) && InBounds(at, pitch, dest.Length)
    modifies dest
    ensures dest[..] == Painted(old(dest[..]), at, pitch, pixels, |pixels|)
  {
    ghost var bytes := dest[..];
    var decompressed := at;
    var i := 0;
    ghost var t := 0;
    while i < 4
      invariant i <= 4 && t == 4 * i && decompressed == at + Lines(i, pitch)
      invariant dest[..] == Painted(bytes, at, pitch, pixels, t)
    {
      ClearLine(dest, decompressed, i, at, pitch, pixels, bytes, t);
      decompressed := decompressed + pitch;
      i, t := i + 1, t + 4;
    }
  }

  /** What the decoder assumes of a mode beyond its header. */
  ghost predicate BodyOf(m: Mode, mode: nat)
    requires mode < 8
  {
    && ActualBitsCount(false, mode) == m.colorBits && ActualBitsCount(true, mode) == m.alphaBits
    && ModeHasPBits(mode) == m.HasPBits()
    && m.indexBits == (if mode == 0 || mode == 1 then 3 else if mode == 6 then 4 else 2)
    && m.indexBits2 == (if mode == 4 then 3 else if mode == 5 then 2 else 0)
    && m.sharedPBits == (mode == 1)
    && (m.HasPBits() == 1 <==> mode == 0 || mode == 1 || mode == 3 || mode == 6 || mode == 7)
  }

  lemma BodyOfMode(mode: nat)
    requires mode < 8
    ensures HeaderOf(ModeAt(mode), mode)
    ensures BodyOf(ModeAt(mode), mode)
  {
  }

  /** Decode all endpoints. */
  method DecodeEndpoints(stream: Reader, mode: nat, ghost m: Mode, numEndpoints: nat) returns (endpoints: array2<nat>)
    requires mode < 8 && BodyOf(m, mode) && numEndpoints == m.Endpoints() && (mode == 1 ==> numEndpoints == 4)
    requires stream.Valid() && stream.taken == EndpointsAt(m)
    modifies stream
    ensures stream.Valid() && stream.taken == IndicesAt(m)
    ensures fresh(endpoints) && Decoded(stream.whole, m, endpoints)
  {
    endpoints := new nat[6, 4];
    var colorBits, alphaBits := ActualBitsCount(false, mode), ActualBitsCount(true, mode);
    ReadEndpoints(stream, m, endpoints, numEndpoints, colorBits, alphaBits);
    ReadPBits(stream, mode, m, endpoints, numEndpoints);
    WidenEndpoints(stream.whole, m, endpoints, numEndpoints,
                   colorBits + ModeHasPBits(mode), alphaBits + ModeHasPBits(mode), alphaBits);
  }

  /** `bcdec_bc7`: decode the block of two words into the texels at `at`. A block of a valid
      mode is read to its last bit; one of the reserved mode gives transparent black. */
  method DecodeBlock(sets: Sets, low: nat, high: nat, dest: array<nat>, at: int, pitch: int)
    returns (ghost pixels: seq<Pixel>, ghost taken: nat)
    requires low < Pow2(64) && high < Pow2(64)
    requires InBounds(at, pitch, dest.Length)
    modifies dest
    ensures |pixels| == 16 && dest[..] == Painted(old(dest[..]), at, pitch, pixels, |pixels|)
    ensures ModeOf(Whole(low, high)) == 8 ==> taken == 8
    ensures ModeOf(Whole(low, high)) == 8 ==> forall t :: 0 <= t < 16 ==> pixels[t] == Pixel(0, 0, 0, 0)
    ensures ModeOf(Whole(low, high)) < 8 ==>
              var m := ModeAt(ModeOf(Whole(low, high)));
              taken == 128 && Texels(pixels, Whole(low, high), m, RowOf(sets, Whole(low, high), m))
  {
    var stream := new Reader(low, high);
    var mode := ReadMode(stream);
    if mode >= 8 {
      pixels, taken := seq(16, _ => CLEAR), stream.taken;
      ClearTexels(dest, at, pitch, pixels);
    } else {
      pixels, taken := DecodeValid(stream, sets, mode, dest, at, pitch);
    }
  }

  /** Decode a block of a valid mode after its mode bits. */
  method DecodeValid(stream: Reader, sets: Sets, mode: nat, dest: array<nat>, at: int, pitch: int)
    returns (ghost pixels: seq<Pixel>, ghost taken: nat)
    requires stream.Valid() && mode < 8 && stream.taken == mode + 1
    requires InBounds(at, pitch, dest.Length)
    modifies stream, dest
    ensures taken == 128 && Texels(pixels, stream.whole, ModeAt(mode), RowOf(sets, stream.whole, ModeAt(mode)))
    ensures |pixels| == 16 && dest[..] == Painted(old(dest[..]), at, pitch, pixels, |pixels|)
  {
    BodyOfMode(mode);
    pixels, taken := DecodeMode(stream, sets, mode, ModeAt(mode), dest, at, pitch);
    AllTaken(sets, stream.whole, mode);
  }

  lemma AllTaken(sets: Sets, whole: nat, mode: nat)
    requires mode < 8
    ensures SecondAt(ModeAt(mode), RowOf(sets, whole, ModeAt(mode)), 16) == 128
  {
    FieldsFillBlock(mode, RowOf(sets, whole, ModeAt(mode)));
  }

  /** Decode the block after its mode. */
  method DecodeMode(stream: Reader, sets: Sets, mode: nat, ghost m: Mode, dest: array<nat>, at: int, pitch: int)
    returns (ghost pixels: seq<Pixel>, ghost taken: nat)
    requires stream.Valid() && HeaderOf(m, mode) && BodyOf(m, mode) && stream.taken == mode + 1
    requires InBounds(at, pitch, dest.Length)
    modifies stream, dest
    ensures Texels(pixels, stream.whole, m, RowOf(sets, stream.whole, m)) &&
            taken == SecondAt(m, RowOf(sets, stream.whole, m), 16)
    ensures |pixels| == 16 && dest[..] == Painted(old(dest[..]), at, pitch, pixels, |pixels|)
  {
    var numPartitions, partition, rotation, indexSelectionBit := ReadHeader(stream, mode, m);
    PartitionFits(stream.whole, m);
    var row := if numPartitions == 1 then OneSubset() else sets[numPartitions - 2][partition];
    pixels := TexelsOf(stream.whole, m, row);
    DecodeBody(stream, mode, m, row, numPartitions * 2, rotation, indexSelectionBit, dest, at, pitch, pixels);
    taken := stream.taken;
  }

  /** Decode the block after its header. */
  method DecodeBody(stream: Reader, mode: nat, ghost m: Mode, row: seq<nat>, numEndpoints: nat, rotation: nat,
                    indexSelectionBit: nat, dest: array<nat>, at: int, pitch: int, ghost pixels: seq<Pixel>)
    requires mode < 8 && BodyOf(m, mode) && numEndpoints == m.Endpoints() && (mode == 1 ==> numEndpoints == 4)
    requires stream.Valid() && stream.taken == EndpointsAt(m) && Partition(row, m.subsets)
    requires rotation == Rotation(stream.whole, m) && indexSelectionBit == Selection(stream.whole, m)
    requires InBounds(at, pitch, dest.Length) && Texels(pixels, stream.whole, m, row)
    modifies stream, dest
    ensures stream.taken == SecondAt(m, row, 16)
    ensures |pixels| == 16 && dest[..] == Painted(old(dest[..]), at, pitch, pixels, |pixels|)
  {
    var endpoints := DecodeEndpoints(stream, mode, m, numEndpoints);
    var indexBits := if mode == 0 || mode == 1 then 3 else if mode == 6 then 4 else 2;
    var indexBits2 := if mode == 4 then 3 else if mode == 5 then 2 else 0;
    var indices := ReadIndices(stream, m, row, indexBits);
    DecodeTexels(stream, m, row, endpoints, indices, indexBits, indexBits2, rotation, indexSelectionBit, dest, at,
                 pitch, pixels);
  }
}
