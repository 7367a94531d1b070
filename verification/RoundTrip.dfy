/** Encoding and decoding again. The encoder is a specification only, written with the numbers
    of the encoding: groups of seven bits, little-endian bytes, zigzag, field types and wire
    types. */
module RoundTrip {
  import opened Wrappers
  import opened Varint
  import opened Wire
  import opened Message
  import opened DecodeLaws
  import opened RecordLaws

  // ----- varints

  /** Seven bits a byte, least significant first; all but the last byte have their top bit set. */
  function VarintOf(v: nat): (s: seq<byte>)
    ensures |s| > 0
  {
    if v < 128 then [v] else [v % 128 + 128] + VarintOf(v / 128)
  }

  lemma GroupShift(b: byte, i: nat)
    ensures Group(b, i + 1) == 128 * Group(b, i)
  {
    ProductShift(b % 128, Weight(i));
  }

  lemma ProductShift(x: nat, w: nat)
    ensures Product(x, 128 * w) == 128 * Product(x, w)
  {
  }

  lemma {:induction false} DenotedCons(b: byte, s: seq<byte>, n: nat)
    requires n <= |s|
    ensures Denoted([b] + s, n + 1) == b % 128 + 128 * Denoted(s, n)
  {
    if n == 0 {
      assert Weight(0) == 1 && Denoted([b] + s, 0) == 0;
    } else {
      DenotedCons(b, s, n - 1);
      GroupShift(s[n - 1], n - 1);
    }
  }

  lemma LengthCons(b: byte, s: seq<byte>)
    requires b >= 128 && Length(s) > 0
    ensures Length([b] + s) == Length(s) + 1
  {
    assert ([b] + s)[1..] == s;
  }

  lemma ConsDenotes(b: byte, s: seq<byte>, t: seq<byte>)
    requires b >= 128 && s != [] && Length(s + t) == |s|
    ensures Length([b] + s + t) == |[b] + s|
    ensures Denoted([b] + s + t, |[b] + s|) == b % 128 + 128 * Denoted(s + t, |s|)
  {
    assert [b] + s + t == [b] + (s + t);
    LengthCons(b, s + t);
    DenotedCons(b, s + t, |s|);
  }

  lemma VarintUnfolds(v: nat)
    requires v >= 128
    ensures VarintOf(v) == [v % 128 + 128] + VarintOf(v / 128)
    ensures (v % 128 + 128) % 128 + 128 * (v / 128) == v
  {
  }

  /** Whatever follows it, the varint ends where it should and denotes what was encoded. */
  lemma {:induction false} VarintDenotes(v: nat, t: seq<byte>)
    ensures Length(VarintOf(v) + t) == |VarintOf(v)| && Denoted(VarintOf(v) + t, |VarintOf(v)|) == v
  {
    if v < 128 {
      assert VarintOf(v) == [v] && ([v] + t)[0] == v;
      assert Weight(0) == 1 && Denoted([v] + t, 0) == 0;
    } else {
      VarintDenotes(v / 128, t);
      VarintUnfolds(v);
      ConsDenotes(v % 128 + 128, VarintOf(v / 128), t);
    }
  }

  lemma {:induction false} VarintSize(v: nat, k: nat)
    requires k > 0 && v < Weight(k)
    ensures |VarintOf(v)| <= k
  {
    if v >= 128 {
      assert Weight(1) == 128;
      VarintSize(v / 128, k - 1);
    }
  }

  lemma VarintRoundTrip(v: nat, t: seq<byte>)
    requires v < 0x1_0000_0000_0000_0000
    ensures Decode64(VarintOf(v) + t) == Some((v, |VarintOf(v)|))
    ensures v < 0x1_0000_0000 ==> Decode32(VarintOf(v) + t) == Some((v, |VarintOf(v)|))
  {
    VarintDenotes(v, t);
    WeightValues();
    assert Weight(10) == 128 * Weight(9);
    VarintSize(v, 10);
    if v < 0x1_0000_0000 { SmallIsAccepted32(VarintOf(v) + t); }
  }

  // ----- fixed-size numbers

  function FixedOf(v: nat, n: nat): (s: seq<byte>)
    ensures |s| == n
  {
    if n == 0 then [] else [v % 256] + FixedOf(v / 256, n - 1)
  }

  function Bytes(n: nat): nat {
    if n == 0 then 1 else 256 * Bytes(n - 1)
  }

  lemma {:induction false} FixedDenotes(v: nat, n: nat)
    requires v < Bytes(n)
    ensures LittleEndian(FixedOf(v, n)) == v
  {
    if n > 0 {
      FixedDenotes(v / 256, n - 1);
      assert FixedOf(v, n)[1..] == FixedOf(v / 256, n - 1);
    }
  }

  lemma FixedRoundTrip(v: nat, t: seq<byte>)
    ensures v < 0x1_0000_0000 ==> LittleEndian((FixedOf(v, 4) + t)[..4]) == v
    ensures v < 0x1_0000_0000_0000_0000 ==> LittleEndian((FixedOf(v, 8) + t)[..8]) == v
  {
    assert Bytes(2) == 0x1_0000 && Bytes(4) == 256 * (256 * Bytes(2)) && Bytes(6) == 256 * (256 * Bytes(4));
    assert Bytes(8) == 256 * (256 * Bytes(6));
    assert (FixedOf(v, 4) + t)[..4] == FixedOf(v, 4) && (FixedOf(v, 8) + t)[..8] == FixedOf(v, 8);
    if v < 0x1_0000_0000 { FixedDenotes(v, 4); }
    if v < 0x1_0000_0000_0000_0000 { FixedDenotes(v, 8); }
  }

  // ----- numbers

  /** Half of what the bytes of a field can tell apart. */
  function Half(size: nat): int {
    if size == 1 then 0x80
    else if size == 2 then 0x8000
    else if size == 4 then 0x8000_0000
    else if size == 8 then 0x8000_0000_0000_0000
    else 0
  }

  /** The numbers a field can hold: bool 0, signed 1 and 3, unsigned 2, fixed 4 and 5. */
  predicate CanHold(f: FieldInfo, x: int) {
    match f.fieldType % 16
    case 0 => x == 0 || x == 1
    case 1 => -Half(f.dataSize) <= x < Half(f.dataSize)
    case 2 => 0 <= x < 2 * Half(f.dataSize)
    case 3 => -Half(f.dataSize) <= x < Half(f.dataSize)
    case 4 => 0 <= x < 0x1_0000_0000
    case 5 => 0 <= x < 0x1_0000_0000_0000_0000
    case _ => false
  }

  /** A number as the encoding writes it in a field of this type. */
  function Encoded(f: FieldInfo, x: int): seq<byte>
    requires CanHold(f, x)
  {
    match f.fieldType % 16
    case 0 => VarintOf(x)
    case 1 => VarintOf(if x >= 0 then x else x + 0x1_0000_0000_0000_0000)
    case 2 => VarintOf(x)
    case 3 => VarintOf(if x >= 0 then 2 * x else -2 * x - 1)
    case 4 => FixedOf(x, 4)
    case 5 => FixedOf(x, 8)
  }

  lemma ZigZagRoundTrip(x: int)
    ensures ZigZag(if x >= 0 then 2 * x else -2 * x - 1) == x
  {
    if x < 0 {
      var v: nat := -2 * x - 1;
      assert v % 2 == 1 && v / 2 == -x - 1;
    }
  }

  lemma TwosComplement(f: FieldInfo, x: int)
    requires f.fieldType % 16 == 1 && CanHold(f, x)
    ensures Signed(f, if x >= 0 then x else x + 0x1_0000_0000_0000_0000) == x
  {
  }

  lemma FitsWhenHeld(f: FieldInfo, x: int)
    requires CanHold(f, x) && 1 <= f.fieldType % 16 <= 3
    ensures if f.fieldType % 16 == 2 then FitsUnsigned(x, f.dataSize) else FitsSigned(x, f.dataSize)
    ensures -0x8000_0000_0000_0000 <= x < 0x1_0000_0000_0000_0000
    ensures f.fieldType % 16 != 2 ==> x < 0x8000_0000_0000_0000
  {
  }

  lemma SignedRoundTrip(f: FieldInfo, x: int)
    requires CanHold(f, x) && 1 <= f.fieldType % 16 <= 3
    ensures var v := if f.fieldType % 16 == 2 then x
                     else if f.fieldType % 16 == 1 then (if x >= 0 then x else x + 0x1_0000_0000_0000_0000)
                     else if x >= 0 then 2 * x else -2 * x - 1;
            0 <= v < 0x1_0000_0000_0000_0000 && Integer(f, v) == Some(Number(x))
  {
    FitsWhenHeld(f, x);
    if f.fieldType % 16 == 1 { TwosComplement(f, x); }
    if f.fieldType % 16 == 3 { ZigZagRoundTrip(x); }
  }

  /** A number that fits its field is read back, whatever follows it. */
  lemma NumberRoundTrip(f: FieldInfo, x: int, t: seq<byte>)
    requires CanHold(f, x)
    ensures Scalar(f, Encoded(f, x) + t) == Some((Number(x), |Encoded(f, x)|))
  {
    match f.fieldType % 16 {
      case 0 => VarintRoundTrip(x, t);
      case 1 =>
        SignedRoundTrip(f, x);
        VarintRoundTrip(if x >= 0 then x else x + 0x1_0000_0000_0000_0000, t);
      case 2 =>
        SignedRoundTrip(f, x);
        VarintRoundTrip(x, t);
      case 3 =>
        SignedRoundTrip(f, x);
        VarintRoundTrip(if x >= 0 then 2 * x else -2 * x - 1, t);
      case 4 => FixedRoundTrip(x, t);
      case 5 => FixedRoundTrip(x, t);
    }
  }

  /** A bool is false exactly when no byte of its varint has any of its low seven bits set. */
  lemma BoolIsAnyBit(f: FieldInfo, s: seq<byte>)
    requires f.fieldType % 16 == 0 && Scalar(f, s).Some?
    ensures Scalar(f, s).value.0 == Number(0) || Scalar(f, s).value.0 == Number(1)
    ensures Scalar(f, s).value.0 == Number(0) <==> forall i :: 0 <= i < Scalar(f, s).value.1 ==> s[i] % 128 == 0
  {
    var n := Scalar(f, s).value.1;
    if forall i :: 0 <= i < n ==> s[i] % 128 == 0 {
      NothingDenoted(s, n);
    } else {
      var i :| 0 <= i < n && s[i] % 128 != 0;
      SomethingDenoted(s, n, i);
    }
  }

  lemma {:induction false} NothingDenoted(s: seq<byte>, n: nat)
    requires n <= |s| && forall i :: 0 <= i < n ==> s[i] % 128 == 0
    ensures Denoted(s, n) == 0
  {
    if n > 0 {
      GroupBounds(s[n - 1], n - 1);
      NothingDenoted(s, n - 1);
    }
  }

  /** A bit set among the first four groups, or among those the fifth byte may have, is one of
      the low 32. */
  lemma LowBitSet(s: seq<byte>, i: nat)
    requires i <= 4 < |s| && s[i] % 128 != 0 && Extends(s[4], 4, Denoted(s, 5) % TWO_32)
    ensures Denoted(s, 5) % TWO_32 != 0
  {
    FifthByte(s);
    WeightValues();
    ValueBound(s, 4);
    if i < 4 {
      GroupBounds(s[i], i);
      ValueGrows(s, i + 1, 4);
    }
  }

  lemma ShortBitSet(s: seq<byte>, n: nat, i: nat)
    requires i < n <= 4 && n <= |s| && s[i] % 128 != 0
    ensures Denoted(s, n) % TWO_32 != 0
  {
    GroupBounds(s[i], i);
    ValueGrows(s, i + 1, n);
    ValueBound(s, n);
    WeightValues();
    WeightGrows(n, 4);
  }

  /** An accepted string with a bit set has one among its low 32. */
  lemma SomethingDenoted(s: seq<byte>, n: nat, i: nat)
    requires Decode32(s).Some? && n == Decode32(s).value.1 && i < n && s[i] % 128 != 0
    ensures Decode32(s).value.0 != 0
  {
    if n < 5 {
      ShortBitSet(s, n, i);
    } else {
      var low := Denoted(s, 5) % TWO_32;
      LowBits(s, n);
      assert Extends(s[4], 4, low);
      if i <= 4 { LowBitSet(s, i); } else { assert Extends(s[i], i, low); }
    }
  }

  // ----- bytes

  /** Length-prefixed bytes. */
  function Prefixed(bytes: seq<byte>): seq<byte> {
    VarintOf(|bytes|) + bytes
  }

  /** The bytes a field has room for: counted bytes 6 with a count of two bytes, strings 7 with
      a terminator, fixed-length bytes 11 exactly. */
  predicate HasRoom(f: FieldInfo, size: nat) {
    match f.fieldType % 16
    case 6 => size <= 0xFFFF && 2 + size <= f.dataSize
    case 7 => size + 1 <= f.dataSize
    case 11 => size <= 0xFFFF && size == f.dataSize
    case _ => false
  }

  lemma DelimitedRoundTrip(bytes: seq<byte>, t: seq<byte>)
    requires |bytes| < 0x1_0000_0000
    ensures Delimited(Prefixed(bytes) + t) == Some((|VarintOf(|bytes|)|, |Prefixed(bytes)|))
    ensures (Prefixed(bytes) + t)[|VarintOf(|bytes|)|..|Prefixed(bytes)|] == bytes
  {
    VarintRoundTrip(|bytes|, bytes + t);
    assert Prefixed(bytes) + t == VarintOf(|bytes|) + (bytes + t);
  }

  /** Bytes are read back exactly when the field has room for them; empty fixed-length bytes
      stand for zeros. */
  lemma BytesRoundTrip(f: FieldInfo, bytes: seq<byte>, t: seq<byte>)
    requires f.fieldType % 16 == 6 || f.fieldType % 16 == 7 || f.fieldType % 16 == 11
    requires |bytes| < 0xFFFF_FFFF
    ensures Scalar(f, Prefixed(bytes) + t) ==
            if f.fieldType % 16 == 11 && bytes == [] then Some((Blob(seq(f.dataSize, _ => 0)), |Prefixed(bytes)|))
            else if HasRoom(f, |bytes|) then Some((Blob(bytes), |Prefixed(bytes)|))
            else None
  {
    DelimitedRoundTrip(bytes, t);
  }

  /** Whatever is accepted has room: counted bytes for their count of two bytes, strings for
      their terminator. */
  lemma AcceptedHasRoom(f: FieldInfo, s: seq<byte>, bytes: seq<byte>)
    requires (f.fieldType % 16 == 6 || f.fieldType % 16 == 7) && Scalar(f, s).Some?
    requires Scalar(f, s).value.0 == Blob(bytes)
    ensures HasRoom(f, |bytes|)
  {
  }

  // ----- fields

  /** A key: the tag above the three bits of the wire type. */
  function KeyOf(tag: nat, wireType: nat): seq<byte> {
    VarintOf(8 * tag + wireType)
  }

  lemma KeyRoundTrip(tag: nat, wireType: nat, t: seq<byte>)
    requires tag < 0x2000_0000 && wireType < 8
    ensures ReadKey(KeyOf(tag, wireType) + t) == Some(Key(tag, wireType, |KeyOf(tag, wireType)|))
  {
    VarintRoundTrip(8 * tag + wireType, t);
  }

  /** The wire type a field type is written with: varints 0, 64 bits 1, 32 bits 5, all else 2. */
  function WireOf(f: FieldInfo): (wireType: nat)
    ensures wireType < 8
  {
    if f.fieldType % 16 <= 3 then 0 else if f.fieldType % 16 == 4 then 5 else if f.fieldType % 16 == 5 then 1 else 2
  }

  /** A message in which the field has been given one more value. */
  function Given(f: FieldInfo, m: Msg, v: Value): Msg {
    Put(m, f.dataOffset,
        if f.fieldType / 16 % 4 == 2 then Array(Elements(m, f) + [v])
        else if f.fieldType / 16 % 4 == 3 then Union(f.tag, v)
        else Single(v))
  }

  /** Field `i` is the one that its tag finds, and there is room for one more value. */
  ghost predicate Takes(schema: Schema, d: nat, i: nat, m: Msg) {
    && d < |schema| && i < |schema[d].fields| && Find(schema[d].fields, schema[d].fields[i].tag) == i
    && 0 < schema[d].fields[i].tag < 0x2000_0000
    && (IsRepeated(schema[d].fields[i]) ==> |Elements(m, schema[d].fields[i])| < schema[d].fields[i].arraySize)
  }

  lemma FieldAlone(schema: Schema, d: nat, tag: nat, wireType: nat, body: seq<byte>, m: Msg, m': Msg)
    requires d < |schema| && 0 < tag < 0x2000_0000 && wireType < 8
    requires Handle(schema, d, tag, wireType, body, m) == Some((m', |body|))
    ensures Fields(schema, d, KeyOf(tag, wireType) + body, m) == Some(m')
  {
    var s := KeyOf(tag, wireType) + body;
    KeyRoundTrip(tag, wireType, body);
    var key := ReadKey(s).value;
    assert s[key.size..] == body && s[|s|..] == [];
    OneStep(schema, d, s, m, key, m', |body|, |s|);
    FieldsStep(schema, d, s, m, m', |s|);
  }

  lemma FieldAloneFails(schema: Schema, d: nat, tag: nat, wireType: nat, body: seq<byte>, m: Msg)
    requires d < |schema| && 0 < tag < 0x2000_0000 && wireType < 8
    requires Handle(schema, d, tag, wireType, body, m).None?
    ensures Fields(schema, d, KeyOf(tag, wireType) + body, m).None?
  {
    var s := KeyOf(tag, wireType) + body;
    KeyRoundTrip(tag, wireType, body);
    var key := ReadKey(s).value;
    assert s[key.size..] == body;
    OneFails(schema, d, s, m, key);
    FieldsStop(schema, d, s, m);
  }

  lemma GivenIsStatic(schema: Schema, d: nat, i: nat, body: seq<byte>, m: Msg, v: Value)
    requires Takes(schema, d, i, m) && schema[d].fields[i].fieldType % 16 != 8
    requires Scalar(schema[d].fields[i], body) == Some((v, |body|))
    ensures Handle(schema, d, schema[d].fields[i].tag, WireOf(schema[d].fields[i]), body, m) ==
            Some((Given(schema[d].fields[i], m, v), |body|))
  {
    var f := schema[d].fields[i];
    var target := if f.HType() == HTYPE_REPEATED then EMPTY else Target(m, f);
    assert Basic(schema, d, i, WireOf(f), body, target) == Some((v, |body|));
    assert Static(schema, d, i, WireOf(f), body, m) == Some((Given(f, m, v), |body|));
  }

  /** A number written for a field is given to the field: stored, appended, or put into the
      union with its tag. */
  lemma {:induction false} NumberIsGiven(schema: Schema, d: nat, i: nat, x: int, m: Msg)
    requires Takes(schema, d, i, m) && CanHold(schema[d].fields[i], x)
    ensures var f := schema[d].fields[i];
            Fields(schema, d, KeyOf(f.tag, WireOf(f)) + Encoded(f, x), m) == Some(Given(f, m, Number(x)))
  {
    var f := schema[d].fields[i];
    NumberRoundTrip(f, x, []);
    assert Encoded(f, x) + [] == Encoded(f, x);
    GivenIsStatic(schema, d, i, Encoded(f, x), m, Number(x));
    FieldAlone(schema, d, f.tag, WireOf(f), Encoded(f, x), m, Given(f, m, Number(x)));
  }

  /** So are bytes for which there is room. */
  lemma {:induction false} BytesAreGiven(schema: Schema, d: nat, i: nat, bytes: seq<byte>, m: Msg)
    requires Takes(schema, d, i, m) && HasRoom(schema[d].fields[i], |bytes|) && 0 < |bytes| < 0xFFFF_FFFF
    ensures var f := schema[d].fields[i];
            Fields(schema, d, KeyOf(f.tag, 2) + Prefixed(bytes), m) == Some(Given(f, m, Blob(bytes)))
  {
    var f := schema[d].fields[i];
    BytesRoundTrip(f, bytes, []);
    assert Prefixed(bytes) + [] == Prefixed(bytes);
    GivenIsStatic(schema, d, i, Prefixed(bytes), m, Blob(bytes));
    FieldAlone(schema, d, f.tag, 2, Prefixed(bytes), m, Given(f, m, Blob(bytes)));
  }

  /** A full array takes no more. */
  lemma FullArrayFails(schema: Schema, d: nat, i: nat, x: int, m: Msg)
    requires d < |schema| && i < |schema[d].fields| && Find(schema[d].fields, schema[d].fields[i].tag) == i
    requires 0 < schema[d].fields[i].tag < 0x2000_0000 && IsRepeated(schema[d].fields[i])
    requires |Elements(m, schema[d].fields[i])| >= schema[d].fields[i].arraySize && CanHold(schema[d].fields[i], x)
    ensures var f := schema[d].fields[i];
            Fields(schema, d, KeyOf(f.tag, WireOf(f)) + Encoded(f, x), m).None?
  {
    var f := schema[d].fields[i];
    assert Static(schema, d, i, WireOf(f), Encoded(f, x), m).None?;
    FieldAloneFails(schema, d, f.tag, WireOf(f), Encoded(f, x), m);
  }

  // ----- packed runs

  ghost predicate CanHoldAll(f: FieldInfo, xs: seq<int>) {
    forall k :: 0 <= k < |xs| ==> CanHold(f, xs[k])
  }

  function EncodedRun(f: FieldInfo, xs: seq<int>): seq<byte>
    requires CanHoldAll(f, xs)
  {
    if xs == [] then [] else Encoded(f, xs[0]) + EncodedRun(f, xs[1..])
  }

  function Numbers(xs: seq<int>): (vs: seq<Value>)
    ensures |vs| == |xs| && forall k :: 0 <= k < |xs| ==> vs[k] == Number(xs[k])
  {
    seq(|xs|, k requires 0 <= k < |xs| => Number(xs[k]))
  }

  lemma PackedStep(f: FieldInfo, s: seq<byte>, vs: seq<Value>, v: Value, n: nat)
    requires s != [] && |vs| < f.arraySize && Scalar(f, s) == Some((v, n))
    ensures Packed(f, s, vs) == Packed(f, s[n..], vs + [v])
  {
  }

  lemma NumbersCons(vs: seq<Value>, xs: seq<int>)
    requires xs != []
    ensures vs + [Number(xs[0])] + Numbers(xs[1..]) == vs + Numbers(xs)
  {
  }

  lemma {:induction false} RunRoundTrip(f: FieldInfo, xs: seq<int>, vs: seq<Value>)
    requires CanHoldAll(f, xs) && |vs| + |xs| <= f.arraySize
    ensures Packed(f, EncodedRun(f, xs), vs) == Some(vs + Numbers(xs))
    decreases |xs|
  {
    if xs == [] {
      assert vs + Numbers(xs) == vs;
    } else {
      var first, rest := Encoded(f, xs[0]), EncodedRun(f, xs[1..]);
      NumberRoundTrip(f, xs[0], rest);
      assert (first + rest)[|first|..] == rest && first + rest != [];
      PackedStep(f, first + rest, vs, Number(xs[0]), |first|);
      RunRoundTrip(f, xs[1..], vs + [Number(xs[0])]);
      NumbersCons(vs, xs);
    }
  }

  /** A packed run appends all its numbers in order. */
  lemma {:induction false} RunIsGiven(schema: Schema, d: nat, i: nat, xs: seq<int>, m: Msg)
    requires d < |schema| && i < |schema[d].fields| && Find(schema[d].fields, schema[d].fields[i].tag) == i
    requires 0 < schema[d].fields[i].tag < 0x2000_0000 && IsRepeated(schema[d].fields[i])
    requires schema[d].fields[i].fieldType % 16 <= 5 && CanHoldAll(schema[d].fields[i], xs)
    requires |Elements(m, schema[d].fields[i])| + |xs| <= schema[d].fields[i].arraySize
    requires |EncodedRun(schema[d].fields[i], xs)| < 0x1_0000_0000
    ensures var f := schema[d].fields[i];
            Fields(schema, d, KeyOf(f.tag, 2) + Prefixed(EncodedRun(f, xs)), m) ==
            Some(Put(m, f.dataOffset, Array(Elements(m, f) + Numbers(xs))))
  {
    var f := schema[d].fields[i];
    var run := EncodedRun(f, xs);
    DelimitedRoundTrip(run, []);
    assert Prefixed(run) + [] == Prefixed(run);
    RunRoundTrip(f, xs, Elements(m, f));
    var m' := Put(m, f.dataOffset, Array(Elements(m, f) + Numbers(xs)));
    assert PackedValue(f, Prefixed(run), Elements(m, f)) == Some((Elements(m, f) + Numbers(xs), |Prefixed(run)|));
    assert Static(schema, d, i, 2, Prefixed(run), m) == Some((m', |Prefixed(run)|));
    FieldAlone(schema, d, f.tag, 2, Prefixed(run), m, m');
  }

  // ----- submessages

  /** What a submessage is decoded into: defaults for an array element, what is there for a
      singular field, and for a union what is there under the same tag. */
  function Start(f: FieldInfo, m: Msg): Msg {
    if f.fieldType / 16 % 4 == 2 || f.dataOffset !in m.slots then EMPTY
    else
      match m.slots[f.dataOffset]
      case Single(v) => if v.Sub? && f.fieldType / 16 % 4 != 3 then v.m else EMPTY
      case Union(which, u) => if u.Sub? && f.fieldType / 16 % 4 == 3 && which == f.tag then u.m else EMPTY
      case Array(vs) => EMPTY
  }

  /** The bytes of a submessage are decoded into what was there and the result is given to the
      field; when they do not decode, nothing does. */
  lemma {:induction false} SubmessageIsGiven(schema: Schema, d: nat, i: nat, sub: nat, bytes: seq<byte>, m: Msg)
    requires Takes(schema, d, i, m) && SubmessageOf(schema, d, i, sub) && |bytes| < 0x1_0000_0000
    ensures var f := schema[d].fields[i];
            var start := Start(f, m);
            Fields(schema, d, KeyOf(f.tag, 2) + Prefixed(bytes), m) ==
            match Decode(schema, sub, bytes, start)
            case None => None
            case Some(x) => Some(Given(f, m, Sub(x)))
  {
    var f := schema[d].fields[i];
    var start := Start(f, m);
    DelimitedRoundTrip(bytes, []);
    var body := Prefixed(bytes);
    assert body + [] == body && (if f.HType() == HTYPE_REPEATED then EMPTY else Target(m, f)) == start;
    match Decode(schema, sub, bytes, start) {
      case None =>
        assert Submessage(schema, sub, body, start).None?;
        assert Basic(schema, d, i, 2, body, start).None?;
        assert Static(schema, d, i, 2, body, m).None?;
        FieldAloneFails(schema, d, f.tag, 2, body, m);
      case Some(x) =>
        assert Submessage(schema, sub, body, start) == Some((x, |body|));
        assert Basic(schema, d, i, 2, body, start) == Some((Sub(x), |body|));
        assert Static(schema, d, i, 2, body, m) == Some((Given(f, m, Sub(x)), |body|));
        FieldAlone(schema, d, f.tag, 2, body, m, Given(f, m, Sub(x)));
    }
  }
}
