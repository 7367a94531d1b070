/** The decoder: methods that read a stream field by field, driven by packed descriptors, and
    compute exactly what `Message.Decode` says. */
module Decoder {
  import opened Wrappers
  import opened Varint
  import opened Wire
  import opened Message
  import opened Stream
  import opened Descriptor
  import opened DecodeLaws

  /** Fields that are allocated statically, counted when repeated, and no extensions. */
  ghost predicate StaticOnly(ty: MsgType) {
    forall i :: 0 <= i < |ty.fields| ==>
      && ty.fields[i].AType() == 0
      && (ty.fields[i].LType() <= LTYPE_SUBMESSAGE || ty.fields[i].LType() == LTYPE_FIXED_LENGTH_BYTES)
      && (ty.fields[i].HType() == HTYPE_REPEATED ==> ty.fields[i].sizeOffset != 0)
  }

  /** The descriptors pack the message types of the schema. */
  ghost predicate Compiled(descs: seq<MsgDesc>, schema: Schema, widths: seq<seq<nat>>) {
    && |descs| == |schema| == |widths|
    && forall d {:trigger CompiledType(descs, schema, widths, d)} ::
         0 <= d < |schema| ==> CompiledType(descs, schema, widths, d)
  }

  ghost predicate CompiledType(descs: seq<MsgDesc>, schema: Schema, widths: seq<seq<nat>>, d: nat)
    requires d < |schema| == |descs| == |widths|
  {
    && Describes(descs[d], schema[d].fields, widths[d]) && descs[d].submsgInfo == schema[d].submsgs
    && StaticOnly(schema[d])
    && forall k :: 0 <= k < |schema[d].submsgs| ==> schema[d].submsgs[k] < |schema|
  }

  // ----- the bitmap of required fields seen

  /** Two words of 32 bits, laid end to end: bit q says whether the q-th required field was
      seen; there are no other bits. */
  ghost predicate Seen(bits: seq<bool>, fields: seq<FieldInfo>, tags: set<nat>) {
    && |bits| == PB_MAX_REQUIRED_FIELDS
    && (forall i :: 0 <= i < |fields| && fields[i].IsRequired() && Required(fields, i) < PB_MAX_REQUIRED_FIELDS ==>
         (bits[Required(fields, i)] <==> fields[i].tag in tags))
    && (forall q :: 0 <= q < |bits| && bits[q] ==> q < Required(fields, |fields|))
  }

  lemma {:induction false} RequiredIsInjective(fields: seq<FieldInfo>, i: nat, j: nat)
    requires i < j < |fields| && fields[i].IsRequired()
    ensures Required(fields, i) < Required(fields, j)
    decreases j - i
  {
    CountsGrow(fields, i + 1, j);
  }

  /** Every number below the count is that of a required field. */
  lemma {:induction false} RequiredIsOnto(fields: seq<FieldInfo>, n: nat, q: nat) returns (i: nat)
    requires n <= |fields| && q < Required(fields, n)
    ensures i < n && fields[i].IsRequired() && Required(fields, i) == q
  {
    if q < Required(fields, n - 1) {
      i := RequiredIsOnto(fields, n - 1, q);
    } else {
      i := n - 1;
    }
  }

  lemma SeeField(bits: seq<bool>, fields: seq<FieldInfo>, tags: set<nat>, i: nat)
    requires Seen(bits, fields, tags) && i < |fields|
    requires forall a, b :: 0 <= a < b < |fields| ==> fields[a].tag < fields[b].tag
    ensures var q := Required(fields, i);
            Seen(if fields[i].IsRequired() && q < PB_MAX_REQUIRED_FIELDS then bits[q := true] else bits,
                 fields, tags + {fields[i].tag})
  {
    var q, tag := Required(fields, i), fields[i].tag;
    forall j | 0 <= j < |fields| && j != i
      ensures fields[j].tag != tag
      ensures fields[i].IsRequired() && fields[j].IsRequired() ==> Required(fields, j) != q
    {
      if fields[i].IsRequired() && fields[j].IsRequired() { OtherRequired(fields, i, j); }
    }
    if fields[i].IsRequired() {
      CountsGrow(fields, i + 1, |fields|);
    }
  }

  lemma OtherRequired(fields: seq<FieldInfo>, i: nat, j: nat)
    requires i < |fields| && j < |fields| && i != j && fields[i].IsRequired() && fields[j].IsRequired()
    ensures Required(fields, i) != Required(fields, j)
  {
    if i < j { RequiredIsInjective(fields, i, j); } else { RequiredIsInjective(fields, j, i); }
  }

  lemma SeeUnknown(bits: seq<bool>, fields: seq<FieldInfo>, tags: set<nat>, tag: nat)
    requires Seen(bits, fields, tags) && forall i :: 0 <= i < |fields| ==> fields[i].tag != tag
    ensures Seen(bits, fields, tags + {tag})
  {
  }

  /** All bits below `n` are set, and, when n is no multiple of 32, none above in its word. */
  predicate WordsFull(bits: seq<bool>, n: nat)
    requires n <= |bits| == PB_MAX_REQUIRED_FIELDS
  {
    && (forall k: nat :: k < n / 32 ==> bits[32 * k..32 * k + 32] == Ones(32, 32))
    && (n % 32 != 0 ==> bits[n / 32 * 32..n / 32 * 32 + 32] == Ones(n % 32, 32))
  }

  /** A word of `size` bits with the lowest `n` set. */
  function Ones(n: nat, size: nat): (w: seq<bool>)
    ensures |w| == size && forall i :: 0 <= i < size ==> (w[i] <==> i < n)
  {
    seq(size, i => i < n)
  }

  function AtMostMax(n: nat): nat {
    if n > PB_MAX_REQUIRED_FIELDS then PB_MAX_REQUIRED_FIELDS else n
  }

  function RequiredCount(fields: seq<FieldInfo>): nat {
    AtMostMax(Required(fields, |fields|))
  }

  /** Comparing whole words and the remainder is the same as looking for every required field. */
  lemma WordsSayAllRequired(bits: seq<bool>, fields: seq<FieldInfo>, tags: set<nat>)
    requires Seen(bits, fields, tags)
    ensures WordsFull(bits, RequiredCount(fields)) <==> AllRequired(fields, tags)
  {
    var n := RequiredCount(fields);
    WordsAreBits(bits, n);
    if AllRequired(fields, tags) {
      forall q | 0 <= q < n
        ensures bits[q]
      {
        var i := RequiredIsOnto(fields, |fields|, q);
      }
    }
    if forall q :: 0 <= q < n ==> bits[q] {
      forall i | 0 <= i < |fields| && fields[i].IsRequired() && Required(fields, i) < PB_MAX_REQUIRED_FIELDS
        ensures fields[i].tag in tags
      {
        CountsGrow(fields, i + 1, |fields|);
      }
    }
  }

  lemma WordIs(bits: seq<bool>, at: nat, n: nat)
    requires at + 32 <= |bits| && n <= 32
    ensures bits[at..at + 32] == Ones(n, 32) <==> forall q :: at <= q < at + 32 ==> (bits[q] <==> q < at + n)
  {
    if bits[at..at + 32] == Ones(n, 32) {
      assert forall q :: at <= q < at + 32 ==> bits[q] == bits[at..at + 32][q - at];
    }
  }

  lemma WordsAreBits(bits: seq<bool>, n: nat)
    requires n <= |bits| == PB_MAX_REQUIRED_FIELDS
    requires n < PB_MAX_REQUIRED_FIELDS ==> forall q :: n <= q < |bits| ==> !bits[q]
    ensures WordsFull(bits, n) <==> forall q :: 0 <= q < n ==> bits[q]
  {
    WordIs(bits, 0, 32);
    WordIs(bits, 32, 32);
    if n % 32 != 0 { WordIs(bits, n / 32 * 32, n % 32); }
    assert n / 32 > 0 ==> bits[32 * 0..32 * 0 + 32] == bits[0..32];
    assert n / 32 > 1 ==> bits[32 * 1..32 * 1 + 32] == bits[32..64];
    assert n / 32 <= 2;
  }

  // ----- packed arrays

  /** Fixed-size little-endian integers. */
  method DecodeFixed(stream: IStream, size: nat) returns (r: Option<Value>)
    requires stream.Valid()
    modifies stream
    ensures r.Some? == (size <= |old(stream.Rest())|)
    ensures r.Some? ==> r.value == Number(LittleEndian(old(stream.Rest())[..size])) && stream.Took(size)
    ensures r.None? ==> stream.Stuck()
  {
    var bytes := stream.Read(size);
    if bytes.None? {
      return None;
    }
    return Some(Number(LittleEndian(bytes.value)));
  }

  predicate IsIntegerSize(size: nat) {
    size == 8 || size == 4 || size == 2 || size == 1
  }

  /** A cast to an unsigned type of this size keeps the low bits; one to a signed type reads
      them as a signed number. */
  function CastUnsigned(x: int, size: nat): nat
    requires IsIntegerSize(size)
  {
    x % Range(size)
  }

  function CastSigned(x: int, size: nat): int
    requires IsIntegerSize(size)
  {
    if 2 * (x % Range(size)) < Range(size) then x % Range(size) else x % Range(size) - Range(size)
  }

  /** A cast keeps exactly the values that fit. */
  lemma CastKeepsFitting(v: nat, x: int, size: nat)
    requires IsIntegerSize(size)
    ensures CastUnsigned(v, size) == v <==> FitsUnsigned(v, size)
    ensures CastSigned(x, size) == x <==> FitsSigned(x, size)
  {
  }

  /** The casts that give a varint its sign. */
  lemma CastsOfVarint(v: nat)
    requires v < TWO_64
    ensures CastSigned(v, 8) == AsInt64(v) && CastSigned(v, 4) == AsInt32(v)
  {
  }

  method DecodeSvarint(stream: IStream) returns (r: Option<int>)
    requires stream.Valid()
    modifies stream
    ensures r.Some? == Decode64(old(stream.Rest())).Some?
    ensures r.Some? ==> var (v, n) := Decode64(old(stream.Rest())).value; r.value == ZigZag(v) && stream.Took(n)
    ensures r.None? ==> stream.Stuck()
  {
    var value := stream.DecodeVarint();
    if value.None? {
      return None;
    }
    var half: int := value.value / 2;
    return Some(if value.value % 2 == 1 then -half - 1 else half);
  }

  /** The value of a signed field before it is cast to the field's size. */
  method DecodeSigned(stream: IStream, f: FieldInfo) returns (r: Option<int>)
    requires stream.Valid()
    modifies stream
    ensures r.Some? == Decode64(old(stream.Rest())).Some?
    ensures r.Some? ==> var (v, n) := Decode64(old(stream.Rest())).value; r.value == Signed(f, v) && stream.Took(n)
    ensures r.None? ==> stream.Stuck()
  {
    if f.LType() == LTYPE_SVARINT {
      r := DecodeSvarint(stream);
      return;
    }
    var value := stream.DecodeVarint();
    if value.None? {
      return None;
    }
    CastsOfVarint(value.value);
    return Some(if f.dataSize == 8 then CastSigned(value.value, 8) else CastSigned(value.value, 4));
  }

  /** Varint fields: cast to the size of the field, and rejected when the cast changes them. */
  method DecVarint(stream: IStream, f: FieldInfo) returns (r: Option<Value>)
    requires stream.Valid() && LTYPE_BOOL < f.LType() <= LTYPE_SVARINT
    modifies stream
    ensures r.Some? == Scalar(f, old(stream.Rest())).Some?
    ensures r.Some? ==> r.value == Scalar(f, old(stream.Rest())).value.0
    ensures r.Some? ==> stream.Took(Scalar(f, old(stream.Rest())).value.1)
    ensures r.None? ==> stream.Stuck()
  {
    if f.LType() == LTYPE_UVARINT {
      var value := stream.DecodeVarint();
      if value.None? || !IsIntegerSize(f.dataSize) {
        return None;
      }
      var clamped := CastUnsigned(value.value, f.dataSize);
      CastKeepsFitting(value.value, 0, f.dataSize);
      return if clamped == value.value then Some(Number(clamped)) else None;
    }
    var svalue := DecodeSigned(stream, f);
    if svalue.None? || !IsIntegerSize(f.dataSize) {
      return None;
    }
    var clamped := CastSigned(svalue.value, f.dataSize);
    CastKeepsFitting(0, svalue.value, f.dataSize);
    return if clamped == svalue.value then Some(Number(clamped)) else None;
  }

  /** Length-prefixed bytes: counted bytes, strings and fixed-length bytes. */
  method DecBytes(stream: IStream, f: FieldInfo) returns (r: Option<Value>)
    requires stream.Valid()
    modifies stream
    ensures r.Some? == Bytes(f, old(stream.Rest())).Some?
    ensures r.Some? ==> r.value == Bytes(f, old(stream.Rest())).value.0
    ensures r.Some? ==> stream.Took(Bytes(f, old(stream.Rest())).value.1)
    ensures r.None? ==> stream.Stuck()
  {
    ghost var s := stream.Rest();
    var size := stream.DecodeVarint32();
    if size.None? || !SizeFits(f, size.value) {
      return None;
    }
    ghost var n := Decode32(s).value.1;
    if f.LType() == LTYPE_FIXED_LENGTH_BYTES && size.value == 0 {
      return Some(Blob(Zeros(f.dataSize)));
    }
    var bytes := stream.Read(size.value);
    if bytes.None? {
      return None;
    }
    assert bytes.value == s[n..n + size.value];
    return Some(Blob(bytes.value));
  }

  method DecodeScalar(stream: IStream, f: FieldInfo) returns (r: Option<Value>)
    requires stream.Valid()
    modifies stream
    ensures r.Some? == Scalar(f, old(stream.Rest())).Some?
    ensures r.Some? ==> r.value == Scalar(f, old(stream.Rest())).value.0
    ensures r.Some? ==> stream.Took(Scalar(f, old(stream.Rest())).value.1)
    ensures r.None? ==> stream.Stuck()
  {
    if f.LType() == LTYPE_BOOL {
      var v := stream.DecodeVarint32();
      if v.None? {
        return None;
      }
      return Some(Number(if v.value != 0 then 1 else 0));
    } else if f.LType() <= LTYPE_SVARINT {
      r := DecVarint(stream, f);
    } else if f.LType() == LTYPE_FIXED32 {
      r := DecodeFixed(stream, 4);
    } else if f.LType() == LTYPE_FIXED64 {
      r := DecodeFixed(stream, 8);
    } else if f.LType() == LTYPE_BYTES || f.LType() == LTYPE_STRING || f.LType() == LTYPE_FIXED_LENGTH_BYTES {
      r := DecBytes(stream, f);
    } else {
      r := None;
    }
  }

  /** The elements of a packed array, as long as there are bytes and room. */
  method DecodePacked(stream: IStream, f: FieldInfo, vs: seq<Value>) returns (status: bool, all: seq<Value>)
    requires stream.Valid()
    modifies stream
    ensures status && stream.bytesLeft == 0 <==> Packed(f, old(stream.Rest()), vs).Some?
    ensures status && stream.bytesLeft == 0 ==>
              Packed(f, old(stream.Rest()), vs) == Some(all) && stream.Took(|old(stream.Rest())|)
    ensures stream.Stuck()
  {
    status, all := true, vs;
    ghost var taken: nat := 0;
    while stream.bytesLeft > 0 && |all| < f.arraySize
      invariant taken <= |old(stream.Rest())| && stream.Took(taken) && status
      invariant Packed(f, stream.Rest(), all) == Packed(f, old(stream.Rest()), vs)
      decreases stream.bytesLeft
    {
      ghost var s := stream.Rest();
      var v := DecodeScalar(stream, f);
      if v.None? {
        status := false;
        return;
      }
      taken := taken + Scalar(f, s).value.1;
      all := all + [v.value];
    }
  }

  // ----- fields, submessages and messages

  class MessageDecoder {
    const descs: seq<MsgDesc>
    ghost const schema: Schema
    ghost const widths: seq<seq<nat>>

    ghost predicate Valid() {
      Compiled(descs, schema, widths)
    }

    constructor (ds: seq<MsgDesc>, ghost sc: Schema, ghost ws: seq<seq<nat>>)
      requires Compiled(ds, sc, ws)
      ensures descs == ds && schema == sc && widths == ws && Valid()
    {
      descs, schema, widths := ds, sc, ws;
    }

    /** The field at the cursor, and the type of its submessage. */
    ghost predicate IsField(d: nat, i: nat, f: FieldInfo, submsg: nat) {
      && d < |schema| && i < |schema[d].fields| && f == schema[d].fields[i]
      && (f.LType() == LTYPE_SUBMESSAGE ==>
           var k := Submessages(schema[d].fields, i);
           k < |schema[d].submsgs| && submsg == schema[d].submsgs[k] && submsg < |schema|)
    }

    /** `pb_dec_submessage`: decode a length-delimited message into `dest`, from defaults when
        the field is repeated. `depth` is how deep this and the calls it makes are nested,
        whether they succeed or fail. */
    method DecSubmessage(stream: IStream, f: FieldInfo, submsg: nat, dest: Msg)
      returns (r: Option<Msg>, ghost depth: nat)
      requires Valid() && stream.Valid() && submsg < |schema|
      modifies stream
      ensures var target := if f.HType() == HTYPE_REPEATED then EMPTY else dest;
              && r.Some? == Submessage(schema, submsg, old(stream.Rest()), target).Some?
              && (r.Some? ==> r.value == Submessage(schema, submsg, old(stream.Rest()), target).value.0 &&
                              stream.Took(Submessage(schema, submsg, old(stream.Rest()), target).value.1))
      ensures r.None? ==> stream.Stuck()
      ensures 2 * depth <= |old(stream.Rest())| + 1 && (Delimited(old(stream.Rest())).Some? ==> depth > 0)
      decreases |stream.Rest()|, 0
    {
      ghost var s := stream.Rest();
      var substream := stream.MakeStringSubstream();
      if substream.None? {
        return None, 0;
      }
      ghost var to := Delimited(s).value.1;
      r, depth := DecodeInner(substream.value, submsg, dest, f.HType() != HTYPE_REPEATED);
      depth := depth + 1;
      stream.CloseStringSubstream(substream.value);
      if r.Some? { stream.TookTo(to); }
    }

    /** `decode_basic_field` for the field `i` of type `d`. */
    method DecodeBasicField(stream: IStream, wireType: nat, ghost d: nat, ghost i: nat, f: FieldInfo, submsg: nat,
                            dest: Msg) returns (r: Option<Value>, ghost depth: nat)
      requires Valid() && stream.Valid() && IsField(d, i, f, submsg) && wireType < 8
      requires f.HType() == HTYPE_REPEATED ==> dest == EMPTY
      modifies stream
      ensures r.Some? == Basic(schema, d, i, wireType, old(stream.Rest()), dest).Some?
      ensures r.Some? ==> r.value == Basic(schema, d, i, wireType, old(stream.Rest()), dest).value.0 &&
                          stream.Took(Basic(schema, d, i, wireType, old(stream.Rest()), dest).value.1)
      ensures r.None? ==> stream.Stuck()
      ensures 2 * depth <= |old(stream.Rest())| + 1
      decreases |stream.Rest()|, 1
    {
      depth := 0;
      if wireType != WireTypeOf(f) {
        return None, 0;
      }
      if f.LType() == LTYPE_SUBMESSAGE {
        var m;
        m, depth := DecSubmessage(stream, f, submsg, dest);
        return if m.Some? then Some(Sub(m.value)) else None, depth;
      }
      r := DecodeScalar(stream, f);
    }

    /** A packed array: one length-delimited value holds all elements. */
    method DecodePackedField(stream: IStream, f: FieldInfo, vs: seq<Value>) returns (r: Option<seq<Value>>)
      requires stream.Valid()
      modifies stream
      ensures r.Some? == PackedValue(f, old(stream.Rest()), vs).Some?
      ensures r.Some? ==> r.value == PackedValue(f, old(stream.Rest()), vs).value.0 &&
                          stream.Took(PackedValue(f, old(stream.Rest()), vs).value.1)
      ensures r.None? ==> stream.Stuck()
    {
      ghost var s := stream.Rest();
      var substream := stream.MakeStringSubstream();
      if substream.None? {
        return None;
      }
      ghost var to := Delimited(s).value.1;
      var status, all := DecodePacked(substream.value, f, vs);
      if substream.value.bytesLeft != 0 {
        return None;
      }
      stream.CloseStringSubstream(substream.value);
      if status { stream.TookTo(to); }
      return if status then Some(all) else None;
    }

    /** `decode_static_field` for repeated fields. */
    method DecodeRepeatedField(stream: IStream, wireType: nat, ghost d: nat, ghost i: nat, f: FieldInfo, submsg: nat,
                               m: Msg) returns (r: Option<Msg>, ghost depth: nat)
      requires Valid() && stream.Valid() && IsField(d, i, f, submsg) && wireType < 8 && f.HType() == HTYPE_REPEATED
      modifies stream
      ensures r.Some? == Static(schema, d, i, wireType, old(stream.Rest()), m).Some?
      ensures r.Some? ==> r.value == Static(schema, d, i, wireType, old(stream.Rest()), m).value.0 &&
                          stream.Took(Static(schema, d, i, wireType, old(stream.Rest()), m).value.1)
      ensures r.None? ==> stream.Stuck()
      ensures 2 * depth <= |old(stream.Rest())| + 1
      decreases |stream.Rest()|, 2, 0
    {
      var vs := Elements(m, f);
      if wireType == WT_STRING && f.LType() <= LTYPE_LAST_PACKABLE {
        var all := DecodePackedField(stream, f, vs);
        return if all.Some? then Some(Put(m, f.dataOffset, Array(all.value))) else None, 0;
      }
      if |vs| >= f.arraySize {
        return None, 0;
      }
      var v;
      v, depth := DecodeBasicField(stream, wireType, d, i, f, submsg, EMPTY);
      return if v.Some? then Some(Put(m, f.dataOffset, Array(vs + [v.value]))) else None, depth;
    }

    /** `decode_static_field`. */
    method DecodeStaticField(stream: IStream, wireType: nat, ghost d: nat, ghost i: nat, f: FieldInfo, submsg: nat,
                             m: Msg) returns (r: Option<Msg>, ghost depth: nat)
      requires Valid() && stream.Valid() && IsField(d, i, f, submsg) && wireType < 8
      modifies stream
      ensures r.Some? == Static(schema, d, i, wireType, old(stream.Rest()), m).Some?
      ensures r.Some? ==> r.value == Static(schema, d, i, wireType, old(stream.Rest()), m).value.0 &&
                          stream.Took(Static(schema, d, i, wireType, old(stream.Rest()), m).value.1)
      ensures r.None? ==> stream.Stuck()
      ensures 2 * depth <= |old(stream.Rest())| + 1
      decreases |stream.Rest()|, 2, 1
    {
      if f.HType() == HTYPE_REPEATED {
        r, depth := DecodeRepeatedField(stream, wireType, d, i, f, submsg, m);
        return;
      }
      var v;
      v, depth := DecodeBasicField(stream, wireType, d, i, f, submsg, Target(m, f));
      if v.None? {
        return None, depth;
      }
      var slot := if f.HType() == HTYPE_ONEOF then Union(f.tag, v.value) else Single(v.value);
      return Some(Put(m, f.dataOffset, slot)), depth;
    }

    /** Find the field with this tag and decode the value, or skip it. */
    method DecodeValue(stream: IStream, d: nat, iter: FieldIter, tag: nat, wireType: nat, m: Msg)
      returns (next: Option<Msg>, seen: Option<nat>, ghost depth: nat)
      requires Valid() && stream.Valid() && d < |schema| && tag > 0 && wireType < 8
      requires Cursor(iter, d)
      modifies stream, iter
      ensures next.Some? == Handle(schema, d, tag, wireType, old(stream.Rest()), m).Some?
      ensures next.Some? ==> next.value == Handle(schema, d, tag, wireType, old(stream.Rest()), m).value.0 &&
                             stream.Took(Handle(schema, d, tag, wireType, old(stream.Rest()), m).value.1)
      ensures seen == SeenBit(schema[d].fields, tag)
      ensures next.None? ==> stream.Stuck()
      ensures Cursor(iter, d)
      ensures 2 * depth <= |old(stream.Rest())| + 1
      decreases |stream.Rest()|, 3, 0
    {
      seen, depth := None, 0;
      NoExtensions(d);
      var found := iter.FieldIterFind(tag);
      if !found {
        NotFoundIsFind(d, tag);
        var ok := stream.SkipField(wireType);
        return if ok then Some(m) else None, seen, 0;
      }
      FoundIsFind(d, iter.index, tag);
      CursorIsField(iter, d);
      if iter.field.HType() == HTYPE_REQUIRED && iter.requiredFieldIndex < PB_MAX_REQUIRED_FIELDS {
        seen := Some(iter.requiredFieldIndex);
      }
      next, depth := DecodeStaticField(stream, wireType, d, iter.index, iter.field, iter.submsgDesc, m);
    }

    lemma NotFoundIsFind(d: nat, tag: nat)
      requires Valid() && d < |schema|
      requires forall i: nat :: i < |schema[d].fields| ==> !Matches(schema[d].fields, i, tag)
      ensures Find(schema[d].fields, tag) == |schema[d].fields|
    {
      NoExtensions(d);
      forall i | 0 <= i < |schema[d].fields|
        ensures schema[d].fields[i].tag != tag
      {
        assert !Matches(schema[d].fields, i, tag);
      }
      NotFound(schema[d].fields, tag);
    }

    lemma CursorIsField(iter: FieldIter, d: nat)
      requires Valid() && d < |schema| && Cursor(iter, d) && iter.index < |schema[d].fields|
      ensures IsField(d, iter.index, iter.field, iter.submsgDesc)
    {
      assert CompiledType(descs, schema, widths, d);
      CountsGrow(schema[d].fields, iter.index + 1, |schema[d].fields|);
    }

    /** One turn of the loop of `pb_decode_inner`: read a key, find its field and decode or
        skip the value. `seen` is the bit to set for a required field. */
    method DecodeRecord(stream: IStream, d: nat, iter: FieldIter, m: Msg)
      returns (next: Option<Msg>, seen: Option<nat>, ghost depth: nat)
      requires Valid() && stream.Valid() && d < |schema| && stream.bytesLeft > 0
      requires Cursor(iter, d)
      modifies stream, iter
      ensures next.Some? == One(schema, d, old(stream.Rest()), m).Some?
      ensures next.Some? ==> next.value == One(schema, d, old(stream.Rest()), m).value.0 &&
                             stream.Took(One(schema, d, old(stream.Rest()), m).value.1)
      ensures next.Some? ==> seen == SeenBit(schema[d].fields, ReadKey(old(stream.Rest())).value.tag)
      ensures next.None? ==> stream.Stuck()
      ensures Cursor(iter, d)
      ensures 2 * depth <= |old(stream.Rest())|
      decreases |stream.Rest()|, 3, 1
    {
      seen := None;
      ghost var s := stream.Rest();
      var key, eof := stream.DecodeTag();
      if key.None? {
        return None, seen, 0;
      }
      if key.value.tag == 0 {
        OneFails(schema, d, s, m, key.value);
        return None, seen, 0;
      }
      next, seen, depth := DecodeValue(stream, d, iter, key.value.tag, key.value.wireType, m);
      RecordHandled(d, s, m, key.value);
      if next.Some? { stream.TookTo(One(schema, d, s, m).value.1); }
    }

    lemma RecordHandled(d: nat, s: seq<byte>, m: Msg, key: Key)
      requires d < |schema| && ReadKey(s) == Some(key) && key.tag != 0
      ensures One(schema, d, s, m) ==
              match Handle(schema, d, key.tag, key.wireType, s[key.size..], m)
              case None => None
              case Some((next, n)) => Some((next, key.size + n))
    {
      var handled := Handle(schema, d, key.tag, key.wireType, s[key.size..], m);
      if handled.Some? {
        OneStep(schema, d, s, m, key, handled.value.0, handled.value.1, key.size + handled.value.1);
      } else {
        OneFails(schema, d, s, m, key);
      }
    }

    ghost predicate Cursor(iter: FieldIter, d: nat)
      reads iter
      requires Valid() && d < |schema|
    {
      iter.Valid() && iter.descriptor == descs[d] && iter.fields == schema[d].fields && iter.widths == widths[d]
    }

    lemma NoExtensions(d: nat)
      requires Valid() && d < |schema|
      ensures forall i :: 0 <= i < |schema[d].fields| ==> schema[d].fields[i].LType() != LTYPE_EXTENSION
    {
      assert CompiledType(descs, schema, widths, d);
    }

    /** A field with the tag is the one that `Find` finds. */
    lemma FoundIsFind(d: nat, i: nat, tag: nat)
      requires Valid() && d < |schema| && i < |schema[d].fields| && schema[d].fields[i].tag == tag
      ensures Find(schema[d].fields, tag) == i
    {
      assert CompiledType(descs, schema, widths, d);
    }

    /** The loop of `pb_decode_inner`: decode records until the stream is empty, marking the
        required fields seen. */
    method DecodeFields(stream: IStream, d: nat, iter: FieldIter, dest: Msg)
      returns (r: Option<Msg>, fieldsSeen: seq<bool>, ghost depth: nat)
      requires Valid() && stream.Valid() && d < |schema| && Cursor(iter, d)
      modifies stream, iter
      ensures |fieldsSeen| == PB_MAX_REQUIRED_FIELDS
      ensures Decode(schema, d, old(stream.Rest()), dest) ==
              if WordsFull(fieldsSeen, RequiredCount(schema[d].fields)) then r else None
      ensures r.Some? ==> stream.Took(|old(stream.Rest())|)
      ensures r.None? ==> stream.Stuck()
      ensures 2 * depth <= |old(stream.Rest())|
      decreases |stream.Rest()|, 4
    {
      ghost var s0, tags := stream.Rest(), {};
      depth := 0;
      var m := dest;
      fieldsSeen := seq(PB_MAX_REQUIRED_FIELDS, _ => false);
      GoingBegins(d, s0, m, fieldsSeen);
      while stream.bytesLeft > 0
        invariant stream.Valid() && stream.End() == old(stream.End()) && old(stream.state) <= stream.state
        invariant Cursor(iter, d) && 2 * depth <= |s0|
        invariant Going(schema, d, s0, dest, stream.Rest(), m, tags, fieldsSeen)
        decreases stream.bytesLeft
      {
        ghost var s := stream.Rest();
        var next, seen;
        ghost var nested;
        next, seen, nested := DecodeRecord(stream, d, iter, m);
        depth := if nested > depth then nested else depth;
        if next.None? {
          GoingFails(schema, d, s0, dest, s, m, tags, fieldsSeen);
          return None, fieldsSeen, depth;
        }
        GoingOn(schema, d, s0, dest, s, m, tags, fieldsSeen);
        tags := tags + {ReadKey(s).value.tag};
        m := next.value;
        if seen.Some? {
          fieldsSeen := fieldsSeen[seen.value := true];
        }
      }
      GoingEnds(schema, d, s0, dest, stream.Rest(), m, tags, fieldsSeen);
      r := Some(m);
    }

    lemma GoingBegins(d: nat, s: seq<byte>, m: Msg, bits: seq<bool>)
      requires Valid() && d < |schema| && bits == seq(PB_MAX_REQUIRED_FIELDS, _ => false)
      ensures Going(schema, d, s, m, s, m, {}, bits)
    {
      assert CompiledType(descs, schema, widths, d);
    }

    /** `pb_decode_inner`: decode fields until the stream is empty, then check that no required
        field is missing. Calls for submessages are nested at most half as deep as the stream is
        long. */
    method DecodeInner(stream: IStream, d: nat, dest: Msg, noInit: bool) returns (r: Option<Msg>, ghost depth: nat)
      requires Valid() && stream.Valid() && d < |schema|
      modifies stream
      ensures r == Decode(schema, d, old(stream.Rest()), if noInit then dest else EMPTY)
      ensures r.Some? ==> stream.Took(|old(stream.Rest())|)
      ensures r.None? ==> stream.Stuck()
      ensures 2 * depth <= |old(stream.Rest())|
      decreases |stream.Rest()|, 5
    {
      var m := if noInit then dest else EMPTY;
      assert CompiledType(descs, schema, widths, d);
      var iter := new FieldIter(descs[d], schema[d].fields, widths[d]);
      var fieldsSeen;
      r, fieldsSeen, depth := DecodeFields(stream, d, iter, m);
      if r.Some? {
        var complete := CheckRequired(fieldsSeen, descs[d].requiredFieldCount);
        if !complete {
          r := None;
        }
      }
    }
  }

  /** Whether all required fields were seen, a word at a time. */
  method CheckRequired(bits: seq<bool>, requiredFieldCount: nat) returns (ok: bool)
    requires |bits| == PB_MAX_REQUIRED_FIELDS
    ensures ok == WordsFull(bits, AtMostMax(requiredFieldCount))
  {
    var reqFieldCount := AtMostMax(requiredFieldCount);
    var i := 0;
    while i < reqFieldCount / 32
      invariant i <= reqFieldCount / 32
      invariant forall k: nat :: k < i ==> bits[32 * k..32 * k + 32] == Ones(32, 32)
    {
      if bits[32 * i..32 * i + 32] != Ones(32, 32) {
        return false;
      }
      i := i + 1;
    }
    if reqFieldCount % 32 != 0 {
      if bits[reqFieldCount / 32 * 32..reqFieldCount / 32 * 32 + 32] != Ones(reqFieldCount % 32, 32) {
        return false;
      }
    }
    return true;
  }

  // ----- the loop of `pb_decode_inner`

  /** The bit of the required field with this tag, if it is one of the first 64. */
  ghost function SeenBit(fields: seq<FieldInfo>, tag: nat): (q: Option<nat>)
    ensures q.Some? ==> q.value < PB_MAX_REQUIRED_FIELDS
  {
    var i := Find(fields, tag);
    if i < |fields| && fields[i].IsRequired() &&
        Required(fields, i) < PB_MAX_REQUIRED_FIELDS then Some(Required(fields, i))
    else None
  }

  /** What remains to be decoded gives the message that the whole gives; the tags of the records
      decoded so far are those of the required fields marked. */
  ghost predicate Going(schema: Schema, d: nat, s0: seq<byte>, m0: Msg, s: seq<byte>, m: Msg, tags: set<nat>,
                        bits: seq<bool>)
    requires d < |schema|
  {
    && Fields(schema, d, s0, m0) == Fields(schema, d, s, m)
    && Tags(s0) == tags + Tags(s)
    && Seen(bits, schema[d].fields, tags)
    && (forall i, j :: 0 <= i < j < |schema[d].fields| ==> schema[d].fields[i].tag < schema[d].fields[j].tag)
  }

  lemma GoingOn(schema: Schema, d: nat, s0: seq<byte>, m0: Msg, s: seq<byte>, m: Msg, tags: set<nat>, bits: seq<bool>)
    requires d < |schema| && Going(schema, d, s0, m0, s, m, tags, bits) && s != [] && One(schema, d, s, m).Some?
    ensures ReadKey(s).Some?
    ensures var (m', n) := One(schema, d, s, m).value;
            var tag := ReadKey(s).value.tag;
            var seen := SeenBit(schema[d].fields, tag);
            |bits| == PB_MAX_REQUIRED_FIELDS &&
            Going(schema, d, s0, m0, s[n..], m', tags + {tag}, if seen.Some? then bits[seen.value := true] else bits)
  {
    var (m', n) := One(schema, d, s, m).value;
    FieldsStep(schema, d, s, m, m', n);
    OneTakesRecord(schema, d, s, m);
    TagsStep(s, ReadRecord(s).value.0, n);
    var fields := schema[d].fields;
    var tag := ReadKey(s).value.tag;
    var i := Find(fields, tag);
    if i < |fields| {
      SeeField(bits, fields, tags, i);
    } else {
      SeeUnknown(bits, fields, tags, tag);
    }
  }

  lemma GoingFails(schema: Schema, d: nat, s0: seq<byte>, m0: Msg, s: seq<byte>, m: Msg, tags: set<nat>,
                   bits: seq<bool>)
    requires d < |schema| && Going(schema, d, s0, m0, s, m, tags, bits) && s != [] && One(schema, d, s, m).None?
    ensures Decode(schema, d, s0, m0).None?
  {
  }

  lemma GoingEnds(schema: Schema, d: nat, s0: seq<byte>, m0: Msg, s: seq<byte>, m: Msg, tags: set<nat>, bits: seq<bool>)
    requires d < |schema| && Going(schema, d, s0, m0, s, m, tags, bits) && s == []
    ensures |bits| == PB_MAX_REQUIRED_FIELDS
    ensures Decode(schema, d, s0, m0) ==
            if WordsFull(bits, RequiredCount(schema[d].fields)) then Some(m) else None
  {
    WordsSayAllRequired(bits, schema[d].fields, tags);
  }
}
