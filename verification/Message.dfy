/** Message types and messages, and the meaning of decoding: functions from bytes to messages
    that say what the decoder must compute. Messages are sparse: a slot that is absent holds
    its default. */
module Message {
  import opened Wrappers
  import opened Varint
  import opened Wire

  // ----- field descriptions

  const LTYPE_BOOL: nat := 0
  const LTYPE_VARINT: nat := 1
  const LTYPE_UVARINT: nat := 2
  const LTYPE_SVARINT: nat := 3
  const LTYPE_FIXED32: nat := 4
  const LTYPE_FIXED64: nat := 5
  const LTYPE_LAST_PACKABLE: nat := 5
  const LTYPE_BYTES: nat := 6
  const LTYPE_STRING: nat := 7
  const LTYPE_SUBMESSAGE: nat := 8
  const LTYPE_SUBMSG_W_CB: nat := 9
  const LTYPE_EXTENSION: nat := 10
  const LTYPE_FIXED_LENGTH_BYTES: nat := 11

  const HTYPE_REQUIRED: nat := 0
  const HTYPE_OPTIONAL: nat := 1
  const HTYPE_REPEATED: nat := 2
  const HTYPE_ONEOF: nat := 3

  const PB_SIZE_MAX: nat := 0xFFFF
  const PB_MAX_REQUIRED_FIELDS: nat := 64

  /** One field: `fieldType` packs the data type (bits 0-3), the repetition rule (bits 4-5)
      and the allocation type (bits 6-7). */
  datatype FieldInfo = FieldInfo(tag: nat, fieldType: nat, dataOffset: nat, dataSize: nat,
                                 sizeOffset: int, arraySize: nat) {
    function LType(): nat { fieldType % 16 }
    function HType(): nat { fieldType / 16 % 4 }
    function AType(): nat { fieldType / 64 }

    predicate IsSubmessage() { IsSubmessageType(fieldType) }
    predicate IsRequired() { IsRequiredType(fieldType) }
  }

  predicate IsSubmessageType(t: nat) {
    t % 16 == LTYPE_SUBMESSAGE || t % 16 == LTYPE_SUBMSG_W_CB
  }

  predicate IsRequiredType(t: nat) {
    t / 16 % 4 == HTYPE_REQUIRED
  }

  /** The fields of a message type in tag order, and the types of its submessage fields. */
  datatype MsgType = MsgType(fields: seq<FieldInfo>, submsgs: seq<nat>)

  type Schema = seq<MsgType>

  /** Submessage fields, and required fields, among the first `n`. */
  function Submessages(fields: seq<FieldInfo>, n: nat): (k: nat)
    requires n <= |fields|
    ensures k <= n
  {
    if n == 0 then 0 else Submessages(fields, n - 1) + (if fields[n - 1].IsSubmessage() then 1 else 0)
  }

  function Required(fields: seq<FieldInfo>, n: nat): (k: nat)
    requires n <= |fields|
    ensures k <= n
  {
    if n == 0 then 0 else Required(fields, n - 1) + (if fields[n - 1].IsRequired() then 1 else 0)
  }

  /** The field with this tag, or the number of fields. */
  function Find(fields: seq<FieldInfo>, tag: nat): (i: nat)
    ensures i <= |fields|
    ensures i < |fields| ==> fields[i].tag == tag
    ensures forall j :: 0 <= j < i ==> fields[j].tag != tag
  {
    if fields == [] || fields[0].tag == tag then 0 else 1 + Find(fields[1..], tag)
  }

  // ----- messages

  datatype Value = Number(n: int) | Blob(bytes: seq<byte>) | Sub(m: Msg)

  /** What a field occupies: a value, a counted array, or a union with the tag of its member. */
  datatype Slot = Single(v: Value) | Array(vs: seq<Value>) | Union(which: nat, u: Value)

  datatype Msg = Msg(slots: map<nat, Slot>)

  const EMPTY: Msg := Msg(map[])

  function Put(m: Msg, slot: nat, s: Slot): Msg {
    Msg(m.slots[slot := s])
  }

  /** The submessage a field decodes into: what is there already for a plain field or the same
      member of a union, and defaults for a new array element or another member. */
  function Target(m: Msg, f: FieldInfo): Msg {
    if f.dataOffset !in m.slots || f.HType() == HTYPE_REPEATED then EMPTY
    else
      match m.slots[f.dataOffset]
      case Single(Sub(sub)) => if f.HType() == HTYPE_ONEOF then EMPTY else sub
      case Union(which, Sub(sub)) => if f.HType() == HTYPE_ONEOF && which == f.tag then sub else EMPTY
      case _ => EMPTY
  }

  /** The elements of a repeated field so far. */
  function Elements(m: Msg, f: FieldInfo): seq<Value> {
    if f.dataOffset in m.slots && m.slots[f.dataOffset].Array? then m.slots[f.dataOffset].vs else []
  }

  // ----- scalar values

  /** 2 to the power of the bits in `size` bytes, for the sizes an integer can have. */
  function Range(size: nat): nat {
    if size == 8 then TWO_64
    else if size == 4 then TWO_32
    else if size == 2 then 0x1_0000
    else if size == 1 then 0x100
    else 0
  }

  predicate FitsUnsigned(v: nat, size: nat) {
    v < Range(size)
  }

  predicate FitsSigned(v: int, size: nat) {
    var range: int := Range(size);
    -range <= 2 * v < range
  }

  /** A 64-bit pattern, or its low 32 bits, as a signed number. */
  function AsInt64(v: nat): int {
    if v < 0x8000_0000_0000_0000 then v else v - TWO_64
  }

  function AsInt32(v: nat): int {
    if v % TWO_32 < TWO_31 then v % TWO_32 else v % TWO_32 - TWO_32
  }

  function ZigZag(v: nat): int {
    if v % 2 == 1 then -(v / 2) - 1 else v / 2
  }

  function LittleEndian(s: seq<byte>): nat {
    if s == [] then 0 else s[0] + 256 * LittleEndian(s[1..])
  }

  /** What a signed field is sent: a zigzag number, or one of 64 bits, of which smaller fields
      take the low 32 first. */
  function Signed(f: FieldInfo, v: nat): int {
    if f.LType() == LTYPE_SVARINT then ZigZag(v) else if f.dataSize == 8 then AsInt64(v) else AsInt32(v)
  }

  /** The value of a varint field: rejected when it does not fit the field's size. */
  function Integer(f: FieldInfo, v: nat): Option<Value> {
    if f.LType() == LTYPE_UVARINT then
      if FitsUnsigned(v, f.dataSize) then Some(Number(v)) else None
    else if FitsSigned(Signed(f, v), f.dataSize) then Some(Number(Signed(f, v))) else None
  }

  /** Whether a length-prefixed value of this size fits the field. */
  predicate SizeFits(f: FieldInfo, size: nat) {
    if f.LType() == LTYPE_BYTES then size <= PB_SIZE_MAX && size + 2 <= f.dataSize
    else if f.LType() == LTYPE_STRING then size + 1 <= f.dataSize && size != TWO_32 - 1
    else size <= PB_SIZE_MAX && (size == 0 || size == f.dataSize)
  }

  function Zeros(n: nat): seq<byte> {
    seq(n, _ => 0)
  }

  /** The wire type a field's data type is written with. */
  function WireTypeOf(f: FieldInfo): nat {
    if f.LType() <= LTYPE_SVARINT then WT_VARINT
    else if f.LType() == LTYPE_FIXED32 then WT_32BIT
    else if f.LType() == LTYPE_FIXED64 then WT_64BIT
    else WT_STRING
  }

  /** A length-prefixed value; an empty one of fixed length stands for zeros. */
  function Bytes(f: FieldInfo, s: seq<byte>): (r: Option<(Value, nat)>)
    ensures r.Some? ==> Delimited(s).Some? && r.value.1 == Delimited(s).value.1
  {
    match Delimited(s)
    case None => None
    case Some((from, to)) =>
      if !SizeFits(f, to - from) then None
      else if f.LType() == LTYPE_FIXED_LENGTH_BYTES && to == from then Some((Blob(Zeros(f.dataSize)), to))
      else Some((Blob(s[from..to]), to))
  }

  /** A value other than a submessage at the start of `s`, with its length. */
  function Scalar(f: FieldInfo, s: seq<byte>): (r: Option<(Value, nat)>)
    ensures r.Some? ==> 0 < r.value.1 <= |s|
  {
    if f.LType() == LTYPE_BOOL then
      match Decode32(s)
      case None => None
      case Some((v, n)) => Some((Number(if v != 0 then 1 else 0), n))
    else if f.LType() <= LTYPE_SVARINT then
      match Decode64(s)
      case None => None
      case Some((v, n)) =>
        match Integer(f, v)
        case None => None
        case Some(x) => Some((x, n))
    else if f.LType() == LTYPE_FIXED32 then
      if |s| >= 4 then Some((Number(LittleEndian(s[..4])), 4)) else None
    else if f.LType() == LTYPE_FIXED64 then
      if |s| >= 8 then Some((Number(LittleEndian(s[..8])), 8)) else None
    else if f.LType() == LTYPE_BYTES || f.LType() == LTYPE_STRING || f.LType() == LTYPE_FIXED_LENGTH_BYTES then
      Bytes(f, s)
    else None
  }

  // ----- fields and messages

  /** A length-delimited message at the start of `s`, decoded into `target`. */
  function Submessage(schema: Schema, d: nat, s: seq<byte>, target: Msg): (r: Option<(Msg, nat)>)
    requires d < |schema|
    ensures r.Some? ==> 0 < r.value.1 <= |s|
    decreases |s|, 0
  {
    match Delimited(s)
    case None => None
    case Some((from, to)) =>
      match Decode(schema, d, s[from..to], target)
      case None => None
      case Some(m) => Some((m, to))
  }

  /** A value of field `i` of type `d`, decoded into `target` if it is a submessage. */
  function Basic(schema: Schema, d: nat, i: nat, wireType: nat, s: seq<byte>, target: Msg): (r: Option<(Value, nat)>)
    requires d < |schema| && i < |schema[d].fields|
    ensures r.Some? ==> 0 < r.value.1 <= |s|
    decreases |s|, 1
  {
    var f := schema[d].fields[i];
    var packed := wireType == WT_PACKED && f.LType() <= LTYPE_LAST_PACKABLE;
    if wireType != WireTypeOf(f) && !packed then None
    else if f.LType() == LTYPE_SUBMESSAGE then
      var k := Submessages(schema[d].fields, i);
      if k >= |schema[d].submsgs| || schema[d].submsgs[k] >= |schema| then None
      else
        match Submessage(schema, schema[d].submsgs[k], s, target)
        case None => None
        case Some((m, n)) => Some((Sub(m), n))
    else Scalar(f, s)
  }

  /** The elements of a packed array, appended to those already there. */
  function Packed(f: FieldInfo, s: seq<byte>, vs: seq<Value>): (r: Option<seq<Value>>)
    decreases |s|
  {
    if s == [] then Some(vs)
    else if |vs| >= f.arraySize then None
    else
      match Scalar(f, s)
      case None => None
      case Some((v, n)) => Packed(f, s[n..], vs + [v])
  }

  /** A packed array at the start of `s`: all its elements in one length-delimited value. */
  function PackedValue(f: FieldInfo, s: seq<byte>, vs: seq<Value>): (r: Option<(seq<Value>, nat)>)
    ensures r.Some? ==> 0 < r.value.1 <= |s|
  {
    match Delimited(s)
    case None => None
    case Some((from, to)) =>
      match Packed(f, s[from..to], vs)
      case None => None
      case Some(all) => Some((all, to))
  }

  /** The value of field `i` of type `d` stored into `m`. */
  function Static(schema: Schema, d: nat, i: nat, wireType: nat, s: seq<byte>, m: Msg): (r: Option<(Msg, nat)>)
    requires d < |schema| && i < |schema[d].fields|
    ensures r.Some? ==> 0 < r.value.1 <= |s|
    decreases |s|, 2
  {
    var f := schema[d].fields[i];
    if f.HType() == HTYPE_REPEATED then
      var vs := Elements(m, f);
      if wireType == WT_STRING && f.LType() <= LTYPE_LAST_PACKABLE then
        match PackedValue(f, s, vs)
        case None => None
        case Some((all, n)) => Some((Put(m, f.dataOffset, Array(all)), n))
      else if |vs| >= f.arraySize then None
      else
        match Basic(schema, d, i, wireType, s, EMPTY)
        case None => None
        case Some((v, n)) => Some((Put(m, f.dataOffset, Array(vs + [v])), n))
    else
      match Basic(schema, d, i, wireType, s, Target(m, f))
      case None => None
      case Some((v, n)) =>
        Some((Put(m, f.dataOffset, if f.HType() == HTYPE_ONEOF then Union(f.tag, v) else Single(v)), n))
  }

  /** The value after a key: that of a known field is stored, an unknown one is skipped. */
  function Handle(schema: Schema, d: nat, tag: nat, wireType: nat, s: seq<byte>, m: Msg): (r: Option<(Msg, nat)>)
    requires d < |schema|
    ensures r.Some? ==> r.value.1 <= |s|
    decreases |s|, 3
  {
    var i := Find(schema[d].fields, tag);
    if i < |schema[d].fields| then Static(schema, d, i, wireType, s, m)
    else
      match Extent(wireType, s)
      case None => None
      case Some(n) => Some((m, n))
  }

  /** One record at the start of `s`. */
  function One(schema: Schema, d: nat, s: seq<byte>, m: Msg): (r: Option<(Msg, nat)>)
    requires d < |schema|
    ensures r.Some? ==> 0 < r.value.1 <= |s|
    decreases |s|, 4
  {
    match ReadKey(s)
    case None => None
    case Some(key) =>
      if key.tag == 0 then None
      else
        match Handle(schema, d, key.tag, key.wireType, s[key.size..], m)
        case None => None
        case Some((m', n)) => Some((m', key.size + n))
  }

  /** All records of `s`, one after the other. */
  function Fields(schema: Schema, d: nat, s: seq<byte>, m: Msg): (r: Option<Msg>)
    requires d < |schema|
    decreases |s|, 5
  {
    if s == [] then Some(m)
    else
      match One(schema, d, s, m)
      case None => None
      case Some((m', n)) => Fields(schema, d, s[n..], m')
  }

  /** The tags of the records of `s`, as far as they can be read. */
  function Tags(s: seq<byte>): set<nat>
    decreases |s|
  {
    if s == [] then {}
    else
      match ReadRecord(s)
      case None => {}
      case Some((record, n)) => {record.tag} + Tags(s[n..])
  }

  /** Whether the first 64 required fields are all among the tags. */
  predicate AllRequired(fields: seq<FieldInfo>, tags: set<nat>) {
    forall i :: 0 <= i < |fields| && fields[i].IsRequired() && Required(fields, i) < PB_MAX_REQUIRED_FIELDS ==>
      fields[i].tag in tags
  }

  /** Decode `s` into `m`: every record is decoded and no required field is missing. */
  function Decode(schema: Schema, d: nat, s: seq<byte>, m: Msg): Option<Msg>
    requires d < |schema|
    decreases |s|, 6
  {
    if AllRequired(schema[d].fields, Tags(s)) then Fields(schema, d, s, m) else None
  }
}
