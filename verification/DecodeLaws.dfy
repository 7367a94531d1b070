/** Laws of decoding: every decoder takes exactly one record off the wire, whatever follows;
    decoding is a homomorphism from concatenation; unknown fields change nothing; a union
    ends up with the merged bodies of its last member. */
module DecodeLaws {
  import opened Wrappers
  import opened Varint
  import opened Wire
  import opened Message

  // ----- framing: every decoder consumes one value of its wire type

  lemma ScalarTakesExtent(f: FieldInfo, s: seq<byte>)
    requires Scalar(f, s).Some?
    ensures Extent(WireTypeOf(f), s) == Some(Scalar(f, s).value.1)
  {
  }

  lemma BasicTakesExtent(schema: Schema, d: nat, i: nat, wireType: nat, s: seq<byte>, target: Msg)
    requires d < |schema| && i < |schema[d].fields| && wireType != WT_PACKED
    requires Basic(schema, d, i, wireType, s, target).Some?
    ensures Extent(wireType, s) == Some(Basic(schema, d, i, wireType, s, target).value.1)
  {
    var f := schema[d].fields[i];
    if f.LType() != LTYPE_SUBMESSAGE {
      ScalarTakesExtent(f, s);
    }
  }

  lemma StaticTakesExtent(schema: Schema, d: nat, i: nat, wireType: nat, s: seq<byte>, m: Msg)
    requires d < |schema| && i < |schema[d].fields| && wireType != WT_PACKED
    requires Static(schema, d, i, wireType, s, m).Some?
    ensures Extent(wireType, s) == Some(Static(schema, d, i, wireType, s, m).value.1)
  {
    var f := schema[d].fields[i];
    if f.HType() != HTYPE_REPEATED {
      BasicTakesExtent(schema, d, i, wireType, s, Target(m, f));
    } else if !(wireType == WT_STRING && f.LType() <= LTYPE_LAST_PACKABLE) {
      BasicTakesExtent(schema, d, i, wireType, s, EMPTY);
    }
  }

  /** Decoding one field takes exactly one record off the wire, as skipping it would. */
  lemma OneTakesRecord(schema: Schema, d: nat, s: seq<byte>, m: Msg)
    requires d < |schema| && One(schema, d, s, m).Some?
    ensures ReadRecord(s).Some? && ReadRecord(s).value.1 == One(schema, d, s, m).value.1
    ensures ReadRecord(s).value.0.tag == ReadKey(s).value.tag > 0
  {
    var key := ReadKey(s).value;
    var i := Find(schema[d].fields, key.tag);
    if i < |schema[d].fields| {
      StaticTakesExtent(schema, d, i, key.wireType, s[key.size..], m);
    }
  }

  // ----- stability: what follows a complete value does not change how it is decoded

  lemma DelimitedOfPrefix(s: seq<byte>, t: seq<byte>)
    requires Delimited(s).Some?
    ensures Delimited(s + t) == Delimited(s)
    ensures var (from, to) := Delimited(s).value; (s + t)[from..to] == s[from..to]
  {
    Decode32OfPrefix(s, t);
    var (from, to) := Delimited(s).value;
    SliceOfPrefix(s, t, from, to);
  }

  lemma SliceOfPrefix(s: seq<byte>, t: seq<byte>, from: nat, to: nat)
    requires from <= to <= |s|
    ensures (s + t)[from..to] == s[from..to]
  {
  }

  /** A complete value of the right wire type is decoded, or rejected, whatever follows it. */
  lemma ScalarOfPrefix(f: FieldInfo, s: seq<byte>, t: seq<byte>)
    requires Extent(WireTypeOf(f), s).Some?
    ensures Scalar(f, s + t) == Scalar(f, s)
  {
    if f.LType() == LTYPE_BOOL {
      Decode32OfPrefix(s, t);
    } else if f.LType() <= LTYPE_SVARINT {
      Decode64OfPrefix(s, t);
    } else if f.LType() == LTYPE_FIXED32 {
      assert (s + t)[..4] == s[..4];
    } else if f.LType() == LTYPE_FIXED64 {
      assert (s + t)[..8] == s[..8];
    } else {
      DelimitedOfPrefix(s, t);
    }
  }

  lemma SubmessageOfPrefix(schema: Schema, d: nat, s: seq<byte>, t: seq<byte>, target: Msg)
    requires d < |schema| && Delimited(s).Some?
    ensures Submessage(schema, d, s + t, target) == Submessage(schema, d, s, target)
  {
    DelimitedOfPrefix(s, t);
  }

  lemma BasicOfPrefix(schema: Schema, d: nat, i: nat, wireType: nat, s: seq<byte>, t: seq<byte>, target: Msg)
    requires d < |schema| && i < |schema[d].fields| && wireType != WT_PACKED && Extent(wireType, s).Some?
    ensures Basic(schema, d, i, wireType, s + t, target) == Basic(schema, d, i, wireType, s, target)
  {
    var f := schema[d].fields[i];
    if wireType == WireTypeOf(f) {
      if f.LType() == LTYPE_SUBMESSAGE {
        var k := Submessages(schema[d].fields, i);
        if k < |schema[d].submsgs| && schema[d].submsgs[k] < |schema| {
          SubmessageOfPrefix(schema, schema[d].submsgs[k], s, t, target);
        }
      } else {
        ScalarOfPrefix(f, s, t);
      }
    }
  }

  lemma PackedValueOfPrefix(f: FieldInfo, s: seq<byte>, t: seq<byte>, vs: seq<Value>)
    requires Delimited(s).Some?
    ensures PackedValue(f, s + t, vs) == PackedValue(f, s, vs)
  {
    DelimitedOfPrefix(s, t);
  }

  lemma StaticOfPrefix(schema: Schema, d: nat, i: nat, wireType: nat, s: seq<byte>, t: seq<byte>, m: Msg)
    requires d < |schema| && i < |schema[d].fields| && wireType != WT_PACKED && Extent(wireType, s).Some?
    ensures Static(schema, d, i, wireType, s + t, m) == Static(schema, d, i, wireType, s, m)
  {
    var f := schema[d].fields[i];
    if f.HType() != HTYPE_REPEATED {
      BasicOfPrefix(schema, d, i, wireType, s, t, Target(m, f));
    } else if wireType == WT_STRING && f.LType() <= LTYPE_LAST_PACKABLE {
      PackedValueOfPrefix(f, s, t, Elements(m, f));
    } else {
      BasicOfPrefix(schema, d, i, wireType, s, t, EMPTY);
    }
  }

  lemma HandleOfPrefix(schema: Schema, d: nat, tag: nat, wireType: nat, s: seq<byte>, t: seq<byte>, m: Msg)
    requires d < |schema| && wireType != WT_PACKED && Extent(wireType, s).Some?
    ensures Handle(schema, d, tag, wireType, s + t, m) == Handle(schema, d, tag, wireType, s, m)
  {
    var i := Find(schema[d].fields, tag);
    if i < |schema[d].fields| {
      StaticOfPrefix(schema, d, i, wireType, s, t, m);
    } else {
      ExtentOfPrefix(wireType, s, t);
    }
  }

  lemma OneStep(schema: Schema, d: nat, s: seq<byte>, m: Msg, key: Key, m': Msg, n: nat, total: nat)
    requires d < |schema| && ReadKey(s) == Some(key) && key.tag != 0 && total == key.size + n
    requires Handle(schema, d, key.tag, key.wireType, s[key.size..], m) == Some((m', n))
    ensures One(schema, d, s, m) == Some((m', total))
  {
  }

  lemma OneParts(schema: Schema, d: nat, s: seq<byte>, m: Msg)
    requires d < |schema| && One(schema, d, s, m).Some?
    ensures ReadKey(s).Some? && ReadKey(s).value.tag > 0
    ensures var key := ReadKey(s).value;
            && Handle(schema, d, key.tag, key.wireType, s[key.size..], m).Some?
            && One(schema, d, s, m).value.0 == Handle(schema, d, key.tag, key.wireType, s[key.size..], m).value.0
  {
  }

  lemma RecordParts(u: seq<byte>)
    requires ReadRecord(u).Some?
    ensures ReadKey(u).Some? && Cut(ReadKey(u).value.wireType, u[ReadKey(u).value.size..]).Some?
    ensures ReadRecord(u).value.0.tag == ReadKey(u).value.tag
    ensures ReadRecord(u).value.1 ==
            ReadKey(u).value.size + |Cut(ReadKey(u).value.wireType, u[ReadKey(u).value.size..]).value|
  {
  }

  lemma OneFails(schema: Schema, d: nat, s: seq<byte>, m: Msg, key: Key)
    requires d < |schema| && ReadKey(s) == Some(key)
    requires key.tag == 0 || Handle(schema, d, key.tag, key.wireType, s[key.size..], m).None?
    ensures One(schema, d, s, m).None?
  {
  }

  lemma HandledAlike(schema: Schema, d: nat, s: seq<byte>, t: seq<byte>, m: Msg, key: Key)
    requires d < |schema| && ReadKey(s) == ReadKey(s + t) == Some(key)
    requires Handle(schema, d, key.tag, key.wireType, s[key.size..], m) ==
             Handle(schema, d, key.tag, key.wireType, s[key.size..] + t, m)
    ensures One(schema, d, s + t, m) == One(schema, d, s, m)
  {
    DropFromConcat(s, t, key.size);
    var handled := Handle(schema, d, key.tag, key.wireType, s[key.size..], m);
    if key.tag == 0 || handled.None? {
      OneFails(schema, d, s, m, key);
      OneFails(schema, d, s + t, m, key);
    } else {
      var (m', n) := handled.value;
      OneStep(schema, d, s, m, key, m', n, key.size + n);
      OneStep(schema, d, s + t, m, key, m', n, key.size + n);
    }
  }

  /** One complete record is decoded, or rejected, whatever follows it. */
  lemma OneOfPrefix(schema: Schema, d: nat, s: seq<byte>, t: seq<byte>, m: Msg)
    requires d < |schema| && ReadRecord(s).Some?
    ensures One(schema, d, s + t, m) == One(schema, d, s, m)
  {
    RecordParts(s);
    ReadKeyOfPrefix(s, t);
    var key := ReadKey(s).value;
    HandleOfPrefix(schema, d, key.tag, key.wireType, s[key.size..], t, m);
    HandledAlike(schema, d, s, t, m, key);
  }

  // ----- concatenation

  /** One step of `Fields`. */
  lemma FieldsStep(schema: Schema, d: nat, s: seq<byte>, m: Msg, m': Msg, n: nat)
    requires d < |schema| && s != [] && One(schema, d, s, m) == Some((m', n))
    ensures Fields(schema, d, s, m) == Fields(schema, d, s[n..], m')
  {
  }

  lemma FieldsConcatStep(schema: Schema, d: nat, a: seq<byte>, b: seq<byte>, m: Msg, m': Msg, n: nat)
    requires d < |schema| && a != [] && One(schema, d, a, m) == Some((m', n))
    ensures Fields(schema, d, a, m) == Fields(schema, d, a[n..], m')
    ensures Fields(schema, d, a + b, m) == Fields(schema, d, a[n..] + b, m')
  {
    FieldsStep(schema, d, a, m, m', n);
    OneTakesRecord(schema, d, a, m);
    OneOfPrefix(schema, d, a, b, m);
    FieldsStep(schema, d, a + b, m, m', n);
    DropFromConcat(a, b, n);
  }

  /** Records can be decoded in two goes. */
  lemma {:induction false} FieldsConcat(schema: Schema, d: nat, a: seq<byte>, b: seq<byte>, m: Msg)
    requires d < |schema| && Fields(schema, d, a, m).Some?
    ensures Fields(schema, d, a + b, m) == Fields(schema, d, b, Fields(schema, d, a, m).value)
    decreases |a|
  {
    if a == [] {
      assert a + b == b;
    } else {
      var (m', n) := One(schema, d, a, m).value;
      FieldsConcatStep(schema, d, a, b, m, m', n);
      FieldsConcat(schema, d, a[n..], b, m');
    }
  }

  /** Records that cannot all be decoded cannot be decoded with more records after them. */
  lemma {:induction false} FieldsFail(schema: Schema, d: nat, a: seq<byte>, b: seq<byte>, m: Msg)
    requires d < |schema| && Records(a).Some? && Fields(schema, d, a, m).None?
    ensures Fields(schema, d, a + b, m).None?
    decreases |a|
  {
    OneOfPrefix(schema, d, a, b, m);
    if One(schema, d, a, m).Some? {
      var (m', n) := One(schema, d, a, m).value;
      OneTakesRecord(schema, d, a, m);
      FieldsConcatStep(schema, d, a, b, m, m', n);
      RecordsTail(a);
      FieldsFail(schema, d, a[n..], b, m');
    } else {
      FieldsStop(schema, d, a + b, m);
    }
  }

  lemma FieldsStop(schema: Schema, d: nat, s: seq<byte>, m: Msg)
    requires d < |schema| && s != [] && One(schema, d, s, m).None?
    ensures Fields(schema, d, s, m).None?
  {
  }

  lemma RecordsTail(s: seq<byte>)
    requires s != [] && Records(s).Some?
    ensures ReadRecord(s).Some? && Records(s[ReadRecord(s).value.1..]).Some?
  {
  }

  lemma TagsStep(s: seq<byte>, record: Record, n: nat)
    requires s != [] && ReadRecord(s) == Some((record, n))
    ensures Tags(s) == {record.tag} + Tags(s[n..])
  {
  }

  lemma {:induction false} TagsConcatStep(schema: Schema, d: nat, a: seq<byte>, b: seq<byte>, m: Msg) returns (tag: nat)
    requires d < |schema| && a != [] && One(schema, d, a, m).Some?
    ensures var n := One(schema, d, a, m).value.1;
            Tags(a + b) == {tag} + Tags(a[n..] + b) && Tags(a) == {tag} + Tags(a[n..])
  {
    OneTakesRecord(schema, d, a, m);
    var (record, n) := ReadRecord(a).value;
    TagsStep(a, record, n);
    ReadRecordOfPrefix(a, b);
    TagsStep(a + b, record, n);
    DropFromConcat(a, b, n);
    tag := record.tag;
  }

  lemma {:induction false} TagsConcat(schema: Schema, d: nat, a: seq<byte>, b: seq<byte>, m: Msg)
    requires d < |schema| && Fields(schema, d, a, m).Some?
    ensures Tags(a + b) == Tags(a) + Tags(b)
    decreases |a|
  {
    if a == [] {
      assert a + b == b;
    } else {
      var (m', n) := One(schema, d, a, m).value;
      FieldsStep(schema, d, a, m, m', n);
      var tag := TagsConcatStep(schema, d, a, b, m);
      TagsConcat(schema, d, a[n..], b, m');
    }
  }

  /** Merging: when `a` decodes, decoding `a` followed by `b` is decoding `b` into the result,
      except that `b` need not repeat the required fields. */
  lemma {:induction false} MergeLaw(schema: Schema, d: nat, a: seq<byte>, b: seq<byte>, m: Msg)
    requires d < |schema| && Decode(schema, d, a, m).Some?
    ensures Decode(schema, d, a + b, m) == Fields(schema, d, b, Decode(schema, d, a, m).value)
    ensures Decode(schema, d, b, Decode(schema, d, a, m).value).Some? ==>
              Decode(schema, d, a + b, m) == Decode(schema, d, b, Decode(schema, d, a, m).value)
    ensures Decode(schema, d, a + b, m) == Decode(schema, d, b, Decode(schema, d, a, m).value) <==>
              AllRequired(schema[d].fields, Tags(b)) || Decode(schema, d, a + b, m).None?
  {
    FieldsConcat(schema, d, a, b, m);
    TagsConcat(schema, d, a, b, m);
  }

  ghost predicate NoRequired(fields: seq<FieldInfo>) {
    forall i :: 0 <= i < |fields| ==> !fields[i].IsRequired()
  }

  /** Without required fields the two are always the same. */
  lemma {:induction false} MergeLawWithoutRequired(schema: Schema, d: nat, a: seq<byte>, b: seq<byte>, m: Msg)
    requires d < |schema| && NoRequired(schema[d].fields) && Decode(schema, d, a, m).Some?
    ensures Decode(schema, d, a + b, m) == Decode(schema, d, b, Decode(schema, d, a, m).value)
  {
    MergeLaw(schema, d, a, b, m);
  }

  /** A type with one required field, a bool with tag 1. */
  const ONE_REQUIRED: Schema := [MsgType([FieldInfo(1, LTYPE_BOOL, 0, 1, 0, 1)], [])]

  /** With a required field the two can differ: decoding the empty string into a message that
      has the field fails, though decoding the concatenation does not. */
  lemma MergeMissesRequired() returns (a: seq<byte>, b: seq<byte>)
    ensures Decode(ONE_REQUIRED, 0, a, EMPTY).Some? && Decode(ONE_REQUIRED, 0, a + b, EMPTY).Some?
    ensures Decode(ONE_REQUIRED, 0, b, Decode(ONE_REQUIRED, 0, a, EMPTY).value).None?
  {
    a, b := [8, 1], [];
    assert a + b == a;
    var fields := ONE_REQUIRED[0].fields;
    assert Weight(0) == 1;
    assert Length(a) == 1 && Denoted(a, 0) == 0 && Denoted(a, 1) == 8;
    assert ReadKey(a) == Some(Key(1, WT_VARINT, 1));
    var value := a[1..];
    assert value == [1] && Length(value) == 1 && Denoted(value, 0) == 0 && Denoted(value, 1) == 1;
    assert Required(fields, 0) == 0 && Find(fields, 1) == 0;
    var m := Put(EMPTY, 0, Single(Number(1)));
    assert Scalar(fields[0], value) == Some((Number(1), 1));
    assert Basic(ONE_REQUIRED, 0, 0, WT_VARINT, value, EMPTY) == Some((Number(1), 1));
    assert Static(ONE_REQUIRED, 0, 0, WT_VARINT, value, EMPTY) == Some((m, 1));
    assert Handle(ONE_REQUIRED, 0, 1, WT_VARINT, value, EMPTY) == Some((m, 1));
    OneStep(ONE_REQUIRED, 0, a, EMPTY, Key(1, WT_VARINT, 1), m, 1, 2);
    FieldsStep(ONE_REQUIRED, 0, a, EMPTY, m, 2);
    assert a[2..] == [];
    OneTakesRecord(ONE_REQUIRED, 0, a, EMPTY);
    TagsStep(a, ReadRecord(a).value.0, 2);
    assert AllRequired(fields, Tags(a));
    assert fields[0].IsRequired() && fields[0].tag !in Tags(b);
  }

  // ----- unknown fields

  /** One complete record with a tag that the message type does not have. */
  ghost predicate UnknownRecord(fields: seq<FieldInfo>, u: seq<byte>) {
    && ReadRecord(u).Some? && ReadRecord(u).value.1 == |u|
    && ReadRecord(u).value.0.tag > 0
    && forall i :: 0 <= i < |fields| ==> fields[i].tag != ReadRecord(u).value.0.tag
  }

  lemma NotFound(fields: seq<FieldInfo>, tag: nat)
    requires forall i :: 0 <= i < |fields| ==> fields[i].tag != tag
    ensures Find(fields, tag) == |fields|
  {
  }

  lemma HandleUnknown(schema: Schema, d: nat, tag: nat, wireType: nat, s: seq<byte>, m: Msg)
    requires d < |schema| && Find(schema[d].fields, tag) == |schema[d].fields| && Cut(wireType, s).Some?
    ensures Handle(schema, d, tag, wireType, s, m) == Some((m, |Cut(wireType, s).value|))
  {
  }

  lemma UnknownParts(fields: seq<FieldInfo>, u: seq<byte>)
    requires UnknownRecord(fields, u)
    ensures ReadKey(u).Some? && ReadKey(u).value.tag > 0 && Find(fields, ReadKey(u).value.tag) == |fields|
    ensures var key := ReadKey(u).value;
            Cut(key.wireType, u[key.size..]).Some? && key.size + |Cut(key.wireType, u[key.size..]).value| == |u|
  {
    RecordParts(u);
    NotFound(fields, ReadKey(u).value.tag);
  }

  lemma UnknownIsHandled(schema: Schema, d: nat, u: seq<byte>, m: Msg)
    requires d < |schema| && UnknownRecord(schema[d].fields, u)
    ensures One(schema, d, u, m) == Some((m, |u|))
  {
    UnknownParts(schema[d].fields, u);
    var key := ReadKey(u).value;
    HandleUnknown(schema, d, key.tag, key.wireType, u[key.size..], m);
    OneStep(schema, d, u, m, key, m, |u| - key.size, |u|);
  }

  lemma {:induction false} UnknownIsSkipped(schema: Schema, d: nat, u: seq<byte>, m: Msg)
    requires d < |schema| && UnknownRecord(schema[d].fields, u)
    ensures Fields(schema, d, u, m) == Some(m)
    ensures Tags(u) == {ReadRecord(u).value.0.tag}
  {
    UnknownIsHandled(schema, d, u, m);
    FieldsStep(schema, d, u, m, m, |u|);
    assert u[|u|..] == [];
    TagsStep(u, ReadRecord(u).value.0, |u|);
  }

  /** Forward compatibility: a record of an unknown field, put between two records, changes
      neither the message nor whether decoding succeeds. */
  lemma {:induction false} UnknownFieldChangesNothing(schema: Schema, d: nat, a: seq<byte>, u: seq<byte>,
                                                      b: seq<byte>, m: Msg)
    requires d < |schema| && Records(a).Some? && UnknownRecord(schema[d].fields, u)
    ensures Decode(schema, d, a + u + b, m) == Decode(schema, d, a + b, m)
  {
    if Fields(schema, d, a, m).Some? {
      UnknownAfterDecoded(schema, d, a, u, b, m);
    } else {
      assert a + u + b == a + (u + b);
      FieldsFail(schema, d, a, u + b, m);
      FieldsFail(schema, d, a, b, m);
    }
  }

  lemma {:induction false} UnknownAfterDecoded(schema: Schema, d: nat, a: seq<byte>, u: seq<byte>, b: seq<byte>, m: Msg)
    requires d < |schema| && Fields(schema, d, a, m).Some? && UnknownRecord(schema[d].fields, u)
    ensures Decode(schema, d, a + u + b, m) == Decode(schema, d, a + b, m)
  {
    var m1 := Fields(schema, d, a, m).value;
    UnknownIsSkipped(schema, d, u, m1);
    FieldsConcat(schema, d, a, u, m);
    FieldsConcat(schema, d, a + u, b, m);
    FieldsConcat(schema, d, a, b, m);
    TagsConcat(schema, d, a, u, m);
    TagsConcat(schema, d, a + u, b, m);
    TagsConcat(schema, d, a, b, m);
    assert Tags(a + u + b) == Tags(a + b) + {ReadRecord(u).value.0.tag};
  }
}
