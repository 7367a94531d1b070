/** How deep a decoded message is nested: even for types that contain themselves, at most half
    as deep as the input is long, because every level costs a key and a length. */
module NestingLaw {
  import opened Wrappers
  import opened Varint
  import opened Wire
  import opened Message

  /** Submessages are nested at most `depth` deep. */
  ghost predicate Shallow(m: Msg, depth: nat)
    decreases depth, 2
  {
    forall k {:trigger m.slots[k]} :: k in m.slots ==> ShallowSlot(m.slots[k], depth)
  }

  ghost predicate ShallowSlot(s: Slot, depth: nat)
    decreases depth, 1
  {
    match s
    case Single(v) => ShallowValue(v, depth)
    case Array(vs) => forall i {:trigger vs[i]} :: 0 <= i < |vs| ==> ShallowValue(vs[i], depth)
    case Union(which, u) => ShallowValue(u, depth)
  }

  ghost predicate ShallowValue(v: Value, depth: nat)
    decreases depth, 0
  {
    v.Sub? ==> depth > 0 && Shallow(v.m, depth - 1)
  }

  /** The submessage decoded into is a level less deep. */
  lemma TargetShallow(m: Msg, f: FieldInfo, depth: nat)
    requires Shallow(m, depth) && depth > 0
    ensures Shallow(Target(m, f), depth - 1)
  {
    if f.dataOffset in m.slots { assert ShallowSlot(m.slots[f.dataOffset], depth); }
  }

  lemma ElementsShallow(m: Msg, f: FieldInfo, depth: nat)
    requires Shallow(m, depth)
    ensures ShallowSlot(Array(Elements(m, f)), depth)
  {
    if f.dataOffset in m.slots { assert ShallowSlot(m.slots[f.dataOffset], depth); }
  }

  lemma PutShallow(m: Msg, slot: nat, s: Slot, depth: nat)
    requires Shallow(m, depth) && ShallowSlot(s, depth)
    ensures Shallow(Put(m, slot, s), depth)
  {
    var m' := Put(m, slot, s);
    forall k | k in m'.slots
      ensures ShallowSlot(m'.slots[k], depth)
    {
      if k != slot { assert m'.slots[k] == m.slots[k]; }
    }
  }

  /** No scalar is a submessage. */
  lemma ScalarShallow(f: FieldInfo, s: seq<byte>, depth: nat)
    requires Scalar(f, s).Some?
    ensures ShallowValue(Scalar(f, s).value.0, depth)
  {
  }

  lemma {:induction false} PackedShallow(f: FieldInfo, s: seq<byte>, vs: seq<Value>, depth: nat)
    requires Packed(f, s, vs).Some? && ShallowSlot(Array(vs), depth)
    ensures ShallowSlot(Array(Packed(f, s, vs).value), depth)
    decreases |s|
  {
    if s != [] {
      var (v, n) := Scalar(f, s).value;
      ScalarShallow(f, s, depth);
      PackedShallow(f, s[n..], vs + [v], depth);
    }
  }

  lemma {:induction false} SubmessageShallow(schema: Schema, d: nat, s: seq<byte>, target: Msg, depth: nat)
    requires d < |schema| && Submessage(schema, d, s, target).Some? && |s| <= 2 * depth + 2
    requires Shallow(target, depth)
    ensures Shallow(Submessage(schema, d, s, target).value.0, depth)
    decreases |s|, 0
  {
    var (from, to) := Delimited(s).value;
    DecodeShallow(schema, d, s[from..to], target, depth);
  }

  lemma BasicIsSubmessage(schema: Schema, d: nat, i: nat, wireType: nat, s: seq<byte>, target: Msg) returns (sub: nat)
    requires d < |schema| && i < |schema[d].fields| && schema[d].fields[i].LType() == LTYPE_SUBMESSAGE
    requires Basic(schema, d, i, wireType, s, target).Some?
    ensures sub < |schema| && Submessage(schema, sub, s, target).Some?
    ensures Basic(schema, d, i, wireType, s, target).value.0 == Sub(Submessage(schema, sub, s, target).value.0)
  {
    sub := schema[d].submsgs[Submessages(schema[d].fields, i)];
  }

  lemma {:induction false} BasicShallow(schema: Schema, d: nat, i: nat, wireType: nat, s: seq<byte>, target: Msg,
                                        depth: nat)
    requires d < |schema| && i < |schema[d].fields| && Basic(schema, d, i, wireType, s, target).Some?
    requires depth > 0 && |s| <= 2 * depth && Shallow(target, depth - 1)
    ensures ShallowValue(Basic(schema, d, i, wireType, s, target).value.0, depth)
    decreases |s|, 1
  {
    var f := schema[d].fields[i];
    if f.LType() == LTYPE_SUBMESSAGE {
      var sub := BasicIsSubmessage(schema, d, i, wireType, s, target);
      SubmessageShallow(schema, sub, s, target, depth - 1);
    } else {
      ScalarShallow(f, s, depth);
    }
  }

  lemma {:induction false} StaticShallow(schema: Schema, d: nat, i: nat, wireType: nat, s: seq<byte>, m: Msg,
                                         depth: nat)
    requires d < |schema| && i < |schema[d].fields| && Static(schema, d, i, wireType, s, m).Some?
    requires depth > 0 && |s| <= 2 * depth && Shallow(m, depth)
    ensures Shallow(Static(schema, d, i, wireType, s, m).value.0, depth)
    decreases |s|, 2
  {
    var f := schema[d].fields[i];
    if f.HType() == HTYPE_REPEATED {
      var vs := Elements(m, f);
      ElementsShallow(m, f, depth);
      if wireType == WT_STRING && f.LType() <= LTYPE_LAST_PACKABLE {
        var (from, to) := Delimited(s).value;
        PackedShallow(f, s[from..to], vs, depth);
        PutShallow(m, f.dataOffset, Array(Packed(f, s[from..to], vs).value), depth);
      } else {
        BasicShallow(schema, d, i, wireType, s, EMPTY, depth);
        PutShallow(m, f.dataOffset, Array(vs + [Basic(schema, d, i, wireType, s, EMPTY).value.0]), depth);
      }
    } else {
      TargetShallow(m, f, depth);
      BasicShallow(schema, d, i, wireType, s, Target(m, f), depth);
      var v := Basic(schema, d, i, wireType, s, Target(m, f)).value.0;
      PutShallow(m, f.dataOffset, if f.HType() == HTYPE_ONEOF then Union(f.tag, v) else Single(v), depth);
    }
  }

  lemma {:induction false} OneShallow(schema: Schema, d: nat, s: seq<byte>, m: Msg, depth: nat)
    requires d < |schema| && One(schema, d, s, m).Some? && |s| <= 2 * depth + 1 && Shallow(m, depth)
    ensures Shallow(One(schema, d, s, m).value.0, depth)
    decreases |s|, 3
  {
    var key := ReadKey(s).value;
    var i := Find(schema[d].fields, key.tag);
    if i < |schema[d].fields| {
      StaticShallow(schema, d, i, key.wireType, s[key.size..], m, depth);
    }
  }

  lemma {:induction false} FieldsShallow(schema: Schema, d: nat, s: seq<byte>, m: Msg, depth: nat)
    requires d < |schema| && Fields(schema, d, s, m).Some? && |s| <= 2 * depth + 1 && Shallow(m, depth)
    ensures Shallow(Fields(schema, d, s, m).value, depth)
    decreases |s|, 4
  {
    if s != [] {
      var (m', n) := One(schema, d, s, m).value;
      OneShallow(schema, d, s, m, depth);
      FieldsShallow(schema, d, s[n..], m', depth);
    }
  }

  /** Decoding nests no deeper than half the length of the input, or than the message decoded
      into was. */
  lemma {:induction false} DecodeShallow(schema: Schema, d: nat, s: seq<byte>, m: Msg, depth: nat)
    requires d < |schema| && Decode(schema, d, s, m).Some? && |s| <= 2 * depth + 1 && Shallow(m, depth)
    ensures Shallow(Decode(schema, d, s, m).value, depth)
    decreases |s|, 5
  {
    FieldsShallow(schema, d, s, m, depth);
  }

  /** From defaults: at most half the length of the input. */
  lemma NestingIsBounded(schema: Schema, d: nat, s: seq<byte>)
    requires d < |schema| && Decode(schema, d, s, EMPTY).Some?
    ensures Shallow(Decode(schema, d, s, EMPTY).value, |s| / 2)
  {
    DecodeShallow(schema, d, s, EMPTY, |s| / 2);
  }
}
