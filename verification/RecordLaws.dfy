/** What a decoded message holds, told from the records on the wire: a singular field has the
    value of its last record, a singular submessage the merged contents of all of them, and a
    repeated field the values of its records in order. */
module RecordLaws {
  import opened Wrappers
  import opened Varint
  import opened Wire
  import opened Message
  import opened DecodeLaws
  import opened UnionLaw

  // ----- decoding is replaying the records

  /** One record decoded into a message, as if it were alone. */
  function Apply(schema: Schema, d: nat, record: Record, m: Msg): Option<Msg>
    requires d < |schema|
  {
    if record.tag == 0 then None
    else
      match Handle(schema, d, record.tag, record.wireType, record.body, m)
      case None => None
      case Some((m', n)) => Some(m')
  }

  function Replay(schema: Schema, d: nat, records: seq<Record>, m: Msg): Option<Msg>
    requires d < |schema|
  {
    if records == [] then Some(m)
    else
      match Apply(schema, d, records[0], m)
      case None => None
      case Some(m') => Replay(schema, d, records[1..], m')
  }

  lemma ExtentOfCut(wireType: nat, s: seq<byte>)
    requires Cut(wireType, s).Some?
    ensures Extent(wireType, Cut(wireType, s).value) == Some(|Cut(wireType, s).value|)
  {
    if wireType == WT_VARINT {
      LengthOfTake(s, Length(s));
    } else if wireType == WT_STRING {
      DelimitedOfTake(s);
    }
  }

  /** What comes first on the wire is decoded as its record alone is. */
  lemma OneIsApply(schema: Schema, d: nat, s: seq<byte>, m: Msg)
    requires d < |schema| && ReadRecord(s).Some?
    ensures var (record, n) := ReadRecord(s).value;
            match One(schema, d, s, m)
            case None => Apply(schema, d, record, m).None?
            case Some((m', k)) => k == n && Apply(schema, d, record, m) == Some(m')
  {
    RecordParts(s);
    var key := ReadKey(s).value;
    var rest := s[key.size..];
    var body := Cut(key.wireType, rest).value;
    ExtentOfCut(key.wireType, rest);
    assert rest == body + rest[|body|..];
    HandleOfPrefix(schema, d, key.tag, key.wireType, body, rest[|body|..], m);
    if One(schema, d, s, m).Some? {
      OneParts(schema, d, s, m);
      OneTakesRecord(schema, d, s, m);
    } else if key.tag != 0 && Handle(schema, d, key.tag, key.wireType, rest, m).Some? {
      var (m', n) := Handle(schema, d, key.tag, key.wireType, rest, m).value;
      OneStep(schema, d, s, m, key, m', n, key.size + n);
    }
  }

  /** Decoding complete records is replaying them, failure included. */
  lemma {:induction false} FieldsAreReplayed(schema: Schema, d: nat, s: seq<byte>, m: Msg)
    requires d < |schema| && Records(s).Some?
    ensures Fields(schema, d, s, m) == Replay(schema, d, Records(s).value, m)
    decreases |s|
  {
    if s != [] {
      RecordsTail(s);
      var (record, n) := ReadRecord(s).value;
      RecordsStep(s, record, n);
      OneIsApply(schema, d, s, m);
      var records := Records(s).value;
      assert records[0] == record && records[1..] == Records(s[n..]).value;
      if One(schema, d, s, m).Some? {
        var m' := One(schema, d, s, m).value.0;
        FieldsStep(schema, d, s, m, m', n);
        FieldsAreReplayed(schema, d, s[n..], m');
      } else {
        FieldsStop(schema, d, s, m);
      }
    }
  }

  /** A string that decodes consists of complete records. */
  lemma {:induction false} DecodedIsRecords(schema: Schema, d: nat, s: seq<byte>, m: Msg)
    requires d < |schema| && Fields(schema, d, s, m).Some?
    ensures Records(s).Some?
    decreases |s|
  {
    if s != [] {
      var (m', n) := One(schema, d, s, m).value;
      OneTakesRecord(schema, d, s, m);
      DecodedIsRecords(schema, d, s[n..], m');
      RecordsStep(s, ReadRecord(s).value.0, n);
    }
  }

  // ----- a field with its own tag and its own slot

  /** No other field has the tag or the slot of field `i`. */
  ghost predicate Own(ty: MsgType, i: nat) {
    && i < |ty.fields| && ty.fields[i].tag > 0
    && forall j :: 0 <= j < |ty.fields| && j != i ==>
         ty.fields[j].tag != ty.fields[i].tag && ty.fields[j].dataOffset != ty.fields[i].dataOffset
  }

  ghost predicate SameSlot(m: Msg, m': Msg, slot: nat) {
    (slot in m.slots <==> slot in m'.slots) && (slot in m.slots ==> m.slots[slot] == m'.slots[slot])
  }

  /** A record with another tag leaves the field alone. */
  lemma OtherRecord(schema: Schema, d: nat, i: nat, record: Record, m: Msg)
    requires d < |schema| && Own(schema[d], i) && record.tag != schema[d].fields[i].tag
    requires Apply(schema, d, record, m).Some?
    ensures SameSlot(m, Apply(schema, d, record, m).value, schema[d].fields[i].dataOffset)
  {
    var j := Find(schema[d].fields, record.tag);
    if j < |schema[d].fields| {
      assert schema[d].fields[j].dataOffset != schema[d].fields[i].dataOffset;
      assert Static(schema, d, j, record.wireType, record.body, m).Some?;
    }
  }

  lemma OwnRecord(schema: Schema, d: nat, i: nat, record: Record, m: Msg)
    requires d < |schema| && Own(schema[d], i) && record.tag == schema[d].fields[i].tag
    requires Apply(schema, d, record, m).Some?
    ensures Static(schema, d, i, record.wireType, record.body, m).Some?
    ensures Apply(schema, d, record, m).value == Static(schema, d, i, record.wireType, record.body, m).value.0
  {
    assert Find(schema[d].fields, record.tag) == i;
  }

  // ----- singular fields

  /** Required or optional: neither repeated nor in a union. */
  predicate IsSingular(f: FieldInfo) {
    f.fieldType / 16 % 4 == 0 || f.fieldType / 16 % 4 == 1
  }

  /** The last of the records with this tag. */
  function LastOf(records: seq<Record>, tag: nat): Option<Record> {
    if records == [] then None
    else if records[|records| - 1].tag == tag then Some(records[|records| - 1])
    else LastOf(records[..|records| - 1], tag)
  }

  lemma {:induction false} LastOfCons(records: seq<Record>, tag: nat)
    requires records != []
    ensures LastOf(records, tag) ==
            if LastOf(records[1..], tag).Some? then LastOf(records[1..], tag)
            else if records[0].tag == tag then Some(records[0]) else None
  {
    var n := |records| - 1;
    if n > 0 {
      assert records[1..][n - 1] == records[n] && records[1..][..n - 1] == records[..n][1..];
      if records[n].tag != tag { LastOfCons(records[..n], tag); }
    }
  }

  /** A scalar field holds the value of its last record, and without one what it held before. */
  ghost predicate HoldsLast(f: FieldInfo, before: Msg, records: seq<Record>, after: Msg) {
    match LastOf(records, f.tag)
    case None => SameSlot(before, after, f.dataOffset)
    case Some(record) =>
      && Scalar(f, record.body).Some? && f.dataOffset in after.slots
      && after.slots[f.dataOffset] == Single(Scalar(f, record.body).value.0)
  }

  lemma {:induction false} LastIsReplayed(schema: Schema, d: nat, i: nat, records: seq<Record>, m: Msg)
    requires d < |schema| && Own(schema[d], i) && Replay(schema, d, records, m).Some?
    requires IsSingular(schema[d].fields[i]) && schema[d].fields[i].fieldType % 16 != 8
    ensures HoldsLast(schema[d].fields[i], m, records, Replay(schema, d, records, m).value)
  {
    if records != [] {
      var f := schema[d].fields[i];
      var m' := Apply(schema, d, records[0], m).value;
      LastIsReplayed(schema, d, i, records[1..], m');
      LastOfCons(records, f.tag);
      if records[0].tag == f.tag {
        OwnRecord(schema, d, i, records[0], m);
      } else {
        OtherRecord(schema, d, i, records[0], m);
      }
    }
  }

  /** Last one wins: a singular scalar field holds the value of its last record on the wire. */
  lemma {:induction false} LastValueWins(schema: Schema, d: nat, i: nat, s: seq<byte>, m: Msg)
    requires d < |schema| && Own(schema[d], i) && Decode(schema, d, s, m).Some?
    requires IsSingular(schema[d].fields[i]) && schema[d].fields[i].fieldType % 16 != 8
    ensures Records(s).Some?
    ensures HoldsLast(schema[d].fields[i], m, Records(s).value, Decode(schema, d, s, m).value)
  {
    DecodedIsRecords(schema, d, s, m);
    FieldsAreReplayed(schema, d, s, m);
    LastIsReplayed(schema, d, i, Records(s).value, m);
  }

  // ----- singular submessages

  /** The contents of all records with this tag, one after the other. */
  function Contents(records: seq<Record>, tag: nat): seq<byte> {
    if records == [] then []
    else (if records[0].tag == tag then Content(records[0]) else []) + Contents(records[1..], tag)
  }

  /** The submessage kept at a slot, or defaults. */
  function Kept(m: Msg, slot: nat): Msg {
    if slot in m.slots && m.slots[slot].Single? && m.slots[slot].v.Sub? then m.slots[slot].v.m else EMPTY
  }

  /** A submessage field holds what all its contents decode to, from what was there before. */
  ghost predicate HoldsMerged(schema: Schema, sub: nat, f: FieldInfo, before: Msg, records: seq<Record>, after: Msg)
    requires sub < |schema|
  {
    if LastOf(records, f.tag).None? then SameSlot(before, after, f.dataOffset)
    else
      && f.dataOffset in after.slots && after.slots[f.dataOffset] == Single(Sub(Kept(after, f.dataOffset)))
      && Decode(schema, sub, Contents(records, f.tag), Kept(before, f.dataOffset)) == Some(Kept(after, f.dataOffset))
  }

  ghost predicate SubmessageOf(schema: Schema, d: nat, i: nat, sub: nat) {
    && d < |schema| && sub < |schema| && i < |schema[d].fields| && schema[d].fields[i].fieldType % 16 == 8
    && Submessages(schema[d].fields, i) < |schema[d].submsgs|
    && schema[d].submsgs[Submessages(schema[d].fields, i)] == sub
  }

  lemma SubmessageRecord(schema: Schema, d: nat, i: nat, sub: nat, record: Record, m: Msg)
    requires SubmessageOf(schema, d, i, sub) && IsSingular(schema[d].fields[i]) && record.wireType != WT_PACKED
    requires Static(schema, d, i, record.wireType, record.body, m).Some?
    ensures var f := schema[d].fields[i];
            var after := Static(schema, d, i, record.wireType, record.body, m).value.0;
            && Decode(schema, sub, Content(record), Kept(m, f.dataOffset)) == Some(Kept(after, f.dataOffset))
            && f.dataOffset in after.slots && after.slots[f.dataOffset] == Single(Sub(Kept(after, f.dataOffset)))
  {
    var f := schema[d].fields[i];
    assert Target(m, f) == Kept(m, f.dataOffset);
    assert Basic(schema, d, i, record.wireType, record.body, Target(m, f)).Some?;
    assert Submessage(schema, sub, record.body, Target(m, f)).Some?;
  }

  lemma {:induction false} NoContents(records: seq<Record>, tag: nat)
    requires LastOf(records, tag).None?
    ensures Contents(records, tag) == []
  {
    if records != [] {
      LastOfCons(records, tag);
      NoContents(records[1..], tag);
    }
  }

  /** The contents of one record more come first. */
  lemma {:induction false} MergedStep(schema: Schema, sub: nat, f: FieldInfo, before: Msg, m: Msg, after: Msg,
                                      records: seq<Record>)
    requires sub < |schema| && records != [] && records[0].tag == f.tag
    requires f.dataOffset in m.slots && m.slots[f.dataOffset] == Single(Sub(Kept(m, f.dataOffset)))
    requires Decode(schema, sub, Content(records[0]), Kept(before, f.dataOffset)) == Some(Kept(m, f.dataOffset))
    requires HoldsMerged(schema, sub, f, m, records[1..], after)
    ensures HoldsMerged(schema, sub, f, before, records, after)
  {
    var a, b := Content(records[0]), Contents(records[1..], f.tag);
    LastOfCons(records, f.tag);
    if LastOf(records[1..], f.tag).None? {
      NoContents(records[1..], f.tag);
      assert a + b == a;
    } else {
      MergeLaw(schema, sub, a, b, Kept(before, f.dataOffset));
    }
  }

  lemma {:induction false} MergedIsReplayed(schema: Schema, d: nat, i: nat, sub: nat, records: seq<Record>, m: Msg)
    requires SubmessageOf(schema, d, i, sub) && Own(schema[d], i) && IsSingular(schema[d].fields[i])
    requires FromWire(records) && Replay(schema, d, records, m).Some?
    ensures HoldsMerged(schema, sub, schema[d].fields[i], m, records, Replay(schema, d, records, m).value)
  {
    if records != [] {
      var f := schema[d].fields[i];
      var m' := Apply(schema, d, records[0], m).value;
      MergedIsReplayed(schema, d, i, sub, records[1..], m');
      LastOfCons(records, f.tag);
      if records[0].tag == f.tag {
        OwnRecord(schema, d, i, records[0], m);
        SubmessageRecord(schema, d, i, sub, records[0], m);
        MergedStep(schema, sub, f, m, m', Replay(schema, d, records, m).value, records);
      } else {
        OtherRecord(schema, d, i, records[0], m);
        MergedSkip(schema, sub, f, m, m', Replay(schema, d, records, m).value, records);
      }
    }
  }

  lemma {:induction false} MergedSkip(schema: Schema, sub: nat, f: FieldInfo, before: Msg, m: Msg, after: Msg,
                                      records: seq<Record>)
    requires sub < |schema| && records != [] && records[0].tag != f.tag && SameSlot(before, m, f.dataOffset)
    requires HoldsMerged(schema, sub, f, m, records[1..], after)
    ensures HoldsMerged(schema, sub, f, before, records, after)
  {
    LastOfCons(records, f.tag);
    assert Kept(before, f.dataOffset) == Kept(m, f.dataOffset);
    assert Contents(records, f.tag) == Contents(records[1..], f.tag);
  }

  /** Wire types that can be read take three bits. */
  ghost predicate FromWire(records: seq<Record>) {
    forall k {:trigger records[k]} :: 0 <= k < |records| ==> records[k].wireType < 8
  }

  lemma {:induction false} RecordsAreFromWire(s: seq<byte>)
    requires Records(s).Some?
    ensures FromWire(Records(s).value)
    decreases |s|
  {
    if s != [] {
      RecordsTail(s);
      var (record, n) := ReadRecord(s).value;
      RecordsStep(s, record, n);
      RecordsAreFromWire(s[n..]);
    }
  }

  /** A singular submessage field holds what the contents of all its records, laid end to end,
      decode to, starting from what was there. */
  lemma {:induction false} SubmessagesMerge(schema: Schema, d: nat, i: nat, sub: nat, s: seq<byte>, m: Msg)
    requires SubmessageOf(schema, d, i, sub) && Own(schema[d], i) && IsSingular(schema[d].fields[i])
    requires Decode(schema, d, s, m).Some?
    ensures Records(s).Some?
    ensures HoldsMerged(schema, sub, schema[d].fields[i], m, Records(s).value, Decode(schema, d, s, m).value)
  {
    DecodedIsRecords(schema, d, s, m);
    FieldsAreReplayed(schema, d, s, m);
    RecordsAreFromWire(s);
    MergedIsReplayed(schema, d, i, sub, Records(s).value, m);
  }

  // ----- repeated fields

  /** The values of a packed run, one after the other. */
  function Run(f: FieldInfo, s: seq<byte>): seq<Value> {
    match Scalar(f, s)
    case None => []
    case Some((v, n)) => [v] + Run(f, s[n..])
  }

  /** The type of a submessage field. */
  function SubmessageType(schema: Schema, d: nat, i: nat): (sub: Option<nat>)
    requires d < |schema| && i < |schema[d].fields|
    ensures sub.Some? ==> sub.value < |schema|
  {
    var k := Submessages(schema[d].fields, i);
    if k < |schema[d].submsgs| && schema[d].submsgs[k] < |schema| then Some(schema[d].submsgs[k]) else None
  }

  /** The values one record gives a repeated field: a packed run of numbers, a submessage
      decoded from defaults, or a single value. */
  function RecordValues(schema: Schema, d: nat, i: nat, record: Record): seq<Value>
    requires d < |schema| && i < |schema[d].fields|
  {
    var f := schema[d].fields[i];
    if record.wireType == 2 && f.fieldType % 16 <= 5 then Run(f, Content(record))
    else if f.fieldType % 16 == 8 then
      if SubmessageType(schema, d, i).None? then []
      else
        match Decode(schema, SubmessageType(schema, d, i).value, Content(record), EMPTY)
        case None => []
        case Some(m) => [Sub(m)]
    else
      match Scalar(f, record.body)
      case None => []
      case Some((v, n)) => [v]
  }

  /** The values of all records of field `i`, in the order of the wire. */
  function Values(schema: Schema, d: nat, i: nat, records: seq<Record>): seq<Value>
    requires d < |schema| && i < |schema[d].fields|
  {
    if records == [] then []
    else
      (if records[0].tag == schema[d].fields[i].tag then RecordValues(schema, d, i, records[0]) else []) +
      Values(schema, d, i, records[1..])
  }

  predicate IsRepeated(f: FieldInfo) {
    f.fieldType / 16 % 4 == 2
  }

  lemma {:induction false} PackedIsRun(f: FieldInfo, s: seq<byte>, vs: seq<Value>)
    requires Packed(f, s, vs).Some? && |vs| <= f.arraySize
    ensures Packed(f, s, vs).value == vs + Run(f, s) && |Packed(f, s, vs).value| <= f.arraySize
    decreases |s|
  {
    if s != [] {
      var (v, n) := Scalar(f, s).value;
      PackedIsRun(f, s[n..], vs + [v]);
      assert vs + [v] + Run(f, s[n..]) == vs + Run(f, s);
    } else {
      assert Scalar(f, s).None? by { EmptyHasNoScalar(f); }
    }
  }

  lemma EmptyHasNoScalar(f: FieldInfo)
    ensures Scalar(f, []).None?
  {
  }

  /** The array at a slot holds `vs`; with no elements it may be absent. */
  ghost predicate HoldsArray(m: Msg, f: FieldInfo, vs: seq<Value>) {
    Elements(m, f) == vs && |vs| <= f.arraySize
  }

  lemma RepeatedRecord(schema: Schema, d: nat, i: nat, record: Record, m: Msg, vs: seq<Value>)
    requires d < |schema| && i < |schema[d].fields| && IsRepeated(schema[d].fields[i]) && record.wireType < 8
    requires Static(schema, d, i, record.wireType, record.body, m).Some? && HoldsArray(m, schema[d].fields[i], vs)
    ensures var f := schema[d].fields[i];
            var after := Static(schema, d, i, record.wireType, record.body, m).value.0;
            && HoldsArray(after, f, vs + RecordValues(schema, d, i, record))
            && f.dataOffset in after.slots && after.slots[f.dataOffset].Array?
  {
    var f := schema[d].fields[i];
    if record.wireType == WT_STRING && f.LType() <= LTYPE_LAST_PACKABLE {
      assert PackedValue(f, record.body, vs).Some?;
      PackedIsRun(f, Content(record), vs);
    } else {
      assert Basic(schema, d, i, record.wireType, record.body, EMPTY).Some?;
      if f.LType() == LTYPE_SUBMESSAGE {
        assert Submessage(schema, SubmessageType(schema, d, i).value, record.body, EMPTY).Some?;
      }
    }
  }

  /** The records have added their values to the `vs` that were there. */
  ghost predicate Grown(schema: Schema, d: nat, i: nat, m: Msg, vs: seq<Value>, records: seq<Record>, after: Msg)
    requires d < |schema| && i < |schema[d].fields|
  {
    var f := schema[d].fields[i];
    && HoldsArray(after, f, vs + Values(schema, d, i, records))
    && if LastOf(records, f.tag).None? then SameSlot(m, after, f.dataOffset)
       else f.dataOffset in after.slots && after.slots[f.dataOffset].Array?
  }

  lemma {:induction false} GrownByRecord(schema: Schema, d: nat, i: nat, m: Msg, m': Msg, vs: seq<Value>,
                                         records: seq<Record>, after: Msg)
    requires d < |schema| && i < |schema[d].fields| && records != [] && records[0].tag == schema[d].fields[i].tag
    requires schema[d].fields[i].dataOffset in m'.slots && m'.slots[schema[d].fields[i].dataOffset].Array?
    requires Grown(schema, d, i, m', vs + RecordValues(schema, d, i, records[0]), records[1..], after)
    ensures Grown(schema, d, i, m, vs, records, after)
  {
    var first, rest := RecordValues(schema, d, i, records[0]), Values(schema, d, i, records[1..]);
    assert vs + first + rest == vs + (first + rest);
    assert Values(schema, d, i, records) == first + rest;
    LastOfCons(records, schema[d].fields[i].tag);
  }

  lemma {:induction false} GrownByOther(schema: Schema, d: nat, i: nat, m: Msg, m': Msg, vs: seq<Value>,
                                        records: seq<Record>, after: Msg)
    requires d < |schema| && i < |schema[d].fields| && records != [] && records[0].tag != schema[d].fields[i].tag
    requires SameSlot(m, m', schema[d].fields[i].dataOffset) && Grown(schema, d, i, m', vs, records[1..], after)
    ensures Grown(schema, d, i, m, vs, records, after)
  {
    var rest := Values(schema, d, i, records[1..]);
    assert Values(schema, d, i, records) == [] + rest == rest;
    LastOfCons(records, schema[d].fields[i].tag);
  }

  lemma {:induction false} ValuesAreReplayed(schema: Schema, d: nat, i: nat, records: seq<Record>, m: Msg,
                                             vs: seq<Value>)
    requires d < |schema| && Own(schema[d], i) && IsRepeated(schema[d].fields[i])
    requires FromWire(records) && Replay(schema, d, records, m).Some? && HoldsArray(m, schema[d].fields[i], vs)
    ensures Grown(schema, d, i, m, vs, records, Replay(schema, d, records, m).value)
  {
    if records == [] {
      assert vs + Values(schema, d, i, records) == vs;
    } else {
      var m' := Apply(schema, d, records[0], m).value;
      var after := Replay(schema, d, records, m).value;
      assert Replay(schema, d, records[1..], m') == Some(after);
      if records[0].tag == schema[d].fields[i].tag {
        OwnRecord(schema, d, i, records[0], m);
        RepeatedRecord(schema, d, i, records[0], m, vs);
        ValuesAreReplayed(schema, d, i, records[1..], m', vs + RecordValues(schema, d, i, records[0]));
        GrownByRecord(schema, d, i, m, m', vs, records, after);
      } else {
        OtherRecord(schema, d, i, records[0], m);
        OtherArray(m, m', schema[d].fields[i], vs);
        ValuesAreReplayed(schema, d, i, records[1..], m', vs);
        GrownByOther(schema, d, i, m, m', vs, records, after);
      }
    }
  }

  lemma OtherArray(m: Msg, m': Msg, f: FieldInfo, vs: seq<Value>)
    requires HoldsArray(m, f, vs) && SameSlot(m, m', f.dataOffset)
    ensures HoldsArray(m', f, vs)
  {
  }

  /** A repeated field holds the values of its records in the order of the wire, packed runs
      flattened, and never more than there is room for. */
  lemma {:induction false} RepeatedInOrder(schema: Schema, d: nat, i: nat, s: seq<byte>)
    requires d < |schema| && Own(schema[d], i) && IsRepeated(schema[d].fields[i]) && Decode(schema, d, s, EMPTY).Some?
    ensures Records(s).Some?
    ensures var f := schema[d].fields[i];
            var after := Decode(schema, d, s, EMPTY).value;
            if LastOf(Records(s).value, f.tag).None? then f.dataOffset !in after.slots
            else
              && f.dataOffset in after.slots && |Values(schema, d, i, Records(s).value)| <= f.arraySize
              && after.slots[f.dataOffset] == Array(Values(schema, d, i, Records(s).value))
  {
    DecodedIsRecords(schema, d, s, EMPTY);
    FieldsAreReplayed(schema, d, s, EMPTY);
    RecordsAreFromWire(s);
    ValuesAreReplayed(schema, d, i, Records(s).value, EMPTY, []);
    assert [] + Values(schema, d, i, Records(s).value) == Values(schema, d, i, Records(s).value);
  }

  // ----- unions

  /** The last record of any member of the union at `slot`. */
  function LastMember(fields: seq<FieldInfo>, slot: nat, records: seq<Record>): Option<Record> {
    if records == [] then None
    else if LastMember(fields, slot, records[1..]).Some? then LastMember(fields, slot, records[1..])
    else if Member(fields, slot, records[0].tag) then Some(records[0])
    else None
  }

  lemma {:induction false} MemberIsReplayed(schema: Schema, d: nat, slot: nat, records: seq<Record>, m: Msg)
    requires d < |schema| && Replay(schema, d, records, m).Some?
    requires forall j :: 0 <= j < |schema[d].fields| && schema[d].fields[j].dataOffset == slot ==>
               schema[d].fields[j].fieldType / 16 % 4 == 3
    ensures HoldsMember(schema[d].fields, slot, m, records, Replay(schema, d, records, m).value)
  {
    if records != [] {
      var m' := Apply(schema, d, records[0], m).value;
      MemberIsReplayed(schema, d, slot, records[1..], m');
      MemberRecord(schema, d, slot, records[0], m);
    }
  }

  /** A union names the member written last; if that is no submessage, it holds its value. */
  ghost predicate HoldsMember(fields: seq<FieldInfo>, slot: nat, before: Msg, records: seq<Record>, after: Msg) {
    match LastMember(fields, slot, records)
    case None => SameSlot(before, after, slot)
    case Some(record) => HoldsUnion(fields, slot, record, after)
  }

  ghost predicate HoldsUnion(fields: seq<FieldInfo>, slot: nat, record: Record, after: Msg) {
    && Member(fields, slot, record.tag) && slot in after.slots && after.slots[slot].Union?
    && after.slots[slot].which == record.tag
    && var f := fields[Find(fields, record.tag)];
    f.fieldType % 16 != 8 ==> Scalar(f, record.body).Some? && after.slots[slot].u == Scalar(f, record.body).value.0
  }

  lemma MemberRecord(schema: Schema, d: nat, slot: nat, record: Record, m: Msg)
    requires d < |schema| && Apply(schema, d, record, m).Some?
    requires forall j :: 0 <= j < |schema[d].fields| && schema[d].fields[j].dataOffset == slot ==>
               schema[d].fields[j].fieldType / 16 % 4 == 3
    ensures var after := Apply(schema, d, record, m).value;
            if Member(schema[d].fields, slot, record.tag) then HoldsUnion(schema[d].fields, slot, record, after)
            else SameSlot(m, after, slot)
  {
    var i := Find(schema[d].fields, record.tag);
    if i < |schema[d].fields| {
      assert Static(schema, d, i, record.wireType, record.body, m).Some?;
    }
  }

  lemma {:induction false} UnionNamesLast(schema: Schema, d: nat, slot: nat, s: seq<byte>, m: Msg)
    requires d < |schema| && Decode(schema, d, s, m).Some?
    requires forall j :: 0 <= j < |schema[d].fields| && schema[d].fields[j].dataOffset == slot ==>
               schema[d].fields[j].fieldType / 16 % 4 == 3
    ensures Records(s).Some?
    ensures HoldsMember(schema[d].fields, slot, m, Records(s).value, Decode(schema, d, s, m).value)
  {
    DecodedIsRecords(schema, d, s, m);
    FieldsAreReplayed(schema, d, s, m);
    MemberIsReplayed(schema, d, slot, Records(s).value, m);
  }

  // ----- required fields

  function TagsOf(records: seq<Record>): set<nat> {
    if records == [] then {} else {records[0].tag} + TagsOf(records[1..])
  }

  lemma {:induction false} TagIn(records: seq<Record>, tag: nat)
    ensures tag in TagsOf(records) <==> exists k :: 0 <= k < |records| && records[k].tag == tag
  {
    if records != [] {
      TagIn(records[1..], tag);
      if tag in TagsOf(records[1..]) {
        var k :| 0 <= k < |records| - 1 && records[1..][k].tag == tag;
        assert records[k + 1].tag == tag;
      }
      if k :| 0 <= k < |records| && records[k].tag == tag {
        assert k > 0 ==> records[1..][k - 1].tag == tag;
      }
    }
  }

  /** The tags of a string of records are those of the records. */
  lemma {:induction false} TagsAreOfRecords(s: seq<byte>)
    requires Records(s).Some?
    ensures Tags(s) == TagsOf(Records(s).value)
    decreases |s|
  {
    if s != [] {
      RecordsTail(s);
      var (record, n) := ReadRecord(s).value;
      RecordsStep(s, record, n);
      TagsStep(s, record, n);
      TagsAreOfRecords(s[n..]);
      assert ([record] + Records(s[n..]).value)[1..] == Records(s[n..]).value;
    }
  }

  /** The field is among the required fields that are checked, the first 64. */
  predicate Checked(fields: seq<FieldInfo>, i: nat) {
    i < |fields| && fields[i].fieldType / 16 % 4 == 0 && Required(fields, i) < 64
  }

  ghost predicate Occurs(records: seq<Record>, tag: nat) {
    exists k :: 0 <= k < |records| && records[k].tag == tag
  }

  /** A string whose records decode is accepted if and only if every required field that is
      checked occurs on the wire. */
  lemma {:induction false} RequiredOccur(schema: Schema, d: nat, s: seq<byte>, m: Msg)
    requires d < |schema| && Fields(schema, d, s, m).Some?
    ensures Records(s).Some?
    ensures Decode(schema, d, s, m).Some? <==>
              forall i: nat :: Checked(schema[d].fields, i) ==> Occurs(Records(s).value, schema[d].fields[i].tag)
  {
    var fields := schema[d].fields;
    DecodedIsRecords(schema, d, s, m);
    TagsAreOfRecords(s);
    forall i: nat | Checked(fields, i)
      ensures fields[i].tag in Tags(s) <==> Occurs(Records(s).value, fields[i].tag)
    {
      TagIn(Records(s).value, fields[i].tag);
    }
    assert forall i: nat :: i < |fields| ==>
             (Checked(fields, i) <==> fields[i].IsRequired() && Required(fields, i) < PB_MAX_REQUIRED_FIELDS);
  }
}
