/** What a union of submessages holds after decoding: the member written last, with the bodies
    of its final run of records merged. */
module UnionLaw {
  import opened Wrappers
  import opened Varint
  import opened Wire
  import opened Message
  import opened DecodeLaws

  /** The tag names a member of the union kept at `slot`. */
  predicate Member(fields: seq<FieldInfo>, slot: nat, tag: nat) {
    tag > 0 && Find(fields, tag) < |fields| && fields[Find(fields, tag)].dataOffset == slot
  }

  /** The message type of a member. */
  function MemberType(ty: MsgType, tag: nat): nat
    requires Find(ty.fields, tag) < |ty.fields|
    requires Submessages(ty.fields, Find(ty.fields, tag)) < |ty.submsgs|
  {
    ty.submsgs[Submessages(ty.fields, Find(ty.fields, tag))]
  }

  /** Everything kept at `slot` is a submessage of one union. */
  ghost predicate UnionOfSubmessages(schema: Schema, d: nat, slot: nat) {
    && d < |schema|
    && forall i :: 0 <= i < |schema[d].fields| && schema[d].fields[i].dataOffset == slot ==>
         && schema[d].fields[i].HType() == HTYPE_ONEOF && schema[d].fields[i].LType() == LTYPE_SUBMESSAGE
         && Submessages(schema[d].fields, i) < |schema[d].submsgs|
         && schema[d].submsgs[Submessages(schema[d].fields, i)] < |schema|
  }

  /** The bytes of a length-delimited value without its length prefix. */
  function Content(record: Record): seq<byte> {
    match Delimited(record.body)
    case None => []
    case Some((from, to)) => record.body[from..to]
  }

  /** The last member among the records (0 when there is none), and the contents of its final
      run: of the records of that member that no other member's record follows. */
  datatype Run = Run(which: nat, content: seq<byte>)

  function FinalRun(fields: seq<FieldInfo>, slot: nat, records: seq<Record>): Run {
    if records == [] then Run(0, [])
    else
      var last := records[|records| - 1];
      var before := FinalRun(fields, slot, records[..|records| - 1]);
      if !Member(fields, slot, last.tag) then before
      else if before.which == last.tag then Run(last.tag, before.content + Content(last))
      else Run(last.tag, Content(last))
  }

  /** The union holds the run: its member, decoded from defaults. */
  ghost predicate Holds(schema: Schema, d: nat, slot: nat, m: Msg, run: Run)
    requires UnionOfSubmessages(schema, d, slot)
  {
    if run.which == 0 then slot !in m.slots
    else
      && Member(schema[d].fields, slot, run.which)
      && slot in m.slots
      && exists sub :: m.slots[slot] == Union(run.which, Sub(sub)) &&
                       Decode(schema, MemberType(schema[d], run.which), run.content, EMPTY) == Some(sub)
  }

  /** Cutting a delimited value off the wire keeps its content. */
  lemma ContentOfCut(tag: nat, s: seq<byte>)
    requires Delimited(s).Some?
    ensures Cut(WT_STRING, s).Some?
    ensures Content(Record(tag, WT_STRING, Cut(WT_STRING, s).value)) == s[Delimited(s).value.0..Delimited(s).value.1]
  {
    DelimitedOfTake(s);
  }

  lemma FinalRunSnoc(fields: seq<FieldInfo>, slot: nat, records: seq<Record>, record: Record)
    ensures var before := FinalRun(fields, slot, records);
            FinalRun(fields, slot, records + [record]) ==
            if !Member(fields, slot, record.tag) then before
            else if before.which == record.tag then Run(record.tag, before.content + Content(record))
            else Run(record.tag, Content(record))
  {
    var all := records + [record];
    assert all[..|all| - 1] == records;
  }

  /** A record of another field leaves the union alone. */
  lemma OthersKeepSlot(schema: Schema, d: nat, slot: nat, tag: nat, wireType: nat, s: seq<byte>, m: Msg)
    requires d < |schema| && tag > 0 && !Member(schema[d].fields, slot, tag)
    requires Handle(schema, d, tag, wireType, s, m).Some?
    ensures var m' := Handle(schema, d, tag, wireType, s, m).value.0;
            (slot in m'.slots <==> slot in m.slots) && (slot in m.slots ==> m'.slots[slot] == m.slots[slot])
  {
  }

  /** A member's value is decoded as a submessage into the target and stored. */
  lemma MemberHandled(schema: Schema, d: nat, slot: nat, tag: nat, wireType: nat, s: seq<byte>, m: Msg)
    requires UnionOfSubmessages(schema, d, slot) && Member(schema[d].fields, slot, tag)
    requires Handle(schema, d, tag, wireType, s, m).Some? && wireType != WT_PACKED
    ensures wireType == WT_STRING && Delimited(s).Some?
    ensures var (from, to) := Delimited(s).value;
            var target := Target(m, schema[d].fields[Find(schema[d].fields, tag)]);
            && Decode(schema, MemberType(schema[d], tag), s[from..to], target).Some?
            && Handle(schema, d, tag, wireType, s, m).value.0 ==
               Put(m, slot, Union(tag, Sub(Decode(schema, MemberType(schema[d], tag), s[from..to], target).value)))
  {
    var i := Find(schema[d].fields, tag);
    var f := schema[d].fields[i];
    assert Static(schema, d, i, wireType, s, m).Some?;
    assert Basic(schema, d, i, wireType, s, Target(m, f)).Some?;
    assert Submessage(schema, MemberType(schema[d], tag), s, Target(m, f)).Some?;
  }

  /** A member continues where its run left off; another member starts from defaults. */
  lemma MemberTarget(schema: Schema, d: nat, slot: nat, tag: nat, m: Msg, run: Run)
    requires UnionOfSubmessages(schema, d, slot) && Member(schema[d].fields, slot, tag) &&
             Holds(schema, d, slot, m, run)
    ensures var target := Target(m, schema[d].fields[Find(schema[d].fields, tag)]);
            if run.which == tag then Decode(schema, MemberType(schema[d], tag), run.content, EMPTY) == Some(target)
            else target == EMPTY
  {
  }

  /** Decoding the content of one more record continues the run or starts a new one. */
  lemma {:induction false} RunGrows(schema: Schema, d: nat, slot: nat, tag: nat, m: Msg, run: Run, content: seq<byte>,
                                    sub: Msg)
    requires UnionOfSubmessages(schema, d, slot) && Member(schema[d].fields, slot, tag) &&
             Holds(schema, d, slot, m, run)
    requires Decode(schema, MemberType(schema[d], tag), content,
                    Target(m, schema[d].fields[Find(schema[d].fields, tag)])) == Some(sub)
    ensures Holds(schema, d, slot, Put(m, slot, Union(tag, Sub(sub))),
                  Run(tag, if run.which == tag then run.content + content else content))
  {
    MemberTarget(schema, d, slot, tag, m, run);
    if run.which == tag {
      MergeLaw(schema, MemberType(schema[d], tag), run.content, content, EMPTY);
    }
  }

  lemma MemberStep(schema: Schema, d: nat, slot: nat, tag: nat, wireType: nat, s: seq<byte>, m: Msg,
                   records: seq<Record>)
    requires UnionOfSubmessages(schema, d, slot) && Member(schema[d].fields, slot, tag)
    requires Handle(schema, d, tag, wireType, s, m).Some? && Cut(wireType, s).Some? && wireType != WT_PACKED
    requires Holds(schema, d, slot, m, FinalRun(schema[d].fields, slot, records))
    ensures Holds(schema, d, slot, Handle(schema, d, tag, wireType, s, m).value.0,
                  FinalRun(schema[d].fields, slot, records + [Record(tag, wireType, Cut(wireType, s).value)]))
  {
    MemberHandled(schema, d, slot, tag, wireType, s, m);
    ContentOfCut(tag, s);
    FinalRunSnoc(schema[d].fields, slot, records, Record(tag, wireType, Cut(wireType, s).value));
    var (from, to) := Delimited(s).value;
    var target := Target(m, schema[d].fields[Find(schema[d].fields, tag)]);
    RunGrows(schema, d, slot, tag, m, FinalRun(schema[d].fields, slot, records), s[from..to],
             Decode(schema, MemberType(schema[d], tag), s[from..to], target).value);
  }

  /** The next record of the wire extends the run. */
  lemma UnionStep(schema: Schema, d: nat, slot: nat, tag: nat, wireType: nat, s: seq<byte>, m: Msg,
                  records: seq<Record>)
    requires UnionOfSubmessages(schema, d, slot) && tag > 0
    requires Handle(schema, d, tag, wireType, s, m).Some? && Cut(wireType, s).Some? && wireType != WT_PACKED
    requires Holds(schema, d, slot, m, FinalRun(schema[d].fields, slot, records))
    ensures Holds(schema, d, slot, Handle(schema, d, tag, wireType, s, m).value.0,
                  FinalRun(schema[d].fields, slot, records + [Record(tag, wireType, Cut(wireType, s).value)]))
  {
    if Member(schema[d].fields, slot, tag) {
      MemberStep(schema, d, slot, tag, wireType, s, m, records);
    } else {
      FinalRunSnoc(schema[d].fields, slot, records, Record(tag, wireType, Cut(wireType, s).value));
      OthersKeepSlot(schema, d, slot, tag, wireType, s, m);
    }
  }

  lemma UnionRecord(schema: Schema, d: nat, slot: nat, s: seq<byte>, m: Msg, records: seq<Record>)
    requires UnionOfSubmessages(schema, d, slot) && One(schema, d, s, m).Some? && ReadRecord(s).Some?
    requires Holds(schema, d, slot, m, FinalRun(schema[d].fields, slot, records))
    ensures Holds(schema, d, slot, One(schema, d, s, m).value.0,
                  FinalRun(schema[d].fields, slot, records + [ReadRecord(s).value.0]))
  {
    OneParts(schema, d, s, m);
    RecordParts(s);
    var key := ReadKey(s).value;
    UnionStep(schema, d, slot, key.tag, key.wireType, s[key.size..], m, records);
  }

  lemma UnionAfterStep(schema: Schema, d: nat, slot: nat, s: seq<byte>, m: Msg, records: seq<Record>)
    returns (m': Msg, record: Record, n: nat)
    requires UnionOfSubmessages(schema, d, slot) && s != [] && Fields(schema, d, s, m).Some?
    requires Holds(schema, d, slot, m, FinalRun(schema[d].fields, slot, records))
    ensures 0 < n <= |s| && ReadRecord(s) == Some((record, n))
    ensures Fields(schema, d, s, m) == Fields(schema, d, s[n..], m')
    ensures Holds(schema, d, slot, m', FinalRun(schema[d].fields, slot, records + [record]))
  {
    OneTakesRecord(schema, d, s, m);
    m', n := One(schema, d, s, m).value.0, One(schema, d, s, m).value.1;
    record := ReadRecord(s).value.0;
    FieldsStep(schema, d, s, m, m', n);
    UnionRecord(schema, d, slot, s, m, records);
  }

  lemma RecordsExtend(records: seq<Record>, s: seq<byte>, record: Record, n: nat)
    requires s != [] && ReadRecord(s) == Some((record, n)) && Records(s[n..]).Some?
    ensures Records(s).Some? && records + Records(s).value == records + [record] + Records(s[n..]).value
  {
    RecordsStep(s, record, n);
  }

  /** After the records of `s`, the union holds the final run of the records so far. */
  lemma {:induction false} UnionAfter(schema: Schema, d: nat, slot: nat, s: seq<byte>, m: Msg, records: seq<Record>)
    requires UnionOfSubmessages(schema, d, slot) && Fields(schema, d, s, m).Some?
    requires Holds(schema, d, slot, m, FinalRun(schema[d].fields, slot, records))
    ensures Records(s).Some?
    ensures Holds(schema, d, slot, Fields(schema, d, s, m).value,
                  FinalRun(schema[d].fields, slot, records + Records(s).value))
    decreases |s|
  {
    if s == [] {
      assert records + [] == records;
    } else {
      var m', record, n := UnionAfterStep(schema, d, slot, s, m, records);
      UnionAfter(schema, d, slot, s[n..], m', records + [record]);
      RecordsExtend(records, s, record, n);
    }
  }

  /** Last one wins: a decoded union is the member whose record came last, and its submessage
      is what decoding the contents of the final run of that member's records yields, as if
      they had been one. */
  lemma {:induction false} LastMemberWins(schema: Schema, d: nat, slot: nat, s: seq<byte>)
    requires UnionOfSubmessages(schema, d, slot) && Decode(schema, d, s, EMPTY).Some?
    ensures Records(s).Some?
    ensures Holds(schema, d, slot, Decode(schema, d, s, EMPTY).value,
                  FinalRun(schema[d].fields, slot, Records(s).value))
  {
    UnionAfter(schema, d, slot, s, EMPTY, []);
    assert [] + Records(s).value == Records(s).value;
  }

  /** The run names the last record of any member. */
  lemma {:induction false} FinalRunIsOfLastMember(fields: seq<FieldInfo>, slot: nat, records: seq<Record>, j: nat)
    requires j < |records| && Member(fields, slot, records[j].tag)
    requires forall k :: j < k < |records| ==> !Member(fields, slot, records[k].tag)
    ensures FinalRun(fields, slot, records).which == records[j].tag
    decreases |records|
  {
    var n := |records| - 1;
    if j < n {
      FinalRunIsOfLastMember(fields, slot, records[..n], j);
    }
  }
}
