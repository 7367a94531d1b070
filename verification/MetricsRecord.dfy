/** The record of the metrics stream: a union of six submessages, with tags 1 to 6. */
module MetricsRecord {
  import opened Wrappers
  import opened Varint
  import opened Wire
  import opened Message
  import opened UnionLaw

  /** A static member of a union that is a submessage. */
  const UNION_MEMBER: nat := HTYPE_ONEOF * 16 + LTYPE_SUBMESSAGE

  lemma {:induction false} AllAreSubmessages(ty: MsgType, n: nat)
    requires n <= |ty.fields| && forall i :: 0 <= i < |ty.fields| ==> ty.fields[i].fieldType == UNION_MEMBER
    ensures Submessages(ty.fields, n) == n
  {
    if n > 0 { AllAreSubmessages(ty, n - 1); }
  }

  /** Type `d` of the schema is the metrics record, with its union at `slot`. */
  ghost predicate IsRecord(schema: Schema, d: nat, slot: nat) {
    && d < |schema| && |schema[d].fields| == |schema[d].submsgs| == 6
    && (forall i :: 0 <= i < 6 ==> schema[d].fields[i].tag == i + 1 && schema[d].fields[i].fieldType == UNION_MEMBER)
    && (forall i :: 0 <= i < 6 ==> schema[d].fields[i].dataOffset == slot && schema[d].submsgs[i] < |schema|)
  }

  /** It is a union of submessages whose members are the tags 1 to 6. */
  lemma RecordIsUnion(schema: Schema, d: nat, slot: nat)
    requires IsRecord(schema, d, slot)
    ensures UnionOfSubmessages(schema, d, slot)
    ensures forall tag {:trigger Member(schema[d].fields, slot, tag)} ::
              Member(schema[d].fields, slot, tag) <==> 1 <= tag <= 6
  {
    forall i | 0 <= i < 6
      ensures Submessages(schema[d].fields, i) == i
    {
      AllAreSubmessages(schema[d], i);
    }
    forall tag: nat | 1 <= tag <= 6
      ensures Member(schema[d].fields, slot, tag)
    {
      assert schema[d].fields[tag - 1].tag == tag;
    }
  }

  /** A decoded metrics record is the one whose member came last on the wire, record `j` here,
      and its submessage is what the bodies of that member's final run decode to. */
  lemma {:induction false} LastRecordWins(schema: Schema, d: nat, slot: nat, s: seq<byte>, records: seq<Record>, j: nat)
    requires IsRecord(schema, d, slot) && Decode(schema, d, s, EMPTY).Some? && Records(s) == Some(records)
    requires j < |records| && 1 <= records[j].tag <= 6
    requires forall k :: j < k < |records| ==> !(1 <= records[k].tag <= 6)
    ensures UnionOfSubmessages(schema, d, slot)
    ensures var run := FinalRun(schema[d].fields, slot, records);
            run.which == records[j].tag && Holds(schema, d, slot, Decode(schema, d, s, EMPTY).value, run)
  {
    RecordIsUnion(schema, d, slot);
    LastMemberWins(schema, d, slot, s);
    FinalRunIsOfLastMember(schema[d].fields, slot, records, j);
  }
}
