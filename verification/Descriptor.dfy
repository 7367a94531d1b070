/** Packed message descriptors: every field takes 1, 2, 4 or 8 words, and a cursor walks them.
    Shifts and masks on disjoint bit ranges are written as multiplication, remainder and
    addition. */
module Descriptor {
  import opened Message

  const W16: nat := 0x1_0000
  const W28: nat := 0x1000_0000

  // ----- packing one field

  /** The first word of every format, with what is particular to the format in its high half. */
  function First(f: FieldInfo, width: nat, high: nat): nat {
    width + f.tag % 64 * 4 + f.fieldType * 0x100 + high * W16
  }

  function Words1(f: FieldInfo): (ws: seq<nat>)
    ensures |ws| == 1
  {
    [First(f, 0, f.dataOffset % 256 + f.sizeOffset % 16 * 0x100 + f.dataSize % 16 * 0x1000)]
  }

  function Words2(f: FieldInfo): (ws: seq<nat>)
    ensures |ws| == 2
  {
    [First(f, 1, f.arraySize % 4096 + f.sizeOffset % 16 * 0x1000),
     f.dataOffset % W16 + f.dataSize % 4096 * W16 + f.tag / 64 % 16 * W28]
  }

  function Words4(f: FieldInfo): (ws: seq<nat>)
    ensures |ws| == 4
  {
    [First(f, 2, f.arraySize % W16), f.sizeOffset % 256 + f.tag / 64 * 0x100, f.dataOffset, f.dataSize]
  }

  function Words8(f: FieldInfo): (ws: seq<nat>)
    ensures |ws| == 8
  {
    [First(f, 3, 0), f.sizeOffset % 256 + f.tag / 64 * 0x100, f.dataOffset, f.dataSize, f.arraySize, 0, 0, 0]
  }

  /** The words of a field in the format of 2 to the power `width` words. */
  function Words(f: FieldInfo, width: nat): (ws: seq<nat>)
    requires Fits(f, width)
    ensures |ws| == Size(width)
  {
    if width == 0 then Words1(f) else if width == 1 then Words2(f) else if width == 2 then Words4(f) else Words8(f)
  }

  function Size(width: nat): (n: nat)
    ensures n > 0
  {
    if width == 0 then 1 else if width == 1 then 2 else if width == 2 then 4 else 8
  }

  /** The ranges asserted at compile time for each format. In the two wide formats the size
      offset is cast to 8 bits before it is checked. */
  predicate Fits(f: FieldInfo, width: nat) {
    && f.fieldType < 256 && width < 4
    && if width == 0 then
         f.tag < 64 && f.dataOffset < 256 && 0 <= f.sizeOffset < 16 && f.dataSize < 16 && f.arraySize < 2
       else if width == 1 then
         f.tag < 1024 && f.dataOffset < W16 && 0 <= f.sizeOffset < 16 && f.dataSize < 4096 && f.arraySize < 4096
       else
         f.tag < W16 && f.dataOffset < W16 && f.sizeOffset % 256 < 128 && f.dataSize < W16 && f.arraySize < W16
  }

  function Signed8(x: nat): int {
    if x < 128 then x else x - 256
  }

  /** What `load_descriptor_values` reads in each format. */
  function Load1(word0: nat): FieldInfo {
    FieldInfo(word0 / 4 % 64, word0 / 0x100 % 256, word0 / W16 % 256, word0 / W28 % 16, word0 / 0x100_0000 % 16, 1)
  }

  function Load2(word0: nat, word1: nat): FieldInfo {
    FieldInfo(word0 / 4 % 64 + word1 / W28 * 64, word0 / 0x100 % 256, word1 % W16, word1 / W16 % 4096,
              word0 / W28 % 16, word0 / W16 % 4096)
  }

  function Load4(word0: nat, word1: nat, word2: nat, word3: nat, arraySize: nat): FieldInfo {
    FieldInfo((word0 / 4 % 64 + word1 / 0x100 * 64) % W16, word0 / 0x100 % 256, word2, word3 % W16,
              Signed8(word1 % 256), arraySize % W16)
  }

  /** The field that starts at word `at`. */
  function Unpack(ws: seq<nat>, at: nat): FieldInfo
    requires at < |ws| && at + Size(ws[at] % 4) <= |ws|
  {
    var width := ws[at] % 4;
    if width == 0 then Load1(ws[at])
    else if width == 1 then Load2(ws[at], ws[at + 1])
    else if width == 2 then Load4(ws[at], ws[at + 1], ws[at + 2], ws[at + 3], ws[at] / W16)
    else Load4(ws[at], ws[at + 1], ws[at + 2], ws[at + 3], ws[at + 4])
  }

  // ----- reading digits off a word

  lemma TimesAtLeast(d: int, k: int)
    requires k > 0
    ensures d >= 1 ==> d * k >= k
    ensures d <= -1 ==> d * k <= -k
  {
    if d >= 1 { assert (d - 1) * k >= 0; }
    if d <= -1 { assert (-1 - d) * k >= 0; }
  }

  /** Low digits below `k` can be split off. */
  lemma Split(x: nat, k: nat, r: nat)
    requires x < k
    ensures (x + r * k) / k == r && (x + r * k) % k == x
  {
    var a := x + r * k;
    var q, m := a / k, a % k;
    assert a == q * k + m;
    assert (q - r) * k == x - m;
    TimesAtLeast(q - r, k);
  }

  lemma Digit(w: nat, x: nat, k: nat, r: nat)
    requires x < k && w == x + r * k
    ensures w / k == r && w % k == x
  {
    Split(x, k, r);
  }

  /** A field of bits in the middle of a word: `x` below it, `y` in it, `z` above it. */
  lemma Middle(w: nat, x: nat, k: nat, y: nat, n: nat, z: nat)
    requires x < k && y < n && w == x + (y + z * n) * k
    ensures w / k % n == y
  {
    Split(x, k, y + z * n);
    Split(y, n, z);
  }

  /** The first word of every format: width, low tag bits, type, and `high` above them. */
  lemma FirstWord(width: nat, tag: nat, fieldType: nat, high: nat, w: nat)
    requires width < 4 && tag < 64 && fieldType < 256
    requires w == width + tag * 4 + fieldType * 0x100 + high * W16
    ensures w % 4 == width && w / 4 % 64 == tag && w / 0x100 % 256 == fieldType && w / W16 == high
  {
    Digit(w, width, 4, tag + 64 * (fieldType + 256 * high));
    Middle(w, width, 4, tag, 64, fieldType + 256 * high);
    Middle(w, width + tag * 4, 0x100, fieldType, 256, high);
    Digit(w, width + tag * 4 + fieldType * 0x100, W16, high);
  }

  /** The high half of a first word in the one-word format. */
  lemma HighOfOne(w: nat, below: nat, offset: nat, size: nat, data: nat)
    requires below < W16 && offset < 256 && size < 16 && data < 16
    requires w == below + (offset + size * 0x100 + data * 0x1000) * W16
    ensures w / W16 % 256 == offset && w / 0x100_0000 % 16 == size && w / W28 % 16 == data
  {
    Middle(w, below, W16, offset, 256, size + data * 16);
    Middle(w, below + offset * W16, 0x100_0000, size, 16, data);
    Middle(w, below + offset * W16 + size * 0x100_0000, W28, data, 16, 0);
  }

  /** The high half of a first word in the two-word format. */
  lemma HighOfTwo(w: nat, below: nat, count: nat, size: nat)
    requires below < W16 && count < 4096 && size < 16
    requires w == below + (count + size * 0x1000) * W16
    ensures w / W16 % 4096 == count && w / W28 % 16 == size
  {
    Middle(w, below, W16, count, 4096, size);
    Middle(w, below + count * W16, W28, size, 16, 0);
  }

  lemma {:induction false} PackedInOne(f: FieldInfo)
    requires Fits(f, 0)
    ensures Load1(Words1(f)[0]) == f.(arraySize := 1)
  {
    var w := Words1(f)[0];
    FirstWord(0, f.tag, f.fieldType, f.dataOffset + f.sizeOffset * 0x100 + f.dataSize * 0x1000, w);
    HighOfOne(w, f.tag * 4 + f.fieldType * 0x100, f.dataOffset, f.sizeOffset, f.dataSize);
  }

  lemma {:induction false} PackedInTwo(f: FieldInfo)
    requires Fits(f, 1)
    ensures Load2(Words2(f)[0], Words2(f)[1]) == f
  {
    var w := Words2(f)[0];
    FirstWord(1, f.tag % 64, f.fieldType, f.arraySize + f.sizeOffset * 0x1000, w);
    HighOfTwo(w, 1 + f.tag % 64 * 4 + f.fieldType * 0x100, f.arraySize, f.sizeOffset);
    SecondOfTwo(f);
  }

  lemma SecondOfTwo(f: FieldInfo)
    requires Fits(f, 1)
    ensures var w := Words2(f)[1];
            w % W16 == f.dataOffset && w / W16 % 4096 == f.dataSize && w / W28 == f.tag / 64
  {
    var w := Words2(f)[1];
    assert w == f.dataOffset + f.dataSize * W16 + f.tag / 64 * W28;
    Digit(w, f.dataOffset, W16, f.dataSize + f.tag / 64 * 4096);
    Middle(w, f.dataOffset, W16, f.dataSize, 4096, f.tag / 64);
    Digit(w, f.dataOffset + f.dataSize * W16, W28, f.tag / 64);
  }

  lemma {:induction false} PackedInMore(f: FieldInfo)
    requires Fits(f, 2)
    ensures Load4(Words4(f)[0], Words4(f)[1], f.dataOffset, f.dataSize, Words4(f)[0] / W16) ==
            f.(sizeOffset := f.sizeOffset % 256)
    ensures Load4(Words8(f)[0], Words8(f)[1], f.dataOffset, f.dataSize, f.arraySize) ==
            f.(sizeOffset := f.sizeOffset % 256)
  {
    FirstWord(2, f.tag % 64, f.fieldType, f.arraySize, Words4(f)[0]);
    FirstWord(3, f.tag % 64, f.fieldType, 0, Words8(f)[0]);
    Digit(Words4(f)[1], f.sizeOffset % 256, 0x100, f.tag / 64);
  }

  /** Every format tells its width, the low bits of the tag and the type in its first word. */
  lemma PackedHead(f: FieldInfo, width: nat)
    requires Fits(f, width)
    ensures Words(f, width)[0] % 4 == width
    ensures Words(f, width)[0] / 4 % 64 == f.tag % 64
    ensures Words(f, width)[0] / 0x100 % 256 == f.fieldType
  {
    FirstWord(width, f.tag % 64, f.fieldType,
              if width == 0 then f.dataOffset % 256 + f.sizeOffset % 16 * 0x100 + f.dataSize % 16 * 0x1000
              else if width == 1 then f.arraySize % 4096 + f.sizeOffset % 16 * 0x1000
              else if width == 2 then f.arraySize % W16 else 0, Words(f, width)[0]);
  }

  /** What is left of a field after packing: the one-word format has no room for the array
      size and always gives 1, and the wide formats keep 8 bits of the size offset. */
  function Kept(f: FieldInfo, width: nat): FieldInfo {
    if width == 0 then f.(arraySize := 1) else if width == 1 then f else f.(sizeOffset := f.sizeOffset % 256)
  }

  /** Unpacking gives back what was packed. */
  lemma {:induction false} PackedAlone(f: FieldInfo, width: nat, ws: seq<nat>, at: nat)
    requires Fits(f, width) && at + Size(width) <= |ws| && ws[at..at + Size(width)] == Words(f, width)
    ensures ws[at] % 4 == width && ws[at] / 4 % 64 == f.tag % 64 && ws[at] / 0x100 % 256 == f.fieldType
    ensures Unpack(ws, at) == Kept(f, width)
  {
    PackedHead(f, width);
    assert forall i :: 0 <= i < Size(width) ==> ws[at + i] == Words(f, width)[i];
    assert ws[at] == Words(f, width)[0];
    if width == 0 { PackedInOne(f); }
    else if width == 1 { PackedInTwo(f); }
    else { PackedInMore(f); }
  }

  predicate Keeps(f: FieldInfo, width: nat) {
    (width == 0 ==> f.arraySize == 1) && (width >= 2 ==> 0 <= f.sizeOffset < 128)
  }

  lemma KeptIsAll(f: FieldInfo, width: nat)
    requires Fits(f, width)
    ensures Keeps(f, width) <==> Kept(f, width) == f
  {
  }

  /** The asserted ranges are not enough: packing is faithful exactly when, besides, a field of
      one word is no array and a field of four or eight words has a size offset below 128. */
  lemma {:induction false} FaithfulExactly(f: FieldInfo, width: nat)
    requires Fits(f, width)
    ensures Words(f, width)[0] % 4 == width
    ensures Unpack(Words(f, width), 0) == f <==> Keeps(f, width)
  {
    var ws := Words(f, width);
    assert ws[0..0 + Size(width)] == ws;
    PackedAlone(f, width, ws, 0);
    KeptIsAll(f, width);
  }

  /** Two size offsets that the wide formats accept and lose: 256 is unpacked as 0, and -200,
      which the cast turns into 56, as 56. */
  lemma SizeOffsetLost(f: FieldInfo, width: nat)
    requires 2 <= width && Fits(f.(sizeOffset := 0), width)
    ensures Fits(f.(sizeOffset := 256), width) && Unpack(Words(f.(sizeOffset := 256), width), 0).sizeOffset == 0
    ensures Fits(f.(sizeOffset := -200), width) && Unpack(Words(f.(sizeOffset := -200), width), 0).sizeOffset == 56
  {
    var g, h := f.(sizeOffset := 256), f.(sizeOffset := -200);
    assert Words(g, width)[0..0 + Size(width)] == Words(g, width);
    PackedAlone(g, width, Words(g, width), 0);
    assert Words(h, width)[0..0 + Size(width)] == Words(h, width);
    PackedAlone(h, width, Words(h, width), 0);
  }

  /** The four formats written out: a small field in one word, and one with a tag of ten bits in
      two, four and eight. */
  lemma FormatsWrittenOut()
    ensures Words(FieldInfo(5, 0x38, 0x12, 3, 4, 1), 0) == [0x34123814]
    ensures Words(FieldInfo(0x2A5, 0x20, 0x4567, 0x89A, 4, 0x123), 1) == [0x41232095, 0xA89A4567]
    ensures Words(FieldInfo(0x2A5, 0x20, 0x4567, 0x89AB, 0x56, 0x1234), 2) == [0x12342096, 0xA56, 0x4567, 0x89AB]
    ensures Words(FieldInfo(0x2A5, 0x20, 0x4567, 0x89AB, 0x56, 0x1234), 3) ==
            [0x2097, 0xA56, 0x4567, 0x89AB, 0x1234, 0, 0, 0]
  {
  }

  // ----- a whole descriptor

  /** A message descriptor as the generator writes it. */
  datatype MsgDesc = MsgDesc(fieldInfo: seq<nat>, submsgInfo: seq<nat>, fieldCount: nat,
                             requiredFieldCount: nat, largestTag: nat)

  ghost predicate Packable(fields: seq<FieldInfo>, widths: seq<nat>) {
    && |widths| == |fields|
    && forall i {:trigger Fits(fields[i], widths[i])} :: 0 <= i < |fields| ==>
         && Fits(fields[i], widths[i])
         && Keeps(fields[i], widths[i])
  }

  /** The words of every field. */
  function Chunks(fields: seq<FieldInfo>, widths: seq<nat>): (chunks: seq<seq<nat>>)
    requires |widths| == |fields|
    requires forall i {:trigger Fits(fields[i], widths[i])} :: 0 <= i < |fields| ==> Fits(fields[i], widths[i])
    ensures |chunks| == |fields|
    ensures forall i {:trigger chunks[i]} :: 0 <= i < |fields| ==>
              Fits(fields[i], widths[i]) && chunks[i] == Words(fields[i], widths[i]) && |chunks[i]| == Size(widths[i])
  {
    seq(|fields|, i requires 0 <= i < |fields| => Words(fields[i], widths[i]))
  }

  function Flatten(chunks: seq<seq<nat>>, n: nat): seq<nat>
    requires n <= |chunks|
  {
    if n == 0 then [] else Flatten(chunks, n - 1) + chunks[n - 1]
  }

  /** Where the words of field `n` start. */
  function Offset(widths: seq<nat>, n: nat): nat
    requires n <= |widths|
  {
    if n == 0 then 0 else Offset(widths, n - 1) + Size(widths[n - 1])
  }

  ghost predicate Sized(chunks: seq<seq<nat>>, widths: seq<nat>) {
    |chunks| == |widths| && forall i :: 0 <= i < |chunks| ==> |chunks[i]| == Size(widths[i])
  }

  lemma {:induction false} FlattenLength(chunks: seq<seq<nat>>, widths: seq<nat>, n: nat)
    requires n <= |chunks| && Sized(chunks, widths)
    ensures |Flatten(chunks, n)| == Offset(widths, n)
  {
    if n > 0 { FlattenLength(chunks, widths, n - 1); }
  }

  lemma SliceOfConcat(a: seq<nat>, b: seq<nat>, from: nat, to: nat)
    requires from <= to <= |a|
    ensures (a + b)[from..to] == a[from..to]
    ensures (a + b)[|a|..|a| + |b|] == b
  {
  }

  /** The words of field `i` are found at its offset. */
  lemma {:induction false} FlattenAt(chunks: seq<seq<nat>>, widths: seq<nat>, n: nat, i: nat)
    requires i < n <= |chunks| && Sized(chunks, widths)
    ensures Offset(widths, i) + Size(widths[i]) <= |Flatten(chunks, n)|
    ensures Flatten(chunks, n)[Offset(widths, i)..Offset(widths, i) + Size(widths[i])] == chunks[i]
  {
    var front, last := Flatten(chunks, n - 1), chunks[n - 1];
    var at := Offset(widths, i);
    FlattenLength(chunks, widths, n - 1);
    if i < n - 1 {
      FlattenAt(chunks, widths, n - 1, i);
      SliceOfConcat(front, last, at, at + Size(widths[i]));
    } else {
      SliceOfConcat(front, last, 0, 0);
    }
  }

  /** The descriptor packs these fields: tags ascend from 1, and indexes fit 16 bits. */
  ghost predicate Describes(desc: MsgDesc, fields: seq<FieldInfo>, widths: seq<nat>) {
    && Packable(fields, widths)
    && desc.fieldInfo == Flatten(Chunks(fields, widths), |fields|)
    && desc.fieldCount == |fields| < PB_SIZE_MAX && |desc.fieldInfo| <= PB_SIZE_MAX
    && desc.requiredFieldCount == Required(fields, |fields|)
    && |desc.submsgInfo| == Submessages(fields, |fields|)
    && (forall i, j :: 0 <= i < j < |fields| ==> fields[i].tag < fields[j].tag)
    && (forall i :: 0 <= i < |fields| ==> 0 < fields[i].tag <= desc.largestTag)
    && (fields == [] ==> desc.largestTag == 0)
  }

  /** Reading the words at the offset of field `i` gives that field back. */
  lemma {:induction false} FieldAt(desc: MsgDesc, fields: seq<FieldInfo>, widths: seq<nat>, i: nat)
    requires Describes(desc, fields, widths) && i < |fields|
    ensures var at := Offset(widths, i);
            && at < |desc.fieldInfo| && desc.fieldInfo[at] % 4 == widths[i]
            && at + Size(widths[i]) <= |desc.fieldInfo|
            && Unpack(desc.fieldInfo, at) == fields[i]
            && desc.fieldInfo[at] / 4 % 64 == fields[i].tag % 64
            && desc.fieldInfo[at] / 0x100 % 256 == fields[i].fieldType
  {
    FlattenAt(Chunks(fields, widths), widths, |fields|, i);
    var f, width, at := fields[i], widths[i], Offset(widths, i);
    KeptIsAll(f, width);
    PackedAlone(f, width, desc.fieldInfo, at);
  }

  lemma {:induction false} CountsGrow(fields: seq<FieldInfo>, i: nat, n: nat)
    requires i <= n <= |fields|
    ensures Submessages(fields, i) <= Submessages(fields, n) && Required(fields, i) <= Required(fields, n)
    decreases n - i
  {
    if i < n { CountsGrow(fields, i, n - 1); }
  }

  /** What the first word of a field says about the next one. */
  lemma HeadOf(desc: MsgDesc, fields: seq<FieldInfo>, widths: seq<nat>, i: nat)
    requires Describes(desc, fields, widths) && i < |fields|
    ensures Offset(widths, i) < |desc.fieldInfo| <= PB_SIZE_MAX
    ensures desc.fieldInfo[Offset(widths, i)] % 4 == widths[i]
    ensures desc.fieldInfo[Offset(widths, i)] / 0x100 % 256 == fields[i].fieldType
  {
    FieldAt(desc, fields, widths, i);
  }

  /** The three indexes of the next field; all of them fit 16 bits. */
  lemma NextField(desc: MsgDesc, fields: seq<FieldInfo>, widths: seq<nat>, i: nat)
    requires Describes(desc, fields, widths) && i + 1 < |fields|
    ensures Offset(widths, i + 1) == Offset(widths, i) + Size(widths[i]) < W16
    ensures Required(fields, i + 1) == Required(fields, i) + (if fields[i].IsRequired() then 1 else 0) < W16
    ensures Submessages(fields, i + 1) == Submessages(fields, i) + (if fields[i].IsSubmessage() then 1 else 0) < W16
  {
    HeadOf(desc, fields, widths, i + 1);
  }

  /** Fields passed by a search that started at `start`, when field `next` comes next. */
  ghost predicate Passed(i: nat, start: nat, restarted: bool, next: nat) {
    if restarted then i < next
    else if next > start then start < i < next
    else i > start || i < next
  }

  function After(i: nat, count: nat): nat {
    if i + 1 >= count then 0 else i + 1
  }

  ghost predicate Matches(fields: seq<FieldInfo>, i: nat, tag: nat)
    requires i < |fields|
  {
    fields[i].tag == tag && fields[i].LType() != LTYPE_EXTENSION
  }

  ghost predicate NoMatchPassed(fields: seq<FieldInfo>, tag: nat, start: nat, restarted: bool, next: nat) {
    forall i: nat :: i < |fields| && Passed(i, start, restarted, next) ==> !Matches(fields, i, tag)
  }

  lemma SearchBegins(fields: seq<FieldInfo>, tag: nat, start: nat, restarted: bool)
    requires start < |fields|
    ensures NoMatchPassed(fields, tag, start, restarted, if restarted then 0 else After(start, |fields|))
  {
  }

  lemma SearchGoesOn(fields: seq<FieldInfo>, tag: nat, start: nat, restarted: bool, i: nat)
    requires start < |fields| && i < |fields| && i != start && (restarted ==> i < start)
    requires NoMatchPassed(fields, tag, start, restarted, i) && !Matches(fields, i, tag)
    ensures NoMatchPassed(fields, tag, start, restarted, After(i, |fields|))
  {
  }

  lemma SearchEnds(fields: seq<FieldInfo>, tag: nat, start: nat, restarted: bool)
    requires start < |fields| && (restarted ==> tag < fields[start].tag)
    requires forall i, j :: 0 <= i < j < |fields| ==> fields[i].tag < fields[j].tag
    requires NoMatchPassed(fields, tag, start, restarted, start) && !Matches(fields, start, tag)
    ensures forall i: nat :: i < |fields| ==> !Matches(fields, i, tag)
  {
  }

  /** Storing a number in an index of 16 bits. */
  function Wrap16(x: nat): (y: nat)
    ensures x < W16 ==> y == x
  {
    x % W16
  }

  // ----- the cursor

  class FieldIter {
    const descriptor: MsgDesc
    var index: nat
    var fieldInfoIndex: nat
    var requiredFieldIndex: nat
    var submessageIndex: nat
    /** The values of the current field. */
    var field: FieldInfo
    /** The type of the current field's submessage. */
    var submsgDesc: nat
    ghost const fields: seq<FieldInfo>
    ghost const widths: seq<nat>

    /** The three running indexes are those of field `index`. */
    ghost predicate Placed()
      reads this
    {
      && Describes(descriptor, fields, widths) && index < |fields|
      && fieldInfoIndex == Offset(widths, index)
      && requiredFieldIndex == Required(fields, index)
      && submessageIndex == Submessages(fields, index)
    }

    /** The cursor stands on field `index` with its values loaded. An empty message type has
        no field to stand on. */
    ghost predicate Valid()
      reads this
    {
      && Describes(descriptor, fields, widths)
      && if fields == [] then index == 0 && field.tag == 0
         else Placed() && field == fields[index] &&
              (field.IsSubmessage() ==> submessageIndex < |descriptor.submsgInfo| &&
                                        submsgDesc == descriptor.submsgInfo[submessageIndex])
    }

    /** `pb_field_iter_begin`. */
    constructor (desc: MsgDesc, ghost fs: seq<FieldInfo>, ghost ws: seq<nat>)
      requires Describes(desc, fs, ws)
      ensures descriptor == desc && fields == fs && widths == ws
      ensures Valid() && index == 0
    {
      descriptor, fields, widths := desc, fs, ws;
      index, fieldInfoIndex, requiredFieldIndex, submessageIndex := 0, 0, 0, 0;
      field := FieldInfo(0, 0, 0, 0, 0, 0);
      submsgDesc := 0;
      new;
      var loaded := LoadDescriptorValues();
    }

    method LoadDescriptorValues() returns (ok: bool)
      requires Describes(descriptor, fields, widths)
      requires fields != [] ==> Placed()
      requires fields == [] ==> index == 0 && field.tag == 0
      modifies this`field, this`submsgDesc
      ensures Valid() && ok == (fields != [])
    {
      if index >= descriptor.fieldCount {
        return false;
      }
      FieldAt(descriptor, fields, widths, index);
      CountsGrow(fields, index + 1, |fields|);
      field := Unpack(descriptor.fieldInfo, fieldInfoIndex);
      if field.IsSubmessage() {
        submsgDesc := descriptor.submsgInfo[submessageIndex];
      }
      return true;
    }

    /** Move to the next field, or back to the first; an index past the end restarts too. */
    method AdvanceIterator()
      requires Describes(descriptor, fields, widths) && fields != []
      requires index == |fields| || Placed()
      modifies this`index, this`fieldInfoIndex, this`requiredFieldIndex, this`submessageIndex
      ensures Placed() && index == After(old(index), |fields|)
    {
      ghost var i := index;
      index := Wrap16(index + 1);
      if index >= descriptor.fieldCount {
        index, fieldInfoIndex, submessageIndex, requiredFieldIndex := 0, 0, 0, 0;
      } else {
        HeadOf(descriptor, fields, widths, i);
        NextField(descriptor, fields, widths, i);
        var prevDescriptor := descriptor.fieldInfo[fieldInfoIndex];
        var prevType := prevDescriptor / 0x100 % 256;
        var descriptorLen := Size(prevDescriptor % 4);
        fieldInfoIndex := Wrap16(fieldInfoIndex + descriptorLen);
        requiredFieldIndex := Wrap16(requiredFieldIndex + (if IsRequiredType(prevType) then 1 else 0));
        submessageIndex := Wrap16(submessageIndex + (if IsSubmessageType(prevType) then 1 else 0));
      }
    }

    /** `pb_field_iter_next`: false when the cursor has come back to the first field. */
    method MoveNext() returns (more: bool)
      requires Valid() && fields != []
      modifies this
      ensures Valid() && index == After(old(index), |fields|) && more == (index != 0)
    {
      AdvanceIterator();
      var loaded := LoadDescriptorValues();
      more := index != 0;
    }

    /** Check the field the search has come to: first the low bits of its tag, then the rest. */
    method CheckField(tag: nat) returns (found: bool)
      requires Placed()
      modifies this`field, this`submsgDesc
      ensures found == Matches(fields, index, tag)
      ensures found ==> Valid()
    {
      FieldAt(descriptor, fields, widths, index);
      var fieldinfo := descriptor.fieldInfo[fieldInfoIndex];
      found := false;
      if fieldinfo / 4 % 64 == tag % 64 {
        var loaded := LoadDescriptorValues();
        found := field.tag == tag && field.LType() != LTYPE_EXTENSION;
      }
    }

    /** The wrapping search, from the field after the current one or from the first. */
    method Search(tag: nat, restarted: bool) returns (found: bool)
      requires Placed() && (restarted ==> tag < fields[index].tag)
      modifies this
      ensures Valid()
      ensures found <==> exists i: nat :: i < |fields| && Matches(fields, i, tag)
      ensures if found then fields[index].tag == tag else index == old(index)
    {
      var start := index;
      if restarted {
        index := descriptor.fieldCount;
      }
      SearchBegins(fields, tag, start, restarted);
      while true
        invariant index == |fields| || Placed()
        invariant if restarted then index == |fields| || index < start else index < |fields|
        invariant NoMatchPassed(fields, tag, start, restarted, After(index, |fields|))
        decreases Distance(After(index, |fields|), start, |fields|)
      {
        AdvanceIterator();
        found := CheckField(tag);
        if found {
          assert Matches(fields, index, tag);
          return;
        }
        if index == start {
          break;
        }
        SearchGoesOn(fields, tag, start, restarted, index);
      }
      SearchEnds(fields, tag, start, restarted);
      var reloaded := LoadDescriptorValues();
    }

    /** Move to the field with this tag, wherever the cursor stands; without one, stay. An
        extension field is found only where the cursor stands already. */
    method FieldIterFind(tag: nat) returns (found: bool)
      requires Valid() && tag > 0
      modifies this
      ensures Valid()
      ensures found <==> (fields != [] && fields[old(index)].tag == tag) ||
                         exists i :: 0 <= i < |fields| && fields[i].tag == tag && fields[i].fieldType % 16 != 10
      ensures if found then index < |fields| && fields[index].tag == tag else index == old(index)
    {
      assert forall i: nat :: i < |fields| ==>
               (Matches(fields, i, tag) <==> fields[i].tag == tag && fields[i].fieldType % 16 != 10);
      if field.tag == tag {
        return true;
      } else if tag > descriptor.largestTag {
        return false;
      }
      found := Search(tag, tag < field.tag);
    }
  }

  /** How far a search that stops at `start` has to go from field `next`. */
  function Distance(next: nat, start: nat, count: nat): int {
    if next > start then count - next + start + 1 else start - next
  }

  /** Walking a descriptor from its first field to its last yields the fields packed into it. */
  method Walk(desc: MsgDesc, ghost fields: seq<FieldInfo>, ghost widths: seq<nat>) returns (walked: seq<FieldInfo>)
    requires Describes(desc, fields, widths)
    ensures walked == fields
  {
    walked := [];
    var iter := new FieldIter(desc, fields, widths);
    if desc.fieldCount == 0 {
      return;
    }
    var more := true;
    while more
      invariant iter.Valid() && iter.fields == fields
      invariant if more then walked == fields[..iter.index] else iter.index == 0 && walked == fields
      decreases more, |fields| - iter.index
    {
      ghost var i := iter.index;
      walked := walked + [iter.field];
      assert walked == fields[..i + 1];
      more := iter.MoveNext();
      assert !more ==> i + 1 == |fields| && fields[..i + 1] == fields;
    }
  }
}
