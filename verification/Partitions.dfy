/** The partition tables of BC7: which subset each of the 16 texels belongs to, and which texels
    are fix-ups, whose index is stored with one bit less. */
module Partitions {

  /** A fix-up has 128 added to its subset. */
  function IsFixup(entry: nat): nat {
    if entry >= 128 then 1 else 0
  }

  predicate IsEntry(entry: nat, n: nat) {
    entry < n || 128 <= entry < 128 + n
  }

  /** Fix-ups among the first `t` texels. */
  function Fixups(row: seq<nat>, t: nat): (n: nat)
    requires t <= |row|
    ensures n <= t
  {
    if t == 0 then 0 else Fixups(row, t - 1) + IsFixup(row[t - 1])
  }

  /** A partition into `n` subsets: the first texel is a fix-up of subset 0, and there are as
      many fix-ups as subsets. */
  predicate Partition(row: seq<nat>, n: nat) {
    |row| == 16 && row[0] == 128 && Fixups(row, 16) == n && forall t :: 0 <= t < 16 ==> IsEntry(row[t], n)
  }

  predicate Partitions(rows: seq<seq<nat>>, count: nat, n: nat) {
    |rows| == count && forall p {:trigger rows[p]} :: 0 <= p < count ==> Partition(rows[p], n)
  }

  function Join(a: seq<seq<nat>>, b: seq<seq<nat>>, count: nat, n: nat): (rows: seq<seq<nat>>)
    requires Partitions(a, count, n) && Partitions(b, count, n)
    ensures Partitions(rows, 2 * count, n)
  {
    a + b
  }

  /** Eight partitions. */
  function Rows(n: nat, r0: seq<nat>, r1: seq<nat>, r2: seq<nat>, r3: seq<nat>,
                r4: seq<nat>, r5: seq<nat>, r6: seq<nat>, r7: seq<nat>): (rows: seq<seq<nat>>)
    requires Partition(r0, n) && Partition(r1, n) && Partition(r2, n) && Partition(r3, n)
    requires Partition(r4, n) && Partition(r5, n) && Partition(r6, n) && Partition(r7, n)
    ensures Partitions(rows, 8, n)
  {
    [r0, r1, r2, r3, r4, r5, r6, r7]
  }

  /** A partition from its 16 entries, as the decoder lists them. */
  function Row(n: nat, a: nat, b: nat, c: nat, d: nat, e: nat, f: nat, g: nat, h: nat,
               i: nat, j: nat, k: nat, l: nat, m: nat, o: nat, p: nat, q: nat): (row: seq<nat>)
    requires a == 128 && IsEntry(a, n) && IsEntry(b, n) && IsEntry(c, n) && IsEntry(d, n)
    requires IsEntry(e, n) && IsEntry(f, n) && IsEntry(g, n) && IsEntry(h, n)
    requires IsEntry(i, n) && IsEntry(j, n) && IsEntry(k, n) && IsEntry(l, n)
    requires IsEntry(m, n) && IsEntry(o, n) && IsEntry(p, n) && IsEntry(q, n)
    requires IsFixup(a) + IsFixup(b) + IsFixup(c) + IsFixup(d) + IsFixup(e) + IsFixup(f) + IsFixup(g) + IsFixup(h) +
             IsFixup(i) + IsFixup(j) + IsFixup(k) + IsFixup(l) + IsFixup(m) + IsFixup(o) + IsFixup(p) + IsFixup(q) == n
    ensures Partition(row, n)
  {
    var row := [a, b, c, d, e, f, g, h, i, j, k, l, m, o, p, q];
    assert Fixups(row, 1) == Fixups(row, 0) + IsFixup(a);
    assert Fixups(row, 2) == Fixups(row, 1) + IsFixup(b);
    assert Fixups(row, 3) == Fixups(row, 2) + IsFixup(c);
    assert Fixups(row, 4) == Fixups(row, 3) + IsFixup(d);
    assert Fixups(row, 5) == Fixups(row, 4) + IsFixup(e);
    assert Fixups(row, 6) == Fixups(row, 5) + IsFixup(f);
    assert Fixups(row, 7) == Fixups(row, 6) + IsFixup(g);
    assert Fixups(row, 8) == Fixups(row, 7) + IsFixup(h);
    assert Fixups(row, 9) == Fixups(row, 8) + IsFixup(i);
    assert Fixups(row, 10) == Fixups(row, 9) + IsFixup(j);
    assert Fixups(row, 11) == Fixups(row, 10) + IsFixup(k);
    assert Fixups(row, 12) == Fixups(row, 11) + IsFixup(l);
    assert Fixups(row, 13) == Fixups(row, 12) + IsFixup(m);
    assert Fixups(row, 14) == Fixups(row, 13) + IsFixup(o);
    assert Fixups(row, 15) == Fixups(row, 14) + IsFixup(p);
    assert Fixups(row, 16) == Fixups(row, 15) + IsFixup(q);
    row
  }

  // ----- one subset

  function OneSubset(): (row: seq<nat>)
    ensures Partition(row, 1)
  {
    Row(1,  128, 0, 0, 0,  0, 0, 0, 0,  0, 0, 0, 0,  0, 0, 0, 0)
  }

  // ----- two subsets

  method TwoSubsets0() returns (rows: seq<seq<nat>>)
    ensures Partitions(rows, 8, 2)
  {
    rows := Rows(2,
      Row(2,  128, 0, 1, 1,  0, 0, 1, 1,  0, 0, 1, 1,  0, 0, 1, 129),
      Row(2,  128, 0, 0, 1,  0, 0, 0, 1,  0, 0, 0, 1,  0, 0, 0, 129),
      Row(2,  128, 1, 1, 1,  0, 1, 1, 1,  0, 1, 1, 1,  0, 1, 1, 129),
      Row(2,  128, 0, 0, 1,  0, 0, 1, 1,  0, 0, 1, 1,  0, 1, 1, 129),
      Row(2,  128, 0, 0, 0,  0, 0, 0, 1,  0, 0, 0, 1,  0, 0, 1, 129),
      Row(2,  128, 0, 1, 1,  0, 1, 1, 1,  0, 1, 1, 1,  1, 1, 1, 129),
      Row(2,  128, 0, 0, 1,  0, 0, 1, 1,  0, 1, 1, 1,  1, 1, 1, 129),
      Row(2,  128, 0, 0, 0,  0, 0, 0, 1,  0, 0, 1, 1,  0, 1, 1, 129));
  }

  method TwoSubsets1() returns (rows: seq<seq<nat>>)
    ensures Partitions(rows, 8, 2)
  {
    rows := Rows(2,
      Row(2,  128, 0, 0, 0,  0, 0, 0, 0,  0, 0, 0, 1,  0, 0, 1, 129),
      Row(2,  128, 0, 1, 1,  0, 1, 1, 1,  1, 1, 1, 1,  1, 1, 1, 129),
      Row(2,  128, 0, 0, 0,  0, 0, 0, 1,  0, 1, 1, 1,  1, 1, 1, 129),
      Row(2,  128, 0, 0, 0,  0, 0, 0, 0,  0, 0, 0, 1,  0, 1, 1, 129),
      Row(2,  128, 0, 0, 1,  0, 1, 1, 1,  1, 1, 1, 1,  1, 1, 1, 129),
      Row(2,  128, 0, 0, 0,  0, 0, 0, 0,  1, 1, 1, 1,  1, 1, 1, 129),
      Row(2,  128, 0, 0, 0,  1, 1, 1, 1,  1, 1, 1, 1,  1, 1, 1, 129),
      Row(2,  128, 0, 0, 0,  0, 0, 0, 0,  0, 0, 0, 0,  1, 1, 1, 129));
  }

  method TwoSubsets2() returns (rows: seq<seq<nat>>)
    ensures Partitions(rows, 8, 2)
  {
    rows := Rows(2,
      Row(2,  128, 0, 0, 0,  1, 0, 0, 0,  1, 1, 1, 0,  1, 1, 1, 129),
      Row(2,  128, 1, 129, 1,  0, 0, 0, 1,  0, 0, 0, 0,  0, 0, 0, 0),
      Row(2,  128, 0, 0, 0,  0, 0, 0, 0,  129, 0, 0, 0,  1, 1, 1, 0),
      Row(2,  128, 1, 129, 1,  0, 0, 1, 1,  0, 0, 0, 1,  0, 0, 0, 0),
      Row(2,  128, 0, 129, 1,  0, 0, 0, 1,  0, 0, 0, 0,  0, 0, 0, 0),
      Row(2,  128, 0, 0, 0,  1, 0, 0, 0,  129, 1, 0, 0,  1, 1, 1, 0),
      Row(2,  128, 0, 0, 0,  0, 0, 0, 0,  129, 0, 0, 0,  1, 1, 0, 0),
      Row(2,  128, 1, 1, 1,  0, 0, 1, 1,  0, 0, 1, 1,  0, 0, 0, 129));
  }

  method TwoSubsets3() returns (rows: seq<seq<nat>>)
    ensures Partitions(rows, 8, 2)
  {
    rows := Rows(2,
      Row(2,  128, 0, 129, 1,  0, 0, 0, 1,  0, 0, 0, 1,  0, 0, 0, 0),
      Row(2,  128, 0, 0, 0,  1, 0, 0, 0,  129, 0, 0, 0,  1, 1, 0, 0),
      Row(2,  128, 1, 129, 0,  0, 1, 1, 0,  0, 1, 1, 0,  0, 1, 1, 0),
      Row(2,  128, 0, 129, 1,  0, 1, 1, 0,  0, 1, 1, 0,  1, 1, 0, 0),
      Row(2,  128, 0, 0, 1,  0, 1, 1, 1,  129, 1, 1, 0,  1, 0, 0, 0),
      Row(2,  128, 0, 0, 0,  1, 1, 1, 1,  129, 1, 1, 1,  0, 0, 0, 0),
      Row(2,  128, 1, 129, 1,  0, 0, 0, 1,  1, 0, 0, 0,  1, 1, 1, 0),
      Row(2,  128, 0, 129, 1,  1, 0, 0, 1,  1, 0, 0, 1,  1, 1, 0, 0));
  }

  method TwoSubsets4() returns (rows: seq<seq<nat>>)
    ensures Partitions(rows, 8, 2)
  {
    rows := Rows(2,
      Row(2,  128, 1, 0, 1,  0, 1, 0, 1,  0, 1, 0, 1,  0, 1, 0, 129),
      Row(2,  128, 0, 0, 0,  1, 1, 1, 1,  0, 0, 0, 0,  1, 1, 1, 129),
      Row(2,  128, 1, 0, 1,  1, 0, 129, 0,  0, 1, 0, 1,  1, 0, 1, 0),
      Row(2,  128, 0, 1, 1,  0, 0, 1, 1,  129, 1, 0, 0,  1, 1, 0, 0),
      Row(2,  128, 0, 129, 1,  1, 1, 0, 0,  0, 0, 1, 1,  1, 1, 0, 0),
      Row(2,  128, 1, 0, 1,  0, 1, 0, 1,  129, 0, 1, 0,  1, 0, 1, 0),
      Row(2,  128, 1, 1, 0,  1, 0, 0, 1,  0, 1, 1, 0,  1, 0, 0, 129),
      Row(2,  128, 1, 0, 1,  1, 0, 1, 0,  1, 0, 1, 0,  0, 1, 0, 129));
  }

  method TwoSubsets5() returns (rows: seq<seq<nat>>)
    ensures Partitions(rows, 8, 2)
  {
    rows := Rows(2,
      Row(2,  128, 1, 129, 1,  0, 0, 1, 1,  1, 1, 0, 0,  1, 1, 1, 0),
      Row(2,  128, 0, 0, 1,  0, 0, 1, 1,  129, 1, 0, 0,  1, 0, 0, 0),
      Row(2,  128, 0, 129, 1,  0, 0, 1, 0,  0, 1, 0, 0,  1, 1, 0, 0),
      Row(2,  128, 0, 129, 1,  1, 0, 1, 1,  1, 1, 0, 1,  1, 1, 0, 0),
      Row(2,  128, 1, 129, 0,  1, 0, 0, 1,  1, 0, 0, 1,  0, 1, 1, 0),
      Row(2,  128, 0, 1, 1,  1, 1, 0, 0,  1, 1, 0, 0,  0, 0, 1, 129),
      Row(2,  128, 1, 1, 0,  0, 1, 1, 0,  1, 0, 0, 1,  1, 0, 0, 129),
      Row(2,  128, 0, 0, 0,  0, 1, 129, 0,  0, 1, 1, 0,  0, 0, 0, 0));
  }

  method TwoSubsets6() returns (rows: seq<seq<nat>>)
    ensures Partitions(rows, 8, 2)
  {
    rows := Rows(2,
      Row(2,  128, 1, 0, 0,  1, 1, 129, 0,  0, 1, 0, 0,  0, 0, 0, 0),
      Row(2,  128, 0, 129, 0,  0, 1, 1, 1,  0, 0, 1, 0,  0, 0, 0, 0),
      Row(2,  128, 0, 0, 0,  0, 0, 129, 0,  0, 1, 1, 1,  0, 0, 1, 0),
      Row(2,  128, 0, 0, 0,  0, 1, 0, 0,  129, 1, 1, 0,  0, 1, 0, 0),
      Row(2,  128, 1, 1, 0,  1, 1, 0, 0,  1, 0, 0, 1,  0, 0, 1, 129),
      Row(2,  128, 0, 1, 1,  0, 1, 1, 0,  1, 1, 0, 0,  1, 0, 0, 129),
      Row(2,  128, 1, 129, 0,  0, 0, 1, 1,  1, 0, 0, 1,  1, 1, 0, 0),
      Row(2,  128, 0, 129, 1,  1, 0, 0, 1,  1, 1, 0, 0,  0, 1, 1, 0));
  }

  method TwoSubsets7() returns (rows: seq<seq<nat>>)
    ensures Partitions(rows, 8, 2)
  {
    rows := Rows(2,
      Row(2,  128, 1, 1, 0,  1, 1, 0, 0,  1, 1, 0, 0,  1, 0, 0, 129),
      Row(2,  128, 1, 1, 0,  0, 0, 1, 1,  0, 0, 1, 1,  1, 0, 0, 129),
      Row(2,  128, 1, 1, 1,  1, 1, 1, 0,  1, 0, 0, 0,  0, 0, 0, 129),
      Row(2,  128, 0, 0, 1,  1, 0, 0, 0,  1, 1, 1, 0,  0, 1, 1, 129),
      Row(2,  128, 0, 0, 0,  1, 1, 1, 1,  0, 0, 1, 1,  0, 0, 1, 129),
      Row(2,  128, 0, 129, 1,  0, 0, 1, 1,  1, 1, 1, 1,  0, 0, 0, 0),
      Row(2,  128, 0, 129, 0,  0, 0, 1, 0,  1, 1, 1, 0,  1, 1, 1, 0),
      Row(2,  128, 1, 0, 0,  0, 1, 0, 0,  0, 1, 1, 1,  0, 1, 1, 129));
  }

  method TwoSubsets() returns (rows: seq<seq<nat>>)
    ensures Partitions(rows, 64, 2)
  {
    var r0 := TwoSubsets0();
    var r1 := TwoSubsets1();
    var r2 := TwoSubsets2();
    var r3 := TwoSubsets3();
    var r4 := TwoSubsets4();
    var r5 := TwoSubsets5();
    var r6 := TwoSubsets6();
    var r7 := TwoSubsets7();
    rows := Join(Join(Join(r0, r1, 8, 2), Join(r2, r3, 8, 2), 16, 2),
                 Join(Join(r4, r5, 8, 2), Join(r6, r7, 8, 2), 16, 2), 32, 2);
  }

  // ----- three subsets

  method ThreeSubsets0() returns (rows: seq<seq<nat>>)
    ensures Partitions(rows, 8, 3)
  {
    rows := Rows(3,
      Row(3,  128, 0, 1, 129,  0, 0, 1, 1,  0, 2, 2, 1,  2, 2, 2, 130),
      Row(3,  128, 0, 0, 129,  0, 0, 1, 1,  130, 2, 1, 1,  2, 2, 2, 1),
      Row(3,  128, 0, 0, 0,  2, 0, 0, 1,  130, 2, 1, 1,  2, 2, 1, 129),
      Row(3,  128, 2, 2, 130,  0, 0, 2, 2,  0, 0, 1, 1,  0, 1, 1, 129),
      Row(3,  128, 0, 0, 0,  0, 0, 0, 0,  129, 1, 2, 2,  1, 1, 2, 130),
      Row(3,  128, 0, 1, 129,  0, 0, 1, 1,  0, 0, 2, 2,  0, 0, 2, 130),
      Row(3,  128, 0, 2, 130,  0, 0, 2, 2,  1, 1, 1, 1,  1, 1, 1, 129),
      Row(3,  128, 0, 1, 1,  0, 0, 1, 1,  130, 2, 1, 1,  2, 2, 1, 129));
  }

  method ThreeSubsets1() returns (rows: seq<seq<nat>>)
    ensures Partitions(rows, 8, 3)
  {
    rows := Rows(3,
      Row(3,  128, 0, 0, 0,  0, 0, 0, 0,  129, 1, 1, 1,  2, 2, 2, 130),
      Row(3,  128, 0, 0, 0,  1, 1, 1, 1,  129, 1, 1, 1,  2, 2, 2, 130),
      Row(3,  128, 0, 0, 0,  1, 1, 129, 1,  2, 2, 2, 2,  2, 2, 2, 130),
      Row(3,  128, 0, 1, 2,  0, 0, 129, 2,  0, 0, 1, 2,  0, 0, 1, 130),
      Row(3,  128, 1, 1, 2,  0, 1, 129, 2,  0, 1, 1, 2,  0, 1, 1, 130),
      Row(3,  128, 1, 2, 2,  0, 129, 2, 2,  0, 1, 2, 2,  0, 1, 2, 130),
      Row(3,  128, 0, 1, 129,  0, 1, 1, 2,  1, 1, 2, 2,  1, 2, 2, 130),
      Row(3,  128, 0, 1, 129,  2, 0, 0, 1,  130, 2, 0, 0,  2, 2, 2, 0));
  }

  method ThreeSubsets2() returns (rows: seq<seq<nat>>)
    ensures Partitions(rows, 8, 3)
  {
    rows := Rows(3,
      Row(3,  128, 0, 0, 129,  0, 0, 1, 1,  0, 1, 1, 2,  1, 1, 2, 130),
      Row(3,  128, 1, 1, 129,  0, 0, 1, 1,  130, 0, 0, 1,  2, 2, 0, 0),
      Row(3,  128, 0, 0, 0,  1, 1, 2, 2,  129, 1, 2, 2,  1, 1, 2, 130),
      Row(3,  128, 0, 2, 130,  0, 0, 2, 2,  0, 0, 2, 2,  1, 1, 1, 129),
      Row(3,  128, 1, 1, 129,  0, 1, 1, 1,  0, 2, 2, 2,  0, 2, 2, 130),
      Row(3,  128, 0, 0, 129,  0, 0, 0, 1,  130, 2, 2, 1,  2, 2, 2, 1),
      Row(3,  128, 0, 0, 0,  0, 0, 129, 1,  0, 1, 2, 2,  0, 1, 2, 130),
      Row(3,  128, 0, 0, 0,  1, 1, 0, 0,  130, 2, 129, 0,  2, 2, 1, 0));
  }

  method ThreeSubsets3() returns (rows: seq<seq<nat>>)
    ensures Partitions(rows, 8, 3)
  {
    rows := Rows(3,
      Row(3,  128, 1, 2, 130,  0, 129, 2, 2,  0, 0, 1, 1,  0, 0, 0, 0),
      Row(3,  128, 0, 1, 2,  0, 0, 1, 2,  129, 1, 2, 2,  2, 2, 2, 130),
      Row(3,  128, 1, 1, 0,  1, 2, 130, 1,  129, 2, 2, 1,  0, 1, 1, 0),
      Row(3,  128, 0, 0, 0,  0, 1, 129, 0,  1, 2, 130, 1,  1, 2, 2, 1),
      Row(3,  128, 0, 2, 2,  1, 1, 0, 2,  129, 1, 0, 2,  0, 0, 2, 130),
      Row(3,  128, 1, 1, 0,  0, 129, 1, 0,  2, 0, 0, 2,  2, 2, 2, 130),
      Row(3,  128, 0, 1, 1,  0, 1, 2, 2,  0, 1, 130, 2,  0, 0, 1, 129),
      Row(3,  128, 0, 0, 0,  2, 0, 0, 0,  130, 2, 1, 1,  2, 2, 2, 129));
  }

  method ThreeSubsets4() returns (rows: seq<seq<nat>>)
    ensures Partitions(rows, 8, 3)
  {
    rows := Rows(3,
      Row(3,  128, 0, 0, 0,  0, 0, 0, 2,  129, 1, 2, 2,  1, 2, 2, 130),
      Row(3,  128, 2, 2, 130,  0, 0, 2, 2,  0, 0, 1, 2,  0, 0, 1, 129),
      Row(3,  128, 0, 1, 129,  0, 0, 1, 2,  0, 0, 2, 2,  0, 2, 2, 130),
      Row(3,  128, 1, 2, 0,  0, 129, 2, 0,  0, 1, 130, 0,  0, 1, 2, 0),
      Row(3,  128, 0, 0, 0,  1, 1, 129, 1,  2, 2, 130, 2,  0, 0, 0, 0),
      Row(3,  128, 1, 2, 0,  1, 2, 0, 1,  130, 0, 129, 2,  0, 1, 2, 0),
      Row(3,  128, 1, 2, 0,  2, 0, 1, 2,  129, 130, 0, 1,  0, 1, 2, 0),
      Row(3,  128, 0, 1, 1,  2, 2, 0, 0,  1, 1, 130, 2,  0, 0, 1, 129));
  }

  method ThreeSubsets5() returns (rows: seq<seq<nat>>)
    ensures Partitions(rows, 8, 3)
  {
    rows := Rows(3,
      Row(3,  128, 0, 1, 1,  1, 1, 130, 2,  2, 2, 0, 0,  0, 0, 1, 129),
      Row(3,  128, 1, 0, 129,  0, 1, 0, 1,  2, 2, 2, 2,  2, 2, 2, 130),
      Row(3,  128, 0, 0, 0,  0, 0, 0, 0,  130, 1, 2, 1,  2, 1, 2, 129),
      Row(3,  128, 0, 2, 2,  1, 129, 2, 2,  0, 0, 2, 2,  1, 1, 2, 130),
      Row(3,  128, 0, 2, 130,  0, 0, 1, 1,  0, 0, 2, 2,  0, 0, 1, 129),
      Row(3,  128, 2, 2, 0,  1, 2, 130, 1,  0, 2, 2, 0,  1, 2, 2, 129),
      Row(3,  128, 1, 0, 1,  2, 2, 130, 2,  2, 2, 2, 2,  0, 1, 0, 129),
      Row(3,  128, 0, 0, 0,  2, 1, 2, 1,  130, 1, 2, 1,  2, 1, 2, 129));
  }

  method ThreeSubsets6() returns (rows: seq<seq<nat>>)
    ensures Partitions(rows, 8, 3)
  {
    rows := Rows(3,
      Row(3,  128, 1, 0, 129,  0, 1, 0, 1,  0, 1, 0, 1,  2, 2, 2, 130),
      Row(3,  128, 2, 2, 130,  0, 1, 1, 1,  0, 2, 2, 2,  0, 1, 1, 129),
      Row(3,  128, 0, 0, 2,  1, 129, 1, 2,  0, 0, 0, 2,  1, 1, 1, 130),
      Row(3,  128, 0, 0, 0,  2, 129, 1, 2,  2, 1, 1, 2,  2, 1, 1, 130),
      Row(3,  128, 2, 2, 2,  0, 129, 1, 1,  0, 1, 1, 1,  0, 2, 2, 130),
      Row(3,  128, 0, 0, 2,  1, 1, 1, 2,  129, 1, 1, 2,  0, 0, 0, 130),
      Row(3,  128, 1, 1, 0,  0, 129, 1, 0,  0, 1, 1, 0,  2, 2, 2, 130),
      Row(3,  128, 0, 0, 0,  0, 0, 0, 0,  2, 1, 129, 2,  2, 1, 1, 130));
  }

  method ThreeSubsets7() returns (rows: seq<seq<nat>>)
    ensures Partitions(rows, 8, 3)
  {
    rows := Rows(3,
      Row(3,  128, 1, 1, 0,  0, 129, 1, 0,  2, 2, 2, 2,  2, 2, 2, 130),
      Row(3,  128, 0, 2, 2,  0, 0, 1, 1,  0, 0, 129, 1,  0, 0, 2, 130),
      Row(3,  128, 0, 2, 2,  1, 1, 2, 2,  129, 1, 2, 2,  0, 0, 2, 130),
      Row(3,  128, 0, 0, 0,  0, 0, 0, 0,  0, 0, 0, 0,  2, 129, 1, 130),
      Row(3,  128, 0, 0, 130,  0, 0, 0, 1,  0, 0, 0, 2,  0, 0, 0, 129),
      Row(3,  128, 2, 2, 2,  1, 2, 2, 2,  0, 2, 2, 2,  129, 2, 2, 130),
      Row(3,  128, 1, 0, 129,  2, 2, 2, 2,  2, 2, 2, 2,  2, 2, 2, 130),
      Row(3,  128, 1, 1, 129,  2, 0, 1, 1,  130, 2, 0, 1,  2, 2, 2, 0));
  }

  method ThreeSubsets() returns (rows: seq<seq<nat>>)
    ensures Partitions(rows, 64, 3)
  {
    var r0 := ThreeSubsets0();
    var r1 := ThreeSubsets1();
    var r2 := ThreeSubsets2();
    var r3 := ThreeSubsets3();
    var r4 := ThreeSubsets4();
    var r5 := ThreeSubsets5();
    var r6 := ThreeSubsets6();
    var r7 := ThreeSubsets7();
    rows := Join(Join(Join(r0, r1, 8, 3), Join(r2, r3, 8, 3), 16, 3),
                 Join(Join(r4, r5, 8, 3), Join(r6, r7, 8, 3), 16, 3), 32, 3);
  }

  // ----- the tables

  /** Tables for two and three subsets: 64 partitions each. */
  predicate AreSets(sets: seq<seq<seq<nat>>>) {
    |sets| == 2 && Partitions(sets[0], 64, 2) && Partitions(sets[1], 64, 3)
  }

  type Sets = sets: seq<seq<seq<nat>>> | AreSets(sets)
    witness [seq(64, _ => Row(2,  128, 0, 0, 0,  0, 0, 0, 0,  0, 0, 0, 0,  0, 0, 0, 129)),
             seq(64, _ => Row(3,  128, 0, 0, 0,  0, 0, 0, 0,  0, 0, 0, 0,  0, 0, 129, 130))]

  /** The tables of the decoder. */
  method PartitionSets() returns (sets: seq<seq<seq<nat>>>)
    ensures AreSets(sets)
  {
    var two := TwoSubsets();
    var three := ThreeSubsets();
    sets := [two, three];
  }
}
