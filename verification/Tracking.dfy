/** The tracker tree of the section tracker, on values: every tracker is found under its path
    from the root (the child positions taken), so its parent is its path without the last
    step. `Rep` says what the trackers of a section look like after some of its leaves have
    been run. */
module Tracking {
  import opened SectionTree

  datatype RunState = NotStarted | Executing | ExecutingChildren | NeedsAnotherRun | CompletedSuccessfully | Failed

  datatype Tracker = Tracker(id: NameAndLocation, runState: RunState, children: seq<NameAndLocation>) {
    predicate IsComplete() {
      runState == CompletedSuccessfully || runState == Failed
    }

    predicate IsOpen() {
      runState != NotStarted && !IsComplete()
    }
  }

  type Path = seq<nat>

  type Trackers = map<Path, Tracker>

  function Child(t: Path, i: nat): (c: Path)
    ensures c != [] && Parent(c) == t
  {
    t + [i]
  }

  function Parent(t: Path): Path
    requires t != []
  {
    t[..|t| - 1]
  }

  /** Every tracker's parent is there too. */
  ghost predicate Rooted(m: Trackers) {
    forall t {:trigger Parent(t)} :: t in m && t != [] ==> Parent(t) in m
  }

  function Marked(m: Trackers, t: Path, state: RunState): (r: Trackers)
    requires t in m
    ensures r.Keys == m.Keys
  {
    m[t := m[t].(runState := state)]
  }

  /** `openChild` on values: the tracker and its ancestors execute children, up to the first
      one that already does. */
  function OpenedChild(m: Trackers, t: Path): (r: Trackers)
    requires Rooted(m) && t in m
    ensures r.Keys == m.Keys && Rooted(r)
    decreases |t|
  {
    if m[t].runState == ExecutingChildren then m
    else
      var marked := Marked(m, t, ExecutingChildren);
      if t == [] then marked else OpenedChild(marked, Parent(t))
  }

  /** `openChild` on `t` reaches `q`: it is `t` or an ancestor, and no tracker from `t` up to it
      executes children already. */
  ghost predicate Climbs(m: Trackers, t: Path, q: Path) {
    q <= t && forall r {:trigger m[r]} :: r in m && q <= r && r <= t ==> m[r].runState != ExecutingChildren
  }

  /** Those it reaches execute children; no other tracker changes. */
  lemma {:induction false} OpenedChildIs(m: Trackers, t: Path, q: Path)
    requires Rooted(m) && t in m && q in m
    ensures OpenedChild(m, t)[q] == if Climbs(m, t, q) then m[q].(runState := ExecutingChildren) else m[q]
    decreases |t|
  {
    if m[t].runState != ExecutingChildren && t != [] {
      var p := Parent(t);
      var marked := Marked(m, t, ExecutingChildren);
      OpenedChildIs(marked, p, q);
      assert !(t <= p);
      assert forall r {:trigger m[r]} :: r in m ==> (r <= t <==> r <= p || r == t);
      assert forall r {:trigger m[r]} :: r in m && r != t ==> marked[r] == m[r];
      assert forall r {:trigger marked[r]} :: r in m && r != t ==> marked[r] == m[r];
      if q != t { assert Climbs(marked, p, q) <==> Climbs(m, t, q); }
    }
  }

  /** `open` on values. */
  function Opened(m: Trackers, t: Path): (r: Trackers)
    requires Rooted(m) && t in m
    ensures r.Keys == m.Keys && Rooted(r)
  {
    var executing := Marked(m, t, Executing);
    if t == [] then executing else OpenedChild(executing, Parent(t))
  }

  /** Opening a tracker under one that just started executing changes these two only. */
  lemma OpenedUnderExecuting(m: Trackers, t: Path)
    requires Rooted(m) && t in m && t != [] && m[Parent(t)].runState == Executing
    requires Parent(t) == [] || m[Parent(Parent(t))].runState == ExecutingChildren
    ensures Opened(m, t) == Marked(Marked(m, t, Executing), Parent(t), ExecutingChildren)
  {
    var p := Parent(t);
    assert |p| < |t|;
    var executing := Marked(m, t, Executing);
    var marked := Marked(executing, p, ExecutingChildren);
    if p != [] {
      assert OpenedChild(executing, p) == OpenedChild(marked, Parent(p));
      assert |Parent(p)| < |p|;
    }
  }

  /** The position of the first child with this name and location, or the number of children. */
  function IndexOf(ids: seq<NameAndLocation>, id: NameAndLocation): (i: nat)
    ensures i <= |ids|
    ensures i < |ids| ==> ids[i] == id
    ensures forall j :: 0 <= j < i ==> ids[j] != id
  {
    if ids == [] || ids[0] == id then 0 else 1 + IndexOf(ids[1..], id)
  }

  /** The child found or created by `acquire`. */
  function Acquired(m: Trackers, t: Path, id: NameAndLocation): Path
    requires t in m
  {
    Child(t, IndexOf(m[t].children, id))
  }

  function WithChild(m: Trackers, t: Path, id: NameAndLocation): (r: Trackers)
    requires Rooted(m) && t in m && (forall i: nat :: i < |m[t].children| ==> Child(t, i) in m)
    ensures Rooted(r) && Acquired(m, t, id) in r && t in r && m.Keys <= r.Keys
  {
    var n := |m[t].children|;
    if IndexOf(m[t].children, id) < n then m
    else
      m[t := m[t].(children := m[t].children + [id])][Child(t, n) := Tracker(id, NotStarted, [])]
  }

  predicate AllChildrenComplete(m: Trackers, t: Path)
    requires t in m
  {
    forall i: nat :: i < |m[t].children| ==> Child(t, i) in m && m[Child(t, i)].IsComplete()
  }

  /** `close` on values: complete a tracker whose children, if it ran any, are complete. */
  function Closed(m: Trackers, t: Path): (r: Trackers)
    requires t in m
    ensures r.Keys == m.Keys && (Rooted(m) ==> Rooted(r))
  {
    match m[t].runState
    case Executing => Marked(m, t, CompletedSuccessfully)
    case ExecutingChildren => if AllChildrenComplete(m, t) then Marked(m, t, CompletedSuccessfully) else m
    case _ => m
  }

  // ----- what the trackers say about the leaves already run

  /** How many of the leaves of the i-th section are among the first `k` leaves of a body. */
  ghost function Done(body: seq<Section>, i: nat, k: nat): (d: nat)
    requires i < |body|
    ensures d <= Leaves(body[i])
  {
    if k <= Before(body, i) then 0
    else if k >= Before(body, i) + Leaves(body[i]) then Leaves(body[i])
    else k - Before(body, i)
  }

  /** The tracker `t` of section `s` when the first `k` leaves of `s` have been run: not
      started, executing its children, or completed. */
  ghost predicate Rep(m: Trackers, t: Path, s: Section, k: nat)
    decreases s, 0
  {
    && t in m && m[t].id == s.id
    && if k == 0 then
         m[t].runState == NotStarted && m[t].children == []
       else if k >= Leaves(s) then
         m[t].runState == CompletedSuccessfully
       else
         m[t].runState == ExecutingChildren && m[t].children == Ids(s.body) && Kids(m, t, s.body, |s.body|, k)
  }

  /** The first `n` trackers under `t`: earlier sections completed, at most one partly run,
      later ones not started. */
  ghost predicate Kids(m: Trackers, t: Path, body: seq<Section>, n: nat, k: nat)
    requires n <= |body|
    decreases body, 1
  {
    forall i: nat {:trigger Rep(m, Child(t, i), body[i], Done(body, i, k))} :: i < n ==>
      Rep(m, Child(t, i), body[i], Done(body, i, k))
  }

  ghost predicate Within(t: Path, q: Path) {
    t <= q
  }

  /** Nothing outside the subtree of `t` has changed. */
  ghost predicate SameOutside(before: Trackers, after: Trackers, t: Path) {
    forall q :: q in before && !Within(t, q) ==> q in after && after[q] == before[q]
  }

  ghost predicate SameWithin(before: Trackers, after: Trackers, t: Path) {
    forall q :: q in before && Within(t, q) ==> q in after && after[q] == before[q]
  }

  lemma {:induction false} RepFrame(before: Trackers, after: Trackers, t: Path, s: Section, k: nat)
    requires Rep(before, t, s, k) && SameWithin(before, after, t)
    ensures Rep(after, t, s, k)
    decreases s
  {
    if 0 < k < Leaves(s) {
      forall i: nat | i < |s.body|
        ensures Rep(after, Child(t, i), s.body[i], Done(s.body, i, k))
      {
        assert forall q :: Within(Child(t, i), q) ==> Within(t, q);
        RepFrame(before, after, Child(t, i), s.body[i], Done(s.body, i, k));
      }
    }
  }

  /** All trackers under `t` are complete exactly when all leaves have been run. */
  lemma KidsComplete(m: Trackers, t: Path, body: seq<Section>, k: nat)
    requires Kids(m, t, body, |body|, k) && body != [] && 0 < k <= LeavesIn(body)
    requires t in m && |m[t].children| == |body|
    ensures AllChildrenComplete(m, t) <==> k == LeavesIn(body)
  {
    var n := |body| - 1;
    BeforeAll(body);
    BeforeNext(body, n);
    assert Rep(m, Child(t, n), body[n], Done(body, n, k));
    if k == LeavesIn(body) {
      forall i: nat | i < |body|
        ensures Child(t, i) in m && m[Child(t, i)].IsComplete()
      {
        BeforeNext(body, i);
        BeforeGrows(body, i + 1, |body|);
        assert Rep(m, Child(t, i), body[i], Done(body, i, k));
      }
    }
  }

  // ----- one run of a body

  /** Tracker `t` was just opened, with `k` leaves of its body run so far and at least one left. */
  ghost predicate Ready(m: Trackers, t: Path, body: seq<Section>, k: nat) {
    && Rooted(m) && t in m && m[t].runState == Executing
    && (t != [] ==> m[Parent(t)].runState == ExecutingChildren)
    && (if body == [] then k == 0 else k < LeavesIn(body))
    && if k == 0 then m[t].children == []
       else m[t].children == Ids(body) && Kids(m, t, body, |body|, k)
  }

  /** The body of `t` has run to its end, and with it the leaf number `k`. */
  ghost predicate Ran(m: Trackers, t: Path, body: seq<Section>, k: nat) {
    && Rooted(m) && t in m
    && if body == [] then
         m[t].runState == Executing && m[t].children == []
       else
         m[t].runState == ExecutingChildren && m[t].children == Ids(body) && Kids(m, t, body, |body|, k + 1)
  }

  /** The body of `t` has passed its first `i` sections; `completed` when the leaf number `k`
      was among them. On the first run the later sections have no trackers yet. */
  ghost predicate Mid(m: Trackers, t: Path, body: seq<Section>, i: nat, k: nat, completed: bool) {
    && MidShape(m, t, body, i, k, completed)
    && Kids(m, t, body, |m[t].children|, if completed then k + 1 else k)
  }

  ghost predicate MidShape(m: Trackers, t: Path, body: seq<Section>, i: nat, k: nat, completed: bool) {
    && Rooted(m) && t in m && i <= |body|
    && (t != [] ==> m[Parent(t)].runState == ExecutingChildren)
    && var n := |m[t].children|;
    && i <= n <= |body| && (n == |body| || k == 0)
    && m[t].children == Ids(body)[..n]
    && if completed then m[t].runState == ExecutingChildren && k < Before(body, i)
       else m[t].runState == Executing && Before(body, i) <= k
  }

  lemma ReadyIsMid(m: Trackers, t: Path, body: seq<Section>, k: nat)
    requires Ready(m, t, body, k)
    ensures Mid(m, t, body, 0, k, false)
  {
    BeforeAll(body);
    assert Ids(body)[..|body|] == Ids(body);
    assert Ids(body)[..0] == [];
  }

  lemma MidIsRan(m: Trackers, t: Path, body: seq<Section>, k: nat, completed: bool)
    requires Mid(m, t, body, |body|, k, completed)
    requires if body == [] then k == 0 else k < LeavesIn(body)
    ensures Ran(m, t, body, k) && completed == (body != [])
  {
    BeforeAll(body);
    assert Ids(body)[..|body|] == Ids(body);
  }

  lemma {:induction false} IndexOfDistinct(ids: seq<NameAndLocation>, i: nat)
    requires i < |ids| && forall a, b :: 0 <= a < b < |ids| ==> ids[a] != ids[b]
    ensures IndexOf(ids, ids[i]) == i
  {
    if i > 0 {
      assert ids[0] != ids[i];
      IndexOfDistinct(ids[1..], i - 1);
    }
  }

  lemma IndexOfFresh(ids: seq<NameAndLocation>, id: NameAndLocation)
    requires id !in ids
    ensures IndexOf(ids, id) == |ids|
  {
  }

  /** A tracker created as the n-th child leaves the subtrees of its siblings alone. */
  lemma CreatedBeside(m: Trackers, t: Path, id: NameAndLocation, s: Section, j: nat, k: nat)
    requires Rooted(m) && t in m && IndexOf(m[t].children, id) == |m[t].children|
    requires j < |m[t].children| && Rep(m, Child(t, j), s, k)
    requires forall i: nat :: i < |m[t].children| ==> Child(t, i) in m
    ensures Rep(WithChild(m, t, id), Child(t, j), s, k)
  {
    var m1 := WithChild(m, t, id);
    var n := |m[t].children|;
    forall q | q in m && Within(Child(t, j), q)
      ensures q in m1 && m1[q] == m[q]
    {
      assert |q| > |t| && q[|t|] == j;
      assert Child(t, n)[|t|] == n;
    }
    RepFrame(m, m1, Child(t, j), s, k);
  }

  lemma MidHasChildren(m: Trackers, t: Path, body: seq<Section>, i: nat, k: nat, completed: bool)
    requires Mid(m, t, body, i, k, completed)
    ensures forall j: nat :: j < |m[t].children| ==> Child(t, j) in m
  {
    forall j: nat | j < |m[t].children|
      ensures Child(t, j) in m
    {
      assert Rep(m, Child(t, j), body[j], Done(body, j, if completed then k + 1 else k));
    }
  }

  lemma MidKid(m: Trackers, t: Path, body: seq<Section>, i: nat, k: nat, completed: bool, j: nat)
    requires Mid(m, t, body, i, k, completed) && i == |m[t].children| < |body|
    requires IndexOf(m[t].children, body[i].id) == i
    requires forall j: nat :: j < |m[t].children| ==> Child(t, j) in m
    requires j <= i
    ensures Rep(WithChild(m, t, body[i].id), Child(t, j), body[j], Done(body, j, if completed then k + 1 else k))
  {
    var kk := if completed then k + 1 else k;
    if j < i {
      assert Rep(m, Child(t, j), body[j], Done(body, j, kk));
      CreatedBeside(m, t, body[i].id, body[j], j, Done(body, j, kk));
    } else {
      assert Done(body, i, kk) == 0;
    }
  }

  lemma MidCreatesKids(m: Trackers, t: Path, body: seq<Section>, i: nat, k: nat, completed: bool)
    requires Mid(m, t, body, i, k, completed) && i == |m[t].children| < |body|
    requires IndexOf(m[t].children, body[i].id) == i
    requires forall j: nat :: j < |m[t].children| ==> Child(t, j) in m
    ensures Kids(WithChild(m, t, body[i].id), t, body, i + 1, if completed then k + 1 else k)
  {
    forall j: nat | j < i + 1
      ensures Rep(WithChild(m, t, body[i].id), Child(t, j), body[j], Done(body, j, if completed then k + 1 else k))
    {
      MidKid(m, t, body, i, k, completed, j);
    }
  }

  lemma CreatedInside(m: Trackers, t: Path, id: NameAndLocation)
    requires Rooted(m) && t in m && (forall j: nat :: j < |m[t].children| ==> Child(t, j) in m)
    ensures SameOutside(m, WithChild(m, t, id), t)
  {
  }

  lemma MidCreatesShape(m: Trackers, t: Path, body: seq<Section>, i: nat, k: nat, completed: bool)
    requires MidShape(m, t, body, i, k, completed) && i == |m[t].children| < |body|
    requires IndexOf(m[t].children, body[i].id) == i
    requires forall j: nat :: j < |m[t].children| ==> Child(t, j) in m
    ensures MidShape(WithChild(m, t, body[i].id), t, body, i, k, completed)
    ensures |WithChild(m, t, body[i].id)[t].children| == i + 1
  {
    assert Ids(body)[..i] + [body[i].id] == Ids(body)[..i + 1];
  }

  lemma MidCreates(m: Trackers, t: Path, body: seq<Section>, i: nat, k: nat, completed: bool)
    requires Mid(m, t, body, i, k, completed) && i == |m[t].children| < |body|
    requires IndexOf(m[t].children, body[i].id) == i
    requires forall j: nat :: j < |m[t].children| ==> Child(t, j) in m
    ensures Mid(WithChild(m, t, body[i].id), t, body, i, k, completed)
    ensures |WithChild(m, t, body[i].id)[t].children| > i
  {
    MidCreatesKids(m, t, body, i, k, completed);
    MidCreatesShape(m, t, body, i, k, completed);
  }

  lemma MidIndex(m: Trackers, t: Path, body: seq<Section>, i: nat, k: nat, completed: bool)
    requires Mid(m, t, body, i, k, completed) && i < |body| && Distinct(body)
    ensures IndexOf(m[t].children, body[i].id) == i
  {
    if i < |m[t].children| {
      IndexOfDistinct(m[t].children, i);
    } else {
      IndexOfFresh(m[t].children, body[i].id);
    }
  }

  /** Acquiring the next section of a body yields the next child position. */
  lemma MidAcquires(m: Trackers, t: Path, body: seq<Section>, i: nat, k: nat, completed: bool)
    requires Mid(m, t, body, i, k, completed) && i < |body| && Distinct(body)
    ensures forall j: nat :: j < |m[t].children| ==> Child(t, j) in m
    ensures Acquired(m, t, body[i].id) == Child(t, i)
    ensures Mid(WithChild(m, t, body[i].id), t, body, i, k, completed)
    ensures |WithChild(m, t, body[i].id)[t].children| > i
    ensures SameOutside(m, WithChild(m, t, body[i].id), t)
  {
    MidHasChildren(m, t, body, i, k, completed);
    MidIndex(m, t, body, i, k, completed);
    CreatedInside(m, t, body[i].id);
    if i == |m[t].children| {
      MidCreates(m, t, body, i, k, completed);
    }
  }

  /** The sections reported when the leaf number `k` of a body is run, and none otherwise. */
  ghost predicate Reported(body: seq<Section>, k: nat, leafRun: bool, before: seq<NameAndLocation>,
                           after: seq<NameAndLocation>) {
    if leafRun then k < LeavesIn(body) && after == before + PathsIn(body)[k] else after == before
  }

  lemma ReportedSection(body: seq<Section>, i: nat, k: nat, before: seq<NameAndLocation>)
    requires i < |body| && Before(body, i) <= k < Before(body, i) + Leaves(body[i])
    ensures Reported(body, k, true, before, before + [body[i].id] + Paths(body[i])[k - Before(body, i)])
  {
    PathInSection(body, i, k);
  }

  /** The i-th section of the body of `t` was just opened to run the leaf number `k`; `m` is
      the state before. */
  ghost predicate Entering(m: Trackers, t: Path, body: seq<Section>, i: nat, k: nat) {
    && Mid(m, t, body, i, k, false) && i < |body| && i < |m[t].children|
    && Child(t, i) in m && m[Child(t, i)].id == body[i].id
    && Before(body, i) <= k < Before(body, i) + Leaves(body[i])
    && Opened(m, Child(t, i)) == Marked(Marked(m, Child(t, i), Executing), t, ExecutingChildren)
    && Ready(Opened(m, Child(t, i)), Child(t, i), body[i].body, k - Before(body, i))
  }

  lemma MidChild(m: Trackers, t: Path, body: seq<Section>, i: nat, k: nat, completed: bool)
    requires Mid(m, t, body, i, k, completed) && i < |m[t].children|
    ensures Child(t, i) in m && m[Child(t, i)].id == body[i].id
  {
    assert Rep(m, Child(t, i), body[i], Done(body, i, if completed then k + 1 else k));
  }

  /** A section that is complete, or met after the cycle was completed, is not entered. */
  lemma MidSkips(m: Trackers, t: Path, body: seq<Section>, i: nat, k: nat, completed: bool)
    requires Mid(m, t, body, i, k, completed) && i < |m[t].children| && Child(t, i) in m
    requires completed || m[Child(t, i)].IsComplete()
    ensures Mid(m, t, body, i + 1, k, completed) && !m[Child(t, i)].IsOpen()
  {
    assert Rep(m, Child(t, i), body[i], Done(body, i, if completed then k + 1 else k));
    BeforeNext(body, i);
  }

  /** A section that is not complete holds the leaf number `k`, and opening its tracker makes
      it ready to run. */
  lemma MidEnters(m: Trackers, t: Path, body: seq<Section>, i: nat, k: nat)
    requires Mid(m, t, body, i, k, false) && i < |m[t].children| && Child(t, i) in m
    requires !m[Child(t, i)].IsComplete()
    ensures Entering(m, t, body, i, k)
  {
    var c := Child(t, i);
    var d := Done(body, i, k);
    assert Rep(m, c, body[i], d);
    OpenedUnderExecuting(m, c);
    var m2 := Opened(m, c);
    if d > 0 {
      assert Kids(m, c, body[i].body, |body[i].body|, d);
      forall j: nat | j < |body[i].body|
        ensures Rep(m2, Child(c, j), body[i].body[j], Done(body[i].body, j, d))
      {
        assert Rep(m, Child(c, j), body[i].body[j], Done(body[i].body, j, d));
        MarkedOutside(m, m2, c, j);
        RepFrame(m, m2, Child(c, j), body[i].body[j], Done(body[i].body, j, d));
      }
    }
  }

  /** Either the section is skipped or it is entered. */
  lemma MidGoesOn(m: Trackers, t: Path, body: seq<Section>, i: nat, k: nat, completed: bool)
    requires Mid(m, t, body, i, k, completed) && i < |m[t].children| && Child(t, i) in m
    ensures if completed || m[Child(t, i)].IsComplete() then
              Mid(m, t, body, i + 1, k, completed) && !m[Child(t, i)].IsOpen()
            else
              Entering(m, t, body, i, k) && Opened(m, Child(t, i))[Child(t, i)].IsOpen()
  {
    if completed || m[Child(t, i)].IsComplete() {
      MidSkips(m, t, body, i, k, completed);
    } else {
      MidChild(m, t, body, i, k, completed);
      MidEnters(m, t, body, i, k);
    }
  }

  /** Marking a tracker and its parent does not touch the subtrees below. */
  lemma MarkedOutside(m: Trackers, m2: Trackers, c: Path, j: nat)
    requires c != [] && m2.Keys == m.Keys && forall q :: q in m && q != c && q != Parent(c) ==> m2[q] == m[q]
    ensures SameWithin(m, m2, Child(c, j))
  {
  }

  /** The section just run has one more leaf done once its tracker is closed. */
  lemma ClosedSection(m: Trackers, c: Path, s: Section, k: nat)
    requires Ran(m, c, s.body, k) && m[c].id == s.id && k < Leaves(s)
    ensures Rep(Closed(m, c), c, s, k + 1)
  {
    if s.body != [] {
      KidsComplete(m, c, s.body, k + 1);
    }
  }

  lemma MidLeavesKids(m: Trackers, m3: Trackers, t: Path, body: seq<Section>, i: nat, k: nat)
    requires Entering(m, t, body, i, k) && SameOutside(Opened(m, Child(t, i)), m3, Child(t, i))
    requires Ran(m3, Child(t, i), body[i].body, k - Before(body, i)) && m3[Child(t, i)].id == body[i].id
    ensures Kids(Closed(m3, Child(t, i)), t, body, |m[t].children|, k + 1)
  {
    var c := Child(t, i);
    var m4 := Closed(m3, c);
    forall j: nat | j < |m[t].children|
      ensures Rep(m4, Child(t, j), body[j], Done(body, j, k + 1))
    {
      if j == i {
        ClosedSection(m3, c, body[i], k - Before(body, i));
      } else {
        MidSibling(m, m4, t, body, i, k, j);
      }
    }
  }

  lemma LeavesOutside(m: Trackers, m3: Trackers, t: Path, i: nat)
    requires t in m && Child(t, i) in m && Child(t, i) in m3
    requires SameOutside(Marked(Marked(m, Child(t, i), Executing), t, ExecutingChildren), m3, Child(t, i))
    ensures SameOutside(m, Closed(m3, Child(t, i)), t)
    ensures t in m3 && Closed(m3, Child(t, i))[t].id == m[t].id
  {
    assert !Within(Child(t, i), t);
    forall q | q in m && !Within(t, q)
      ensures q in m3 && Closed(m3, Child(t, i))[q] == m[q]
    {
      assert !Within(Child(t, i), q);
    }
  }

  lemma SameOutsideTransitive(a: Trackers, b: Trackers, c: Trackers, t: Path)
    requires SameOutside(a, b, t) && SameOutside(b, c, t)
    ensures SameOutside(a, c, t)
  {
  }

  /** Closing the tracker of the section just run leaves its siblings alone. */
  lemma MidLeaves(m: Trackers, m3: Trackers, t: Path, body: seq<Section>, i: nat, k: nat)
    requires Entering(m, t, body, i, k) && SameOutside(Opened(m, Child(t, i)), m3, Child(t, i))
    requires Ran(m3, Child(t, i), body[i].body, k - Before(body, i)) && m3[Child(t, i)].id == body[i].id
    ensures m3[Child(t, i)].IsOpen()
    ensures Mid(Closed(m3, Child(t, i)), t, body, i + 1, k, true)
    ensures SameOutside(m, Closed(m3, Child(t, i)), t) && Closed(m3, Child(t, i))[t].id == m[t].id
  {
    LeavesOutside(m, m3, t, i);
    MidLeavesKids(m, m3, t, body, i, k);
    BeforeNext(body, i);
    assert !Within(Child(t, i), t) && (t != [] ==> !Within(Child(t, i), Parent(t)));
  }

  lemma MidSibling(m: Trackers, m4: Trackers, t: Path, body: seq<Section>, i: nat, k: nat, j: nat)
    requires Entering(m, t, body, i, k) && SameOutside(Opened(m, Child(t, i)), m4, Child(t, i))
    requires j < |m[t].children| && j != i
    ensures Rep(m4, Child(t, j), body[j], Done(body, j, k + 1))
  {
    assert Rep(m, Child(t, j), body[j], Done(body, j, k));
    if j < i {
      BeforeNext(body, j);
      BeforeGrows(body, j + 1, i);
    } else {
      BeforeNext(body, i);
      BeforeGrows(body, i + 1, j);
    }
    assert Done(body, j, k) == Done(body, j, k + 1);
    forall q | q in m && Within(Child(t, j), q)
      ensures q in m4 && m4[q] == m[q]
    {
      assert q[|t|] == j && Child(t, i)[|t|] == i;
      assert q != t && q != Child(t, i) && !Within(Child(t, i), q);
    }
    RepFrame(m, m4, Child(t, j), body[j], Done(body, j, k));
  }

  // ----- the test case between two cycles

  /** Below the root there is nothing yet, or the tracker of the test case with `k` of its
      leaves run. */
  ghost predicate BetweenCycles(m: Trackers, s: Section, k: nat) {
    && Rooted(m) && [] in m
    && if k == 0 then m[[]].runState != ExecutingChildren && m[[]].children == []
       else m[[]].runState == ExecutingChildren && m[[]].children == [s.id] && Rep(m, Child([], 0), s, k)
  }

  /** The test case's tracker was just opened under the root. */
  ghost predicate Opening(m: Trackers, s: Section, k: nat) {
    && Ready(m, Child([], 0), s.body, k) && m[Child([], 0)].id == s.id
    && [] in m && m[[]].runState == ExecutingChildren && m[[]].children == [s.id]
  }

  /** Acquiring the test case's tracker opens it, ready to run the next leaf. */
  lemma CycleBegins(m: Trackers, s: Section, k: nat)
    requires BetweenCycles(m, s, k) && k < Leaves(s)
    ensures forall i: nat :: i < |m[[]].children| ==> Child([], i) in m
    ensures Acquired(m, [], s.id) == Child([], 0)
    ensures !WithChild(m, [], s.id)[Child([], 0)].IsComplete()
    ensures Opening(Opened(WithChild(m, [], s.id), Child([], 0)), s, k)
  {
    var c := Child([], 0);
    var m1 := WithChild(m, [], s.id);
    var m2 := Opened(m1, c);
    assert OpenedChild(Marked(m1, c, Executing), [])[c].runState == Executing;
    if k > 0 {
      assert Kids(m, c, s.body, |s.body|, k);
      forall j: nat | j < |s.body|
        ensures Rep(m2, Child(c, j), s.body[j], Done(s.body, j, k))
      {
        assert Rep(m, Child(c, j), s.body[j], Done(s.body, j, k));
        MarkedOutside(m, m2, c, j);
        RepFrame(m, m2, Child(c, j), s.body[j], Done(s.body, j, k));
      }
    }
  }

  lemma CycleEnds(start: Trackers, m: Trackers, s: Section, k: nat)
    requires k < Leaves(s) && Opening(start, s, k) && SameOutside(start, m, Child([], 0))
    requires Ran(m, Child([], 0), s.body, k) && m[Child([], 0)].id == s.id
    ensures BetweenCycles(Closed(m, Child([], 0)), s, k + 1) && m[Child([], 0)].IsOpen()
    ensures Closed(m, Child([], 0))[Child([], 0)].runState == CompletedSuccessfully <==> k + 1 == Leaves(s)
  {
    assert !Within(Child([], 0), []);
    ClosedSection(m, Child([], 0), s, k);
  }

  /** The cycles so far have run the first leaves of the test case in order. */
  ghost predicate Progress(m: Trackers, s: Section, runs: seq<seq<NameAndLocation>>, completed: bool) {
    && |runs| <= Leaves(s) && runs == Paths(s)[..|runs|]
    && completed == (|runs| == Leaves(s))
    && BetweenCycles(m, s, |runs|)
  }

  lemma ProgressBegins(m: Trackers, s: Section)
    requires BetweenCycles(m, s, 0)
    ensures Progress(m, s, [], false)
  {
    assert Paths(s)[..0] == [];
  }

  lemma ProgressStep(m: Trackers, m': Trackers, s: Section, runs: seq<seq<NameAndLocation>>,
                     path: seq<NameAndLocation>, completed: bool)
    requires Progress(m, s, runs, false) && path == Paths(s)[|runs|]
    requires BetweenCycles(m', s, |runs| + 1) && completed == (|runs| + 1 == Leaves(s))
    ensures Progress(m', s, runs + [path], completed)
  {
    assert Paths(s)[..|runs| + 1] == Paths(s)[..|runs|] + [path];
  }

  lemma ProgressEnds(m: Trackers, s: Section, runs: seq<seq<NameAndLocation>>)
    requires Progress(m, s, runs, true)
    ensures runs == Paths(s)
  {
  }
}
