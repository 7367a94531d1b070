/** Running a test case again and again until every leaf section has been run: the tracker
    context, the section calls made by the test body, and the loop of `runTest`. */
module RunContext {
  import opened SectionTree
  import opened Tracking

  const ROOT: NameAndLocation := NameAndLocation("{root}", "", 0)

  class RunContext {
    var trackers: Trackers
    var current: Path
    var completedCycle: bool
    var activeSections: seq<Path>
    /** The sections entered in this cycle, as reported to the reporter. */
    var entered: seq<NameAndLocation>
    /** Set where the code raises an internal error: closing a tracker that is not open. */
    var illogical: bool

    constructor ()
      ensures fresh(this)
    {
      trackers, current, completedCycle, activeSections, entered, illogical := map[], [], false, [], [], false;
    }

    // ----- trackers

    method FindChild(id: NameAndLocation) returns (i: nat)
      requires current in trackers
      ensures i == IndexOf(trackers[current].children, id)
    {
      var children := trackers[current].children;
      i := 0;
      while i < |children|
        invariant i <= |children| && IndexOf(children, id) == i + IndexOf(children[i..], id)
      {
        if children[i] == id {
          return;
        }
        assert children[i..][1..] == children[i + 1..];
        i := i + 1;
      }
    }

    method OpenChild(t: Path)
      requires Rooted(trackers) && t in trackers
      modifies this`trackers
      ensures trackers == OpenedChild(old(trackers), t)
      ensures trackers.Keys == old(trackers).Keys
      ensures forall q {:trigger trackers[q]} :: q in trackers ==>
                trackers[q] == if Climbs(old(trackers), t, q) then old(trackers)[q].(runState := ExecutingChildren)
                               else old(trackers)[q]
      decreases |t|
    {
      forall q | q in trackers
        ensures OpenedChild(trackers, t)[q] ==
                if Climbs(trackers, t, q) then trackers[q].(runState := ExecutingChildren) else trackers[q]
      {
        OpenedChildIs(trackers, t, q);
      }
      if trackers[t].runState != ExecutingChildren {
        trackers := Marked(trackers, t, ExecutingChildren);
        if t != [] {
          OpenChild(Parent(t));
        }
      }
    }

    method Open(t: Path)
      requires Rooted(trackers) && t in trackers
      modifies this`trackers, this`current
      ensures trackers == Opened(old(trackers), t) && current == t
    {
      trackers := Marked(trackers, t, Executing);
      current := t;
      if t != [] {
        OpenChild(Parent(t));
      }
    }

    /** Close the current tracker and complete the cycle. */
    method Close(t: Path)
      requires t in trackers && t == current && t != []
      modifies this`trackers, this`current, this`completedCycle, this`illogical
      ensures trackers == Closed(old(trackers), t)
      ensures current == Parent(t) && completedCycle
      ensures illogical == (old(illogical) || !old(trackers)[t].IsOpen())
    {
      match trackers[t].runState {
        case NeedsAnotherRun =>
        case Executing =>
          trackers := Marked(trackers, t, CompletedSuccessfully);
        case ExecutingChildren =>
          if AllChildrenComplete(trackers, t) {
            trackers := Marked(trackers, t, CompletedSuccessfully);
          }
        case NotStarted => illogical := true;
        case CompletedSuccessfully => illogical := true;
        case Failed => illogical := true;
      }
      current := Parent(t);
      completedCycle := true;
    }

    /** Find or create the child of the current tracker; open it if the cycle goes on and it
        is not complete. */
    method Acquire(id: NameAndLocation) returns (t: Path)
      requires Rooted(trackers) && current in trackers
      requires forall i: nat :: i < |trackers[current].children| ==> Child(current, i) in trackers
      modifies this`trackers, this`current
      ensures t == Acquired(old(trackers), old(current), id)
      ensures var m := WithChild(old(trackers), old(current), id);
              if completedCycle || m[t].IsComplete() then trackers == m && current == old(current)
              else trackers == Opened(m, t) && current == t
    {
      var i := FindChild(id);
      t := Child(current, i);
      trackers := WithChild(trackers, current, id);
      if !completedCycle {
        if !trackers[t].IsComplete() {
          Open(t);
        }
      }
    }

    // ----- sections

    method SectionStarted(id: NameAndLocation) returns (enter: bool)
      requires Rooted(trackers) && current in trackers
      requires forall i: nat :: i < |trackers[current].children| ==> Child(current, i) in trackers
      modifies this`trackers, this`current, this`activeSections, this`entered
      ensures var t := Acquired(old(trackers), old(current), id);
              var m := WithChild(old(trackers), old(current), id);
              && (if completedCycle || m[t].IsComplete() then trackers == m && current == old(current)
                  else trackers == Opened(m, t) && current == t)
              && enter == (t in trackers && trackers[t].IsOpen())
              && activeSections == (if enter then old(activeSections) + [t] else old(activeSections))
      ensures entered == (if enter then old(entered) + [id] else old(entered))
    {
      var t := Acquire(id);
      enter := trackers[t].IsOpen();
      if enter {
        activeSections := activeSections + [t];
        entered := entered + [id];
      }
    }

    method SectionEnded()
      requires activeSections != [] && activeSections[|activeSections| - 1] == current
      requires current in trackers && current != []
      modifies this`trackers, this`current, this`completedCycle, this`illogical, this`activeSections
      ensures activeSections == old(activeSections)[..|old(activeSections)| - 1]
      ensures current == Parent(old(current)) && completedCycle
      ensures illogical == (old(illogical) || !old(trackers)[old(current)].IsOpen())
      ensures trackers == Closed(old(trackers), old(current))
    {
      Close(activeSections[|activeSections| - 1]);
      activeSections := activeSections[..|activeSections| - 1];
    }

    // ----- the test body and the cycles

    /** Run and end the section that was just entered. */
    method RunEntered(body: seq<Section>, i: nat, ghost k: nat, ghost t: Path, ghost m: Trackers)
      requires Distinct(body) && Entering(m, t, body, i, k)
      requires current == Child(t, i) && trackers == Opened(m, current) && !completedCycle
      requires activeSections != [] && activeSections[|activeSections| - 1] == current
      modifies this
      ensures Mid(trackers, t, body, i + 1, k, true) && completedCycle
      ensures current == t && activeSections == old(activeSections)[..|old(activeSections)| - 1]
      ensures illogical == old(illogical)
      ensures SameOutside(m, trackers, t) && trackers[t].id == m[t].id
      ensures entered == old(entered) + Paths(body[i])[k - Before(body, i)]
      decreases body, 0, 0
    {
      RunBody(body[i].body, k - Before(body, i));
      MidLeaves(m, trackers, t, body, i, k);
      SectionEnded();
    }

    /** What a SECTION does in the test body: the i-th section of the body that runs under the
        current tracker. */
    method RunSection(body: seq<Section>, i: nat, ghost k: nat)
      requires i < |body| && Distinct(body) && Mid(trackers, current, body, i, k, completedCycle)
      modifies this
      ensures Mid(trackers, current, body, i + 1, k, completedCycle)
      ensures current == old(current) && activeSections == old(activeSections) && illogical == old(illogical)
      ensures SameOutside(old(trackers), trackers, current) && trackers[current].id == old(trackers)[current].id
      ensures old(completedCycle) ==> completedCycle
      ensures Reported(body, k, completedCycle && !old(completedCycle), old(entered), entered)
      decreases body, 0, 1
    {
      ghost var t := current;
      MidAcquires(trackers, t, body, i, k, completedCycle);
      ghost var m := WithChild(trackers, t, body[i].id);
      MidChild(m, t, body, i, k, completedCycle);
      MidGoesOn(m, t, body, i, k, completedCycle);
      var enter := SectionStarted(body[i].id);
      if enter {
        ReportedSection(body, i, k, old(entered));
        RunEntered(body, i, k, t, m);
      }
      SameOutsideTransitive(old(trackers), m, trackers, t);
    }

    /** Run the body of the current tracker. */
    method RunBody(body: seq<Section>, ghost k: nat)
      requires Ready(trackers, current, body, k) && Distinct(body) && !completedCycle
      modifies this
      ensures Ran(trackers, current, body, k) && completedCycle == (body != [])
      ensures current == old(current) && activeSections == old(activeSections) && illogical == old(illogical)
      ensures SameOutside(old(trackers), trackers, current) && trackers[current].id == old(trackers)[current].id
      ensures Reported(body, k, completedCycle, old(entered), entered)
      decreases body, 1
    {
      ReadyIsMid(trackers, current, body, k);
      for i := 0 to |body|
        invariant Mid(trackers, current, body, i, k, completedCycle)
        invariant current == old(current) && activeSections == old(activeSections) && illogical == old(illogical)
        invariant SameOutside(old(trackers), trackers, current) && trackers[current].id == old(trackers)[current].id
        invariant Reported(body, k, completedCycle, old(entered), entered)
      {
        RunSection(body, i, k);
      }
      MidIsRan(trackers, current, body, k, completedCycle);
    }

    /** Start over with the root tracker only; no cycle of any test case has been run. */
    method StartRun()
      modifies this
      ensures trackers.Keys == {[]} && trackers[[]].runState == NotStarted && !completedCycle
      ensures forall testCase {:trigger BetweenCycles(trackers, testCase, 0)} :: BetweenCycles(trackers, testCase, 0)
      ensures activeSections == old(activeSections) && illogical == old(illogical)
    {
      trackers := map[[] := Tracker(ROOT, NotStarted, [])];
      completedCycle := false;
    }

    /** Start a cycle at the root and open the test case's tracker. */
    method StartCycle(testCase: Section, ghost k: nat) returns (testCaseTracker: Path)
      requires BetweenCycles(trackers, testCase, k) && k < Leaves(testCase)
      modifies this
      ensures testCaseTracker == current == Child([], 0) && !completedCycle && entered == []
      ensures Opening(trackers, testCase, k)
      ensures activeSections == old(activeSections) && illogical == old(illogical)
    {
      current, completedCycle, entered := [], false, [];
      CycleBegins(trackers, testCase, k);
      testCaseTracker := Acquire(testCase.id);
    }

    /** One cycle: run the test case once from the top. */
    method RunCycle(testCase: Section, ghost k: nat) returns (completed: bool)
      requires BetweenCycles(trackers, testCase, k) && k < Leaves(testCase) && Distinct(testCase.body)
      modifies this
      ensures BetweenCycles(trackers, testCase, k + 1)
      ensures completed == (k + 1 == Leaves(testCase))
      ensures entered == Paths(testCase)[k]
      ensures activeSections == old(activeSections) && illogical == old(illogical)
    {
      var testCaseTracker := StartCycle(testCase, k);
      ghost var start := trackers;
      RunBody(testCase.body, k);
      CycleEnds(start, trackers, testCase, k);
      Close(testCaseTracker);
      completed := trackers[testCaseTracker].runState == CompletedSuccessfully;
    }

    /** Run the test case until it is complete: one cycle for every leaf section, in document
        order, each entering exactly the sections on the way to its leaf; no tracker is ever
        closed that is not open. */
    method RunTest(testCase: Section) returns (runs: seq<seq<NameAndLocation>>)
      requires Distinct(testCase.body)
      modifies this
      ensures runs == Paths(testCase)
      ensures activeSections == old(activeSections) && illogical == old(illogical)
    {
      StartRun();
      runs := [];
      var completed := false;
      ProgressBegins(trackers, testCase);
      while !completed
        invariant Progress(trackers, testCase, runs, completed)
        invariant activeSections == old(activeSections) && illogical == old(illogical)
        decreases Leaves(testCase) - |runs|
      {
        ghost var before := trackers;
        completed := RunCycle(testCase, |runs|);
        ProgressStep(before, trackers, testCase, runs, entered, completed);
        runs := runs + [entered];
      }
      ProgressEnds(trackers, testCase, runs);
    }
  }
}
