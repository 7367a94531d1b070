/** Test cases as trees of sections, and the root-to-leaf paths in document order. */
module SectionTree {

  /** Section name and source location: what tells sections apart. */
  datatype NameAndLocation = NameAndLocation(name: string, file: string, line: nat)

  datatype Section = Section(id: NameAndLocation, body: seq<Section>)

  /** Sibling sections can be told apart, at every depth. */
  ghost predicate Distinct(body: seq<Section>)
    decreases body
  {
    && (forall i, j :: 0 <= i < j < |body| ==> body[i].id != body[j].id)
    && (forall i {:trigger Distinct(body[i].body)} :: 0 <= i < |body| ==> Distinct(body[i].body))
  }

  function Ids(body: seq<Section>): (ids: seq<NameAndLocation>)
    ensures |ids| == |body| && forall i :: 0 <= i < |body| ==> ids[i] == body[i].id
  {
    seq(|body|, i requires 0 <= i < |body| => body[i].id)
  }

  /** The sections entered to reach each leaf below `s`, in document order; a section without
      sections inside is a leaf. */
  ghost function Paths(s: Section): (paths: seq<seq<NameAndLocation>>)
    ensures |paths| >= 1
    decreases s, 0
  {
    if s.body == [] then [[]] else PathsIn(s.body)
  }

  ghost function PathsIn(body: seq<Section>): (paths: seq<seq<NameAndLocation>>)
    ensures |paths| >= |body|
    decreases body, 1
  {
    if body == [] then [] else
      var last := body[|body| - 1];
      PathsIn(body[..|body| - 1]) + Under(last.id, Paths(last))
  }

  /** How many leaves a section has. */
  ghost function Leaves(s: Section): nat {
    |Paths(s)|
  }

  ghost function LeavesIn(body: seq<Section>): nat {
    |PathsIn(body)|
  }

  ghost function Under(id: NameAndLocation, paths: seq<seq<NameAndLocation>>): (r: seq<seq<NameAndLocation>>)
    ensures |r| == |paths| && forall i :: 0 <= i < |r| ==> r[i] == [id] + paths[i]
  {
    seq(|paths|, i requires 0 <= i < |paths| => [id] + paths[i])
  }

  /** Leaves in the first `i` sections of a body. */
  ghost function Before(body: seq<Section>, i: nat): nat
    requires i <= |body|
  {
    LeavesIn(body[..i])
  }

  lemma BeforeNext(body: seq<Section>, i: nat)
    requires i < |body|
    ensures Before(body, i + 1) == Before(body, i) + Leaves(body[i])
  {
    assert body[..i + 1][..i] == body[..i];
  }

  lemma {:induction false} BeforeGrows(body: seq<Section>, i: nat, j: nat)
    requires i <= j <= |body|
    ensures Before(body, i) <= Before(body, j)
    decreases j - i
  {
    if i < j {
      BeforeNext(body, j - 1);
      BeforeGrows(body, i, j - 1);
    }
  }

  lemma BeforeAll(body: seq<Section>)
    ensures Before(body, |body|) == LeavesIn(body) && Before(body, 0) == 0
  {
    assert body[..|body|] == body;
  }

  /** The k-th leaf of a body is found in the section whose range of leaves contains k. */
  lemma {:induction false} PathInSection(body: seq<Section>, i: nat, k: nat)
    requires i < |body| && Before(body, i) <= k < Before(body, i) + Leaves(body[i])
    ensures k < LeavesIn(body) && PathsIn(body)[k] == [body[i].id] + Paths(body[i])[k - Before(body, i)]
    decreases |body| - i
  {
    var n := |body| - 1;
    if i < n {
      var front := body[..n];
      assert front[..i] == body[..i];
      PathInSection(front, i, k);
    }
  }
}
