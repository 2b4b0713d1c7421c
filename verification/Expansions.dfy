/** The rules stored on groups, and the checks and the patch that change them. */
module Expansions {
  import opened Outcomes
  import opened Digraph
  import opened Text
  import opened StringSlices

  type Capability = int

  datatype Group = Group(name: Name, displayName: string, managedBy: Name, number: int,
                         expansions: seq<string>, capabilities: seq<Capability>)

  type Groups = map<Name, Group>

  // ----- the rule graph -----

  predicate IsRule(e: string) {
    ':' in e && BeforeColon(e) in {"INCLUDE", "EXCLUDE"}
  }

  predicate IsRequest(e: string) {
    ':' in e && BeforeColon(e) in {"INCLUDE", "EXCLUDE", "DROP"}
  }

  predicate IsDrop(e: string) {
    BeforeColon(e) == "DROP"
  }

  function RuleTargets(exps: seq<string>): set<Name> {
    set e | e in exps && ':' in e :: AfterColon(e)
  }

  /** Each stored group points to the groups its stored rules name, whether those still exist or not. */
  function RuleGraph(groups: Groups): Graph {
    map n | n in groups :: RuleTargets(groups[n].expansions)
  }

  ghost predicate WellFormed(groups: Groups) {
    forall n :: n in groups ==> groups[n].name == n && forall e :: e in groups[n].expansions ==> IsRule(e)
  }

  /** What every step keeps: records stored under their names, rules of the two kinds, and no cycle. */
  ghost predicate Good(groups: Groups) {
    WellFormed(groups) && Acyclic(RuleGraph(groups))
  }

  lemma {:induction false} RuleEdge(groups: Groups, n: Name, e: string)
    requires n in groups && e in groups[n].expansions && ':' in e
    ensures Edge(RuleGraph(groups), n, AfterColon(e))
  {
  }

  // ----- the checks -----

  datatype Error = DuplicateGroupName | UnknownGroup | ExistingExpansion
                 | UnknownCapability | KeyExists | NoSuchKey | FailedPrecondition

  /** Looks for the candidate below g, through the remaining rules of g, with nothing remembered. */
  predicate CheckGroupCycles(groups: Groups, g: Name, exps: seq<string>, candidate: Name)
    requires Good(groups) && g in groups && forall e :: e in exps ==> e in groups[g].expansions
    decreases Rank(RuleGraph(groups), g), |exps|
  {
    if exps == [] then false
    else
      var e := exps[0];
      assert IsRule(e);
      var t := AfterColon(e);
      RuleEdge(groups, g, e);
      RanksFall(RuleGraph(groups), g);
      || t == candidate
      || t !in groups
      || CheckGroupCycles(groups, t, groups[t].expansions, candidate)
      || CheckGroupCycles(groups, g, exps[1..], candidate)
  }

  /** A group that the rules of g lead to and that cannot be loaded. */
  ghost predicate LeadsNowhere(groups: Groups, g: Name) {
    exists t :: Reaches(RuleGraph(groups), g, t) && t !in groups
  }

  /** The search says yes exactly when the candidate is below g or something below g is missing. */
  lemma {:induction false} CycleCheckExact(groups: Groups, g: Name, candidate: Name)
    requires Good(groups) && g in groups
    ensures CheckGroupCycles(groups, g, groups[g].expansions, candidate)
       <==> Reaches(RuleGraph(groups), g, candidate) || LeadsNowhere(groups, g)
    decreases Rank(RuleGraph(groups), g), |groups[g].expansions| + 1
  {
    var graph := RuleGraph(groups);
    CycleCheckRest(groups, g, groups[g].expansions, candidate);
    if CheckGroupCycles(groups, g, groups[g].expansions, candidate) {
      var e :| e in groups[g].expansions && ':' in e && FoundThrough(groups, AfterColon(e), candidate);
      RuleEdge(groups, g, e);
      var t := AfterColon(e);
      EdgeReaches(graph, g, t);
      if Reaches(graph, t, candidate) {
        ReachesTransitive(graph, g, t, candidate);
      } else if LeadsNowhere(groups, t) {
        var u :| Reaches(graph, t, u) && u !in groups;
        ReachesTransitive(graph, g, t, u);
      }
    }
    forall n | Reaches(graph, g, n) && (n == candidate || n !in groups)
      ensures CheckGroupCycles(groups, g, groups[g].expansions, candidate)
    {
      var t := FirstEdge(graph, g, n);
      var e :| e in groups[g].expansions && ':' in e && AfterColon(e) == t;
      assert FoundThrough(groups, t, candidate);
    }
  }

  ghost predicate FoundThrough(groups: Groups, t: Name, candidate: Name) {
    t == candidate || t !in groups || Reaches(RuleGraph(groups), t, candidate) || LeadsNowhere(groups, t)
  }

  ghost predicate FoundThroughAny(groups: Groups, exps: seq<string>, candidate: Name) {
    exists e :: e in exps && ':' in e && FoundThrough(groups, AfterColon(e), candidate)
  }

  lemma {:induction false} FoundFirstOrLater(groups: Groups, exps: seq<string>, candidate: Name)
    requires exps != [] && ':' in exps[0]
    ensures FoundThroughAny(groups, exps, candidate)
       <==> FoundThrough(groups, AfterColon(exps[0]), candidate) || FoundThroughAny(groups, exps[1..], candidate)
  {
    assert exps == [exps[0]] + exps[1..];
  }

  lemma {:induction false} CycleCheckRest(groups: Groups, g: Name, exps: seq<string>, candidate: Name)
    requires Good(groups) && g in groups && forall e :: e in exps ==> e in groups[g].expansions
    ensures forall e :: e in exps ==> ':' in e
    ensures CheckGroupCycles(groups, g, exps, candidate)
       <==> FoundThroughAny(groups, exps, candidate)
    decreases Rank(RuleGraph(groups), g), |exps|
  {
    if exps != [] {
      var e := exps[0];
      assert IsRule(e);
      RuleEdge(groups, g, e);
      RanksFall(RuleGraph(groups), g);
      CycleCheckRest(groups, g, exps[1..], candidate);
      if AfterColon(e) in groups {
        CycleCheckExact(groups, AfterColon(e), candidate);
      }
      FoundFirstOrLater(groups, exps, candidate);
    }
  }

  /** A proposed rule whose target occurs in a rule the group already has. */
  predicate ImmediateConflict(existing: seq<string>, requests: seq<string>) {
    exists i, k :: 0 <= i < |requests| && 0 <= k < |existing| && ProposesAgain(requests[i], existing[k])
  }

  predicate ProposesAgain(request: string, existing: string) {
    !IsDrop(request) && ':' in request && Contains(existing, AfterColon(request))
  }

  ghost predicate AllRequests(requests: seq<string>) {
    forall i :: 0 <= i < |requests| ==> IsRequest(requests[i])
  }

  /** The first proposed rule that would close a cycle, or whose target cannot be loaded. */
  function CheckExpansionCycles(groups: Groups, name: Name, requests: seq<string>): Option<Error>
    requires Good(groups) && AllRequests(requests)
  {
    if requests == [] then None
    else
      assert IsRequest(requests[0]);
      var t := AfterColon(requests[0]);
      if IsDrop(requests[0]) then CheckExpansionCycles(groups, name, requests[1..])
      else if t !in groups then Some(UnknownGroup)
      else if CheckGroupCycles(groups, t, groups[t].expansions, name) then Some(ExistingExpansion)
      else CheckExpansionCycles(groups, name, requests[1..])
  }

  function CheckExpansionTargets(groups: Groups, requests: seq<string>): Option<Error>
    requires AllRequests(requests)
  {
    if requests == [] then None
    else
      assert IsRequest(requests[0]);
      if !IsDrop(requests[0]) && AfterColon(requests[0]) !in groups then Some(UnknownGroup)
      else CheckExpansionTargets(groups, requests[1..])
  }

  lemma {:induction false} CheckErrorKinds(groups: Groups, name: Name, requests: seq<string>)
    requires Good(groups) && AllRequests(requests)
    ensures CheckExpansionCycles(groups, name, requests) in {None, Some(ExistingExpansion), Some(UnknownGroup)}
    ensures CheckExpansionTargets(groups, requests) in {None, Some(UnknownGroup)}
  {
    if requests != [] {
      assert IsRequest(requests[0]);
      CheckErrorKinds(groups, name, requests[1..]);
    }
  }

  /** A request passes the cycle check exactly when every proposed target exists, does not lead to the group
      and leads to existing groups only. */
  lemma {:induction false} CyclesPass(groups: Groups, name: Name, requests: seq<string>)
    requires Good(groups) && AllRequests(requests)
    ensures CheckExpansionCycles(groups, name, requests).None?
       <==> forall i :: 0 <= i < |requests| && !IsDrop(requests[i]) ==> SafeTarget(groups, name, requests[i])
  {
    if requests != [] {
      assert IsRequest(requests[0]);
      var t := AfterColon(requests[0]);
      CyclesPass(groups, name, requests[1..]);
      if t in groups {
        CycleCheckExact(groups, t, name);
      }
      assert forall i :: 0 < i < |requests| ==> requests[i] == requests[1..][i - 1];
    }
  }

  /** The first proposed rule that is not safe decides the error: its target is missing, or the rule would close a
      cycle or lead to a missing group. */
  lemma {:induction false} FirstUnsafeDecides(groups: Groups, name: Name, requests: seq<string>, i: nat)
    requires Good(groups) && AllRequests(requests) && i < |requests|
    requires forall j :: 0 <= j < i ==> IsDrop(requests[j]) || SafeTarget(groups, name, requests[j])
    requires ':' in requests[i] && !IsDrop(requests[i]) && !SafeTarget(groups, name, requests[i])
    ensures CheckExpansionCycles(groups, name, requests)
         == Some(if AfterColon(requests[i]) in groups then ExistingExpansion else UnknownGroup)
  {
    assert IsRequest(requests[0]);
    var t := AfterColon(requests[0]);
    if t in groups {
      CycleCheckExact(groups, t, name);
    }
    if i > 0 {
      assert forall j :: 0 < j < |requests| ==> requests[j] == requests[1..][j - 1];
      FirstUnsafeDecides(groups, name, requests[1..], i - 1);
    }
  }

  ghost predicate SafeTarget(groups: Groups, name: Name, request: string) {
    ':' in request &&
    var t := AfterColon(request);
    t in groups && !Reaches(RuleGraph(groups), t, name) && !LeadsNowhere(groups, t)
  }

  // ----- the patch -----

  ghost function PatchOne(s: set<string>, e: string): set<string>
    requires IsRequest(e)
  {
    if IsDrop(e) then PatchedSet(s, AfterColon(e), false, false) else PatchedSet(s, e, true, true)
  }

  /** The rules after the requests are applied one after the other. */
  ghost function PatchedRules(s: set<string>, requests: seq<string>): set<string>
    requires AllRequests(requests)
  {
    if requests == [] then s
    else PatchOne(PatchedRules(s, requests[..|requests| - 1]), requests[|requests| - 1])
  }

  ghost function SortSeq(q: seq<string>): (r: seq<string>)
    ensures Sorted(r) && multiset(r) == multiset(q)
  {
    if q == [] then []
    else
      assert q == [q[0]] + q[1..];
      InsertSorts(q[0], SortSeq(q[1..]));
      Insert(q[0], SortSeq(q[1..]))
  }

  ghost function PatchSpec(exps: seq<string>, requests: seq<string>): seq<string>
    requires AllRequests(requests)
  {
    if requests == [] then SortSeq(exps) else SortSet(PatchedRules(Elements(exps), requests))
  }

  /** Applies the requested rules to those of a group. */
  method PatchGroupExpansions(exps: seq<string>, requests: seq<string>) returns (out: seq<string>)
    requires AllRequests(requests)
    ensures out == PatchSpec(exps, requests)
  {
    out := exps;
    for i := 0 to |requests|
      invariant AllRequests(requests[..i])
      invariant Elements(out) == PatchedRules(Elements(exps), requests[..i])
      invariant if i == 0 then out == exps else Distinct(out)
    {
      assert requests[..i + 1][..i] == requests[..i];
      if BeforeColon(requests[i]) == "INCLUDE" || BeforeColon(requests[i]) == "EXCLUDE" {
        out := PatchStringSlice(out, requests[i], true, true);
      } else if BeforeColon(requests[i]) == "DROP" {
        out := PatchStringSlice(out, AfterColon(requests[i]), false, false);
      }
    }
    assert requests[..|requests|] == requests;
    var sorted := SortStrings(out);
    SameElements(out, sorted);
    if requests == [] {
      SortedUnique(sorted, SortSeq(exps));
    } else {
      SortSetUnique(sorted, PatchedRules(Elements(exps), requests));
    }
    out := sorted;
  }

  /** A patch invents no rules: each was there or is requested. */
  lemma {:induction false} PatchedFrom(s: set<string>, requests: seq<string>, e: string)
    requires AllRequests(requests) && e in PatchedRules(s, requests)
    ensures e in s || exists i :: 0 <= i < |requests| && requests[i] == e && !IsDrop(e)
  {
    if requests != [] {
      var init, last := requests[..|requests| - 1], requests[|requests| - 1];
      assert AllRequests(init);
      if e in PatchedRules(s, init) {
        PatchedFrom(s, init, e);
        if i :| 0 <= i < |init| && init[i] == e && !IsDrop(e) {
          assert requests[i] == e;
        }
      }
    }
  }

  lemma {:induction false} PatchSpecFrom(exps: seq<string>, requests: seq<string>, e: string)
    requires AllRequests(requests) && e in PatchSpec(exps, requests)
    ensures e in exps || exists i :: 0 <= i < |requests| && requests[i] == e && !IsDrop(e)
  {
    if requests == [] {
      SameElements(exps, SortSeq(exps));
      assert e in Elements(SortSeq(exps));
    } else {
      assert e in Elements(PatchSpec(exps, requests));
      PatchedFrom(Elements(exps), requests, e);
    }
  }
}
