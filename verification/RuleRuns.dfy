/** Runs of changes to the stored groups: which of them keep the rule graph free of cycles. */
module RuleRuns {
  import opened Outcomes
  import opened Digraph
  import opened Text
  import opened StringSlices
  import opened Expansions
  import opened GroupHooks
  import opened HookChains

  /** The stored groups after an accepted request. */
  ghost function Modified(groups: Groups, rq: Request): Groups
    requires rq.name in groups && AllRequests(rq.expansions)
  {
    groups[rq.name := groups[rq.name].(expansions := SavedExpansions(groups, rq))]
  }

  lemma {:induction false} ModifiedWellFormed(groups: Groups, rq: Request)
    requires Good(groups) && AllRequests(rq.expansions) && rq.name in groups
    ensures WellFormed(Modified(groups, rq))
    ensures GrowsAt(RuleGraph(groups), RuleGraph(Modified(groups, rq)), rq.name)
  {
    forall e | e in SavedExpansions(groups, rq) ensures IsRule(e) {
      PatchSpecFrom(groups[rq.name].expansions, rq.expansions, e);
    }
  }

  lemma {:induction false} NewEdgeSafe(groups: Groups, rq: Request, t: Name)
    requires Good(groups) && AllRequests(rq.expansions) && Accepted(groups, rq)
    requires Edge(RuleGraph(Modified(groups, rq)), rq.name, t)
    ensures !Reaches(RuleGraph(groups), t, rq.name)
  {
    var graph := RuleGraph(groups);
    var e :| e in SavedExpansions(groups, rq) && ':' in e && AfterColon(e) == t;
    PatchSpecFrom(groups[rq.name].expansions, rq.expansions, e);
    if e in groups[rq.name].expansions {
      RuleEdge(groups, rq.name, e);
      EdgeReaches(graph, rq.name, t);
      if Reaches(graph, t, rq.name) {
        ReachesTransitive(graph, rq.name, t, rq.name);
      }
    } else {
      CyclesPass(groups, rq.name, rq.expansions);
      var i :| 0 <= i < |rq.expansions| && rq.expansions[i] == e && !IsDrop(e);
      assert SafeTarget(groups, rq.name, rq.expansions[i]);
    }
  }

  /** An accepted request, with any number of rules in it, keeps the stored rules acyclic exactly when it
      leaves the group without a rule that names the group itself: that is the one cycle the check misses. */
  lemma {:induction false} AcceptedKeepsAcyclic(groups: Groups, rq: Request)
    requires Good(groups) && AllRequests(rq.expansions) && Accepted(groups, rq)
    ensures Good(Modified(groups, rq)) <==> rq.name !in RuleTargets(SavedExpansions(groups, rq))
  {
    var g, h := RuleGraph(groups), RuleGraph(Modified(groups, rq));
    ModifiedWellFormed(groups, rq);
    GrowAcyclic(g, h, rq.name);
    forall t | Edge(h, rq.name, t) ensures !Reaches(g, t, rq.name) {
      NewEdgeSafe(groups, rq, t);
    }
    assert Edge(h, rq.name, rq.name) <==> rq.name in RuleTargets(SavedExpansions(groups, rq));
  }

  lemma {:induction false} NoSelfRule(groups: Groups, n: Name)
    requires Good(groups) && n in groups
    ensures n !in RuleTargets(groups[n].expansions)
  {
    if n in RuleTargets(groups[n].expansions) {
      assert Edge(RuleGraph(groups), n, n);
      EdgeReaches(RuleGraph(groups), n, n);
    }
  }

  // ----- what a request leaves, told from the request -----

  /** The i-th request proposes a rule, and no later request of the list drops it: drops match substrings. */
  ghost predicate Stays(requests: seq<string>, i: nat)
    requires i < |requests|
  {
    !IsDrop(requests[i]) && Undropped(requests[i + 1..], requests[i])
  }

  ghost predicate Undropped(requests: seq<string>, e: string) {
    forall j :: 0 <= j < |requests| && IsDrop(requests[j]) && ':' in requests[j] ==> !Contains(e, AfterColon(requests[j]))
  }

  ghost predicate Asked(requests: seq<string>, e: string) {
    exists i :: 0 <= i < |requests| && requests[i] == e && Stays(requests, i)
  }

  lemma {:induction false} UndroppedNext(init: seq<string>, last: string, e: string)
    requires IsRequest(last)
    ensures Undropped(init + [last], e) <==> Undropped(init, e) && (IsDrop(last) ==> !Contains(e, AfterColon(last)))
  {
    var requests := init + [last];
    assert requests[|init|] == last && forall j :: 0 <= j < |init| ==> requests[j] == init[j];
  }

  lemma {:induction false} AskedNext(init: seq<string>, last: string, e: string)
    requires IsRequest(last)
    ensures Asked(init + [last], e)
       <==> (!IsDrop(last) && last == e) || (Asked(init, e) && (IsDrop(last) ==> !Contains(e, AfterColon(last))))
  {
    var requests := init + [last];
    forall i | 0 <= i < |init| && init[i] == e
      ensures requests[i] == e
      ensures Stays(requests, i) <==> Stays(init, i) && (IsDrop(last) ==> !Contains(e, AfterColon(last)))
    {
      assert requests[i + 1..] == init[i + 1..] + [last];
      UndroppedNext(init[i + 1..], last, e);
    }
    assert requests[|init|] == last && requests[|init| + 1..] == [];
    if !IsDrop(last) && last == e {
      assert Stays(requests, |init|);
    }
    if i :| 0 <= i < |requests| && requests[i] == e && Stays(requests, i) && i < |init| {
      assert init[i] == e;
    }
  }

  /** The patched rules are the old ones that no request drops, and the proposed ones that no later one does. */
  lemma {:induction false} PatchedExactly(s: set<string>, requests: seq<string>, e: string)
    requires AllRequests(requests) && e != ""
    ensures e in PatchedRules(s, requests) <==> (e in s && Undropped(requests, e)) || Asked(requests, e)
  {
    if requests != [] {
      var init, last := requests[..|requests| - 1], requests[|requests| - 1];
      assert requests == init + [last] && AllRequests(init) && IsRequest(last);
      PatchedExactly(s, init, e);
      PatchOneExactly(PatchedRules(s, init), last, e);
      UndroppedNext(init, last, e);
      AskedNext(init, last, e);
    }
  }

  lemma {:induction false} PatchOneExactly(s: set<string>, request: string, e: string)
    requires IsRequest(request) && e != ""
    ensures e in PatchOne(s, request)
       <==> if IsDrop(request) then e in s && !Contains(e, AfterColon(request)) else e in s || e == request
  {
  }

  lemma {:induction false} SavedElements(exps: seq<string>, requests: seq<string>)
    requires AllRequests(requests)
    ensures Elements(PatchSpec(exps, requests)) == PatchedRules(Elements(exps), requests)
  {
    if requests == [] {
      SameElements(exps, SortSeq(exps));
    }
  }

  /** A request proposes a rule of the group that names the group, and does not drop it again. */
  ghost predicate AsksSelfRule(rq: Request) {
    exists e :: Asked(rq.expansions, e) && ':' in e && AfterColon(e) == rq.name
  }

  lemma {:induction false} SelfRuleAsked(groups: Groups, rq: Request)
    requires Good(groups) && AllRequests(rq.expansions) && rq.name in groups
    ensures rq.name in RuleTargets(SavedExpansions(groups, rq)) <==> AsksSelfRule(rq)
  {
    var exps := groups[rq.name].expansions;
    NoSelfRule(groups, rq.name);
    SavedElements(exps, rq.expansions);
    forall e | ':' in e && AfterColon(e) == rq.name
      ensures e in SavedExpansions(groups, rq) <==> Asked(rq.expansions, e)
    {
      PatchedExactly(Elements(exps), rq.expansions, e);
      assert e in SavedExpansions(groups, rq) <==> e in Elements(SavedExpansions(groups, rq));
    }
  }

  /** The caller can tell from the request: an accepted one keeps the rules acyclic exactly when it asks for no
      rule from the group to itself, or drops it again. */
  lemma {:induction false} RequestKeepsAcyclic(groups: Groups, rq: Request)
    requires Good(groups) && AllRequests(rq.expansions) && Accepted(groups, rq)
    ensures Good(Modified(groups, rq)) <==> !AsksSelfRule(rq)
  {
    AcceptedKeepsAcyclic(groups, rq);
    SelfRuleAsked(groups, rq);
  }

  /** No proposed rule names the group it is for. */
  ghost predicate TargetsOthers(rq: Request) {
    forall i :: 0 <= i < |rq.expansions| && ':' in rq.expansions[i] && !IsDrop(rq.expansions[i])
      ==> AfterColon(rq.expansions[i]) != rq.name
  }

  lemma {:induction false} TargetsOthersAsk(rq: Request)
    requires TargetsOthers(rq)
    ensures !AsksSelfRule(rq)
  {
  }

  /** For the requests that callers make, one rule at a time: exactly when it drops a rule or names another
      group. */
  lemma {:induction false} SingleRuleKeepsAcyclic(groups: Groups, rq: Request, e: string)
    requires Good(groups) && rq.expansions == [e] && IsRequest(e) && Accepted(groups, rq)
    ensures Good(Modified(groups, rq)) <==> IsDrop(e) || AfterColon(e) != rq.name
  {
    RequestKeepsAcyclic(groups, rq);
    assert rq.expansions[0] == e && rq.expansions[1..] == [];
    if !IsDrop(e) {
      assert Stays(rq.expansions, 0) && Asked(rq.expansions, e);
    }
  }

  lemma {:induction false} SavedSingle(groups: Groups, rq: Request, e: string)
    requires rq.name in groups && rq.expansions == [e] && IsRequest(e)
    ensures Elements(SavedExpansions(groups, rq)) == PatchOne(Elements(groups[rq.name].expansions), e)
    ensures !IsDrop(e) ==> e in Elements(SavedExpansions(groups, rq))
  {
    assert rq.expansions[..0] == [];
    assert PatchedRules(Elements(groups[rq.name].expansions), rq.expansions[..0]) == Elements(groups[rq.name].expansions);
  }

  lemma {:induction false} RuleString(mode: string, t: Name)
    requires mode in {"INCLUDE", "EXCLUDE"}
    ensures IsRequest(WithColon(mode, t)) && !IsDrop(WithColon(mode, t)) && IsRule(WithColon(mode, t))
    ensures AfterColon(WithColon(mode, t)) == t && Contains(WithColon(mode, t), t)
  {
    CutWithColon(mode, t);
    assert OccursAt(WithColon(mode, t), t, |mode| + 1);
  }

  lemma {:induction false} DropString(t: Name)
    ensures IsRequest(WithColon("DROP", t)) && IsDrop(WithColon("DROP", t)) && AfterColon(WithColon("DROP", t)) == t
  {
    CutWithColon("DROP", t);
  }

  // ----- when a request is accepted, and what it leaves, by the stored strings -----

  /** A stored group points to exactly the groups that one of its rules includes or excludes. */
  lemma {:induction false} RuleGraphSpelled(groups: Groups, a: Name, b: Name)
    requires WellFormed(groups)
    ensures Edge(RuleGraph(groups), a, b)
       <==> a in groups
            && (WithColon("INCLUDE", b) in groups[a].expansions || WithColon("EXCLUDE", b) in groups[a].expansions)
  {
    RuleString("INCLUDE", b);
    RuleString("EXCLUDE", b);
    if Edge(RuleGraph(groups), a, b) {
      var e :| e in groups[a].expansions && ':' in e && AfterColon(e) == b;
      ColonJoins(e);
      assert IsRule(e);
    }
  }

  /** What has to hold of a proposed rule: its target is stored, occurs in no rule of the group, does not lead to
      the group and leads to stored groups only. Drops are not looked at. */
  ghost predicate Addable(groups: Groups, name: Name, request: string)
    requires name in groups
  {
    ':' in request && BeforeColon(request) != "DROP" ==>
      var t := AfterColon(request);
      && t in groups
      && (forall e :: e in groups[name].expansions ==> !Contains(e, t))
      && !Reaches(RuleGraph(groups), t, name)
      && (forall u :: Reaches(RuleGraph(groups), t, u) ==> u in groups)
  }

  lemma {:induction false} ConflictExactly(existing: seq<string>, requests: seq<string>)
    ensures !ImmediateConflict(existing, requests)
       <==> forall i :: 0 <= i < |requests| && ':' in requests[i] && BeforeColon(requests[i]) != "DROP" ==>
              forall e :: e in existing ==> !Contains(e, AfterColon(requests[i]))
  {
    forall i | 0 <= i < |requests| && ':' in requests[i] && BeforeColon(requests[i]) != "DROP"
      ensures (exists e :: e in existing && Contains(e, AfterColon(requests[i])))
         <==> exists k :: 0 <= k < |existing| && ProposesAgain(requests[i], existing[k])
    {
      if k :| 0 <= k < |existing| && Contains(existing[k], AfterColon(requests[i])) {
        assert ProposesAgain(requests[i], existing[k]) && existing[k] in existing;
      }
    }
  }

  lemma {:induction false} TargetsExactly(groups: Groups, requests: seq<string>)
    requires AllRequests(requests)
    ensures Expansions.CheckExpansionTargets(groups, requests).None?
       <==> forall i :: 0 <= i < |requests| && ':' in requests[i] && BeforeColon(requests[i]) != "DROP" ==>
              AfterColon(requests[i]) in groups
  {
    if requests != [] {
      TargetsExactly(groups, requests[1..]);
      assert IsRequest(requests[0]);
      assert forall i :: 0 < i < |requests| ==> requests[i] == requests[1..][i - 1];
    }
  }

  /** A request is accepted exactly when its group is stored and every rule that it proposes may be added. */
  lemma {:induction false} AcceptedExactly(groups: Groups, rq: Request)
    requires Good(groups) && AllRequests(rq.expansions)
    ensures Accepted(groups, rq)
       <==> rq.name in groups && forall i :: 0 <= i < |rq.expansions| ==> Addable(groups, rq.name, rq.expansions[i])
  {
    if rq.name in groups {
      ConflictExactly(groups[rq.name].expansions, rq.expansions);
      TargetsExactly(groups, rq.expansions);
      CyclesPass(groups, rq.name, rq.expansions);
      forall i | 0 <= i < |rq.expansions|
        ensures Addable(groups, rq.name, rq.expansions[i])
           <==> IsDrop(rq.expansions[i])
                || (SafeTarget(groups, rq.name, rq.expansions[i])
                    && forall e :: e in groups[rq.name].expansions ==> !Contains(e, AfterColon(rq.expansions[i])))
      {
        assert IsRequest(rq.expansions[i]);
      }
    }
  }

  /** The rules that a request leaves, each once and in order: the old ones that nothing drops and those proposed
      that nothing later drops. */
  lemma {:induction false} SavedExactly(groups: Groups, rq: Request, e: string)
    requires Good(groups) && AllRequests(rq.expansions) && rq.name in groups
    ensures e in SavedExpansions(groups, rq)
       <==> (e in groups[rq.name].expansions && Undropped(rq.expansions, e)) || Asked(rq.expansions, e)
  {
    var exps := groups[rq.name].expansions;
    SavedElements(exps, rq.expansions);
    assert e in SavedExpansions(groups, rq) <==> e in Elements(SavedExpansions(groups, rq));
    if e != "" {
      PatchedExactly(Elements(exps), rq.expansions, e);
    } else {
      if e in SavedExpansions(groups, rq) {
        PatchSpecFrom(exps, rq.expansions, e);
      }
      assert forall i :: 0 <= i < |rq.expansions| ==> IsRequest(rq.expansions[i]);
      assert forall x :: x in exps ==> IsRule(x);
    }
  }

  /** The stored rules are in order; each is there once after any change, and as often as before after none. */
  lemma {:induction false} SavedInOrder(groups: Groups, rq: Request)
    requires AllRequests(rq.expansions) && rq.name in groups
    ensures Sorted(SavedExpansions(groups, rq))
    ensures rq.expansions != [] ==> Distinct(SavedExpansions(groups, rq))
    ensures rq.expansions == [] ==> multiset(SavedExpansions(groups, rq)) == multiset(groups[rq.name].expansions)
  {
  }

  lemma {:induction false} OneRequest(e: string, x: string)
    requires IsRequest(e)
    ensures Undropped([e], x) <==> BeforeColon(e) == "DROP" ==> !Contains(x, AfterColon(e))
    ensures Asked([e], x) <==> BeforeColon(e) != "DROP" && x == e
  {
    UndroppedNext([], e, x);
    AskedNext([], e, x);
    assert [] + [e] == [e];
  }

  /** Dropping is always accepted for a stored group, and takes out exactly the rules with the target in them. */
  lemma {:induction false} DropExactly(groups: Groups, rq: Request, t: Name)
    requires Good(groups) && rq.expansions == [WithColon("DROP", t)]
    ensures AllRequests(rq.expansions) && (Accepted(groups, rq) <==> rq.name in groups)
    ensures rq.name in groups ==>
              forall e :: e in SavedExpansions(groups, rq) <==> e in groups[rq.name].expansions && !Contains(e, t)
  {
    DropString(t);
    assert rq.expansions[0] == WithColon("DROP", t);
    AcceptedExactly(groups, rq);
    if rq.name in groups {
      forall e ensures e in SavedExpansions(groups, rq) <==> e in groups[rq.name].expansions && !Contains(e, t) {
        SavedExactly(groups, rq, e);
        OneRequest(WithColon("DROP", t), e);
      }
    }
  }

  /** Adding one rule: when it is accepted, and that it is then the one new rule. */
  lemma {:induction false} AddExactly(groups: Groups, rq: Request, mode: string, t: Name)
    requires Good(groups) && mode in {"INCLUDE", "EXCLUDE"} && rq.expansions == [WithColon(mode, t)]
    ensures AllRequests(rq.expansions)
    ensures Accepted(groups, rq)
       <==> && rq.name in groups && t in groups
            && (forall e :: e in groups[rq.name].expansions ==> !Contains(e, t))
            && !Reaches(RuleGraph(groups), t, rq.name)
            && (forall u :: Reaches(RuleGraph(groups), t, u) ==> u in groups)
    ensures rq.name in groups ==>
              forall e :: e in SavedExpansions(groups, rq) <==> e in groups[rq.name].expansions || e == WithColon(mode, t)
  {
    RuleString(mode, t);
    CutWithColon(mode, t);
    assert rq.expansions[0] == WithColon(mode, t);
    AcceptedExactly(groups, rq);
    if rq.name in groups {
      forall e ensures e in SavedExpansions(groups, rq) <==> e in groups[rq.name].expansions || e == WithColon(mode, t) {
        SavedExactly(groups, rq, e);
        OneRequest(WithColon(mode, t), e);
      }
    }
  }

  /** What a check can object to in one rule: with a stored target only that it exists or closes a cycle, and with
      a missing one that occurs in no rule of the group only that. */
  lemma {:induction false} AddErrors(groups: Groups, rq: Request, mode: string, t: Name, h: GroupHook)
    requires Good(groups) && mode in {"INCLUDE", "EXCLUDE"} && rq.expansions == [WithColon(mode, t)]
    requires rq.name in groups && OnlyChecks(h)
    ensures AllRequests(rq.expansions)
    ensures t in groups ==> CheckError(h, rq, groups) in {None, Some(ExistingExpansion)}
    ensures t !in groups && (forall e :: e in groups[rq.name].expansions ==> !Contains(e, t)) ==>
              CheckError(h, rq, groups) in {None, Some(UnknownGroup)}
  {
    RuleString(mode, t);
    var requests := rq.expansions;
    assert requests[0] == WithColon(mode, t);
    CheckErrorKinds(groups, rq.name, requests);
    ConflictExactly(groups[rq.name].expansions, requests);
    TargetsExactly(groups, requests);
    OneCycleError(groups, rq.name, requests);
  }

  lemma {:induction false} OneCycleError(groups: Groups, name: Name, requests: seq<string>)
    requires Good(groups) && |requests| == 1 && IsRequest(requests[0]) && !IsDrop(requests[0])
    ensures AllRequests(requests)
    ensures Expansions.CheckExpansionCycles(groups, name, requests)
         in {None, Some(if AfterColon(requests[0]) in groups then ExistingExpansion else UnknownGroup)}
  {
    CyclesPass(groups, name, requests);
    if !SafeTarget(groups, name, requests[0]) {
      FirstUnsafeDecides(groups, name, requests, 0);
    }
  }

  /** The missed cycle: a request to make a group include or exclude itself is refused only when an existing
      rule of the group has the group's name in it, or leads to a group that is missing. */
  lemma {:induction false} SelfRuleAccepted(groups: Groups, rq: Request, mode: string)
    requires Good(groups) && rq.name in groups && mode in {"INCLUDE", "EXCLUDE"}
    requires rq.expansions == [WithColon(mode, rq.name)]
    ensures AllRequests(rq.expansions)
    ensures Accepted(groups, rq)
       <==> (forall e :: e in groups[rq.name].expansions ==> !Contains(e, rq.name)) && !LeadsNowhere(groups, rq.name)
    ensures Accepted(groups, rq) ==> !Good(Modified(groups, rq))
  {
    AddExactly(groups, rq, mode, rq.name);
    NotOnCycle(groups, rq.name);
    if Accepted(groups, rq) {
      RuleString(mode, rq.name);
      SingleRuleKeepsAcyclic(groups, rq, rq.expansions[0]);
    }
  }

  lemma {:induction false} NotOnCycle(groups: Groups, n: Name)
    requires Good(groups)
    ensures !Reaches(RuleGraph(groups), n, n)
  {
  }

  /** ... for instance on a store that holds one group only. */
  lemma {:induction false} SelfRuleSlipsThrough(name: Name) returns (groups: Groups, rq: Request)
    ensures Good(groups) && groups.Keys == {name} && rq.name == name && rq.expansions == [WithColon("INCLUDE", name)]
    ensures AllRequests(rq.expansions) && Accepted(groups, rq) && !Good(Modified(groups, rq))
  {
    groups := map[name := Group(name, "", "", 0, [], [])];
    rq := Request(name, "", "", 0, [WithColon("INCLUDE", name)], 0, "");
    forall n, m | Reaches(RuleGraph(groups), n, m) ensures exists k :: Edge(RuleGraph(groups), n, k) {
      var k := FirstEdge(RuleGraph(groups), n, m);
    }
    SelfRuleAccepted(groups, rq, "INCLUDE");
  }

  /** No carried rule is malformed, names the group or leads back to it. */
  ghost predicate MergesSafely(groups: Groups, name: Name, carried: seq<string>) {
    forall e :: e in carried ==>
      IsRule(e) && ':' in e && AfterColon(e) != name && !Reaches(RuleGraph(groups), AfterColon(e), name)
  }

  /** Metadata merges append whatever rules the update carries, unchecked; the stored rules stay in order exactly
      when each of them is a rule and its target neither is the group nor leads back to it. */
  lemma {:induction false} MergeKeepsAcyclic(groups: Groups, g: Group, carried: seq<string>)
    requires Good(groups) && g.name in groups && g.expansions == groups[g.name].expansions + carried
    ensures Good(groups[g.name := g]) <==> MergesSafely(groups, g.name, carried)
  {
    var name, merged := g.name, groups[g.name := g];
    var graph, graph' := RuleGraph(groups), RuleGraph(merged);
    GrowAcyclic(graph, graph', name);
    NoSelfRule(groups, name);
    forall t ensures Edge(graph', name, t)
                <==> Edge(graph, name, t) || exists e :: e in carried && ':' in e && AfterColon(e) == t {
    }
    forall t | Edge(graph, name, t) ensures !Reaches(graph, t, name) {
      EdgeReaches(graph, name, t);
      if Reaches(graph, t, name) {
        ReachesTransitive(graph, name, t, name);
      }
    }
    MergeWellFormed(groups, g, carried);
  }

  lemma {:induction false} MergeWellFormed(groups: Groups, g: Group, carried: seq<string>)
    requires Good(groups) && g.name in groups && g.expansions == groups[g.name].expansions + carried
    ensures WellFormed(groups[g.name := g]) <==> forall e :: e in carried ==> IsRule(e)
  {
    var merged := groups[g.name := g];
    forall e | e in carried ensures e in merged[g.name].expansions {
    }
  }

  /** For instance a merge that carries a rule to the group itself. */
  lemma {:induction false} MergeClosesCycle(groups: Groups, g: Group, mode: string)
    requires Good(groups) && g.name in groups && mode in {"INCLUDE", "EXCLUDE"}
    requires g.expansions == groups[g.name].expansions + [WithColon(mode, g.name)]
    ensures !Good(groups[g.name := g])
  {
    RuleString(mode, g.name);
    MergeKeepsAcyclic(groups, g, [WithColon(mode, g.name)]);
    assert WithColon(mode, g.name) in [WithColon(mode, g.name)];
  }

  // ----- undoing -----

  /** Dropping t from rules of which only e names t, as a substring, takes out just e. */
  lemma {:induction false} DropOnlyOne(exps: set<string>, e: string, t: string)
    requires Contains(e, t) && e != "" && forall x :: x in exps ==> x != "" && !Contains(x, t)
    ensures PatchedSet(PatchedSet(exps, e, true, true), t, false, false) == exps
  {
  }

  /** Including or excluding a group and then dropping it restores the rules, although drops match by
      substring: a rule whose target occurs in another rule is not accepted in the first place. */
  lemma {:induction false} DropUndoes(groups: Groups, rq: Request, mode: string, t: Name, undo: Request)
    requires Good(groups) && mode in {"INCLUDE", "EXCLUDE"}
    requires rq.expansions == [WithColon(mode, t)] && AllRequests(rq.expansions) && Accepted(groups, rq)
    requires undo.name == rq.name && undo.expansions == [WithColon("DROP", t)] && AllRequests(undo.expansions)
    ensures Elements(SavedExpansions(Modified(groups, rq), undo)) == Elements(groups[rq.name].expansions)
  {
    RuleString(mode, t);
    DropString(t);
    var e, d := rq.expansions[0], undo.expansions[0];
    SavedSingle(groups, rq, e);
    SavedSingle(Modified(groups, rq), undo, d);
    var exps := groups[rq.name].expansions;
    forall x | x in Elements(exps) ensures x != "" && !Contains(x, t) {
      var k :| 0 <= k < |exps| && exps[k] == x;
      assert !ProposesAgain(rq.expansions[0], exps[k]);
      assert IsRule(x);
    }
    DropOnlyOne(Elements(exps), e, t);
  }

  // ----- whole runs -----

  datatype Op =
    | Create(rq: Request) | Destroy(rq: Request) | Modify(rq: Request)
    | Edit(rq: Request, edit: GroupEdit) | Merge(rq: Request, merge: (Request, Group) -> Group)

  ghost function ChainFor(op: Op): seq<GroupHook> {
    match op
    case Create(_) => CREATE_IN_ORDER
    case Destroy(_) => DESTROY
    case Modify(_) => MODIFY_EXPANSIONS
    case Edit(_, edit) => Editing(edit)
    case Merge(_, merge) => Merging(merge)
  }

  /** The stored groups after an operation; one that is refused leaves them alone. */
  ghost function Apply(groups: Groups, op: Op): Groups {
    match RunChain(ChainFor(op), op.rq, groups)
    case Err(_) => groups
    case Ok(s) => s.groups
  }

  ghost function RunOps(groups: Groups, ops: seq<Op>): Groups {
    if ops == [] then groups else Apply(RunOps(groups, ops[..|ops| - 1]), ops[|ops| - 1])
  }

  /** What has to hold of an operation at a store in order: an accepted change of rules asks for no self rule,
      and a merge carries no rule that closes a cycle. */
  ghost predicate SafeAt(groups: Groups, op: Op)
    requires Good(groups) && AllRequests(op.rq.expansions)
  {
    match op
    case Modify(rq) => Accepted(groups, rq) ==> !AsksSelfRule(rq)
    case Merge(rq, _) => rq.name in groups ==> MergesSafely(groups, rq.name, rq.expansions)
    case _ => true
  }

  lemma {:induction false} SubgraphGood(groups: Groups, groups': Groups)
    requires Good(groups) && WellFormed(groups')
    requires forall n :: n in groups' ==>
               groups'[n].expansions == [] || (n in groups && groups'[n].expansions == groups[n].expansions)
    ensures Good(groups')
  {
    SubgraphAcyclic(RuleGraph(groups'), RuleGraph(groups));
  }

  lemma {:induction false} CreateEffect(groups: Groups, rq: Request)
    requires Good(groups) && AllRequests(rq.expansions)
    ensures RunChain(CREATE_IN_ORDER, rq, groups)
         == if rq.name in groups then Err(DuplicateGroupName)
            else if rq.managedBy !in {"", rq.name} && rq.managedBy !in groups then Err(UnknownGroup)
            else
              var g := Group(rq.name, rq.displayName, rq.managedBy,
                             if rq.number == -1 then rq.nextNumber else rq.number, [], []);
              Ok(State(groups[rq.name := g], g))
  {
    var chain := CREATE_IN_ORDER;
    var s0 := State(groups, EMPTY_GROUP);
    var s1 := s0.(g := s0.g.(managedBy := rq.managedBy));
    RunSteps(rq, chain, s0);
    RunSteps(rq, chain[1..], s0);
    SettersEffect(rq, s1);
    assert chain[2..] == [SetGroupName, SetGroupDisplayName, SetGroupNumber, SaveGroup];
  }

  lemma {:induction false} SettersEffect(rq: Request, s: State)
    requires Runnable(rq, s)
    ensures var g := s.g.(name := rq.name, displayName := rq.displayName,
                          number := if rq.number == -1 then rq.nextNumber else rq.number);
            RunFirst(Report(rq), [SetGroupName, SetGroupDisplayName, SetGroupNumber, SaveGroup], s)
            == Ok(State(s.groups[g.name := g], g))
  {
    var chain := [SetGroupName, SetGroupDisplayName, SetGroupNumber, SaveGroup];
    var s2 := s.(g := s.g.(name := rq.name));
    var s3 := s2.(g := s2.g.(displayName := rq.displayName));
    var s4 := s3.(g := s3.g.(number := if rq.number == -1 then rq.nextNumber else rq.number));
    RunSteps(rq, chain, s);
    RunSteps(rq, chain[1..], s2);
    RunSteps(rq, chain[2..], s3);
    RunSteps(rq, chain[3..], s4);
  }

  lemma {:induction false} RunSteps(rq: Request, chain: seq<GroupHook>, s: State)
    requires chain != [] && Runnable(rq, s)
    ensures RunFirst(Report(rq), chain, s)
         == match RunHook(chain[0], rq, s) case Err(e) => Err(e) case Ok(t) => RunFirst(Report(rq), chain[1..], t)
  {
  }

  lemma {:induction false} DestroyEffect(groups: Groups, rq: Request)
    requires Good(groups) && AllRequests(rq.expansions)
    ensures RunChain(DESTROY, rq, groups)
         == if rq.name in groups then Ok(State(groups - {rq.name}, groups[rq.name])) else Err(UnknownGroup)
  {
    RunSteps(rq, DESTROY, State(groups, EMPTY_GROUP));
    if rq.name in groups {
      RunSteps(rq, DESTROY[1..], State(groups, groups[rq.name]));
    }
  }

  lemma {:induction false} EditEffect(groups: Groups, rq: Request, edit: GroupEdit)
    requires Good(groups) && AllRequests(rq.expansions)
    ensures RunChain(Editing(edit), rq, groups)
         == if rq.name !in groups then Err(UnknownGroup)
            else
              match AmendRecord(edit, rq, groups[rq.name])
              case Err(e) => Err(e)
              case Ok(g) => Ok(State(groups[rq.name := g], g))
  {
    var chain := Editing(edit);
    RunSteps(rq, chain, State(groups, EMPTY_GROUP));
    if rq.name in groups {
      RunSteps(rq, chain[1..], State(groups, groups[rq.name]));
      match AmendRecord(edit, rq, groups[rq.name])
      case Err(_) =>
      case Ok(g) => RunSteps(rq, chain[2..], State(groups, g));
    }
  }

  lemma {:induction false} MergeEffect(groups: Groups, rq: Request, merge: (Request, Group) -> Group)
    requires Good(groups) && AllRequests(rq.expansions)
    ensures RunChain(Merging(merge), rq, groups)
         == if rq.name !in groups then Err(UnknownGroup)
            else
              var g := MergeRecord(merge, rq, groups[rq.name]);
              Ok(State(groups[rq.name := g], g))
  {
    var chain := Merging(merge);
    RunSteps(rq, chain, State(groups, EMPTY_GROUP));
    if rq.name in groups {
      RunSteps(rq, chain[1..], State(groups, groups[rq.name]));
      RunSteps(rq, chain[2..], State(groups, MergeRecord(merge, rq, groups[rq.name])));
    }
  }

  /** An operation, accepted or refused, keeps the stored rules well-formed and acyclic exactly when it is safe. */
  lemma {:induction false} ApplyKeepsGood(groups: Groups, op: Op)
    requires Good(groups) && AllRequests(op.rq.expansions)
    ensures Good(Apply(groups, op)) <==> SafeAt(groups, op)
  {
    match op
    case Create(rq) =>
      CreateEffect(groups, rq);
      SubgraphGood(groups, Apply(groups, op));
    case Destroy(rq) =>
      DestroyEffect(groups, rq);
      SubgraphGood(groups, Apply(groups, op));
    case Modify(rq) =>
      ModifyEffect(groups, rq);
      if Accepted(groups, rq) {
        RequestKeepsAcyclic(groups, rq);
      }
    case Edit(rq, edit) =>
      EditEffect(groups, rq, edit);
      SubgraphGood(groups, Apply(groups, op));
    case Merge(rq, merge) =>
      MergeEffect(groups, rq, merge);
      if rq.name in groups {
        MergeKeepsAcyclic(groups, MergeRecord(merge, rq, groups[rq.name]), rq.expansions);
      }
  }

  ghost predicate WellFormedRun(ops: seq<Op>) {
    forall i :: 0 <= i < |ops| ==> AllRequests(ops[i].rq.expansions)
  }

  /** The store is in order after every step of the run. */
  ghost predicate AlwaysGood(groups: Groups, ops: seq<Op>) {
    Good(RunOps(groups, ops)) && (ops != [] ==> AlwaysGood(groups, ops[..|ops| - 1]))
  }

  /** Every step of the run that finds the store in order is safe. */
  ghost predicate AlwaysSafe(groups: Groups, ops: seq<Op>)
    requires WellFormedRun(ops)
  {
    ops != [] ==>
      var init, last := ops[..|ops| - 1], ops[|ops| - 1];
      AlwaysSafe(groups, init) && (Good(RunOps(groups, init)) ==> SafeAt(RunOps(groups, init), last))
  }

  /** Over every run of creations, destructions, edits, merges and changes of rules, from any store in order, the
      stored graph of rules stays acyclic at every step exactly when every step is safe. */
  lemma {:induction false} RunsStayAcyclic(groups: Groups, ops: seq<Op>)
    requires Good(groups) && WellFormedRun(ops)
    ensures AlwaysGood(groups, ops) <==> AlwaysSafe(groups, ops)
  {
    if ops != [] {
      var init, last := ops[..|ops| - 1], ops[|ops| - 1];
      RunsStayAcyclic(groups, init);
      AlwaysGoodLast(groups, init);
      if Good(RunOps(groups, init)) {
        ApplyKeepsGood(RunOps(groups, init), last);
      }
    }
  }

  lemma {:induction false} AlwaysGoodLast(groups: Groups, ops: seq<Op>)
    ensures AlwaysGood(groups, ops) ==> Good(RunOps(groups, ops))
  {
  }

  /** Requests that callers may make: well-formed, proposing rules for other groups only, merging no rules. */
  ghost predicate Proper(op: Op) {
    && AllRequests(op.rq.expansions)
    && (op.Modify? ==> TargetsOthers(op.rq))
    && (op.Merge? ==> op.rq.expansions == [])
  }

  /** In particular when callers never ask for a self rule and never merge rules. */
  lemma {:induction false} ProperRunsStayAcyclic(groups: Groups, ops: seq<Op>)
    requires Good(groups) && forall i :: 0 <= i < |ops| ==> Proper(ops[i])
    ensures AlwaysGood(groups, ops)
  {
    ProperRunsSafe(groups, ops);
    RunsStayAcyclic(groups, ops);
  }

  lemma {:induction false} ProperRunsSafe(groups: Groups, ops: seq<Op>)
    requires forall i :: 0 <= i < |ops| ==> Proper(ops[i])
    ensures WellFormedRun(ops) && AlwaysSafe(groups, ops)
  {
    if ops != [] {
      var init, last := ops[..|ops| - 1], ops[|ops| - 1];
      ProperRunsSafe(groups, init);
      if last.Modify? {
        TargetsOthersAsk(last.rq);
      }
    }
  }
}
