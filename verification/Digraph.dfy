/** Directed graphs over group names: paths, reachability, acyclicity, and the rank that makes
    recursion along the edges of an acyclic graph terminate. */
module Digraph {

  type Name = string

  /** The successors of each node; a node without an entry has none. */
  type Graph = map<Name, set<Name>>

  predicate Edge(g: Graph, a: Name, b: Name) {
    a in g && b in g[a]
  }

  ghost predicate IsPath(g: Graph, p: seq<Name>) {
    forall i :: 0 <= i < |p| - 1 ==> Edge(g, p[i], p[i + 1])
  }

  /** There is a path of one or more edges from a to b. */
  ghost predicate Reaches(g: Graph, a: Name, b: Name) {
    exists p :: IsPath(g, p) && |p| >= 2 && p[0] == a && p[|p| - 1] == b
  }

  ghost predicate Acyclic(g: Graph) {
    forall n :: !Reaches(g, n, n)
  }

  ghost predicate Subgraph(g: Graph, h: Graph) {
    forall a, b :: Edge(g, a, b) ==> Edge(h, a, b)
  }

  /** Every edge of g runs the other way in h. */
  ghost predicate Reversed(g: Graph, h: Graph) {
    forall a, b :: Edge(g, a, b) ==> Edge(h, b, a)
  }

  lemma {:induction false} EdgeReaches(g: Graph, a: Name, b: Name)
    requires Edge(g, a, b)
    ensures Reaches(g, a, b)
  {
    assert IsPath(g, [a, b]);
  }

  lemma {:induction false} ReachesTransitive(g: Graph, a: Name, b: Name, c: Name)
    requires Reaches(g, a, b) && Reaches(g, b, c)
    ensures Reaches(g, a, c)
  {
    var p :| IsPath(g, p) && |p| >= 2 && p[0] == a && p[|p| - 1] == b;
    var q :| IsPath(g, q) && |q| >= 2 && q[0] == b && q[|q| - 1] == c;
    assert IsPath(g, p + q[1..]);
  }

  /** The first edge of a path: a step to some m, which is b or reaches b. */
  lemma {:induction false} FirstEdge(g: Graph, a: Name, b: Name) returns (m: Name)
    requires Reaches(g, a, b)
    ensures Edge(g, a, m) && (m == b || Reaches(g, m, b))
  {
    var p :| IsPath(g, p) && |p| >= 2 && p[0] == a && p[|p| - 1] == b;
    m := p[1];
    assert Edge(g, p[0], p[1]);
    if |p| > 2 {
      assert IsPath(g, p[1..]);
    }
  }

  lemma {:induction false} SubgraphReaches(g: Graph, h: Graph, a: Name, b: Name)
    requires Subgraph(g, h) && Reaches(g, a, b)
    ensures Reaches(h, a, b)
  {
    var p :| IsPath(g, p) && |p| >= 2 && p[0] == a && p[|p| - 1] == b;
    assert IsPath(h, p);
  }

  lemma {:induction false} SubgraphAcyclic(g: Graph, h: Graph)
    requires Subgraph(g, h) && Acyclic(h)
    ensures Acyclic(g)
  {
    forall n | Reaches(g, n, n) ensures Reaches(h, n, n) {
      SubgraphReaches(g, h, n, n);
    }
  }

  lemma {:induction false} ReversedReaches(g: Graph, h: Graph, a: Name, b: Name)
    requires Reversed(g, h) && Reaches(g, a, b)
    ensures Reaches(h, b, a)
  {
    var p :| IsPath(g, p) && |p| >= 2 && p[0] == a && p[|p| - 1] == b;
    var q := seq(|p|, i requires 0 <= i < |p| => p[|p| - 1 - i]);
    forall i | 0 <= i < |q| - 1 ensures Edge(h, q[i], q[i + 1]) {
      assert Edge(g, p[|p| - 2 - i], p[|p| - 2 - i + 1]);
    }
    assert IsPath(h, q);
  }

  lemma {:induction false} ReversedAcyclic(g: Graph, h: Graph)
    requires Reversed(g, h) && Acyclic(h)
    ensures Acyclic(g)
  {
    forall n | Reaches(g, n, n) ensures Reaches(h, n, n) {
      ReversedReaches(g, h, n, n);
    }
  }

  // ----- rank -----

  function Nodes(g: Graph): set<Name> {
    g.Keys + set a, b | a in g && b in g[a] :: b
  }

  ghost function Below(g: Graph, a: Name): set<Name> {
    set n | n in Nodes(g) && Reaches(g, a, n)
  }

  /** How many nodes lie below a. */
  ghost function Rank(g: Graph, a: Name): nat {
    |Below(g, a)|
  }

  lemma {:induction false} ReachedIsBelow(g: Graph, a: Name, n: Name)
    ensures n in Below(g, a) <==> Reaches(g, a, n)
  {
    if Reaches(g, a, n) {
      var p :| IsPath(g, p) && |p| >= 2 && p[0] == a && p[|p| - 1] == n;
      assert Edge(g, p[|p| - 2], p[|p| - 2 + 1]);
    }
  }

  lemma {:induction false} SubsetSize<T>(s: set<T>, t: set<T>)
    requires s <= t
    ensures |s| <= |t|
    ensures s != t ==> |s| < |t|
  {
    assert t == s + (t - s);
  }

  /** Following an edge to a node that is on no cycle lowers the rank. */
  lemma {:induction false} RankFalls(g: Graph, a: Name, b: Name)
    requires Edge(g, a, b) && !Reaches(g, b, b)
    ensures Rank(g, b) < Rank(g, a)
  {
    EdgeReaches(g, a, b);
    forall n | n in Below(g, b) ensures n in Below(g, a) {
      ReachesTransitive(g, a, b, n);
    }
    ReachedIsBelow(g, a, b);
    ReachedIsBelow(g, b, b);
    SubsetSize(Below(g, b), Below(g, a));
  }

  lemma {:induction false} RankOfSubgraph(g: Graph, h: Graph, a: Name)
    requires Subgraph(g, h)
    ensures Rank(g, a) <= Rank(h, a)
  {
    forall n | n in Below(g, a) ensures n in Below(h, a) {
      SubgraphReaches(g, h, a, n);
      ReachedIsBelow(h, a, n);
    }
    SubsetSize(Below(g, a), Below(h, a));
  }

  lemma {:induction false} RanksFall(g: Graph, a: Name)
    requires Acyclic(g)
    ensures forall b :: Edge(g, a, b) ==> Rank(g, b) < Rank(g, a)
  {
    forall b | Edge(g, a, b) ensures Rank(g, b) < Rank(g, a) {
      RankFalls(g, a, b);
    }
  }

  /** a itself together with everything it reaches. */
  ghost function Closure(g: Graph, a: Name): set<Name> {
    {a} + Below(g, a)
  }

  lemma {:induction false} ClosureStep(g: Graph, a: Name)
    ensures forall b :: Edge(g, a, b) ==> Closure(g, b) <= Closure(g, a)
    ensures forall n :: n in Closure(g, a) && n != a ==> exists b :: Edge(g, a, b) && n in Closure(g, b)
  {
    forall b | Edge(g, a, b) ensures Closure(g, b) <= Closure(g, a) {
      EdgeReaches(g, a, b);
      ReachedIsBelow(g, a, b);
      forall n | n in Below(g, b) ensures n in Below(g, a) {
        ReachesTransitive(g, a, b, n);
      }
    }
    forall n | n in Closure(g, a) && n != a ensures exists b :: Edge(g, a, b) && n in Closure(g, b) {
      var m := FirstEdge(g, a, n);
      ReachedIsBelow(g, m, n);
    }
  }

  /** What keeps clear of a and of everything its successors lead to keeps clear of all that a leads to. */
  lemma {:induction false} ClosureAvoided(g: Graph, a: Name, s: set<Name>)
    requires a !in s && forall b :: Edge(g, a, b) ==> s !! Closure(g, b)
    ensures s !! Closure(g, a)
  {
    ClosureStep(g, a);
  }

  // ----- rankings -----

  /** Every edge leads to a node that ranks higher. */
  ghost predicate Ranked(g: Graph, rank: Name -> int) {
    forall a, b :: Edge(g, a, b) ==> rank(a) < rank(b)
  }

  lemma {:induction false} PathClimbs(g: Graph, rank: Name -> int, p: seq<Name>)
    requires Ranked(g, rank) && IsPath(g, p) && |p| >= 2
    ensures rank(p[0]) < rank(p[|p| - 1])
    decreases |p|
  {
    assert Edge(g, p[0], p[1]);
    if |p| > 2 {
      assert IsPath(g, p[1..]);
      PathClimbs(g, rank, p[1..]);
    }
  }

  /** What a node reaches ranks above it; a ranked graph is acyclic. */
  lemma {:induction false} RankedReaches(g: Graph, rank: Name -> int)
    requires Ranked(g, rank)
    ensures forall a, b :: Reaches(g, a, b) ==> rank(a) < rank(b)
    ensures Acyclic(g)
  {
    forall a, b | Reaches(g, a, b) ensures rank(a) < rank(b) {
      var p :| IsPath(g, p) && |p| >= 2 && p[0] == a && p[|p| - 1] == b;
      PathClimbs(g, rank, p);
    }
  }

  /** Every acyclic graph has a ranking. */
  ghost function Ranking(g: Graph): (rank: Name -> int)
    requires Acyclic(g)
    ensures Ranked(g, rank)
  {
    var rank: Name -> int := (n: Name) => 0 as int - Rank(g, n);
    assert Ranked(g, rank) by {
      forall a, b | Edge(g, a, b) ensures rank(a) < rank(b) {
        RankFalls(g, a, b);
      }
    }
    rank
  }

  /** What does not rank above a is not reached from it, and what ranks below is not a either. */
  lemma {:induction false} LowerIsClear(g: Graph, rank: Name -> int, a: Name, b: Name)
    requires Ranked(g, rank) && rank(b) < rank(a)
    ensures b !in Closure(g, a)
  {
    RankedReaches(g, rank);
    ReachedIsBelow(g, a, b);
  }

  // ----- adding edges that all leave one node -----

  /** h has the edges of g and possibly more edges out of s. */
  ghost predicate GrowsAt(g: Graph, h: Graph, s: Name) {
    forall a, b :: a != s ==> (Edge(h, a, b) <==> Edge(g, a, b))
  }

  /** A path of h that starts at a, is cut at its first return to s: all of its edges are then in g. */
  lemma {:induction false} CutAtFirst(g: Graph, h: Graph, s: Name, p: seq<Name>, k: nat)
    requires GrowsAt(g, h, s) && IsPath(h, p)
    requires |p| >= 2 && k < |p| && p[k] == s && p[0] != s
    ensures Reaches(g, p[0], s)
    decreases k
  {
    if j :| 0 < j < k && p[j] == s {
      CutAtFirst(g, h, s, p, j);
    } else {
      forall i | 0 <= i < k ensures Edge(g, p[i], p[i + 1]) {
        assert Edge(h, p[i], p[i + 1]);
      }
      assert IsPath(g, p[..k + 1]);
    }
  }

  /** A return to s in h starts with an edge out of s whose target is s or reached s before. */
  lemma {:induction false} ReturnToSource(g: Graph, h: Graph, s: Name) returns (t: Name)
    requires GrowsAt(g, h, s) && Reaches(h, s, s)
    ensures Edge(h, s, t) && (t == s || Reaches(g, t, s))
  {
    t := FirstEdge(h, s, s);
    if t != s {
      var p :| IsPath(h, p) && |p| >= 2 && p[0] == t && p[|p| - 1] == s;
      CutAtFirst(g, h, s, p, |p| - 1);
    }
  }

  /** A cycle can be turned to start at any of its nodes. */
  lemma {:induction false} TurnCycle(h: Graph, p: seq<Name>, k: nat)
    requires IsPath(h, p) && k < |p| - 1 && p[0] == p[|p| - 1]
    ensures Reaches(h, p[k], p[k])
  {
    assert IsPath(h, p[k..]);
    if k > 0 {
      assert IsPath(h, p[..k + 1]);
      ReachesTransitive(h, p[k], p[0], p[k]);
    }
  }

  /** A cycle of h either can be turned to start at s or was a cycle of g. */
  lemma {:induction false} CycleThroughSource(g: Graph, h: Graph, s: Name, n: Name)
    requires GrowsAt(g, h, s) && Reaches(h, n, n)
    ensures Reaches(h, s, s) || Reaches(g, n, n)
  {
    var p :| IsPath(h, p) && |p| >= 2 && p[0] == n && p[|p| - 1] == n;
    if k :| 0 <= k < |p| - 1 && p[k] == s {
      TurnCycle(h, p, k);
    } else {
      assert forall i :: 0 <= i < |p| - 1 ==> Edge(h, p[i], p[i + 1]) && p[i] != s;
      assert IsPath(g, p);
    }
  }

  /** An old path to s is still there, if s did not reach itself. */
  lemma {:induction false} OldPathKept(g: Graph, h: Graph, s: Name, t: Name)
    requires GrowsAt(g, h, s) && Reaches(g, t, s)
    ensures Reaches(h, t, s) || Reaches(g, s, s)
  {
    var p :| IsPath(g, p) && |p| >= 2 && p[0] == t && p[|p| - 1] == s;
    if k :| 0 <= k < |p| - 1 && p[k] == s {
      assert IsPath(g, p[k..]);
    } else {
      assert forall i :: 0 <= i < |p| - 1 ==> Edge(g, p[i], p[i + 1]) && p[i] != s;
      assert IsPath(h, p);
    }
  }

  /** Growing an acyclic graph at s keeps it acyclic exactly when s is not a successor of itself and no
      successor of s reached s before. */
  lemma {:induction false} GrowAcyclic(g: Graph, h: Graph, s: Name)
    requires Acyclic(g) && GrowsAt(g, h, s)
    ensures Acyclic(h) <==> !Edge(h, s, s) && forall t :: Edge(h, s, t) ==> !Reaches(g, t, s)
  {
    forall t | Edge(h, s, t) && (t == s || Reaches(g, t, s)) ensures Reaches(h, s, s) {
      EdgeReaches(h, s, t);
      if t != s {
        OldPathKept(g, h, s, t);
        ReachesTransitive(h, s, t, s);
      }
    }
    if n :| Reaches(h, n, n) {
      CycleThroughSource(g, h, s, n);
      var _ := ReturnToSource(g, h, s);
    }
  }

  /** From a node that does not reach s in g, h leads nowhere that g does not. */
  lemma {:induction false} ReachesClearOf(g: Graph, h: Graph, s: Name, a: Name, n: Name)
    requires GrowsAt(g, h, s) && a != s && Reaches(h, a, n)
    ensures Reaches(g, a, s) || Reaches(g, a, n)
  {
    var p :| IsPath(h, p) && |p| >= 2 && p[0] == a && p[|p| - 1] == n;
    if k :| 0 <= k < |p| && p[k] == s {
      CutAtFirst(g, h, s, p, k);
    } else {
      assert forall i :: 0 <= i < |p| - 1 ==> Edge(h, p[i], p[i + 1]) && p[i] != s;
      assert IsPath(g, p);
    }
  }

  // ----- adding edges that all enter one node -----

  /** g with every edge turned round. */
  ghost function Turned(g: Graph): Graph {
    map b | b in Nodes(g) :: set a | a in g && b in g[a]
  }

  lemma {:induction false} TurnedEdges(g: Graph)
    ensures Reversed(g, Turned(g)) && Reversed(Turned(g), g)
  {
  }

  /** h has the edges of g and possibly more edges into s. */
  ghost predicate GrowsInto(g: Graph, h: Graph, s: Name) {
    Subgraph(g, h) && forall a, b :: b != s ==> (Edge(h, a, b) <==> Edge(g, a, b))
  }

  /** New edges into s keep an acyclic graph acyclic exactly when none comes from s or from below it. */
  lemma {:induction false} GrowIntoAcyclic(g: Graph, h: Graph, s: Name)
    requires Acyclic(g) && GrowsInto(g, h, s)
    ensures Acyclic(h) <==> forall t :: Edge(h, t, s) ==> t !in Closure(g, s)
  {
    TurnedEdges(g);
    TurnedEdges(h);
    ReversedAcyclic(Turned(g), g);
    forall a, b | a != s ensures Edge(Turned(h), a, b) <==> Edge(Turned(g), a, b) {
      assert Edge(Turned(h), a, b) <==> Edge(h, b, a);
      assert Edge(Turned(g), a, b) <==> Edge(g, b, a);
    }
    GrowAcyclic(Turned(g), Turned(h), s);
    if Acyclic(h) {
      ReversedAcyclic(Turned(h), h);
    }
    if Acyclic(Turned(h)) {
      ReversedAcyclic(h, Turned(h));
    }
    forall t ensures Edge(Turned(h), s, t) <==> Edge(h, t, s) {
    }
    forall t ensures Reaches(Turned(g), t, s) <==> t in Below(g, s) {
      ReachedIsBelow(g, s, t);
      if Reaches(g, s, t) {
        ReversedReaches(g, Turned(g), s, t);
      }
      if Reaches(Turned(g), t, s) {
        ReversedReaches(Turned(g), g, t, s);
      }
    }
  }

  // ----- depth-first descent without a visited set -----

  /** A descent from a that visits every successor, with nothing remembered, is over within n nested calls. */
  predicate DescentEnds(g: Graph, a: Name, n: nat)
    decreases n
  {
    n > 0 && (a in g ==> forall b :: b in g[a] ==> DescentEnds(g, b, n - 1))
  }

  ghost predicate DescentTerminates(g: Graph, a: Name) {
    exists n: nat :: DescentEnds(g, a, n)
  }

  /** Such a descent ends exactly when it meets no cycle. */
  lemma {:induction false} DescentEndsIffNoCycle(g: Graph, a: Name)
    ensures DescentTerminates(g, a) <==> forall c :: c in Closure(g, a) ==> !Reaches(g, c, c)
  {
    if forall c :: c in Closure(g, a) ==> !Reaches(g, c, c) {
      DescentWithinRank(g, a);
    }
    if DescentTerminates(g, a) {
      var n: nat :| DescentEnds(g, a, n);
      forall c | c in Closure(g, a) ensures !Reaches(g, c, c) {
        NoCycleBelow(g, a, c, n);
      }
    }
  }

  lemma {:induction false} NoCycleBelow(g: Graph, a: Name, c: Name, n: nat)
    requires DescentEnds(g, a, n) && c in Closure(g, a)
    ensures !Reaches(g, c, c)
  {
    if Reaches(g, c, c) {
      var m := n;
      if c != a {
        m := DescentFollows(g, a, c, n);
      }
      EndlessCycle(g, c, m);
    }
  }

  lemma {:induction false} DescentWithinRank(g: Graph, a: Name)
    requires forall c :: c in Closure(g, a) ==> !Reaches(g, c, c)
    ensures DescentEnds(g, a, Rank(g, a) + 1)
    decreases Rank(g, a)
  {
    ClosureStep(g, a);
    if a in g {
      forall b | b in g[a] ensures DescentEnds(g, b, Rank(g, a)) {
        assert Edge(g, a, b);
        assert b in Closure(g, b);
        RankFalls(g, a, b);
        DescentWithinRank(g, b);
        DescentLonger(g, b, Rank(g, b) + 1, Rank(g, a));
      }
    }
  }

  lemma {:induction false} DescentLonger(g: Graph, a: Name, n: nat, m: nat)
    requires DescentEnds(g, a, n) && n <= m
    ensures DescentEnds(g, a, m)
    decreases n
  {
    if a in g {
      forall b | b in g[a] ensures DescentEnds(g, b, m - 1) {
        DescentLonger(g, b, n - 1, m - 1);
      }
    }
  }

  /** Whatever the descent reaches it enters with less depth to spare. */
  lemma {:induction false} DescentFollows(g: Graph, a: Name, b: Name, n: nat) returns (m: nat)
    requires DescentEnds(g, a, n) && Reaches(g, a, b)
    ensures m < n && DescentEnds(g, b, m)
    decreases n
  {
    var c := FirstEdge(g, a, b);
    if c == b {
      m := n - 1;
    } else {
      m := DescentFollows(g, c, b, n - 1);
    }
  }

  lemma {:induction false} EndlessCycle(g: Graph, c: Name, n: nat)
    requires Reaches(g, c, c) && DescentEnds(g, c, n)
    ensures false
    decreases n
  {
    var m := DescentFollows(g, c, c, n);
    EndlessCycle(g, c, m);
  }
}
