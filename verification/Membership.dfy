/** Group rules, what membership means, and the token list a group is flattened to. */
module Membership {
  import opened Digraph
  import opened BoolFilter

  /** The rules of one group: the groups it includes and the groups it excludes, in order. */
  datatype ResolvableGroup = ResolvableGroup(included: seq<Name>, excluded: seq<Name>)

  type Rules = map<Name, ResolvableGroup>

  /** Cached token lists. */
  type TokenCache = map<Name, seq<Symbol>>

  function Targets(r: ResolvableGroup): set<Name> {
    (set t | t in r.included) + (set t | t in r.excluded)
  }

  /** Each group points to the groups its rules name. */
  function Deps(gc: Rules): Graph {
    map g | g in gc :: Targets(gc[g])
  }

  /** g and every group its rules lead to have been described. */
  ghost predicate Known(gc: Rules, g: Name) {
    g in gc && forall n :: Reaches(Deps(gc), g, n) ==> n in gc
  }

  /** What membership means: an entity in the groups `direct` is a member of g when it is in g directly or
      is a member of an included group, and is a member of no excluded group. */
  ghost predicate Member(gc: Rules, direct: set<Name>, g: Name)
    requires Acyclic(Deps(gc))
    decreases Rank(Deps(gc), g)
  {
    RanksFall(Deps(gc), g);
    g in gc
    && (g in direct || exists i :: i in gc[g].included && Member(gc, direct, i))
    && !exists x :: x in gc[g].excluded && Member(gc, direct, x)
  }

  lemma {:induction false} KnownTargets(gc: Rules, g: Name)
    requires Known(gc, g)
    ensures forall t :: t in Targets(gc[g]) ==> Known(gc, t)
  {
    forall t, n | t in Targets(gc[g]) && (n == t || Reaches(Deps(gc), t, n)) ensures n in gc {
      EdgeReaches(Deps(gc), g, t);
      if n != t {
        ReachesTransitive(Deps(gc), g, t, n);
      }
    }
  }

  // ----- token lists -----

  /** `| ( tokens of i )` for each included group, in order. */
  function Includes(inc: seq<Name>, gt: TokenCache): seq<Symbol>
    requires forall i :: i in inc ==> i in gt
  {
    if inc == [] then []
    else
      var last := inc[|inc| - 1];
      Includes(inc[..|inc| - 1], gt) + ([Binary(Or), LParen] + gt[last] + [RParen])
  }

  /** `& ! ( tokens of x )` for each excluded group, in order. */
  function Excludes(exc: seq<Name>, gt: TokenCache): seq<Symbol>
    requires forall x :: x in exc ==> x in gt
  {
    if exc == [] then []
    else
      var last := exc[|exc| - 1];
      Excludes(exc[..|exc| - 1], gt) + ([Binary(And), UnaryNot, LParen] + gt[last] + [RParen])
  }

  lemma {:induction false} IncludesNext(inc: seq<Name>, i: nat, gt: TokenCache)
    requires i < |inc| && forall n :: n in inc[..i + 1] ==> n in gt
    ensures Includes(inc[..i + 1], gt) == Includes(inc[..i], gt) + ([Binary(Or), LParen] + gt[inc[i]] + [RParen])
  {
    assert inc[..i + 1][..i] == inc[..i];
  }

  lemma {:induction false} ExcludesNext(exc: seq<Name>, i: nat, gt: TokenCache)
    requires i < |exc| && forall n :: n in exc[..i + 1] ==> n in gt
    ensures Excludes(exc[..i + 1], gt)
         == Excludes(exc[..i], gt) + ([Binary(And), UnaryNot, LParen] + gt[exc[i]] + [RParen])
  {
    assert exc[..i + 1][..i] == exc[..i];
  }

  /** The token list of g built from the cached lists of the groups its rules name. */
  function Emit(g: Name, r: ResolvableGroup, gt: TokenCache): seq<Symbol>
    requires forall t :: t in Targets(r) ==> t in gt
  {
    ([LParen, Ident(g)] + Includes(r.included, gt) + [RParen]) + Excludes(r.excluded, gt)
  }

  lemma {:induction false} IncludesAgree(inc: seq<Name>, gt: TokenCache, gt': TokenCache)
    requires forall i :: i in inc ==> i in gt && i in gt' && gt[i] == gt'[i]
    ensures Includes(inc, gt) == Includes(inc, gt')
  {
    if inc != [] {
      IncludesAgree(inc[..|inc| - 1], gt, gt');
    }
  }

  lemma {:induction false} ExcludesAgree(exc: seq<Name>, gt: TokenCache, gt': TokenCache)
    requires forall x :: x in exc ==> x in gt && x in gt' && gt[x] == gt'[x]
    ensures Excludes(exc, gt) == Excludes(exc, gt')
  {
    if exc != [] {
      ExcludesAgree(exc[..|exc| - 1], gt, gt');
    }
  }

  lemma {:induction false} EmitAgree(g: Name, r: ResolvableGroup, gt: TokenCache, gt': TokenCache)
    requires forall t :: t in Targets(r) ==> t in gt && t in gt' && gt[t] == gt'[t]
    ensures Emit(g, r, gt) == Emit(g, r, gt')
  {
    IncludesAgree(r.included, gt, gt');
    ExcludesAgree(r.excluded, gt, gt');
  }

  // ----- what a list tells of the lists spliced into it -----

  ghost predicate AgreeBut(b: Name, names: set<Name>, gt: TokenCache, gt': TokenCache) {
    forall t :: t in names ==> t in gt && t in gt' && (t != b ==> gt[t] == gt'[t])
  }

  lemma {:induction false} IncludesLonger(inc: seq<Name>, gt: TokenCache, gt': TokenCache, b: Name)
    requires AgreeBut(b, (set i | i in inc), gt, gt') && b in gt && b in gt' && |gt[b]| <= |gt'[b]|
    ensures |Includes(inc, gt)| <= |Includes(inc, gt')|
    ensures b in inc && |gt[b]| < |gt'[b]| ==> |Includes(inc, gt)| < |Includes(inc, gt')|
  {
    if inc != [] {
      assert inc == inc[..|inc| - 1] + [inc[|inc| - 1]];
      IncludesLonger(inc[..|inc| - 1], gt, gt', b);
    }
  }

  lemma {:induction false} ExcludesLonger(exc: seq<Name>, gt: TokenCache, gt': TokenCache, b: Name)
    requires AgreeBut(b, (set x | x in exc), gt, gt') && b in gt && b in gt' && |gt[b]| <= |gt'[b]|
    ensures |Excludes(exc, gt)| <= |Excludes(exc, gt')|
    ensures b in exc && |gt[b]| < |gt'[b]| ==> |Excludes(exc, gt)| < |Excludes(exc, gt')|
  {
    if exc != [] {
      assert exc == exc[..|exc| - 1] + [exc[|exc| - 1]];
      ExcludesLonger(exc[..|exc| - 1], gt, gt', b);
    }
  }

  lemma {:induction false} PartsEqual<T>(a: seq<T>, b: seq<T>, c: seq<T>, d: seq<T>)
    requires a + b == c + d && |a| == |c|
    ensures a == c && b == d
  {
    assert a == (a + b)[..|a|] && c == (c + d)[..|c|];
    assert b == (a + b)[|a|..] && d == (c + d)[|c|..];
  }

  lemma {:induction false} IncludesTell(inc: seq<Name>, gt: TokenCache, gt': TokenCache, b: Name)
    requires AgreeBut(b, (set i | i in inc), gt, gt') && b in inc && |gt[b]| == |gt'[b]|
    requires Includes(inc, gt) == Includes(inc, gt')
    ensures gt[b] == gt'[b]
  {
    var init, last := inc[..|inc| - 1], inc[|inc| - 1];
    assert inc == init + [last];
    IncludesLonger(init, gt, gt', b);
    IncludesLonger(init, gt', gt, b);
    var x, x' := [Binary(Or), LParen] + gt[last] + [RParen], [Binary(Or), LParen] + gt'[last] + [RParen];
    PartsEqual(Includes(init, gt), x, Includes(init, gt'), x');
    if last == b {
      assert x[2..|x| - 1] == gt[b] && x'[2..|x'| - 1] == gt'[b];
    } else {
      IncludesTell(init, gt, gt', b);
    }
  }

  lemma {:induction false} ExcludesTell(exc: seq<Name>, gt: TokenCache, gt': TokenCache, b: Name)
    requires AgreeBut(b, (set x | x in exc), gt, gt') && b in exc && |gt[b]| == |gt'[b]|
    requires Excludes(exc, gt) == Excludes(exc, gt')
    ensures gt[b] == gt'[b]
  {
    var init, last := exc[..|exc| - 1], exc[|exc| - 1];
    assert exc == init + [last];
    ExcludesLonger(init, gt, gt', b);
    ExcludesLonger(init, gt', gt, b);
    var x := [Binary(And), UnaryNot, LParen] + gt[last] + [RParen];
    var x' := [Binary(And), UnaryNot, LParen] + gt'[last] + [RParen];
    PartsEqual(Excludes(init, gt), x, Excludes(init, gt'), x');
    if last == b {
      assert x[3..|x| - 1] == gt[b] && x'[3..|x'| - 1] == gt'[b];
    } else {
      ExcludesTell(init, gt, gt', b);
    }
  }

  lemma {:induction false} EmitLonger(p: Name, r: ResolvableGroup, gt: TokenCache, gt': TokenCache, b: Name)
    requires AgreeBut(b, Targets(r), gt, gt') && b in Targets(r) && |gt[b]| <= |gt'[b]|
    ensures |Includes(r.included, gt)| <= |Includes(r.included, gt')|
    ensures |gt[b]| < |gt'[b]| ==> |Emit(p, r, gt)| < |Emit(p, r, gt')|
  {
    IncludesLonger(r.included, gt, gt', b);
    ExcludesLonger(r.excluded, gt, gt', b);
  }

  /** A list built with one of the spliced lists changed is the same list only when the change was none. */
  lemma {:induction false} EmitTells(p: Name, r: ResolvableGroup, gt: TokenCache, gt': TokenCache, b: Name)
    requires AgreeBut(b, Targets(r), gt, gt') && b in Targets(r)
    ensures Emit(p, r, gt) == Emit(p, r, gt') <==> gt[b] == gt'[b]
  {
    if gt[b] == gt'[b] {
      EmitAgree(p, r, gt, gt');
    } else if |gt[b]| < |gt'[b]| {
      EmitLonger(p, r, gt, gt', b);
    } else if |gt'[b]| < |gt[b]| {
      EmitLonger(p, r, gt', gt, b);
    } else if Emit(p, r, gt) == Emit(p, r, gt') {
      EmitParts(p, r, gt, gt', b);
      if b in r.included {
        IncludesTell(r.included, gt, gt', b);
      } else {
        ExcludesTell(r.excluded, gt, gt', b);
      }
    }
  }

  lemma {:induction false} EmitParts(p: Name, r: ResolvableGroup, gt: TokenCache, gt': TokenCache, b: Name)
    requires AgreeBut(b, Targets(r), gt, gt') && b in Targets(r) && |gt[b]| == |gt'[b]|
    requires Emit(p, r, gt) == Emit(p, r, gt')
    ensures Includes(r.included, gt) == Includes(r.included, gt')
    ensures Excludes(r.excluded, gt) == Excludes(r.excluded, gt')
  {
    EmitLonger(p, r, gt, gt', b);
    EmitLonger(p, r, gt', gt, b);
    var front, i, i' := [LParen, Ident(p)], Includes(r.included, gt), Includes(r.included, gt');
    PartsEqual(front + i + [RParen], Excludes(r.excluded, gt), front + i' + [RParen], Excludes(r.excluded, gt'));
    PartsEqual(front + i, [RParen], front + i', [RParen]);
    PartsEqual(front, i, front, i');
  }

  /** The token list of g worked out from the rules alone, with no cache. */
  ghost function Flat(gc: Rules, g: Name): seq<Symbol>
    requires Acyclic(Deps(gc)) && Known(gc, g)
    decreases Rank(Deps(gc), g)
  {
    RanksFall(Deps(gc), g);
    KnownTargets(gc, g);
    Emit(g, gc[g], map t | t in Targets(gc[g]) :: Flat(gc, t))
  }

  // ----- the list of a group is one expression, whatever was spliced into it -----

  /** The tokens spell an expression none of whose parenthesis levels mixes AND with OR. */
  ghost predicate IsExpression(toks: seq<Symbol>) {
    exists c :: YieldC(c) == toks && Unmixed(c)
  }

  ghost function ChainOf(toks: seq<Symbol>): (c: Chain)
    requires IsExpression(toks)
    ensures YieldC(c) == toks && Unmixed(c)
  {
    var c :| YieldC(c) == toks && Unmixed(c); c
  }

  ghost function ParenOf(toks: seq<Symbol>): (c: Chain)
    requires IsExpression(toks)
    ensures YieldC(c) == [LParen] + toks + [RParen] && Uniform(c, Or)
    ensures forall vs :: ValueC(c, vs) == ValueC(ChainOf(toks), vs)
  {
    assert YieldP(PParen(ChainOf(toks))) == [LParen] + toks + [RParen];
    One(PParen(ChainOf(toks)))
  }

  ghost function NotOf(toks: seq<Symbol>): (c: Chain)
    requires IsExpression(toks)
    ensures YieldC(c) == [UnaryNot, LParen] + toks + [RParen] && Uniform(c, And)
    ensures forall vs :: ValueC(c, vs) == !ValueC(ChainOf(toks), vs)
  {
    var p := PParen(ChainOf(toks));
    assert YieldP(p) == [LParen] + toks + [RParen] && UnmixedP(p) && UnmixedP(PNot(p));
    assert [UnaryNot] + YieldP(p) == [UnaryNot, LParen] + toks + [RParen];
    assert forall vs :: ValueP(p, vs) == ValueC(ChainOf(toks), vs);
    One(PNot(p))
  }

  ghost predicate AllExpressions(gt: TokenCache) {
    forall g :: g in gt ==> IsExpression(gt[g])
  }

  ghost function IncludeChain(g: Name, inc: seq<Name>, gt: TokenCache): (c: Chain)
    requires AllExpressions(gt) && forall i :: i in inc ==> i in gt
  {
    if inc == [] then One(PIdent(g))
    else Join(IncludeChain(g, inc[..|inc| - 1], gt), Or, ParenOf(gt[inc[|inc| - 1]]))
  }

  ghost function ExcludeChain(first: Chain, exc: seq<Name>, gt: TokenCache): (c: Chain)
    requires AllExpressions(gt) && forall x :: x in exc ==> x in gt
  {
    if exc == [] then first
    else Join(ExcludeChain(first, exc[..|exc| - 1], gt), And, NotOf(gt[exc[|exc| - 1]]))
  }

  ghost function EmitChain(g: Name, r: ResolvableGroup, gt: TokenCache): Chain
    requires AllExpressions(gt) && forall t :: t in Targets(r) ==> t in gt
  {
    ExcludeChain(One(PParen(IncludeChain(g, r.included, gt))), r.excluded, gt)
  }

  lemma {:induction false} IncludeChainYield(g: Name, inc: seq<Name>, gt: TokenCache)
    requires AllExpressions(gt) && forall i :: i in inc ==> i in gt
    ensures YieldC(IncludeChain(g, inc, gt)) == [Ident(g)] + Includes(inc, gt)
    ensures Uniform(IncludeChain(g, inc, gt), Or)
  {
    if inc == [] {
      assert YieldP(PIdent(g)) == [Ident(g)];
    } else {
      var init, last := inc[..|inc| - 1], inc[|inc| - 1];
      var c, d := IncludeChain(g, init, gt), ParenOf(gt[last]);
      IncludeChainYield(g, init, gt);
      JoinYield(c, Or, d);
      JoinUniform(c, Or, d, Or);
      Regroup([Ident(g)], Includes(init, gt), [Binary(Or)], YieldC(d));
      assert [Binary(Or)] + YieldC(d) == [Binary(Or), LParen] + gt[last] + [RParen];
    }
  }

  lemma {:induction false} Regroup<T>(a: seq<T>, b: seq<T>, c: seq<T>, d: seq<T>)
    ensures (a + b) + c + d == a + (b + (c + d))
  {
  }

  lemma {:induction false} ExcludeChainYield(first: Chain, exc: seq<Name>, gt: TokenCache)
    requires AllExpressions(gt) && forall x :: x in exc ==> x in gt
    requires Uniform(first, And)
    ensures YieldC(ExcludeChain(first, exc, gt)) == YieldC(first) + Excludes(exc, gt)
    ensures Uniform(ExcludeChain(first, exc, gt), And)
  {
    if exc == [] {
    } else {
      var init, last := exc[..|exc| - 1], exc[|exc| - 1];
      var c, d := ExcludeChain(first, init, gt), NotOf(gt[last]);
      ExcludeChainYield(first, init, gt);
      JoinYield(c, And, d);
      JoinUniform(c, And, d, And);
      Regroup(YieldC(first), Excludes(init, gt), [Binary(And)], YieldC(d));
      assert [Binary(And)] + YieldC(d) == [Binary(And), UnaryNot, LParen] + gt[last] + [RParen];
    }
  }

  /** Splicing expressions gives an expression. */
  lemma {:induction false} EmitIsExpression(g: Name, r: ResolvableGroup, gt: TokenCache)
    requires AllExpressions(gt) && forall t :: t in Targets(r) ==> t in gt
    ensures YieldC(EmitChain(g, r, gt)) == Emit(g, r, gt) && Unmixed(EmitChain(g, r, gt))
    ensures IsExpression(Emit(g, r, gt))
  {
    IncludeChainYield(g, r.included, gt);
    var inner := One(PParen(IncludeChain(g, r.included, gt)));
    assert YieldC(inner) == [LParen, Ident(g)] + Includes(r.included, gt) + [RParen];
    ExcludeChainYield(inner, r.excluded, gt);
  }

  /** Every reading of an expression has one value, the value of its chain. */
  lemma {:induction false} ReadingsAgree(toks: seq<Symbol>, t: Tree, vs: set<string>)
    requires IsExpression(toks) && NotBindsTightest(t) && Yield(t) == toks
    ensures Eval(t, vs) == ValueC(ChainOf(toks), vs)
  {
    ChainUnique(ChainOf(toks), t);
    GroupingIrrelevant(t, vs);
  }

  lemma {:induction false} ChainOfUnique(toks: seq<Symbol>, c: Chain)
    requires IsExpression(toks) && YieldC(c) == toks
    ensures ChainOf(toks) == c
  {
    ParseCComplete(c, []);
    ParseCComplete(ChainOf(toks), []);
    assert YieldC(c) + [] == YieldC(ChainOf(toks)) + [];
  }

  // ----- flattening preserves meaning -----

  lemma {:induction false} IncludeChainValue(g: Name, inc: seq<Name>, gt: TokenCache, vs: set<string>)
    requires AllExpressions(gt) && forall i :: i in inc ==> i in gt
    ensures ValueC(IncludeChain(g, inc, gt), vs) <==>
            g in vs || exists i :: i in inc && ValueC(ChainOf(gt[i]), vs)
  {
    if inc != [] {
      var init, last := inc[..|inc| - 1], inc[|inc| - 1];
      assert inc == init + [last];
      IncludeChainValue(g, init, gt, vs);
      IncludeChainYield(g, init, gt);
      JoinValue(IncludeChain(g, init, gt), Or, ParenOf(gt[last]), vs);
    }
  }

  lemma {:induction false} ExcludeChainValue(first: Chain, exc: seq<Name>, gt: TokenCache, vs: set<string>)
    requires AllExpressions(gt) && forall x :: x in exc ==> x in gt
    requires Uniform(first, And)
    ensures ValueC(ExcludeChain(first, exc, gt), vs) <==>
            ValueC(first, vs) && !exists x :: x in exc && ValueC(ChainOf(gt[x]), vs)
  {
    if exc != [] {
      var init, last := exc[..|exc| - 1], exc[|exc| - 1];
      assert exc == init + [last];
      ExcludeChainValue(first, init, gt, vs);
      ExcludeChainYield(first, init, gt);
      JoinValue(ExcludeChain(first, init, gt), And, NotOf(gt[last]), vs);
    }
  }

  /** One step of the meaning: the value of an emitted list from the values of the lists spliced into it. */
  lemma {:induction false} EmitValue(g: Name, r: ResolvableGroup, gt: TokenCache, vs: set<string>)
    requires AllExpressions(gt) && forall t :: t in Targets(r) ==> t in gt
    ensures IsExpression(Emit(g, r, gt))
    ensures ValueC(ChainOf(Emit(g, r, gt)), vs) <==>
            (g in vs || exists i :: i in r.included && ValueC(ChainOf(gt[i]), vs))
            && !exists x :: x in r.excluded && ValueC(ChainOf(gt[x]), vs)
  {
    EmitIsExpression(g, r, gt);
    ChainOfUnique(Emit(g, r, gt), EmitChain(g, r, gt));
    IncludeChainYield(g, r.included, gt);
    IncludeChainValue(g, r.included, gt, vs);
    ExcludeChainValue(One(PParen(IncludeChain(g, r.included, gt))), r.excluded, gt, vs);
  }

  lemma {:induction false} MemberUnfolds(gc: Rules, g: Name, direct: set<Name>)
    requires Acyclic(Deps(gc)) && g in gc
    ensures Member(gc, direct, g) <==>
            (g in direct || exists i :: i in gc[g].included && Member(gc, direct, i))
            && !exists x :: x in gc[g].excluded && Member(gc, direct, x)
  {
    RanksFall(Deps(gc), g);
  }

  ghost function FlatTargets(gc: Rules, g: Name): (sub: TokenCache)
    requires Acyclic(Deps(gc)) && Known(gc, g)
    ensures sub.Keys == Targets(gc[g])
    ensures Flat(gc, g) == Emit(g, gc[g], sub)
    ensures forall t :: t in sub ==> Known(gc, t) && sub[t] == Flat(gc, t)
  {
    RanksFall(Deps(gc), g);
    KnownTargets(gc, g);
    map t | t in Targets(gc[g]) :: Flat(gc, t)
  }

  lemma {:induction false} FlatValue(gc: Rules, g: Name, direct: set<Name>)
    requires Acyclic(Deps(gc)) && Known(gc, g)
    ensures IsExpression(Flat(gc, g))
    ensures ValueC(ChainOf(Flat(gc, g)), direct) <==> Member(gc, direct, g)
    decreases Rank(Deps(gc), g)
  {
    var r, sub := gc[g], FlatTargets(gc, g);
    forall t | t in sub
      ensures IsExpression(sub[t]) && (ValueC(ChainOf(sub[t]), direct) <==> Member(gc, direct, t))
    {
      assert Edge(Deps(gc), g, t);
      RanksFall(Deps(gc), g);
      FlatValue(gc, t, direct);
    }
    MemberUnfolds(gc, g, direct);
    EmitValue(g, r, sub, direct);
  }

  /** The token list of a known group is an expression, and every way to read it - whichever of AND and OR
      binds tighter, and however equal operators are grouped - decides membership. */
  lemma {:induction false} FlatteningPreservesMeaning(gc: Rules, g: Name, direct: set<Name>, t: Tree)
    requires Acyclic(Deps(gc)) && Known(gc, g)
    requires NotBindsTightest(t) && Yield(t) == Flat(gc, g)
    ensures Eval(t, direct) <==> Member(gc, direct, g)
  {
    FlatValue(gc, g, direct);
    ReadingsAgree(Flat(gc, g), t, direct);
  }

  /** An expression is accepted by the parser under either precedence, as a tree with one value. */
  lemma {:induction false} ExpressionsParse(tight: Op, toks: seq<Symbol>)
    requires IsExpression(toks)
    ensures NewFromTokens(tight, toks).Some?
    ensures forall vs :: Eval(NewFromTokens(tight, toks).value, vs) == ValueC(ChainOf(toks), vs)
  {
    var c := ChainOf(toks);
    assert NotBindsTightest(Lift(tight, c)) && Yield(Lift(tight, c)) == toks;
    NewFromTokensParses(tight, toks);
    forall vs ensures Eval(NewFromTokens(tight, toks).value, vs) == ValueC(c, vs) {
      ReadingsAgree(toks, NewFromTokens(tight, toks).value, vs);
    }
  }
}
