/** Boolean filter expressions over token lists. The library that evaluates them is not part of the
    repository, so nothing is assumed of it beyond the shape of the language: NOT binds tightest, and a
    token list is read as one of its parse trees. Which of AND and OR binds tighter is a parameter. */
module BoolFilter {
  import opened Outcomes

  datatype Op = And | Or

  datatype Symbol = LParen | RParen | UnaryNot | Binary(op: Op) | Ident(name: string)

  function Combine(op: Op, a: bool, b: bool): bool {
    if op.And? then a && b else a || b
  }

  // ----- parse trees: every way to read a token list -----

  datatype Tree = Leaf(name: string) | Neg(t: Tree) | Paren(t: Tree) | Node(l: Tree, op: Op, r: Tree)

  /** NOT applies to a name, to a parenthesised expression or to another NOT. */
  predicate NotBindsTightest(t: Tree) {
    match t
    case Leaf(_) => true
    case Neg(u) => !u.Node? && NotBindsTightest(u)
    case Paren(u) => NotBindsTightest(u)
    case Node(l, _, r) => NotBindsTightest(l) && NotBindsTightest(r)
  }

  /** The tokens a parse tree stands for. */
  function Yield(t: Tree): seq<Symbol> {
    match t
    case Leaf(n) => [Ident(n)]
    case Neg(u) => [UnaryNot] + Yield(u)
    case Paren(u) => [LParen] + Yield(u) + [RParen]
    case Node(l, op, r) => Yield(l) + [Binary(op)] + Yield(r)
  }

  /** The value of an expression for an entity whose value set is vs. */
  predicate Eval(t: Tree, vs: set<string>) {
    match t
    case Leaf(n) => n in vs
    case Neg(u) => !Eval(u, vs)
    case Paren(u) => Eval(u, vs)
    case Node(l, op, r) => Combine(op, Eval(l, vs), Eval(r, vs))
  }

  // ----- chains: the reading that leaves the grouping inside one parenthesis level open -----

  datatype Chain = One(p: Prim) | More(p: Prim, op: Op, rest: Chain)
  datatype Prim = PIdent(name: string) | PNot(p: Prim) | PParen(c: Chain)

  function YieldC(c: Chain): seq<Symbol> {
    match c
    case One(p) => YieldP(p)
    case More(p, op, rest) => YieldP(p) + [Binary(op)] + YieldC(rest)
  }

  function YieldP(p: Prim): seq<Symbol> {
    match p
    case PIdent(n) => [Ident(n)]
    case PNot(q) => [UnaryNot] + YieldP(q)
    case PParen(c) => [LParen] + YieldC(c) + [RParen]
  }

  function Join(c: Chain, op: Op, d: Chain): Chain {
    match c
    case One(p) => More(p, op, d)
    case More(p, o, rest) => More(p, o, Join(rest, op, d))
  }

  function AsPrim(t: Tree): Prim
    requires NotBindsTightest(t) && !t.Node?
    decreases t, 0
  {
    match t
    case Leaf(n) => PIdent(n)
    case Neg(u) => PNot(AsPrim(u))
    case Paren(u) => PParen(Flatten(u))
  }

  /** Forgets how a parse tree grouped the operators of each level. */
  function Flatten(t: Tree): Chain
    requires NotBindsTightest(t)
    decreases t, 1
  {
    if t.Node? then Join(Flatten(t.l), t.op, Flatten(t.r)) else One(AsPrim(t))
  }

  lemma {:induction false} JoinYield(c: Chain, op: Op, d: Chain)
    ensures YieldC(Join(c, op, d)) == YieldC(c) + [Binary(op)] + YieldC(d)
  {
    if c.More? {
      JoinYield(c.rest, op, d);
    }
  }

  lemma {:induction false} FlattenYield(t: Tree)
    requires NotBindsTightest(t)
    ensures YieldC(Flatten(t)) == Yield(t)
    ensures !t.Node? ==> YieldP(AsPrim(t)) == Yield(t)
  {
    match t
    case Leaf(_) =>
    case Neg(u) => FlattenYield(u);
    case Paren(u) => FlattenYield(u);
    case Node(l, op, r) =>
      FlattenYield(l);
      FlattenYield(r);
      JoinYield(Flatten(l), op, Flatten(r));
  }

  // ----- the parser -----

  lemma {:induction false} SplitMore(toks: seq<Symbol>, p: Prim, rest: seq<Symbol>, c: Chain, left: seq<Symbol>)
    requires toks == YieldP(p) + rest && rest != [] && rest[0].Binary? && rest[1..] == YieldC(c) + left
    ensures toks == YieldC(More(p, rest[0].op, c)) + left
  {
    assert rest == [rest[0]] + (YieldC(c) + left);
  }

  lemma {:induction false} SplitNot(toks: seq<Symbol>, p: Prim, rest: seq<Symbol>)
    requires toks != [] && toks[0] == UnaryNot && toks[1..] == YieldP(p) + rest
    ensures toks == YieldP(PNot(p)) + rest
  {
    assert toks == [UnaryNot] + (YieldP(p) + rest);
  }

  lemma {:induction false} SplitParen(toks: seq<Symbol>, c: Chain, rest: seq<Symbol>)
    requires toks != [] && toks[0] == LParen && toks[1..] == YieldC(c) + rest && rest != [] && rest[0] == RParen
    ensures toks == YieldP(PParen(c)) + rest[1..]
  {
    assert toks == [LParen] + (YieldC(c) + ([RParen] + rest[1..]));
  }

  /** Reads the longest chain at the front of the tokens. */
  function ParseC(toks: seq<Symbol>): (r: Option<(Chain, seq<Symbol>)>)
    ensures r.Some? ==> |r.value.1| < |toks| && toks == YieldC(r.value.0) + r.value.1
    decreases |toks|, 1
  {
    match ParseP(toks)
    case None => None
    case Some((p, rest)) =>
      if rest != [] && rest[0].Binary? then
        match ParseC(rest[1..])
        case None => None
        case Some((c, left)) =>
          SplitMore(toks, p, rest, c, left);
          Some((More(p, rest[0].op, c), left))
      else
        Some((One(p), rest))
  }

  /** Reads one name, negation or parenthesised chain at the front of the tokens. */
  function ParseP(toks: seq<Symbol>): (r: Option<(Prim, seq<Symbol>)>)
    ensures r.Some? ==> |r.value.1| < |toks| && toks == YieldP(r.value.0) + r.value.1
    decreases |toks|, 0
  {
    if toks == [] then None
    else
      match toks[0]
      case Ident(n) => Some((PIdent(n), toks[1..]))
      case UnaryNot =>
        (match ParseP(toks[1..])
         case None => None
         case Some((p, rest)) => SplitNot(toks, p, rest); Some((PNot(p), rest)))
      case LParen =>
        (match ParseC(toks[1..])
         case None => None
         case Some((c, rest)) =>
           if rest != [] && rest[0] == RParen then
             SplitParen(toks, c, rest);
             Some((PParen(c), rest[1..]))
           else None)
      case _ => None
  }

  lemma {:induction false} ParsePComplete(p: Prim, rest: seq<Symbol>)
    ensures ParseP(YieldP(p) + rest) == Some((p, rest))
    decreases p
  {
    match p
    case PIdent(n) =>
      assert ([Ident(n)] + rest)[1..] == rest;
    case PNot(q) =>
      assert (YieldP(p) + rest)[1..] == YieldP(q) + rest;
      ParsePComplete(q, rest);
    case PParen(c) =>
      assert (YieldP(p) + rest)[1..] == YieldC(c) + ([RParen] + rest);
      ParseCComplete(c, [RParen] + rest);
      assert ([RParen] + rest)[1..] == rest;
  }

  lemma {:induction false} ParseCComplete(c: Chain, rest: seq<Symbol>)
    requires rest == [] || !rest[0].Binary?
    ensures ParseC(YieldC(c) + rest) == Some((c, rest))
    decreases c
  {
    if c.One? {
      ParsePComplete(c.p, rest);
    } else {
      var tail := [Binary(c.op)] + (YieldC(c.rest) + rest);
      assert YieldC(c) + rest == YieldP(c.p) + tail;
      ParsePComplete(c.p, tail);
      assert tail[1..] == YieldC(c.rest) + rest;
      ParseCComplete(c.rest, rest);
    }
  }

  /** Tokens have at most one chain: any two parse trees with the same tokens differ only in how they
      group the operators inside a parenthesis level. */
  lemma {:induction false} ChainUnique(c: Chain, t: Tree)
    requires NotBindsTightest(t) && Yield(t) == YieldC(c)
    ensures Flatten(t) == c
  {
    FlattenYield(t);
    ParseCComplete(c, []);
    ParseCComplete(Flatten(t), []);
    assert YieldC(c) + [] == YieldC(Flatten(t)) + [];
  }

  // ----- levels that use one operator only -----

  /** Every operator of this level is op, and every nested level keeps to one operator of its own. */
  predicate Uniform(c: Chain, op: Op) {
    UnmixedP(c.p) && (c.More? ==> c.op == op && Uniform(c.rest, op))
  }

  predicate UnmixedP(p: Prim) {
    match p
    case PIdent(_) => true
    case PNot(q) => UnmixedP(q)
    case PParen(c) => Unmixed(c)
  }

  predicate Unmixed(c: Chain) {
    Uniform(c, And) || Uniform(c, Or)
  }

  predicate ValueC(c: Chain, vs: set<string>) {
    match c
    case One(p) => ValueP(p, vs)
    case More(p, op, rest) => Combine(op, ValueP(p, vs), ValueC(rest, vs))
  }

  predicate ValueP(p: Prim, vs: set<string>) {
    match p
    case PIdent(n) => n in vs
    case PNot(q) => !ValueP(q, vs)
    case PParen(c) => ValueC(c, vs)
  }

  lemma {:induction false} JoinValue(c: Chain, op: Op, d: Chain, vs: set<string>)
    requires Uniform(c, op)
    ensures ValueC(Join(c, op, d), vs) == Combine(op, ValueC(c, vs), ValueC(d, vs))
  {
    if c.More? {
      JoinValue(c.rest, op, d, vs);
    }
  }

  lemma {:induction false} JoinUniform(c: Chain, op: Op, d: Chain, o: Op)
    ensures Uniform(Join(c, op, d), o) <==> Uniform(c, o) && op == o && Uniform(d, o)
  {
    if c.More? {
      JoinUniform(c.rest, op, d, o);
    }
  }

  /** When no level mixes the operators, every parse tree has the value of the chain. */
  lemma {:induction false} GroupingIrrelevant(t: Tree, vs: set<string>)
    requires NotBindsTightest(t) && Unmixed(Flatten(t))
    ensures Eval(t, vs) == ValueC(Flatten(t), vs)
  {
    match t
    case Leaf(_) =>
    case Neg(u) =>
      assert AsPrim(t) == PNot(AsPrim(u)) && UnmixedP(AsPrim(t));
      GroupingIrrelevant(u, vs);
    case Paren(u) =>
      assert AsPrim(t) == PParen(Flatten(u)) && UnmixedP(AsPrim(t));
      GroupingIrrelevant(u, vs);
    case Node(l, op, r) =>
      JoinUniform(Flatten(l), op, Flatten(r), And);
      JoinUniform(Flatten(l), op, Flatten(r), Or);
      GroupingIrrelevant(l, vs);
      GroupingIrrelevant(r, vs);
      JoinValue(Flatten(l), op, Flatten(r), vs);
  }

  // ----- one concrete reading -----

  /** Outside parentheses the tree uses the tight operator only. */
  predicate TightTerm(tight: Op, t: Tree) {
    t.Node? ==> t.op == tight && TightTerm(tight, t.l) && TightTerm(tight, t.r)
  }

  /** Only tight terms are operands of the tight operator. */
  predicate Respects(tight: Op, t: Tree) {
    match t
    case Leaf(_) => true
    case Neg(u) => Respects(tight, u)
    case Paren(u) => Respects(tight, u)
    case Node(l, op, r) =>
      Respects(tight, l) && Respects(tight, r) && (op == tight ==> TightTerm(tight, l) && TightTerm(tight, r))
  }

  function LiftP(tight: Op, p: Prim): (t: Tree)
    ensures !t.Node? && NotBindsTightest(t) && Respects(tight, t) && Yield(t) == YieldP(p)
    decreases p, 1
  {
    match p
    case PIdent(n) => Leaf(n)
    case PNot(q) => Neg(LiftP(tight, q))
    case PParen(c) => Paren(Lift(tight, c))
  }

  /** Groups a chain so that `tight` binds tighter than the other operator. */
  function Lift(tight: Op, c: Chain): (t: Tree)
    ensures NotBindsTightest(t) && Respects(tight, t) && Yield(t) == YieldC(c)
    decreases c, 2
  {
    if c.One? then LiftP(tight, c.p) else Climb(tight, LiftP(tight, c.p), c.op, c.rest)
  }

  /** t is the part of the current tight term read so far. */
  function Climb(tight: Op, t: Tree, op: Op, c: Chain): (r: Tree)
    requires NotBindsTightest(t) && Respects(tight, t) && TightTerm(tight, t)
    ensures NotBindsTightest(r) && Respects(tight, r) && Yield(r) == Yield(t) + [Binary(op)] + YieldC(c)
    decreases c, 2
  {
    if c.One? then Node(t, op, LiftP(tight, c.p))
    else
      ClimbYield(Yield(t), op, c);
      if op == tight then Climb(tight, Node(t, op, LiftP(tight, c.p)), c.op, c.rest)
      else Node(t, op, Climb(tight, LiftP(tight, c.p), c.op, c.rest))
  }

  lemma {:induction false} ClimbYield(read: seq<Symbol>, op: Op, c: Chain)
    requires c.More?
    ensures read + [Binary(op)] + YieldC(c)
         == (read + [Binary(op)] + YieldP(c.p)) + [Binary(c.op)] + YieldC(c.rest)
  {
  }

  /** The expression built from a token list, or None when the list is not an expression. */
  function NewFromTokens(tight: Op, toks: seq<Symbol>): Option<Tree> {
    match ParseC(toks)
    case None => None
    case Some((c, rest)) => if rest == [] then Some(Lift(tight, c)) else None
  }

  /** The parser accepts exactly the token lists that have a parse tree, and returns one of their trees. */
  lemma {:induction false} NewFromTokensParses(tight: Op, toks: seq<Symbol>)
    ensures NewFromTokens(tight, toks).Some? <==> exists t :: NotBindsTightest(t) && Yield(t) == toks
    ensures NewFromTokens(tight, toks).Some? ==>
              var t := NewFromTokens(tight, toks).value;
              NotBindsTightest(t) && Respects(tight, t) && Yield(t) == toks
  {
    if t :| NotBindsTightest(t) && Yield(t) == toks {
      FlattenYield(t);
      ParseCComplete(Flatten(t), []);
      assert toks == YieldC(Flatten(t)) + [];
    }
    if NewFromTokens(tight, toks).Some? {
      var c := ParseC(toks).value.0;
      assert toks == YieldC(c) + [];
      assert Yield(Lift(tight, c)) == toks;
    }
  }
}
