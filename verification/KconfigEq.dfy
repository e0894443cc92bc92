/**
  Structural equality of formulas "after minor simplification": expr_eq and
  __expr_eliminate_eq call each other, each match overwriting both operands
  with the unit of the level.
  */
module KconfigEq {
  import opened KconfigExpr
  import opened Options

  /** expr_eq on non-NULL expressions. The code works on copies of both trees and
      restores trans_count, so it has no lasting effect. */
  function Eq(a: Expr, b: Expr): bool
    decreases Size(a) + Size(b), 2
  {
    match (a, b)
    case (Cmp(_, _, _), Cmp(_, _, _)) => a == b
    case (Sym(_), Sym(_)) => a == b
    case (Not(x), Not(y)) => Eq(x, y)
    case (And(_, _), And(_, _)) =>
      var (x, y) := EliminateEq(a, b);
      x.Sym? && y.Sym? && x.sym == y.sym
    case (Or(_, _), Or(_, _)) =>
      var (x, y) := EliminateEq(a, b);
      x.Sym? && y.Sym? && x.sym == y.sym
    case _ => false
  }

  /** expr_eq including NULL arguments. */
  function EqOpt(a: Option<Expr>, b: Option<Expr>): bool {
    if a.None? || b.None? then
      (a.None? || a.value == Sym(Yes)) && (b.None? || b.value == Sym(Yes))
    else
      Eq(a.value, b.value)
  }

  /** __expr_eliminate_eq: every operand of `a` against every operand of `b`, left to right. */
  function EliminateEqAux(ty: Junction, a: Expr, b: Expr): (res: (Expr, Expr))
    ensures Size(res.0) <= Size(a) && Size(res.1) <= Size(b)
    decreases Size(a) + Size(b), if Is(ty, a) || Is(ty, b) then 0 else 3
  {
    if Is(ty, a) then
      var (l, b1) := EliminateEqAux(ty, a.l, b);
      var (r, b2) := EliminateEqAux(ty, a.r, b1);
      (Node(ty, l, r), b2)
    else if Is(ty, b) then
      var (a1, l) := EliminateEqAux(ty, a, b.l);
      var (a2, r) := EliminateEqAux(ty, a1, b.r);
      (a2, Node(ty, l, r))
    else if a == b && YesOrNo(a) then (a, b)
    else if !Eq(a, b) then (a, b)
    else (Unit(ty), Unit(ty))
  }

  /** expr_eliminate_eq on non-NULL expressions. */
  function EliminateEq(a: Expr, b: Expr): (Expr, Expr)
    decreases Size(a) + Size(b), 1
  {
    var (a1, b1) := if IsJunction(a) then EliminateEqAux(TypeOf(a), a, b) else (a, b);
    var (a2, b2) :=
      if IsJunction(b1) && !Is(TypeOf(b1), a1) then EliminateEqAux(TypeOf(b1), a1, b1) else (a1, b1);
    (EliminateYn(a2), EliminateYn(b2))
  }

  /** expr_eq answers 1 only for expressions with the same value under every assignment. */
  lemma {:induction false} EqSound(a: Expr, b: Expr, env: Env)
    requires env.Valid() && Eq(a, b)
    ensures Value(a, env) == Value(b, env)
    decreases Size(a) + Size(b), 2
  {
    if a.Not? {
      EqSound(a.arg, b.arg, env);
    } else if IsJunction(a) {
      EliminateEqSound(a, b, env);
    }
  }

  /** Both expressions lose the same factor `v`: whatever one operand contributed to the
      first level, an equal operand contributed to the second. */
  lemma {:induction false} EliminateEqAuxSound(ty: Junction, a: Expr, b: Expr, env: Env) returns (v: Tri)
    requires env.Valid()
    ensures Value(a, env) == Op(ty, Value(EliminateEqAux(ty, a, b).0, env), v)
    ensures Value(b, env) == Op(ty, Value(EliminateEqAux(ty, a, b).1, env), v)
    decreases Size(a) + Size(b), if Is(ty, a) || Is(ty, b) then 0 else 3
  {
    if Is(ty, a) {
      var (l, b1) := EliminateEqAux(ty, a.l, b);
      var (r, b2) := EliminateEqAux(ty, a.r, b1);
      var v1 := EliminateEqAuxSound(ty, a.l, b, env);
      var v2 := EliminateEqAuxSound(ty, a.r, b1, env);
      v := Op(ty, v1, v2);
      NodeValue(ty, l, r, env);
      NodeValue(ty, a.l, a.r, env);
      Regroup(ty, Value(l, env), Value(r, env), v1, v2);
      Regroup(ty, Value(b2, env), Value(b2, env), v1, v2);
    } else if Is(ty, b) {
      var (a1, l) := EliminateEqAux(ty, a, b.l);
      var (a2, r) := EliminateEqAux(ty, a1, b.r);
      var v1 := EliminateEqAuxSound(ty, a, b.l, env);
      var v2 := EliminateEqAuxSound(ty, a1, b.r, env);
      v := Op(ty, v1, v2);
      NodeValue(ty, l, r, env);
      NodeValue(ty, b.l, b.r, env);
      Regroup(ty, Value(l, env), Value(r, env), v1, v2);
      Regroup(ty, Value(a2, env), Value(a2, env), v1, v2);
    } else if !(a == b && YesOrNo(a)) && Eq(a, b) {
      EqSound(a, b, env);
      v := Value(a, env);
    } else {
      v := Value(Unit(ty), env);
    }
  }

  /** What is left after removing common operands decides equality: if the two remainders
      have the same value, so had the originals. */
  lemma {:induction false} EliminateEqSound(a: Expr, b: Expr, env: Env)
    requires env.Valid()
    requires Value(EliminateEq(a, b).0, env) == Value(EliminateEq(a, b).1, env)
    ensures Value(a, env) == Value(b, env)
    decreases Size(a) + Size(b), 1
  {
    var a1, b1 := a, b;
    if IsJunction(a) {
      var res := EliminateEqAux(TypeOf(a), a, b);
      a1, b1 := res.0, res.1;
      var v := EliminateEqAuxSound(TypeOf(a), a, b, env);
    }
    var a2, b2 := a1, b1;
    if IsJunction(b1) && !Is(TypeOf(b1), a1) {
      var res := EliminateEqAux(TypeOf(b1), a1, b1);
      a2, b2 := res.0, res.1;
      var v := EliminateEqAuxSound(TypeOf(b1), a1, b1, env);
    }
    EliminateYnValue(a2, env);
    EliminateYnValue(b2, env);
  }

  /** Soundness with NULL, which counts as yes, on either side. */
  lemma EqOptSound(a: Option<Expr>, b: Option<Expr>, env: Env)
    requires env.Valid() && EqOpt(a, b)
    ensures ValueOpt(a, env) == ValueOpt(b, env)
  {
    if a.Some? && b.Some? {
      EqSound(a.value, b.value, env);
    }
  }

  // ----- expr_join_or and expr_join_and -----

  /** The symbol a comparison-like operand talks about, as the join functions read it. */
  function FirstSymbol(e: Expr): Option<Symbol> {
    match e
    case Sym(s) => Some(s)
    case Cmp(rel, s, _) => if rel.Equal? || rel.Unequal? then Some(s) else None
    case Not(Sym(s)) => Some(s)
    case Not(Cmp(rel, s, _)) => if rel.Equal? || rel.Unequal? then Some(s) else None
    case _ => None
  }

  function SecondSymbol(e: Expr): Option<Symbol> {
    match e
    case Sym(s) => Some(s)
    case Cmp(rel, s, _) => if rel.Equal? || rel.Unequal? then Some(s) else None
    case Not(Sym(s)) => Some(s)
    case _ => None
  }

  predicate Rel(e: Expr, rel: Relation, c: Symbol) {
    e.Cmp? && e.rel == rel && e.right == c
  }

  /** One operand compares with `c`, the other with `d`, in either order. */
  predicate Both(a: Expr, b: Expr, rel: Relation, c: Symbol, d: Symbol) {
    (Rel(a, rel, c) && Rel(b, rel, d)) || (Rel(a, rel, d) && Rel(b, rel, c))
  }

  /** One operand is the plain symbol, the other compares with `c`. */
  predicate PlainAnd(a: Expr, b: Expr, rel: Relation, c: Symbol) {
    (a.Sym? && Rel(b, rel, c)) || (b.Sym? && Rel(a, rel, c))
  }

  function JoinOr(a: Expr, b: Expr): Option<Expr> {
    if Eq(a, b) then Some(a)
    else
      var s1, s2 := FirstSymbol(a), SecondSymbol(b);
      if s1.None? || s2.None? || s1 != s2 || !s1.value.BoolOrTristate() then None
      else
        var s := s1.value;
        if s.Type().Tristate? && Both(a, b, Equal, Yes, Mod) then Some(Cmp(Unequal, s, No))
        else if s.Type().Tristate? && Both(a, b, Equal, Yes, No) then Some(Cmp(Unequal, s, Mod))
        else if s.Type().Tristate? && Both(a, b, Equal, Mod, No) then Some(Cmp(Unequal, s, Yes))
        else if s.Type().Boolean? && ((a.Not? && a.arg.Sym? && b.Sym?) || (b.Not? && b.arg.Sym? && a.Sym?)) then
          Some(Sym(Yes))
        else None
  }

  function JoinAnd(a: Expr, b: Expr): Option<Expr> {
    if Eq(a, b) then Some(a)
    else
      var s1, s2 := FirstSymbol(a), SecondSymbol(b);
      if s1.None? || s2.None? || s1 != s2 || !s1.value.BoolOrTristate() then None
      else
        var s := s1.value;
        if PlainAnd(a, b, Equal, Yes) then Some(Cmp(Equal, s, Yes))
        else if PlainAnd(a, b, Unequal, No) then Some(Sym(s))
        else if PlainAnd(a, b, Unequal, Mod) then Some(Cmp(Equal, s, Yes))
        else if !s.Type().Tristate? then None
        else if a.Cmp? && a.rel.Equal? && b.Cmp? && b.rel.Unequal? && a.right.Const() && b.right.Const() then
          Some(if a.right != b.right then Cmp(Equal, s, a.right) else Sym(No))
        else if a.Cmp? && a.rel.Unequal? && b.Cmp? && b.rel.Equal? && a.right.Const() && b.right.Const() then
          Some(if a.right != b.right then Cmp(Equal, s, b.right) else Sym(No))
        else if Both(a, b, Unequal, Yes, No) then Some(Cmp(Equal, s, Mod))
        else if Both(a, b, Unequal, Yes, Mod) then Some(Cmp(Equal, s, No))
        else if Both(a, b, Unequal, Mod, No) then Some(Cmp(Equal, s, Yes))
        else None
  }

  function Join(ty: Junction, a: Expr, b: Expr): Option<Expr> {
    match ty
    case AndType => JoinAnd(a, b)
    case OrType => JoinOr(a, b)
  }

  // ----- which pairs are joined, and to what -----

  /** c, d and e are y, m and n in some order. */
  predicate AllThree(c: Symbol, d: Symbol, e: Symbol) {
    {c, d, e} == {Yes, Mod, No}
  }

  /** The alternatives s=c and s=d of a tristate, with e the value they leave out. */
  ghost predicate TwoValues(a: Expr, b: Expr, s: Symbol, e: Symbol) {
    s.Type().Tristate? && exists c, d :: AllThree(c, d, e) && a == Cmp(Equal, s, c) && b == Cmp(Equal, s, d)
  }

  /** A boolean symbol and its negation. */
  predicate Opposites(a: Expr, b: Expr, s: Symbol) {
    s.Type().Boolean? && ((a == Sym(s) && b == Not(Sym(s))) || (a == Not(Sym(s)) && b == Sym(s)))
  }

  /** What two alternatives are joined to: themselves if they are equal, else by one of two rules. */
  ghost predicate JoinsOr(a: Expr, b: Expr, t: Expr) {
    if Eq(a, b) then t == a
    else
      || (exists s, e :: TwoValues(a, b, s, e) && t == Cmp(Unequal, s, e))
      || (t == Sym(Yes) && exists s :: Opposites(a, b, s))
  }

  /** A plain symbol, bool or tristate, beside a comparison of that symbol with c; in either order. */
  predicate PlainAndCompared(a: Expr, b: Expr, s: Symbol, rel: Relation, c: Symbol) {
    s.BoolOrTristate() && ((a == Sym(s) && b == Cmp(rel, s, c)) || (a == Cmp(rel, s, c) && b == Sym(s)))
  }

  /** The conjuncts s=c and s!=d of a tristate, for two constants; in either order. */
  predicate EqualAndUnequal(a: Expr, b: Expr, s: Symbol, c: Symbol, d: Symbol) {
    s.Type().Tristate? && c.Const() && d.Const() &&
    ((a == Cmp(Equal, s, c) && b == Cmp(Unequal, s, d)) || (a == Cmp(Unequal, s, d) && b == Cmp(Equal, s, c)))
  }

  /** The conjuncts s!=c and s!=d of a tristate, with e the value they leave. */
  ghost predicate NotTwoValues(a: Expr, b: Expr, s: Symbol, e: Symbol) {
    s.Type().Tristate? && exists c, d :: AllThree(c, d, e) && a == Cmp(Unequal, s, c) && b == Cmp(Unequal, s, d)
  }

  /** What two conjuncts are joined to. */
  ghost predicate JoinsAnd(a: Expr, b: Expr, t: Expr) {
    if Eq(a, b) then t == a
    else
      || (exists s :: PlainAndCompared(a, b, s, Equal, Yes) && t == Cmp(Equal, s, Yes))
      || (exists s :: PlainAndCompared(a, b, s, Unequal, No) && t == Sym(s))
      || (exists s :: PlainAndCompared(a, b, s, Unequal, Mod) && t == Cmp(Equal, s, Yes))
      || (exists s, c, d :: EqualAndUnequal(a, b, s, c, d) && t == if c == d then Sym(No) else Cmp(Equal, s, c))
      || (exists s, e :: NotTwoValues(a, b, s, e) && t == Cmp(Equal, s, e))
  }

  lemma AllThreeCases(c: Symbol, d: Symbol, e: Symbol)
    ensures AllThree(c, d, e) <==>
            !c.Named? && !d.Named? && !e.Named? && c != d && d != e && c != e
  {
    if AllThree(c, d, e) {
      assert Yes in {c, d, e} && Mod in {c, d, e} && No in {c, d, e};
      assert c in {Yes, Mod, No} && d in {Yes, Mod, No} && e in {Yes, Mod, No};
    }
  }

  lemma TwoValuesJoin(a: Expr, b: Expr, s: Symbol, e: Symbol)
    requires TwoValues(a, b, s, e) && !Eq(a, b)
    ensures JoinOr(a, b) == Some(Cmp(Unequal, s, e))
  {
    var c, d :| AllThree(c, d, e) && a == Cmp(Equal, s, c) && b == Cmp(Equal, s, d);
    AllThreeCases(c, d, e);
  }

  lemma OppositesJoin(a: Expr, b: Expr, s: Symbol)
    requires Opposites(a, b, s) && !Eq(a, b)
    ensures JoinOr(a, b) == Some(Sym(Yes))
  {
  }

  lemma JoinOrFinds(a: Expr, b: Expr)
    requires JoinOr(a, b).Some?
    ensures JoinsOr(a, b, JoinOr(a, b).value)
  {
    if !Eq(a, b) {
      var s, t := FirstSymbol(a).value, JoinOr(a, b).value;
      if t == Sym(Yes) {
        assert Opposites(a, b, s);
      } else {
        AllThreeCases(a.right, b.right, t.right);
        assert TwoValues(a, b, s, t.right);
      }
    }
  }

  /** Two alternatives are joined exactly when they are equal, leave one value of a tristate, or are a
      boolean and its negation; and to exactly that. */
  lemma JoinOrIs(a: Expr, b: Expr, t: Expr)
    ensures JoinOr(a, b) == Some(t) <==> JoinsOr(a, b, t)
  {
    if JoinOr(a, b) == Some(t) {
      JoinOrFinds(a, b);
    }
    if JoinsOr(a, b, t) && !Eq(a, b) {
      if s, e :| TwoValues(a, b, s, e) && t == Cmp(Unequal, s, e) {
        TwoValuesJoin(a, b, s, e);
      } else {
        var s :| Opposites(a, b, s);
        OppositesJoin(a, b, s);
      }
    }
  }

  lemma PlainJoins(a: Expr, b: Expr, s: Symbol)
    requires !Eq(a, b)
    ensures PlainAndCompared(a, b, s, Equal, Yes) ==> JoinAnd(a, b) == Some(Cmp(Equal, s, Yes))
    ensures PlainAndCompared(a, b, s, Unequal, No) ==> JoinAnd(a, b) == Some(Sym(s))
    ensures PlainAndCompared(a, b, s, Unequal, Mod) ==> JoinAnd(a, b) == Some(Cmp(Equal, s, Yes))
  {
  }

  lemma EqualAndUnequalJoin(a: Expr, b: Expr, s: Symbol, c: Symbol, d: Symbol)
    requires EqualAndUnequal(a, b, s, c, d)
    ensures JoinAnd(a, b) == Some(if c == d then Sym(No) else Cmp(Equal, s, c))
  {
  }

  lemma NotTwoValuesJoin(a: Expr, b: Expr, s: Symbol, e: Symbol)
    requires NotTwoValues(a, b, s, e) && !Eq(a, b)
    ensures JoinAnd(a, b) == Some(Cmp(Equal, s, e))
  {
    var c, d :| AllThree(c, d, e) && a == Cmp(Unequal, s, c) && b == Cmp(Unequal, s, d);
    AllThreeCases(c, d, e);
  }

  lemma JoinAndFinds(a: Expr, b: Expr)
    requires JoinAnd(a, b).Some?
    ensures JoinsAnd(a, b, JoinAnd(a, b).value)
  {
    if !Eq(a, b) {
      var s, t := FirstSymbol(a).value, JoinAnd(a, b).value;
      if a.Sym? || b.Sym? {
        assert PlainAndCompared(a, b, s, Equal, Yes) || PlainAndCompared(a, b, s, Unequal, No)
               || PlainAndCompared(a, b, s, Unequal, Mod);
      } else if a.rel != b.rel {
        assert EqualAndUnequal(a, b, s, a.right, b.right) || EqualAndUnequal(a, b, s, b.right, a.right);
      } else {
        AllThreeCases(a.right, b.right, t.right);
        assert NotTwoValues(a, b, s, t.right);
      }
    }
  }

  /** Two conjuncts are joined exactly by these rules, and to exactly that. */
  lemma JoinAndIs(a: Expr, b: Expr, t: Expr)
    ensures JoinAnd(a, b) == Some(t) <==> JoinsAnd(a, b, t)
  {
    if JoinAnd(a, b) == Some(t) {
      JoinAndFinds(a, b);
    }
    if JoinsAnd(a, b, t) && !Eq(a, b) {
      if s :| PlainAndCompared(a, b, s, Equal, Yes) && t == Cmp(Equal, s, Yes) {
        PlainJoins(a, b, s);
      } else if s :| PlainAndCompared(a, b, s, Unequal, No) && t == Sym(s) {
        PlainJoins(a, b, s);
      } else if s :| PlainAndCompared(a, b, s, Unequal, Mod) && t == Cmp(Equal, s, Yes) {
        PlainJoins(a, b, s);
      } else if s, c, d :| EqualAndUnequal(a, b, s, c, d) && t == if c == d then Sym(No) else Cmp(Equal, s, c) {
        EqualAndUnequalJoin(a, b, s, c, d);
      } else {
        var s, e :| NotTwoValues(a, b, s, e) && t == Cmp(Equal, s, e);
        NotTwoValuesJoin(a, b, s, e);
      }
    }
  }

  lemma JoinOrSound(a: Expr, b: Expr, env: Env)
    requires env.Valid() && JoinOr(a, b).Some?
    ensures Value(JoinOr(a, b).value, env) == Max(Value(a, env), Value(b, env))
  {
    if Eq(a, b) {
      EqSound(a, b, env);
    }
  }

  /** One operand says a='c', the other a!='d', for constants c and d that a equals both. */
  ghost predicate Confused(a: Expr, b: Expr, env: Env) {
    && a.Cmp? && b.Cmp? && a.left == b.left && a.left.Type().Tristate?
    && ((a.rel.Equal? && b.rel.Unequal?) || (a.rel.Unequal? && b.rel.Equal?))
    && a.right.Const() && b.right.Const() && a.right != b.right
    && env.order(a.left, a.right) == 0 && env.order(a.left, b.right) == 0
  }

  /** Joining two conjuncts keeps the value exactly when they are not confused. */
  lemma JoinAndExact(a: Expr, b: Expr, env: Env)
    requires env.Valid() && JoinAnd(a, b).Some?
    ensures Value(JoinAnd(a, b).value, env) == Min(Value(a, env), Value(b, env)) <==> !Confused(a, b, env)
  {
    if Eq(a, b) {
      EqSound(a, b, env);
    }
  }

  lemma JoinAndSound(a: Expr, b: Expr, env: Env)
    requires env.Valid() && env.Apart(Tests(a) + Tests(b)) && JoinAnd(a, b).Some?
    ensures Value(JoinAnd(a, b).value, env) == Min(Value(a, env), Value(b, env))
  {
    JoinAndExact(a, b, env);
    if Confused(a, b, env) {
      assert Testable(a.left, a.right, Tests(a) + Tests(b)) && Testable(a.left, b.right, Tests(a) + Tests(b));
    }
  }

  /** A join replaces two operands by one of the same combined value. */
  lemma JoinSound(ty: Junction, a: Expr, b: Expr, env: Env)
    requires env.Valid() && env.Apart(Tests(a) + Tests(b)) && Join(ty, a, b).Some?
    ensures Value(Join(ty, a, b).value, env) == Op(ty, Value(a, env), Value(b, env))
  {
    match ty
    case AndType => JoinAndSound(a, b, env);
    case OrType => JoinOrSound(a, b, env);
  }

  /** The joined operand is the first operand itself or a single symbol or comparison, and tests nothing
      that the two did not test. */
  lemma JoinShape(ty: Junction, a: Expr, b: Expr)
    requires Join(ty, a, b).Some?
    ensures var t := Join(ty, a, b).value;
      (t == a || (Size(t) == 1 && (t.Sym? || t.Cmp?))) && Tests(t) <= Tests(a) + Tests(b)
  {
    match ty
    case AndType => JoinAndShape(a, b);
    case OrType => JoinOrShape(a, b);
  }

  lemma JoinAndShape(a: Expr, b: Expr)
    requires JoinAnd(a, b).Some?
    ensures var t := JoinAnd(a, b).value;
      (t == a || (Size(t) == 1 && (t.Sym? || t.Cmp?))) && Tests(t) <= Tests(a) + Tests(b)
  {
  }

  lemma JoinOrShape(a: Expr, b: Expr)
    requires JoinOr(a, b).Some?
    ensures var t := JoinOr(a, b).value;
      (t == a || (Size(t) == 1 && (t.Sym? || t.Cmp?))) && Tests(t) <= Tests(a) + Tests(b)
  {
  }

  /** For every set of tests: joining conjuncts with no other tests keeps the value if and only if the
      assignment keeps the tested constants, and y, m and n, apart. */
  lemma JoinAndNeedsConstantsApart(env: Env, tests: set<(Symbol, Symbol)>)
    requires env.Valid()
    ensures env.Apart(tests) <==>
            forall a: Expr, b: Expr :: JoinAnd(a, b).Some? && Tests(a) + Tests(b) <= tests ==>
              Value(JoinAnd(a, b).value, env) == Min(Value(a, env), Value(b, env))
  {
    if env.Apart(tests) {
      forall a: Expr, b: Expr | JoinAnd(a, b).Some? && Tests(a) + Tests(b) <= tests
        ensures Value(JoinAnd(a, b).value, env) == Min(Value(a, env), Value(b, env))
      {
        JoinAndSound(a, b, env);
      }
    } else {
      var s: Symbol, c: Symbol, d: Symbol :|
        Testable(s, c, tests) && Testable(s, d, tests) && c != d && env.order(s, c) == 0 && env.order(s, d) == 0;
      var a, b := Cmp(Equal, s, c), Cmp(Unequal, s, d);
      assert JoinAnd(a, b) == Some(Cmp(Equal, s, c));
      assert Tests(a) + Tests(b) <= tests;
      assert Value(JoinAnd(a, b).value, env) != Min(Value(a, env), Value(b, env));
    }
  }

  /** An assignment of the tool: every symbol is y, and a tristate that is y equals both y and the
      constant "2", because its value is compared as the number 2. */
  function AllYes(): Env {
    Env((s: Symbol) => if s == Mod then 1 else if s == No then 0 else 2,
        (s: Symbol, c: Symbol) =>
          if s.BoolOrTristate() && (c == Yes || c == Named("2", Unknown, true)) then 0 else 1)
  }

  /** There (A='y') && (A!='2') is n, and what it is joined to, A='y', is y. */
  lemma NumericConstantConfuses()
    ensures var A, two := Named("A", Tristate, false), Named("2", Unknown, true);
      var a, b := Cmp(Equal, A, Yes), Cmp(Unequal, A, two);
      && AllYes().Valid() && Confused(a, b, AllYes())
      && JoinAnd(a, b) == Some(a) && Value(And(a, b), AllYes()) == 0 && Value(a, AllYes()) == 2
  {
  }
}
