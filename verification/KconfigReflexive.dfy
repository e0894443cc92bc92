/**
  expr_eq recognises every expression as equal to itself. The proof follows the order in
  which __expr_eliminate_eq pairs operands: the k-th operand of the first copy meets the
  k-th operand of the second copy while everything before it is already a constant.
  */
module KconfigReflexive {
  import opened KconfigExpr
  import opened KconfigEq

  /** A level after all its operands other than y and n were replaced by the unit. */
  function Blank(ty: Junction, e: Expr): Expr {
    if Is(ty, e) then Node(ty, Blank(ty, e.l), Blank(ty, e.r))
    else if YesOrNo(e) then e
    else Unit(ty)
  }

  /** All operands of the level are y or n. */
  predicate Constant(ty: Junction, e: Expr) {
    if Is(ty, e) then Constant(ty, e.l) && Constant(ty, e.r) else YesOrNo(e)
  }

  lemma {:induction false} BlankIsConstant(ty: Junction, e: Expr)
    ensures Constant(ty, Blank(ty, e))
    ensures YesOrNo(EliminateYn(Blank(ty, e)))
  {
    if Is(ty, e) {
      BlankIsConstant(ty, e.l);
      BlankIsConstant(ty, e.r);
    }
  }

  /** y and n never match anything. */
  lemma {:induction false} ConstantNeverMatches(ty: Junction, c: Expr, b: Expr)
    requires YesOrNo(c)
    ensures EliminateEqAux(ty, c, b) == (c, b)
  {
    if Is(ty, b) {
      ConstantNeverMatches(ty, c, b.l);
      ConstantNeverMatches(ty, c, b.r);
    }
  }

  /** No operand matches in a level of constants. */
  lemma {:induction false} NothingMatchesConstants(ty: Junction, a: Expr, b: Expr)
    requires !Is(ty, a) && Constant(ty, b)
    ensures EliminateEqAux(ty, a, b) == (a, b)
  {
    if Is(ty, b) {
      NothingMatchesConstants(ty, a, b.l);
      NothingMatchesConstants(ty, a, b.r);
    }
  }

  /** The second tree around the position that is being walked, innermost node first. */
  datatype Crumb = LeftOf(right: Expr) | RightOf(left: Expr)

  function Plug(ty: Junction, e: Expr, ctx: seq<Crumb>): Expr
    decreases |ctx|
  {
    if ctx == [] then e
    else
      match ctx[0]
      case LeftOf(r) => Plug(ty, Node(ty, e, r), ctx[1..])
      case RightOf(l) => Plug(ty, Node(ty, l, e), ctx[1..])
  }

  predicate LeftDone(ty: Junction, ctx: seq<Crumb>) {
    forall i :: 0 <= i < |ctx| && ctx[i].RightOf? ==> Constant(ty, ctx[i].left)
  }

  /** One operand against a context whose left part is constant and whose hole turns the
      operand into a constant. */
  lemma {:induction false} LeafInContext(ty: Junction, a: Expr, e: Expr, e': Expr, ctx: seq<Crumb>)
    requires !Is(ty, a) && LeftDone(ty, ctx)
    requires var res := EliminateEqAux(ty, a, e); res.1 == e' && (YesOrNo(res.0) || ctx == [])
    ensures EliminateEqAux(ty, a, Plug(ty, e, ctx)) == (EliminateEqAux(ty, a, e).0, Plug(ty, e', ctx))
    decreases |ctx|
  {
    if ctx != [] {
      var c := EliminateEqAux(ty, a, e).0;
      match ctx[0]
      case LeftOf(r) =>
        ConstantNeverMatches(ty, c, r);
        LeafInContext(ty, a, Node(ty, e, r), Node(ty, e', r), ctx[1..]);
      case RightOf(l) =>
        NothingMatchesConstants(ty, a, l);
        LeafInContext(ty, a, Node(ty, l, e), Node(ty, l, e'), ctx[1..]);
    }
  }

  /** Walking a subtree against the tree that contains it blanks both copies of it. */
  lemma {:induction false} WalkInContext(ty: Junction, e: Expr, ctx: seq<Crumb>)
    requires LeftDone(ty, ctx)
    ensures EliminateEqAux(ty, e, Plug(ty, e, ctx)) == (Blank(ty, e), Plug(ty, Blank(ty, e), ctx))
    decreases e, 3
  {
    if Is(ty, e) {
      var left := [LeftOf(e.r)] + ctx;
      assert left[1..] == ctx;
      WalkInContext(ty, e.l, left);
      var l := Blank(ty, e.l);
      BlankIsConstant(ty, e.l);
      var right := [RightOf(l)] + ctx;
      assert right[1..] == ctx;
      WalkInContext(ty, e.r, right);
    } else {
      if !YesOrNo(e) {
        EqReflexive(e);
      }
      LeafInContext(ty, e, e, Blank(ty, e), ctx);
    }
  }

  lemma {:induction false} EqReflexive(e: Expr)
    ensures Eq(e, e)
    decreases e, 2
  {
    match e
    case Not(a) => EqReflexive(a);
    case And(_, _) =>
      LevelReflexive(AndType, e);
    case Or(_, _) =>
      LevelReflexive(OrType, e);
    case _ =>
  }

  lemma {:induction false} LevelReflexive(ty: Junction, e: Expr)
    requires Is(ty, e)
    ensures var (x, y) := EliminateEq(e, e); x == y && x.Sym?
    decreases e, 1
  {
    WalkRoot(ty, e);
    BlankIsConstant(ty, e);
  }

  lemma {:induction false} WalkRoot(ty: Junction, e: Expr)
    requires Is(ty, e)
    ensures EliminateEqAux(ty, e, e) == (Blank(ty, e), Blank(ty, e))
    decreases e, 0
  {
    var left := [LeftOf(e.r)];
    WalkInContext(ty, e.l, left);
    BlankIsConstant(ty, e.l);
    var right := [RightOf(Blank(ty, e.l))];
    WalkInContext(ty, e.r, right);
  }
}
