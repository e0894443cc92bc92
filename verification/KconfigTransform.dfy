/**
  expr_transform: comparisons of boolean symbols become plain symbols, negations are pushed
  to the symbols, and rewritten nodes are transformed again.
  */
module KconfigTransform {
  import opened KconfigExpr

  /** Decreases when a negation moves below a junction. */
  function Weight(e: Expr): nat {
    match e
    case Sym(_) => 1
    case Cmp(_, _, _) => 3
    case Not(a) => 2 * Weight(a) + 1
    case And(a, b) => Weight(a) + Weight(b) + 2
    case Or(a, b) => Weight(a) + Weight(b) + 2
  }

  lemma PushedWeight(a: Expr, b: Expr)
    ensures Weight(And(Not(a), Not(b))) == 2 * Weight(Or(a, b))
    ensures Weight(Or(Not(a), Not(b))) == 2 * Weight(And(a, b))
  {
    assert Weight(Not(a)) == 2 * Weight(a) + 1 && Weight(Not(b)) == 2 * Weight(b) + 1;
  }

  function Complement(rel: Relation): Relation {
    match rel
    case Equal => Unequal
    case Unequal => Equal
    case Leq => Gth
    case Geq => Lth
    case Lth => Geq
    case Gth => Leq
  }

  function TransformCmp(rel: Relation, a: Symbol, b: Symbol): Expr {
    if rel.Equal? && a.Type().Boolean? then
      if b.No? then Not(Sym(a))
      else if b.Mod? then Sym(No)
      else if b.Yes? then Sym(a)
      else Cmp(rel, a, b)
    else if rel.Unequal? && a.Type().Boolean? then
      if b.No? then Sym(a)
      else if b.Mod? then Sym(Yes)
      else if b.Yes? then Not(Sym(a))
      else Cmp(rel, a, b)
    else Cmp(rel, a, b)
  }

  function Transform(e: Expr): (r: Expr)
    ensures Weight(r) <= Weight(e)
    decreases Weight(e)
  {
    match e
    case Sym(_) => e
    case Cmp(rel, a, b) => TransformCmp(rel, a, b)
    case And(a, b) => And(Transform(a), Transform(b))
    case Or(a, b) => Or(Transform(a), Transform(b))
    case Not(x) =>
      match Transform(x)
      case Not(a) => Transform(a)
      case Cmp(rel, a, b) => Cmp(Complement(rel), a, b)
      case Or(a, b) => PushedWeight(a, b); Transform(And(Not(a), Not(b)))
      case And(a, b) => PushedWeight(a, b); Transform(Or(Not(a), Not(b)))
      case Sym(s) =>
        if s.Yes? then Sym(No)
        else if s.Mod? then Sym(Mod)
        else if s.No? then Sym(Yes)
        else Not(Sym(s))
  }

  /** Negation only directly above a symbol other than y, m, n; no boolean symbol is compared
      with y, m or n for equality. */
  predicate Normal(e: Expr) {
    match e
    case Sym(_) => true
    case Cmp(rel, a, b) => !(a.Type().Boolean? && !b.Named? && (rel.Equal? || rel.Unequal?))
    case Not(a) => a.Sym? && a.sym.Named?
    case And(a, b) => Normal(a) && Normal(b)
    case Or(a, b) => Normal(a) && Normal(b)
  }

  /** The value is the same under every assignment. */
  lemma {:induction false} TransformValue(e: Expr, env: Env)
    requires env.Valid()
    ensures Value(Transform(e), env) == Value(e, env)
    decreases Weight(e)
  {
    match e
    case Sym(_) =>
    case Cmp(_, _, _) =>
    case And(a, b) => TransformValue(a, env); TransformValue(b, env);
    case Or(a, b) => TransformValue(a, env); TransformValue(b, env);
    case Not(x) =>
      TransformValue(x, env);
      match Transform(x) {
        case Not(a) => TransformValue(a, env);
        case Or(a, b) => PushedWeight(a, b); TransformValue(And(Not(a), Not(b)), env);
        case And(a, b) => PushedWeight(a, b); TransformValue(Or(Not(a), Not(b)), env);
        case _ =>
      }
  }

  lemma {:induction false} TransformNormal(e: Expr)
    ensures Normal(Transform(e))
    decreases Weight(e)
  {
    match e
    case Sym(_) =>
    case Cmp(_, _, _) =>
    case And(a, b) => TransformNormal(a); TransformNormal(b);
    case Or(a, b) => TransformNormal(a); TransformNormal(b);
    case Not(x) =>
      TransformNormal(x);
      match Transform(x) {
        case Or(a, b) => PushedWeight(a, b); TransformNormal(And(Not(a), Not(b)));
        case And(a, b) => PushedWeight(a, b); TransformNormal(Or(Not(a), Not(b)));
        case _ =>
      }
  }

  /** Normal expressions are exactly the fixed points, so transforming twice is transforming once. */
  lemma {:induction false} NormalIsFixed(e: Expr)
    requires Normal(e)
    ensures Transform(e) == e
    decreases e
  {
    match e
    case And(a, b) => NormalIsFixed(a); NormalIsFixed(b);
    case Or(a, b) => NormalIsFixed(a); NormalIsFixed(b);
    case _ =>
  }

  lemma TransformIdempotent(e: Expr)
    ensures Transform(Transform(e)) == Transform(e)
    ensures Transform(e) == e <==> Normal(e)
  {
    TransformNormal(e);
    NormalIsFixed(Transform(e));
    if Normal(e) {
      NormalIsFixed(e);
    }
  }
}
