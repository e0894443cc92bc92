/**
  When expr_eq answers 1: the operands of every && and || must match one to one, so how often an
  operand occurs matters, and order and grouping do not.
  */
module KconfigOperands {
  import opened KconfigExpr
  import opened KconfigEq
  import opened KconfigReflexive

  /** An expression up to order and grouping of operands; operands keep their multiplicity. */
  datatype Canon =
    | CSym(sym: Symbol)
    | CCmp(rel: Relation, left: Symbol, right: Symbol)
    | CNot(arg: Canon)
    | CLevel(ty: Junction, operands: multiset<Canon>)

  function CanonOf(e: Expr): Canon
    decreases e, 1
  {
    match e
    case Sym(s) => CSym(s)
    case Cmp(rel, a, b) => CCmp(rel, a, b)
    case Not(a) => CNot(CanonOf(a))
    case And(a, b) => CLevel(AndType, Operands(AndType, a) + Operands(AndType, b))
    case Or(a, b) => CLevel(OrType, Operands(OrType, a) + Operands(OrType, b))
  }

  /** The operands of the level of type `ty` at the root of `e`, without those that are its unit. */
  function Operands(ty: Junction, e: Expr): multiset<Canon>
    decreases e, 2
  {
    if Is(ty, e) then Operands(ty, e.l) + Operands(ty, e.r)
    else if e == Unit(ty) then multiset{}
    else multiset{CanonOf(e)}
  }

  /** No && or || anywhere, also below NOT, has y or n as an operand. */
  predicate Clean(e: Expr) {
    match e
    case Sym(_) => true
    case Cmp(_, _, _) => true
    case Not(a) => Clean(a)
    case And(a, b) => !YesOrNo(a) && !YesOrNo(b) && Clean(a) && Clean(b)
    case Or(a, b) => !YesOrNo(a) && !YesOrNo(b) && Clean(a) && Clean(b)
  }

  /** A level of clean operands, some of which were replaced by the unit of the level. */
  predicate Crossed(ty: Junction, e: Expr) {
    if Is(ty, e) then Crossed(ty, e.l) && Crossed(ty, e.r) else e == Unit(ty) || (Clean(e) && !YesOrNo(e))
  }

  lemma {:induction false} CleanIsCrossed(ty: Junction, e: Expr)
    requires Clean(e) && !YesOrNo(e)
    ensures Crossed(ty, e)
  {
    if Is(ty, e) {
      CleanIsCrossed(ty, e.l);
      CleanIsCrossed(ty, e.r);
    }
  }

  lemma {:induction false} CleanIsReduced(e: Expr)
    requires Clean(e)
    ensures Reduced(e) && EliminateYn(e) == e
  {
    EliminateYnShape(e);
    if IsJunction(e) {
      CleanIsReduced(e.l);
      CleanIsReduced(e.r);
    }
  }

  lemma LevelCanon(ty: Junction, e: Expr)
    requires Is(ty, e)
    ensures CanonOf(e) == CLevel(ty, Operands(ty, e))
  {
  }

  lemma NodeOperands(ty: Junction, l: Expr, r: Expr)
    ensures Operands(ty, Node(ty, l, r)) == Operands(ty, l) + Operands(ty, r)
    ensures Crossed(ty, Node(ty, l, r)) == (Crossed(ty, l) && Crossed(ty, r)) && Is(ty, Node(ty, l, r))
  {
  }

  // ----- crossing out -----

  lemma SubtractBoth(a1: multiset<Canon>, a2: multiset<Canon>, b: multiset<Canon>)
    ensures (a1 - b) + (a2 - (b - a1)) == (a1 + a2) - b
    ensures (b - a1) - a2 == b - (a1 + a2)
  {
  }

  /** Subtracting b from two parts in turn. */
  lemma Subtracted(p: multiset<Canon>, q: multiset<Canon>, b: multiset<Canon>,
                   p1: multiset<Canon>, b1: multiset<Canon>, q1: multiset<Canon>, b2: multiset<Canon>)
    requires p1 == p - b && b1 == b - p && q1 == q - b1 && b2 == b1 - q
    ensures p1 + q1 == (p + q) - b && b2 == b - (p + q)
  {
    SubtractBoth(p, q, b);
  }

  predicate SameShape(ty: Junction, a: Expr, b: Expr, x: Expr, y: Expr) {
    Crossed(ty, x) && Crossed(ty, y) && (Is(ty, a) ==> Is(ty, x)) && (Is(ty, b) ==> Is(ty, y))
  }

  predicate Unmatched(ty: Junction, a: Expr, b: Expr, x: Expr, y: Expr) {
    Operands(ty, x) == Operands(ty, a) - Operands(ty, b) && Operands(ty, y) == Operands(ty, b) - Operands(ty, a)
  }

  /** x and y are what remains of the levels a and b when equal operands are crossed out. */
  predicate Remains(ty: Junction, a: Expr, b: Expr, x: Expr, y: Expr) {
    SameShape(ty, a, b, x, y) && Unmatched(ty, a, b, x, y)
  }

  lemma UnmatchedLeft(ty: Junction, a: Expr, b: Expr, l: Expr, b1: Expr, r: Expr, b2: Expr)
    requires Is(ty, a) && Unmatched(ty, a.l, b, l, b1) && Unmatched(ty, a.r, b1, r, b2)
    ensures Unmatched(ty, a, b, Node(ty, l, r), b2)
  {
    NodeOperands(ty, l, r);
    Subtracted(Operands(ty, a.l), Operands(ty, a.r), Operands(ty, b),
               Operands(ty, l), Operands(ty, b1), Operands(ty, r), Operands(ty, b2));
  }

  lemma UnmatchedSwap(ty: Junction, a: Expr, b: Expr, x: Expr, y: Expr)
    ensures Unmatched(ty, a, b, x, y) <==> Unmatched(ty, b, a, y, x)
  {
  }

  lemma RemainsLeft(ty: Junction, a: Expr, b: Expr, l: Expr, b1: Expr, r: Expr, b2: Expr)
    requires Is(ty, a) && Remains(ty, a.l, b, l, b1) && Remains(ty, a.r, b1, r, b2)
    ensures Remains(ty, a, b, Node(ty, l, r), b2)
  {
    assert SameShape(ty, a, b, Node(ty, l, r), b2) by {
      NodeOperands(ty, l, r);
    }
    UnmatchedLeft(ty, a, b, l, b1, r, b2);
  }

  lemma RemainsRight(ty: Junction, a: Expr, b: Expr, a1: Expr, l: Expr, a2: Expr, r: Expr)
    requires Is(ty, b) && Remains(ty, a, b.l, a1, l) && Remains(ty, a1, b.r, a2, r)
    ensures Remains(ty, a, b, a2, Node(ty, l, r))
  {
    assert SameShape(ty, a, b, a2, Node(ty, l, r)) by {
      NodeOperands(ty, l, r);
    }
    UnmatchedSwap(ty, a, b.l, a1, l);
    UnmatchedSwap(ty, a1, b.r, a2, r);
    UnmatchedLeft(ty, b, a, l, a1, r, a2);
    UnmatchedSwap(ty, a, b, a2, Node(ty, l, r));
  }

  lemma Difference(c: Canon, d: Canon)
    ensures multiset{c} - multiset{d} == if c == d then multiset{} else multiset{c}
    ensures multiset{d} - multiset{c} == if c == d then multiset{} else multiset{d}
  {
  }

  /** Two operands: both are crossed out if they are equal. */
  lemma RemainsLeaf(ty: Junction, a: Expr, b: Expr)
    requires Crossed(ty, a) && Crossed(ty, b) && !Is(ty, a) && !Is(ty, b)
    requires Eq(a, b) <==> CanonOf(a) == CanonOf(b)
    ensures var (x, y) := EliminateEqAux(ty, a, b); Remains(ty, a, b, x, y)
  {
    Difference(CanonOf(a), CanonOf(b));
  }

  lemma AuxLeft(ty: Junction, a: Expr, b: Expr, l: Expr, b1: Expr, r: Expr, b2: Expr)
    requires Is(ty, a) && EliminateEqAux(ty, a.l, b) == (l, b1) && EliminateEqAux(ty, a.r, b1) == (r, b2)
    ensures EliminateEqAux(ty, a, b) == (Node(ty, l, r), b2)
  {
  }

  lemma AuxRight(ty: Junction, a: Expr, b: Expr, a1: Expr, l: Expr, a2: Expr, r: Expr)
    requires !Is(ty, a) && Is(ty, b)
    requires EliminateEqAux(ty, a, b.l) == (a1, l) && EliminateEqAux(ty, a1, b.r) == (a2, r)
    ensures EliminateEqAux(ty, a, b) == (a2, Node(ty, l, r))
  {
  }

  lemma Smaller(ty: Junction, e: Expr)
    requires Is(ty, e)
    ensures Size(e.l) < Size(e) && Size(e.r) < Size(e)
  {
  }

  /** Crossing out equal operands leaves, on each side, what the other side does not match. */
  lemma {:induction false} CrossOut(ty: Junction, a: Expr, b: Expr) returns (x: Expr, y: Expr)
    requires Crossed(ty, a) && Crossed(ty, b)
    ensures EliminateEqAux(ty, a, b) == (x, y) && Remains(ty, a, b, x, y)
    ensures Size(x) <= Size(a) && Size(y) <= Size(b)
    decreases Size(a) + Size(b), if Is(ty, a) || Is(ty, b) then 1 else 4
  {
    if Is(ty, a) {
      x, y := CrossOutLeft(ty, a, b);
    } else if Is(ty, b) {
      x, y := CrossOutRight(ty, a, b);
    } else {
      EqComparesMultisets(a, b);
      RemainsLeaf(ty, a, b);
      x, y := EliminateEqAux(ty, a, b).0, EliminateEqAux(ty, a, b).1;
    }
  }

  lemma {:induction false} CrossOutLeft(ty: Junction, a: Expr, b: Expr) returns (x: Expr, y: Expr)
    requires Is(ty, a) && Crossed(ty, a) && Crossed(ty, b)
    ensures EliminateEqAux(ty, a, b) == (x, y) && Remains(ty, a, b, x, y)
    ensures Size(x) <= Size(a) && Size(y) <= Size(b)
    decreases Size(a) + Size(b), 0
  {
    Smaller(ty, a);
    var l, b1 := CrossOut(ty, a.l, b);
    var r, b2 := CrossOut(ty, a.r, b1);
    x, y := Node(ty, l, r), b2;
    AuxLeft(ty, a, b, l, b1, r, b2);
    RemainsLeft(ty, a, b, l, b1, r, b2);
  }

  lemma {:induction false} CrossOutRight(ty: Junction, a: Expr, b: Expr) returns (x: Expr, y: Expr)
    requires !Is(ty, a) && Is(ty, b) && Crossed(ty, a) && Crossed(ty, b)
    ensures EliminateEqAux(ty, a, b) == (x, y) && Remains(ty, a, b, x, y)
    ensures Size(x) <= Size(a) && Size(y) <= Size(b)
    decreases Size(a) + Size(b), 0
  {
    Smaller(ty, b);
    var a1, l := CrossOut(ty, a, b.l);
    var a2, r := CrossOut(ty, a1, b.r);
    x, y := a2, Node(ty, l, r);
    AuxRight(ty, a, b, a1, l, a2, r);
    RemainsRight(ty, a, b, a1, l, a2, r);
  }

  // ----- removing the units -----

  /** Without its units a level is the unit itself, one operand, or still a level. */
  predicate Reduces(ty: Junction, m: multiset<Canon>, r: Expr) {
    if m == multiset{} then r == Unit(ty)
    else Is(ty, r) || (!YesOrNo(r) && m == multiset{CanonOf(r)})
  }

  lemma ReducesNode(ty: Junction, a: multiset<Canon>, l: Expr, b: multiset<Canon>, r: Expr)
    requires Reduces(ty, a, l) && Reduces(ty, b, r)
    ensures Reduces(ty, a + b, if l == Unit(ty) then r else if r == Unit(ty) then l else Node(ty, l, r))
  {
    if a == multiset{} {
      assert a + b == b;
    } else if b == multiset{} {
      assert a + b == a;
    } else {
      var c :| c in a;
      assert c in a + b;
    }
  }

  predicate NotAbsorbing(ty: Junction, e: Expr) {
    e == Unit(ty) || !YesOrNo(e)
  }

  lemma EliminateNode(ty: Junction, e: Expr)
    requires Is(ty, e) && NotAbsorbing(ty, EliminateYn(e.l)) && NotAbsorbing(ty, EliminateYn(e.r))
    ensures var l, r := EliminateYn(e.l), EliminateYn(e.r);
      EliminateYn(e) == if l == Unit(ty) then r else if r == Unit(ty) then l else Node(ty, l, r)
  {
  }

  lemma {:induction false} RemoveUnits(ty: Junction, e: Expr)
    requires Crossed(ty, e)
    ensures Reduces(ty, Operands(ty, e), EliminateYn(e))
  {
    if Is(ty, e) {
      RemoveUnits(ty, e.l);
      RemoveUnits(ty, e.r);
      ReducesNode(ty, Operands(ty, e.l), EliminateYn(e.l), Operands(ty, e.r), EliminateYn(e.r));
      EliminateNode(ty, e);
    } else if e != Unit(ty) {
      CleanIsReduced(e);
    }
  }

  // ----- the comparison -----

  lemma EqByCrossingOut(ty: Junction, a: Expr, b: Expr)
    requires Is(ty, a) && Is(ty, b)
    requires var (x, y) := EliminateEqAux(ty, a, b); Is(ty, x) && Is(ty, y)
    ensures var (x, y) := EliminateEqAux(ty, a, b);
      Eq(a, b) <==> EliminateYn(x).Sym? && EliminateYn(x) == EliminateYn(y)
  {
    assert TypeOf(a) == ty;
  }

  lemma SameOperands(a: multiset<Canon>, b: multiset<Canon>)
    ensures a - b == multiset{} && b - a == multiset{} <==> a == b
    ensures forall c :: c in a - b ==> c !in b - a
  {
    if a - b == multiset{} && b - a == multiset{} {
      forall c ensures a[c] == b[c] {
        assert (a - b)[c] == 0 && (b - a)[c] == 0;
      }
    }
  }

  lemma SameReduction(ty: Junction, a: multiset<Canon>, b: multiset<Canon>, x: Expr, y: Expr)
    requires Reduces(ty, a - b, x) && Reduces(ty, b - a, y)
    ensures x.Sym? && x == y <==> a == b
  {
    SameOperands(a, b);
  }

  /** Two levels of one type compare equal exactly when their operands agree as multisets. */
  lemma {:induction false} EqLevels(ty: Junction, a: Expr, b: Expr)
    requires Is(ty, a) && Is(ty, b) && Clean(a) && Clean(b)
    ensures Eq(a, b) <==> Operands(ty, a) == Operands(ty, b)
    decreases Size(a) + Size(b), 2
  {
    CleanIsCrossed(ty, a);
    CleanIsCrossed(ty, b);
    var x, y := CrossOutLeft(ty, a, b);
    RemoveUnits(ty, x);
    RemoveUnits(ty, y);
    EqByCrossingOut(ty, a, b);
    SameReduction(ty, Operands(ty, a), Operands(ty, b), EliminateYn(x), EliminateYn(y));
  }

  /** expr_eq compares expressions up to order and grouping of operands, with their multiplicity, on
      every level. */
  lemma {:induction false} EqComparesMultisets(a: Expr, b: Expr)
    requires Clean(a) && Clean(b)
    ensures Eq(a, b) <==> CanonOf(a) == CanonOf(b)
    decreases Size(a) + Size(b), 3
  {
    if IsJunction(a) && IsJunction(b) {
      LevelCanon(TypeOf(a), a);
      LevelCanon(TypeOf(b), b);
      if TypeOf(a) == TypeOf(b) {
        EqLevels(TypeOf(a), a, b);
      }
    } else if a.Not? && b.Not? {
      EqComparesMultisets(a.arg, b.arg);
    }
  }

  /** So it is an equivalence. */
  lemma EqEquivalence(a: Expr, b: Expr, c: Expr)
    requires Clean(a) && Clean(b) && Clean(c)
    ensures Eq(a, a) && (Eq(a, b) <==> Eq(b, a)) && (Eq(a, b) && Eq(b, c) ==> Eq(a, c))
  {
    EqComparesMultisets(a, a);
    EqComparesMultisets(a, b);
    EqComparesMultisets(b, a);
    EqComparesMultisets(b, c);
    EqComparesMultisets(a, c);
  }

  /** Outside clean expressions it is not even transitive: B || n equals B, but not below &&. */
  lemma EqNotTransitive(b: Symbol, c: Symbol)
    requires b.Named? && c.Named? && b != c
    ensures var x, y := And(Sym(b), Sym(c)), And(Or(Sym(b), Sym(No)), Sym(c));
      var z := And(Or(Sym(b), Sym(No)), Or(Sym(c), Sym(No)));
      Eq(x, y) && Eq(y, z) && !Eq(x, z)
  {
    var B, C, bn, cn := Sym(b), Sym(c), Or(Sym(b), Sym(No)), Or(Sym(c), Sym(No));
    EqReflexive(bn);
    EqReflexive(C);
    assert !Eq(B, bn) && !Eq(B, C) && !Eq(B, cn) && !Eq(C, bn) && !Eq(C, cn) && !Eq(Sym(Yes), cn) && !Eq(C, Sym(Yes));
    assert EliminateYn(bn) == B && EliminateYn(cn) == C;
    Against(B, bn, C);
    Against(C, bn, C);
    PairsLeft(B, C, And(bn, C), B, And(bn, C), Sym(Yes), And(bn, Sym(Yes)));
    Against(bn, bn, cn);
    Against(C, Sym(Yes), cn);
    PairsLeft(bn, C, And(bn, cn), Sym(Yes), And(Sym(Yes), cn), C, And(Sym(Yes), cn));
    Against(B, bn, cn);
    Against(C, bn, cn);
    PairsLeft(B, C, And(bn, cn), B, And(bn, cn), C, And(bn, cn));
  }

  /** What crossing out one operand against two does. */
  lemma Against(p: Expr, u: Expr, v: Expr)
    requires !p.And? && !u.And? && !v.And?
    ensures var (p1, u1) := EliminateEqAux(AndType, p, u); var (p2, v1) := EliminateEqAux(AndType, p1, v);
      EliminateEqAux(AndType, p, And(u, v)) == (p2, And(u1, v1))
  {
  }

  /** What the comparison does with two operands against a level. */
  lemma PairsLeft(p: Expr, q: Expr, b: Expr, p1: Expr, b1: Expr, q1: Expr, b2: Expr)
    requires b.And? && b2.And?
    requires EliminateEqAux(AndType, p, b) == (p1, b1) && EliminateEqAux(AndType, q, b1) == (q1, b2)
    ensures var x, y := EliminateYn(And(p1, q1)), EliminateYn(b2);
      Eq(And(p, q), b) <==> x.Sym? && y.Sym? && x.sym == y.sym
  {
    AuxLeft(AndType, And(p, q), b, p1, b1, q1, b2);
    EqByRest(And(p, q), b, And(p1, q1), b2);
  }

  lemma EqByRest(a: Expr, b: Expr, a1: Expr, b1: Expr)
    requires a.And? && b.And? && a1.And? && b1.And? && EliminateEqAux(AndType, a, b) == (a1, b1)
    ensures var x, y := EliminateYn(a1), EliminateYn(b1); Eq(a, b) <==> x.Sym? && y.Sym? && x.sym == y.sym
  {
    assert EliminateEq(a, b) == (EliminateYn(a1), EliminateYn(b1));
  }

  /** Two levels with the same set of operands need not be equal. */
  lemma EqNeedsMultiplicity(ty: Junction, a: Expr)
    requires Clean(a) && !YesOrNo(a) && !Is(ty, a)
    ensures !Eq(Node(ty, a, a), Node(ty, a, Node(ty, a, a)))
  {
    var x, y := Node(ty, a, a), Node(ty, a, Node(ty, a, a));
    EqComparesMultisets(x, y);
    LevelCanon(ty, x);
    LevelCanon(ty, y);
    assert Operands(ty, x)[CanonOf(a)] == 2 && Operands(ty, y)[CanonOf(a)] == 3;
  }
}
