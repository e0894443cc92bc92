/**
  Positions inside a formula. A `struct expr **` that points into a tree is modelled by
  the path from the root to the node it designates; writing through the pointer is Put.
  Two different paths never designate the same node.
  */
module KconfigPaths {
  import opened KconfigExpr

  /** false is the left operand, true the right operand. */
  type Path = seq<bool>

  predicate HasPath(e: Expr, p: Path)
    decreases |p|
  {
    p == [] || (IsJunction(e) && HasPath(if p[0] then e.r else e.l, p[1..]))
  }

  function At(e: Expr, p: Path): (r: Expr)
    requires HasPath(e, p)
    ensures Size(r) <= Size(e) && (p != [] ==> Size(r) < Size(e))
    decreases |p|
  {
    if p == [] then e else At(if p[0] then e.r else e.l, p[1..])
  }

  function Put(e: Expr, p: Path, x: Expr): Expr
    requires HasPath(e, p)
    decreases |p|
  {
    if p == [] then x
    else if p[0] then Node(TypeOf(e), e.l, Put(e.r, p[1..], x))
    else Node(TypeOf(e), Put(e.l, p[1..], x), e.r)
  }

  lemma {:induction false} PathConcat(e: Expr, p: Path, q: Path)
    requires HasPath(e, p)
    ensures HasPath(e, p + q) <==> HasPath(At(e, p), q)
    ensures HasPath(e, p + q) ==> At(e, p + q) == At(At(e, p), q)
    decreases |p|
  {
    if p == [] {
      assert p + q == q;
    } else {
      assert (p + q)[1..] == p[1..] + q;
      PathConcat(if p[0] then e.r else e.l, p[1..], q);
    }
  }

  lemma {:induction false} PutConcat(e: Expr, p: Path, q: Path, x: Expr)
    requires HasPath(e, p) && HasPath(At(e, p), q)
    ensures HasPath(e, p + q) && Put(e, p + q, x) == Put(e, p, Put(At(e, p), q, x))
    decreases |p|
  {
    PathConcat(e, p, q);
    if p == [] {
      assert p + q == q;
    } else {
      assert (p + q)[1..] == p[1..] + q;
      PutConcat(if p[0] then e.r else e.l, p[1..], q, x);
    }
  }

  lemma {:induction false} PutBasics(e: Expr, p: Path, x: Expr)
    requires HasPath(e, p)
    ensures HasPath(Put(e, p, x), p) && At(Put(e, p, x), p) == x
    ensures Size(Put(e, p, x)) == Size(e) - Size(At(e, p)) + Size(x)
    ensures forall y :: Put(Put(e, p, x), p, y) == Put(e, p, y)
    ensures Put(e, p, At(e, p)) == e
    decreases |p|
  {
    if p != [] {
      PutBasics(if p[0] then e.r else e.l, p[1..], x);
    }
  }

  /** Replacing a subtree by one of equal value keeps the value. */
  lemma {:induction false} PutCongruent(e: Expr, p: Path, x: Expr, env: Env)
    requires HasPath(e, p) && Value(x, env) == Value(At(e, p), env)
    ensures Value(Put(e, p, x), env) == Value(e, env)
    decreases |p|
  {
    if p != [] {
      PutCongruent(if p[0] then e.r else e.l, p[1..], x, env);
    }
  }

  /** A subtree that still holds a removable y or n makes the whole tree removable. */
  lemma {:induction false} UnreducedUp(e: Expr, p: Path)
    requires HasPath(e, p) && !Reduced(At(e, p))
    ensures !Reduced(e)
    decreases |p|
  {
    if p != [] {
      UnreducedUp(if p[0] then e.r else e.l, p[1..]);
    }
  }

  lemma {:induction false} ConstantOperandUnreduced(e: Expr, p: Path)
    requires HasPath(e, p) && p != [] && YesOrNo(At(e, p))
    ensures !Reduced(e)
    decreases |p|
  {
    if |p| == 1 {
      assert At(e, p) == At(if p[0] then e.r else e.l, []);
    } else {
      ConstantOperandUnreduced(if p[0] then e.r else e.l, p[1..]);
    }
  }

  // ----- levels -----

  /** `p` walks only through nodes of type `ty`. */
  predicate Spine(ty: Junction, e: Expr, p: Path): (on: bool)
    ensures on ==> HasPath(e, p)
    decreases |p|
  {
    p == [] || (Is(ty, e) && Spine(ty, if p[0] then e.r else e.l, p[1..]))
  }

  /** `p` designates an operand of the `ty` level at the root of `e`. */
  predicate Operand(ty: Junction, e: Expr, p: Path) {
    Spine(ty, e, p) && !Is(ty, At(e, p))
  }

  lemma {:induction false} SpineConcat(ty: Junction, e: Expr, p: Path, q: Path)
    requires HasPath(e, p)
    ensures Spine(ty, e, p + q) <==> Spine(ty, e, p) && Spine(ty, At(e, p), q)
    decreases |p|
  {
    if p == [] {
      assert p + q == q;
    } else {
      assert (p + q)[1..] == p[1..] + q;
      if IsJunction(e) {
        SpineConcat(ty, if p[0] then e.r else e.l, p[1..], q);
      }
    }
  }

  /** The nodes of a level without their operands. */
  datatype Skeleton = Leaf | Fork(l: Skeleton, r: Skeleton)

  function SkeletonOf(ty: Junction, e: Expr): Skeleton {
    if Is(ty, e) then Fork(SkeletonOf(ty, e.l), SkeletonOf(ty, e.r)) else Leaf
  }

  function Forks(s: Skeleton): nat {
    if s.Leaf? then 0 else 1 + Forks(s.l) + Forks(s.r)
  }

  /** Trees with the same skeleton have the same level positions, and equal skeletons there. */
  lemma {:induction false} SameSkeleton(ty: Junction, e: Expr, f: Expr, p: Path)
    requires SkeletonOf(ty, e) == SkeletonOf(ty, f) && Spine(ty, e, p)
    ensures Spine(ty, f, p)
    ensures SkeletonOf(ty, At(e, p)) == SkeletonOf(ty, At(f, p))
    decreases |p|
  {
    if p != [] {
      SameSkeleton(ty, if p[0] then e.r else e.l, if p[0] then f.r else f.l, p[1..]);
    }
  }

  lemma {:induction false} PutSkeleton(ty: Junction, e: Expr, p: Path, x: Expr)
    requires Spine(ty, e, p) && SkeletonOf(ty, x) == SkeletonOf(ty, At(e, p))
    ensures SkeletonOf(ty, Put(e, p, x)) == SkeletonOf(ty, e)
    decreases |p|
  {
    if p != [] {
      PutSkeleton(ty, if p[0] then e.r else e.l, p[1..], x);
    }
  }

  lemma Neutral(ty: Junction, v: Tri, env: Env)
    requires env.Valid()
    ensures Op(ty, v, Value(Unit(ty), env)) == v
  {
  }

  /** The combined value of all operands beside the one at `p`. */
  function Rest(ty: Junction, e: Expr, p: Path, env: Env): Tri
    requires Spine(ty, e, p)
    decreases |p|
  {
    if p == [] then Value(Unit(ty), env)
    else if p[0] then Op(ty, Value(e.l, env), Rest(ty, e.r, p[1..], env))
    else Op(ty, Rest(ty, e.l, p[1..], env), Value(e.r, env))
  }

  lemma {:induction false} ValueThroughHole(ty: Junction, e: Expr, p: Path, x: Expr, env: Env)
    requires env.Valid() && Spine(ty, e, p)
    ensures Value(Put(e, p, x), env) == Op(ty, Value(x, env), Rest(ty, e, p, env))
    decreases |p|
  {
    if p == [] {
      Neutral(ty, Value(x, env), env);
    } else {
      var child, other := if p[0] then e.r else e.l, if p[0] then e.l else e.r;
      ValueThroughHole(ty, child, p[1..], x, env);
      var v, w := Rest(ty, child, p[1..], env), Value(other, env);
      NodeValue(ty, if p[0] then other else Put(child, p[1..], x), if p[0] then Put(child, p[1..], x) else other, env);
      Regroup(ty, Value(x, env), Value(Unit(ty), env), v, w);
      Regroup(ty, Value(x, env), Value(Unit(ty), env), w, v);
      Regroup(ty, w, Value(Put(child, p[1..], x), env), w, w);
    }
  }

  /** Two different operand positions of one level: writing one leaves the other in place. */
  lemma {:induction false} PutElsewhere(ty: Junction, e: Expr, p: Path, q: Path, x: Expr)
    requires Operand(ty, e, p) && Operand(ty, e, q) && p != q
    ensures HasPath(Put(e, p, x), q) && At(Put(e, p, x), q) == At(e, q)
    ensures Spine(ty, Put(e, p, x), q)
    decreases |p|
  {
    if p != [] && q != [] && p[0] == q[0] {
      assert p == [p[0]] + p[1..] && q == [q[0]] + q[1..];
      PutElsewhere(ty, if p[0] then e.r else e.l, p[1..], q[1..], x);
    }
  }

  /** Replacing two operands of a level by two others of the same combined value keeps the
      value of the level. */
  lemma {:induction false} PutPairValue(ty: Junction, e: Expr, p: Path, q: Path, x: Expr, y: Expr, env: Env)
    requires env.Valid() && Operand(ty, e, p) && Operand(ty, e, q) && p != q
    requires Op(ty, Value(x, env), Value(y, env)) == Op(ty, Value(At(e, p), env), Value(At(e, q), env))
    ensures HasPath(Put(e, p, x), q)
    ensures Value(Put(Put(e, p, x), q, y), env) == Value(e, env)
    decreases |p|
  {
    PutElsewhere(ty, e, p, q, x);
    var child := if p[0] then e.r else e.l;
    if p[0] == q[0] {
      assert p == [p[0]] + p[1..] && q == [q[0]] + q[1..];
      PutPairValue(ty, child, p[1..], q[1..], x, y, env);
      var child' := Put(Put(child, p[1..], x), q[1..], y);
      assert Put(Put(e, p, x), q, y) == if p[0] then Node(ty, e.l, child') else Node(ty, child', e.r);
      NodeValue(ty, e.l, child', env);
      NodeValue(ty, child', e.r, env);
      NodeValue(ty, e.l, e.r, env);
    } else {
      PutPairSplit(ty, e, p, q, x, y, env);
    }
  }

  lemma PutPairSplit(ty: Junction, e: Expr, p: Path, q: Path, x: Expr, y: Expr, env: Env)
    requires env.Valid() && Operand(ty, e, p) && Operand(ty, e, q) && p != [] && q != [] && p[0] != q[0]
    requires Op(ty, Value(x, env), Value(y, env)) == Op(ty, Value(At(e, p), env), Value(At(e, q), env))
    ensures HasPath(Put(e, p, x), q)
    ensures Value(Put(Put(e, p, x), q, y), env) == Value(e, env)
  {
    var pe, qe := if p[0] then e.r else e.l, if q[0] then e.r else e.l;
    SiblingsValue(ty, pe, qe, p[1..], q[1..], x, y, env);
    NodeValue(ty, e.l, e.r, env);
    Regroup(ty, Value(e.l, env), Value(e.r, env), 0, 0);
    var pe', qe' := Put(pe, p[1..], x), Put(qe, q[1..], y);
    assert Put(Put(e, p, x), q, y) == if p[0] then Node(ty, qe', pe') else Node(ty, pe', qe');
    NodeValue(ty, pe', qe', env);
    NodeValue(ty, qe', pe', env);
    Regroup(ty, Value(pe', env), Value(qe', env), 0, 0);
  }

  lemma SiblingsValue(ty: Junction, a: Expr, b: Expr, p: Path, q: Path, x: Expr, y: Expr, env: Env)
    requires env.Valid() && Spine(ty, a, p) && Spine(ty, b, q)
    requires Op(ty, Value(x, env), Value(y, env)) == Op(ty, Value(At(a, p), env), Value(At(b, q), env))
    ensures Op(ty, Value(Put(a, p, x), env), Value(Put(b, q, y), env)) == Op(ty, Value(a, env), Value(b, env))
  {
    var v, w := Rest(ty, a, p, env), Rest(ty, b, q, env);
    ValueThroughHole(ty, a, p, x, env);
    ValueThroughHole(ty, b, q, y, env);
    ValueThroughHole(ty, a, p, At(a, p), env);
    ValueThroughHole(ty, b, q, At(b, q), env);
    PutBasics(a, p, x);
    PutBasics(b, q, y);
    Regroup(ty, Value(x, env), Value(y, env), v, w);
    Regroup(ty, Value(At(a, p), env), Value(At(b, q), env), v, w);
  }
}
