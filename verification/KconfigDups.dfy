/**
  expr_eliminate_dups: the pass that walks one tree with two pointers into that same tree
  and rewrites pairs of operands in place, repeated until a pass changes nothing.
  */
module KconfigDups {
  import opened KconfigExpr
  import opened KconfigEq
  import opened KconfigReflexive
  import opened KconfigPaths
  import opened Options

  /** Same value under every valid assignment that keeps the constants tested in `a` apart. */
  ghost predicate SameValue(a: Expr, b: Expr) {
    forall env: Env :: env.Valid() && env.Apart(Tests(a)) ==> Value(a, env) == Value(b, env)
  }

  /** `b` has the value of `a` and tests nothing that `a` does not test. */
  ghost predicate MeaningKept(a: Expr, b: Expr) {
    SameValue(a, b) && Tests(b) <= Tests(a)
  }

  lemma ApartFewer(env: Env, tests: set<(Symbol, Symbol)>, fewer: set<(Symbol, Symbol)>)
    requires env.Apart(tests) && fewer <= tests
    ensures env.Apart(fewer)
  {
  }

  lemma MeaningTransitive(a: Expr, b: Expr, c: Expr)
    requires MeaningKept(a, b) && MeaningKept(b, c)
    ensures MeaningKept(a, c)
  {
    forall env: Env | env.Valid() && env.Apart(Tests(a)) ensures Value(a, env) == Value(c, env) {
      ApartFewer(env, Tests(a), Tests(b));
    }
  }

  /** Where tristate symbols are tested for y, m and n only, the value is kept under every valid
      assignment. */
  lemma MeaningWithoutTests(a: Expr, b: Expr, env: Env)
    requires MeaningKept(a, b) && Tests(a) == {} && env.Valid()
    ensures Value(a, env) == Value(b, env)
  {
    ApartWithoutTests(env);
  }

  lemma {:induction false} TestsAt(e: Expr, p: Path)
    requires HasPath(e, p)
    ensures Tests(At(e, p)) <= Tests(e)
    decreases |p|
  {
    if p != [] {
      TestsAt(if p[0] then e.r else e.l, p[1..]);
    }
  }

  lemma {:induction false} TestsPut(e: Expr, p: Path, x: Expr)
    requires HasPath(e, p)
    ensures Tests(Put(e, p, x)) <= Tests(e) + Tests(x)
    decreases |p|
  {
    if p != [] {
      TestsPut(if p[0] then e.r else e.l, p[1..], x);
    }
  }

  /** Two different operands, one below each pointer. */
  predicate Pair(ty: Junction, e: Expr, q1: Path, q2: Path, o1: Path, o2: Path) {
    Operand(ty, e, o1) && Operand(ty, e, o2) && q1 <= o1 && q2 <= o2 && o1 != o2
  }

  /** No operand below `q1` can be joined with a different operand below `q2`, and every such
      first operand that is itself a level is free of joinable pairs throughout. */
  ghost predicate Quiet(ty: Junction, e: Expr, q1: Path, q2: Path)
    requires Is(ty, e)
    decreases Size(e)
  {
    forall o1: Path, o2: Path :: Pair(ty, e, q1, q2, o1, o2) ==>
      && Join(ty, At(e, o1), At(e, o2)).None?
      && (IsJunction(At(e, o1)) ==> Quiet(TypeOf(At(e, o1)), At(e, o1), [], []))
  }

  /** Nothing is left to join on any level. */
  ghost predicate Deduplicated(e: Expr) {
    IsJunction(e) ==> Quiet(TypeOf(e), e, [], [])
  }

  /** On a deduplicated level all operands are pairwise different. */
  lemma DeduplicatedOperandsDiffer(e: Expr, o1: Path, o2: Path)
    requires IsJunction(e) && Deduplicated(e)
    requires Operand(TypeOf(e), e, o1) && Operand(TypeOf(e), e, o2) && o1 != o2
    ensures !Eq(At(e, o1), At(e, o2)) && At(e, o1) != At(e, o2)
  {
    assert Pair(TypeOf(e), e, [], [], o1, o2);
    assert Join(TypeOf(e), At(e, o1), At(e, o2)).None?;
    EqReflexive(At(e, o1));
  }

  /** Every level has an operand below each of its nodes. */
  lemma {:induction false} SomeOperand(ty: Junction, e: Expr) returns (o: Path)
    ensures Operand(ty, e, o)
    decreases Size(e)
  {
    if Is(ty, e) {
      o := SomeOperand(ty, e.l);
      OperandBelow(ty, e, false, o);
      o := [false] + o;
    } else {
      o := [];
    }
  }

  lemma OperandBelow(ty: Junction, e: Expr, b: bool, o: Path)
    requires Is(ty, e) && Operand(ty, if b then e.r else e.l, o)
    ensures Operand(ty, e, [b] + o) && At(e, [b] + o) == At(if b then e.r else e.l, o)
  {
    assert ([b] + o)[1..] == o;
  }

  /** What stands below a deduplicated node is deduplicated. */
  lemma DeduplicatedChild(e: Expr, b: bool)
    requires IsJunction(e) && Deduplicated(e)
    ensures Deduplicated(if b then e.r else e.l)
  {
    var ty, child := TypeOf(e), if b then e.r else e.l;
    if Is(ty, child) {
      forall o1: Path, o2: Path | Pair(ty, child, [], [], o1, o2)
        ensures Join(ty, At(child, o1), At(child, o2)).None?
        ensures IsJunction(At(child, o1)) ==> Quiet(TypeOf(At(child, o1)), At(child, o1), [], [])
      {
        OperandBelow(ty, e, b, o1);
        OperandBelow(ty, e, b, o2);
        assert Pair(ty, e, [], [], [b] + o1, [b] + o2);
      }
    } else if IsJunction(child) {
      var o := SomeOperand(ty, if b then e.l else e.r);
      OperandBelow(ty, e, b, []);
      OperandBelow(ty, e, !b, o);
      assert Pair(ty, e, [], [], [b] + [], [!b] + o);
    }
  }

  lemma {:induction false} DeduplicatedBelow(e: Expr, p: Path)
    requires Deduplicated(e) && HasPath(e, p)
    ensures Deduplicated(At(e, p))
    decreases |p|
  {
    if p != [] {
      DeduplicatedChild(e, p[0]);
      DeduplicatedBelow(if p[0] then e.r else e.l, p[1..]);
    }
  }

  /** One of the rules for alternatives or conjuncts applies to two operands, with symbol s and constants
      c and d. */
  ghost predicate RuleApplies(ty: Junction, a: Expr, b: Expr, s: Symbol, c: Symbol, d: Symbol) {
    match ty
    case OrType => TwoValues(a, b, s, c) || Opposites(a, b, s)
    case AndType =>
      || PlainAndCompared(a, b, s, Equal, Yes)
      || PlainAndCompared(a, b, s, Unequal, No)
      || PlainAndCompared(a, b, s, Unequal, Mod)
      || EqualAndUnequal(a, b, s, c, d)
      || NotTwoValues(a, b, s, c)
  }

  /** On no level of a deduplicated expression are there two equal operands, or two operands to which one of
      the rules applies. */
  lemma NothingLeftToJoin(e: Expr, p: Path, o1: Path, o2: Path)
    requires Deduplicated(e) && HasPath(e, p) && IsJunction(At(e, p))
    requires Operand(TypeOf(At(e, p)), At(e, p), o1) && Operand(TypeOf(At(e, p)), At(e, p), o2) && o1 != o2
    ensures var f := At(e, p);
      !Eq(At(f, o1), At(f, o2)) && forall s, c, d :: !RuleApplies(TypeOf(f), At(f, o1), At(f, o2), s, c, d)
  {
    DeduplicatedBelow(e, p);
    var f := At(e, p);
    assert Pair(TypeOf(f), f, [], [], o1, o2);
    assert Join(TypeOf(f), At(f, o1), At(f, o2)).None?;
    forall s, c, d ensures !RuleApplies(TypeOf(f), At(f, o1), At(f, o2), s, c, d) {
      NoRule(TypeOf(f), At(f, o1), At(f, o2), s, c, d);
    }
  }

  lemma NoRule(ty: Junction, a: Expr, b: Expr, s: Symbol, c: Symbol, d: Symbol)
    requires Join(ty, a, b).None?
    ensures !Eq(a, b) && !RuleApplies(ty, a, b, s, c, d)
  {
    match ty
    case OrType =>
      JoinOrIs(a, b, Cmp(Unequal, s, c));
      JoinOrIs(a, b, Sym(Yes));
    case AndType =>
      JoinAndIs(a, b, Cmp(Equal, s, Yes));
      JoinAndIs(a, b, Sym(s));
      JoinAndIs(a, b, if c == d then Sym(No) else Cmp(Equal, s, c));
      JoinAndIs(a, b, Cmp(Equal, s, c));
  }

  // ----- one join, seen from the level it happens on -----

  ghost predicate LevelKept(ty: Junction, e: Expr, f: Expr) {
    SkeletonOf(ty, f) == SkeletonOf(ty, e) && Size(f) <= Size(e) && MeaningKept(e, f)
  }

  lemma JoinStep(ty: Junction, e: Expr, o1: Path, o2: Path) returns (f: Expr)
    requires Is(ty, e) && Operand(ty, e, o1) && Operand(ty, e, o2) && o1 != o2
    requires Join(ty, At(e, o1), At(e, o2)).Some?
    ensures HasPath(Put(e, o1, Unit(ty)), o2)
    ensures f == Put(Put(e, o1, Unit(ty)), o2, Join(ty, At(e, o1), At(e, o2)).value)
    ensures LevelKept(ty, e, f) && !Reduced(f)
  {
    var a, b := At(e, o1), At(e, o2);
    var t := Join(ty, a, b).value;
    JoinShape(ty, a, b);
    PutElsewhere(ty, e, o1, o2, Unit(ty));
    var e1 := Put(e, o1, Unit(ty));
    f := Put(e1, o2, t);
    PutBasics(e, o1, Unit(ty));
    PutBasics(e1, o2, t);
    PutSkeleton(ty, e, o1, Unit(ty));
    PutSkeleton(ty, e1, o2, t);
    SameSkeleton(ty, e, e1, o1);
    PutElsewhere(ty, e1, o2, o1, t);
    assert At(f, o1) == Unit(ty);
    ConstantOperandUnreduced(f, o1);
    JoinKeepsMeaning(ty, e, o1, o2, f);
  }

  lemma JoinKeepsMeaning(ty: Junction, e: Expr, o1: Path, o2: Path, f: Expr)
    requires Operand(ty, e, o1) && Operand(ty, e, o2) && o1 != o2
    requires Join(ty, At(e, o1), At(e, o2)).Some? && HasPath(Put(e, o1, Unit(ty)), o2)
    requires f == Put(Put(e, o1, Unit(ty)), o2, Join(ty, At(e, o1), At(e, o2)).value)
    ensures MeaningKept(e, f)
  {
    var a, b := At(e, o1), At(e, o2);
    var t := Join(ty, a, b).value;
    TestsAt(e, o1);
    TestsAt(e, o2);
    JoinShape(ty, a, b);
    TestsPut(e, o1, Unit(ty));
    TestsPut(Put(e, o1, Unit(ty)), o2, t);
    forall env: Env | env.Valid() && env.Apart(Tests(e)) ensures Value(e, env) == Value(f, env) {
      ApartFewer(env, Tests(e), Tests(a) + Tests(b));
      JoinSound(ty, a, b, env);
      Neutral(ty, Value(t, env), env);
      Regroup(ty, Value(t, env), Value(Unit(ty), env), 0, 0);
      PutPairValue(ty, e, o1, o2, Unit(ty), t, env);
    }
  }

  /** An operand that is a level of the other type was rewritten on its own. */
  lemma NestedStep(ty: Junction, e: Expr, o1: Path, n: Expr)
    requires Is(ty, e) && Operand(ty, e, o1) && IsJunction(At(e, o1))
    requires LevelKept(TypeOf(At(e, o1)), At(e, o1), n)
    ensures LevelKept(ty, e, Put(e, o1, n)) && Operand(ty, Put(e, o1, n), o1)
    ensures !Reduced(n) ==> !Reduced(Put(e, o1, n))
  {
    var f := Put(e, o1, n);
    PutBasics(e, o1, n);
    assert Is(TypeOf(At(e, o1)), n);
    PutSkeleton(ty, e, o1, n);
    SameSkeleton(ty, e, f, o1);
    if !Reduced(n) {
      UnreducedUp(f, o1);
    }
    PutKeepsMeaning(e, o1, n);
  }

  lemma PutKeepsMeaning(e: Expr, p: Path, n: Expr)
    requires HasPath(e, p) && MeaningKept(At(e, p), n)
    ensures MeaningKept(e, Put(e, p, n))
  {
    TestsAt(e, p);
    TestsPut(e, p, n);
    forall env: Env | env.Valid() && env.Apart(Tests(e)) ensures Value(e, env) == Value(Put(e, p, n), env) {
      ApartFewer(env, Tests(e), Tests(At(e, p)));
      PutCongruent(e, p, n, env);
    }
  }

  lemma KeptTransitive(ty: Junction, e: Expr, f: Expr, g: Expr)
    requires LevelKept(ty, e, f) && LevelKept(ty, f, g)
    ensures LevelKept(ty, e, g)
  {
    MeaningTransitive(e, f, g);
  }

  lemma QuietBelow(ty: Junction, e: Expr, q1: Path, q2: Path, r1: Path, r2: Path)
    requires Is(ty, e) && Quiet(ty, e, q1, q2) && q1 <= r1 && q2 <= r2
    ensures Quiet(ty, e, r1, r2)
  {
    forall o1: Path, o2: Path | Pair(ty, e, r1, r2, o1, o2)
      ensures Join(ty, At(e, o1), At(e, o2)).None?
      ensures IsJunction(At(e, o1)) ==> Quiet(TypeOf(At(e, o1)), At(e, o1), [], [])
    {
      assert Pair(ty, e, q1, q2, o1, o2);
    }
  }

  /** Below a node of the level's type an operand is below its left or its right child. */
  lemma QuietSplit(ty: Junction, e: Expr, q1: Path, q2: Path)
    requires Is(ty, e) && HasPath(e, q1) && Is(ty, At(e, q1))
    ensures Quiet(ty, e, q1, q2) <==> Quiet(ty, e, q1 + [false], q2) && Quiet(ty, e, q1 + [true], q2)
  {
    if Quiet(ty, e, q1, q2) {
      QuietBelow(ty, e, q1, q2, q1 + [false], q2);
      QuietBelow(ty, e, q1, q2, q1 + [true], q2);
    }
    if Quiet(ty, e, q1 + [false], q2) && Quiet(ty, e, q1 + [true], q2) {
      forall o1: Path, o2: Path | Pair(ty, e, q1, q2, o1, o2)
        ensures Join(ty, At(e, o1), At(e, o2)).None?
        ensures IsJunction(At(e, o1)) ==> Quiet(TypeOf(At(e, o1)), At(e, o1), [], [])
      {
        assert o1 != q1;
        if o1[|q1|] {
          assert Pair(ty, e, q1 + [true], q2, o1, o2);
        } else {
          assert Pair(ty, e, q1 + [false], q2, o1, o2);
        }
      }
    }
  }

  lemma QuietSplit2(ty: Junction, e: Expr, q1: Path, q2: Path)
    requires Is(ty, e) && HasPath(e, q2) && Is(ty, At(e, q2))
    ensures Quiet(ty, e, q1, q2) <==> Quiet(ty, e, q1, q2 + [false]) && Quiet(ty, e, q1, q2 + [true])
  {
    if Quiet(ty, e, q1, q2) {
      QuietBelow(ty, e, q1, q2, q1, q2 + [false]);
      QuietBelow(ty, e, q1, q2, q1, q2 + [true]);
    }
    if Quiet(ty, e, q1, q2 + [false]) && Quiet(ty, e, q1, q2 + [true]) {
      forall o1: Path, o2: Path | Pair(ty, e, q1, q2, o1, o2)
        ensures Join(ty, At(e, o1), At(e, o2)).None?
        ensures IsJunction(At(e, o1)) ==> Quiet(TypeOf(At(e, o1)), At(e, o1), [], [])
      {
        assert o2 != q2;
        if o2[|q2|] {
          assert Pair(ty, e, q1, q2 + [true], o1, o2);
        } else {
          assert Pair(ty, e, q1, q2 + [false], o1, o2);
        }
      }
    }
  }

  /** Below an operand there is only that operand. */
  lemma {:induction false} OperandHasNoDescendant(ty: Junction, e: Expr, q: Path, o: Path)
    requires Operand(ty, e, q) && Operand(ty, e, o) && q <= o
    ensures o == q
    decreases |q|
  {
    if q == [] {
    } else {
      assert o[0] == q[0] && q[1..] <= o[1..];
      OperandHasNoDescendant(ty, if q[0] then e.r else e.l, q[1..], o[1..]);
      assert o == [o[0]] + o[1..] && q == [q[0]] + q[1..];
    }
  }

  lemma QuietOperands(ty: Junction, e: Expr, q1: Path, q2: Path)
    requires Is(ty, e) && Operand(ty, e, q1) && Operand(ty, e, q2)
    ensures Quiet(ty, e, q1, q2) <==> q1 != q2 ==>
              && Join(ty, At(e, q1), At(e, q2)).None?
              && (IsJunction(At(e, q1)) ==> Quiet(TypeOf(At(e, q1)), At(e, q1), [], []))
  {
    assert q1 != q2 ==> Pair(ty, e, q1, q2, q1, q2);
    forall o1: Path, o2: Path | Pair(ty, e, q1, q2, o1, o2) ensures o1 == q1 && o2 == q2 {
      OperandHasNoDescendant(ty, e, q1, o1);
      OperandHasNoDescendant(ty, e, q2, o2);
    }
  }

  /** Only the level at `lvl` changed, and it kept its nodes, its meaning and at most its size. */
  ghost predicate Rewritten(ty: Junction, lvl: Path, t0: Expr, t1: Expr) {
    && HasPath(t0, lvl) && HasPath(t1, lvl) && Is(ty, At(t0, lvl))
    && t1 == Put(t0, lvl, At(t1, lvl))
    && LevelKept(ty, At(t0, lvl), At(t1, lvl))
  }

  /** What walking the pointer pair (`lvl + q1`, `lvl + q2`) over tree `t0` may turn it into: the level
      is rewritten; a change leaves a removable constant behind; nothing changes exactly when there
      was nothing to join. */
  ghost predicate Walked(ty: Junction, lvl: Path, q1: Path, q2: Path, t0: Expr, t1: Expr, changed: bool) {
    && Rewritten(ty, lvl, t0, t1)
    && (if changed then !Reduced(At(t1, lvl)) else t1 == t0)
    && (changed <==> !Quiet(ty, At(t0, lvl), q1, q2))
  }

  lemma RewrittenTransitive(ty: Junction, lvl: Path, t0: Expr, t1: Expr, t2: Expr)
    requires Rewritten(ty, lvl, t0, t1) && Rewritten(ty, lvl, t1, t2)
    ensures Rewritten(ty, lvl, t0, t2)
  {
    KeptTransitive(ty, At(t0, lvl), At(t1, lvl), At(t2, lvl));
    PutBasics(t0, lvl, At(t1, lvl));
  }

  /** First the left child of the first pointer, then the right one. */
  lemma WalkedFirst(ty: Junction, lvl: Path, q1: Path, q2: Path, t0: Expr, t1: Expr, t2: Expr, c1: bool, c2: bool)
    requires HasPath(t0, lvl) && HasPath(At(t0, lvl), q1) && Is(ty, At(At(t0, lvl), q1))
    requires Walked(ty, lvl, q1 + [false], q2, t0, t1, c1)
    requires Walked(ty, lvl, q1 + [true], q2, t1, t2, c2)
    ensures Walked(ty, lvl, q1, q2, t0, t2, c1 || c2)
  {
    RewrittenTransitive(ty, lvl, t0, t1, t2);
    QuietSplit(ty, At(t0, lvl), q1, q2);
  }

  lemma WalkedSecond(ty: Junction, lvl: Path, q1: Path, q2: Path, t0: Expr, t1: Expr, t2: Expr, c1: bool, c2: bool)
    requires HasPath(t0, lvl) && HasPath(At(t0, lvl), q2) && Is(ty, At(At(t0, lvl), q2))
    requires Walked(ty, lvl, q1, q2 + [false], t0, t1, c1)
    requires Walked(ty, lvl, q1, q2 + [true], t1, t2, c2)
    ensures Walked(ty, lvl, q1, q2, t0, t2, c1 || c2)
  {
    RewrittenTransitive(ty, lvl, t0, t1, t2);
    QuietSplit2(ty, At(t0, lvl), q1, q2);
  }

  /** The pointers can still be followed after a walk. */
  lemma WalkedKeepsPointers(ty: Junction, lvl: Path, t0: Expr, t1: Expr, q: Path)
    requires HasPath(t0, lvl) && HasPath(t1, lvl) && LevelKept(ty, At(t0, lvl), At(t1, lvl))
    requires Spine(ty, At(t0, lvl), q)
    ensures Spine(ty, At(t1, lvl), q)
    ensures Forks(SkeletonOf(ty, At(At(t1, lvl), q))) == Forks(SkeletonOf(ty, At(At(t0, lvl), q)))
    ensures Is(ty, At(t1, lvl)) <==> Is(ty, At(t0, lvl))
    ensures Size(At(t1, lvl)) <= Size(At(t0, lvl))
  {
    SameSkeleton(ty, At(t0, lvl), At(t1, lvl), q);
  }

  /** State after the first operand, if it is a level of its own, was walked. */
  ghost predicate NestedWalked(ty: Junction, lvl: Path, q1: Path, q2: Path, t0: Expr, t1: Expr) {
    && HasPath(t0, lvl) && HasPath(t1, lvl) && Is(ty, At(t0, lvl)) && q1 != q2
    && Operand(ty, At(t0, lvl), q1) && Operand(ty, At(t0, lvl), q2)
    && Operand(ty, At(t1, lvl), q1) && Operand(ty, At(t1, lvl), q2)
    && HasPath(t1, lvl + q1) && At(t1, lvl + q1) == At(At(t1, lvl), q1)
    && HasPath(t1, lvl + q2) && At(t1, lvl + q2) == At(At(t1, lvl), q2)
    && Rewritten(ty, lvl, t0, t1)
  }

  lemma NestedWalk(ty: Junction, lvl: Path, q1: Path, q2: Path, t0: Expr, t1: Expr, changed: bool)
    requires HasPath(t0, lvl) && Is(ty, At(t0, lvl))
    requires Operand(ty, At(t0, lvl), q1) && Operand(ty, At(t0, lvl), q2) && q1 != q2
    requires HasPath(t0, lvl + q1)
    requires if IsJunction(At(t0, lvl + q1)) then Walked(TypeOf(At(t0, lvl + q1)), lvl + q1, [], [], t0, t1, changed)
             else t1 == t0 && !changed
    ensures NestedWalked(ty, lvl, q1, q2, t0, t1)
    ensures changed ==> !Reduced(At(t1, lvl))
  {
    var e0 := At(t0, lvl);
    PathConcat(t0, lvl, q1);
    PathConcat(t0, lvl, q2);
    PutBasics(t0, lvl, e0);
    if IsJunction(At(t0, lvl + q1)) {
      var n := At(t1, lvl + q1);
      PutConcat(t0, lvl, q1, n);
      PutBasics(t0, lvl, Put(e0, q1, n));
      NestedStep(ty, e0, q1, n);
      PutElsewhere(ty, e0, q1, q2, n);
      PathConcat(t1, lvl, q1);
      PathConcat(t1, lvl, q2);
    }
  }

  lemma JoinedWalk(ty: Junction, lvl: Path, q1: Path, q2: Path, t0: Expr, t1: Expr)
    requires NestedWalked(ty, lvl, q1, q2, t0, t1)
    requires Join(ty, At(t1, lvl + q1), At(t1, lvl + q2)).Some?
    requires Quiet(ty, At(t0, lvl), q1, q2) ==> t1 == t0
    ensures HasPath(Put(t1, lvl + q1, Unit(ty)), lvl + q2)
    ensures var t2 := Put(Put(t1, lvl + q1, Unit(ty)), lvl + q2, Join(ty, At(t1, lvl + q1), At(t1, lvl + q2)).value);
            Walked(ty, lvl, q1, q2, t0, t2, true)
  {
    var e1 := At(t1, lvl);
    var t := Join(ty, At(t1, lvl + q1), At(t1, lvl + q2)).value;
    var f := JoinStep(ty, e1, q1, q2);
    var e2 := Put(e1, q1, Unit(ty));
    PutConcat(t1, lvl, q1, Unit(ty));
    PutBasics(t1, lvl, e2);
    var s := Put(t1, lvl + q1, Unit(ty));
    PutConcat(s, lvl, q2, t);
    PutBasics(t0, lvl, e1);
    PutBasics(t0, lvl, f);
    KeptTransitive(ty, At(t0, lvl), e1, f);
    QuietOperands(ty, At(t0, lvl), q1, q2);
  }

  lemma UnjoinedWalk(ty: Junction, lvl: Path, q1: Path, q2: Path, t0: Expr, t1: Expr, changed: bool)
    requires NestedWalked(ty, lvl, q1, q2, t0, t1)
    requires Join(ty, At(t1, lvl + q1), At(t1, lvl + q2)).None?
    requires if changed then !Reduced(At(t1, lvl)) else t1 == t0
    requires IsJunction(At(At(t0, lvl), q1)) ==>
               (changed <==> !Quiet(TypeOf(At(At(t0, lvl), q1)), At(At(t0, lvl), q1), [], []))
    requires !IsJunction(At(At(t0, lvl), q1)) ==> !changed
    ensures Walked(ty, lvl, q1, q2, t0, t1, changed)
  {
    QuietOperands(ty, At(t0, lvl), q1, q2);
  }

  // ----- nothing but joins and the removal of y and n -----

  /** One pair of operands of one level is joined in place. */
  ghost predicate JoinsAt(e: Expr, f: Expr, ty: Junction, lvl: Path, q1: Path, q2: Path) {
    && HasPath(e, lvl) && Is(ty, At(e, lvl))
    && Operand(ty, At(e, lvl), q1) && Operand(ty, At(e, lvl), q2) && q1 != q2
    && HasPath(e, lvl + q1) && HasPath(e, lvl + q2) && HasPath(Put(e, lvl + q1, Unit(ty)), lvl + q2)
    && Join(ty, At(e, lvl + q1), At(e, lvl + q2)).Some?
    && f == Put(Put(e, lvl + q1, Unit(ty)), lvl + q2, Join(ty, At(e, lvl + q1), At(e, lvl + q2)).value)
  }

  ghost predicate Steps(e: Expr, f: Expr) {
    f == EliminateYn(e) || exists ty, lvl, q1, q2 :: JoinsAt(e, f, ty, lvl, q1, q2)
  }

  ghost predicate ReachesIn(e: Expr, f: Expr, n: nat)
    decreases n
  {
    if n == 0 then e == f else exists g :: Steps(e, g) && ReachesIn(g, f, n - 1)
  }

  /** `f` comes from `e` by joining pairs of operands and removing y and n, and by nothing else. */
  ghost predicate Reaches(e: Expr, f: Expr) {
    exists n: nat :: ReachesIn(e, f, n)
  }

  lemma {:induction false} ReachesInConcat(e: Expr, f: Expr, g: Expr, m: nat, n: nat)
    requires ReachesIn(e, f, m) && ReachesIn(f, g, n)
    ensures ReachesIn(e, g, m + n)
    decreases m
  {
    if m > 0 {
      var h :| Steps(e, h) && ReachesIn(h, f, m - 1);
      ReachesInConcat(h, f, g, m - 1, n);
    }
  }

  lemma ReachesSelf(e: Expr)
    ensures Reaches(e, e)
  {
    assert ReachesIn(e, e, 0);
  }

  lemma ReachesTransitive(e: Expr, f: Expr, g: Expr)
    requires Reaches(e, f) && Reaches(f, g)
    ensures Reaches(e, g)
  {
    var m: nat :| ReachesIn(e, f, m);
    var n: nat :| ReachesIn(f, g, n);
    ReachesInConcat(e, f, g, m, n);
  }

  lemma ReachesStep(e: Expr, f: Expr)
    requires Steps(e, f)
    ensures Reaches(e, f)
  {
    assert ReachesIn(f, f, 0);
    assert ReachesIn(e, f, 1);
  }

  /** What every step keeps, everything that is reached has. */
  lemma {:induction false} ReachesWithin(e: Expr, f: Expr, n: nat, within: set<Expr>)
    requires ReachesIn(e, f, n) && e in within
    requires forall x, y :: x in within && Steps(x, y) ==> y in within
    ensures f in within
    decreases n
  {
    if n > 0 {
      var g :| Steps(e, g) && ReachesIn(g, f, n - 1);
      ReachesWithin(g, f, n - 1, within);
    }
  }

  lemma JoinReaches(ty: Junction, lvl: Path, q1: Path, q2: Path, t0: Expr, t1: Expr)
    requires NestedWalked(ty, lvl, q1, q2, t0, t1) && Reaches(t0, t1)
    requires Join(ty, At(t1, lvl + q1), At(t1, lvl + q2)).Some?
    requires HasPath(Put(t1, lvl + q1, Unit(ty)), lvl + q2)
    ensures Reaches(t0, Put(Put(t1, lvl + q1, Unit(ty)), lvl + q2, Join(ty, At(t1, lvl + q1), At(t1, lvl + q2)).value))
  {
    var t2 := Put(Put(t1, lvl + q1, Unit(ty)), lvl + q2, Join(ty, At(t1, lvl + q1), At(t1, lvl + q2)).value);
    assert JoinsAt(t1, t2, ty, lvl, q1, q2);
    ReachesStep(t1, t2);
    ReachesTransitive(t0, t1, t2);
  }

  /** The tree being rewritten and the global change counter. */
  class DupRewriter {
    var tree: Expr
    var transCount: nat

    constructor (count: nat)
      ensures transCount == count
    {
      tree := Sym(Yes);
      transCount := count;
    }

    /** expr_eliminate_dups1. `lvl + q1` and `lvl + q2` are the two pointers; both lie on the
        level of type `ty` whose root is at `lvl`. */
    method EliminateDups1(ty: Junction, lvl: Path, q1: Path, q2: Path)
      requires HasPath(tree, lvl) && Is(ty, At(tree, lvl))
      requires Spine(ty, At(tree, lvl), q1) && Spine(ty, At(tree, lvl), q2)
      modifies this
      ensures transCount >= old(transCount)
      ensures Walked(ty, lvl, q1, q2, old(tree), tree, transCount > old(transCount))
      ensures Reaches(old(tree), tree)
      decreases Size(At(tree, lvl)),
                Forks(SkeletonOf(ty, At(At(tree, lvl), q1))) + Forks(SkeletonOf(ty, At(At(tree, lvl), q2))), 1
    {
      if Is(ty, At(At(tree, lvl), q1)) {
        DescendFirst(ty, lvl, q1, q2);
      } else if Is(ty, At(At(tree, lvl), q2)) {
        DescendSecond(ty, lvl, q1, q2);
      } else if q1 == q2 {
        QuietOperands(ty, At(tree, lvl), q1, q2);
        PutBasics(tree, lvl, At(tree, lvl));
        ReachesSelf(tree);
      } else {
        CompareOperands(ty, lvl, q1, q2);
      }
    }

    /** Recursion into the node at the first pointer. */
    method DescendFirst(ty: Junction, lvl: Path, q1: Path, q2: Path)
      requires HasPath(tree, lvl) && Is(ty, At(tree, lvl))
      requires Spine(ty, At(tree, lvl), q1) && Spine(ty, At(tree, lvl), q2) && Is(ty, At(At(tree, lvl), q1))
      modifies this
      ensures transCount >= old(transCount)
      ensures Walked(ty, lvl, q1, q2, old(tree), tree, transCount > old(transCount))
      ensures Reaches(old(tree), tree)
      decreases Size(At(tree, lvl)),
                Forks(SkeletonOf(ty, At(At(tree, lvl), q1))) + Forks(SkeletonOf(ty, At(At(tree, lvl), q2))), 0
    {
      ChildOnSpine(ty, At(tree, lvl), q1, false);
      ChildOnSpine(ty, At(tree, lvl), q1, true);
      EliminateDups1(ty, lvl, q1 + [false], q2);
      ghost var t1, c1 := tree, transCount;
      WalkedKeepsPointers(ty, lvl, old(tree), t1, q1 + [true]);
      WalkedKeepsPointers(ty, lvl, old(tree), t1, q2);
      EliminateDups1(ty, lvl, q1 + [true], q2);
      WalkedFirst(ty, lvl, q1, q2, old(tree), t1, tree, c1 > old(transCount), transCount > c1);
      ReachesTransitive(old(tree), t1, tree);
    }

    /** Recursion into the node at the second pointer. */
    method DescendSecond(ty: Junction, lvl: Path, q1: Path, q2: Path)
      requires HasPath(tree, lvl) && Is(ty, At(tree, lvl))
      requires Spine(ty, At(tree, lvl), q1) && Spine(ty, At(tree, lvl), q2) && Is(ty, At(At(tree, lvl), q2))
      modifies this
      ensures transCount >= old(transCount)
      ensures Walked(ty, lvl, q1, q2, old(tree), tree, transCount > old(transCount))
      ensures Reaches(old(tree), tree)
      decreases Size(At(tree, lvl)),
                Forks(SkeletonOf(ty, At(At(tree, lvl), q1))) + Forks(SkeletonOf(ty, At(At(tree, lvl), q2))), 0
    {
      ChildOnSpine(ty, At(tree, lvl), q2, false);
      ChildOnSpine(ty, At(tree, lvl), q2, true);
      EliminateDups1(ty, lvl, q1, q2 + [false]);
      ghost var t1, c1 := tree, transCount;
      WalkedKeepsPointers(ty, lvl, old(tree), t1, q2 + [true]);
      WalkedKeepsPointers(ty, lvl, old(tree), t1, q1);
      EliminateDups1(ty, lvl, q1, q2 + [true]);
      WalkedSecond(ty, lvl, q1, q2, old(tree), t1, tree, c1 > old(transCount), transCount > c1);
      ReachesTransitive(old(tree), t1, tree);
    }

    /** The part of expr_eliminate_dups1 that handles two different operands. */
    method CompareOperands(ty: Junction, lvl: Path, q1: Path, q2: Path)
      requires HasPath(tree, lvl) && Is(ty, At(tree, lvl))
      requires Operand(ty, At(tree, lvl), q1) && Operand(ty, At(tree, lvl), q2) && q1 != q2
      modifies this
      ensures transCount >= old(transCount)
      ensures Walked(ty, lvl, q1, q2, old(tree), tree, transCount > old(transCount))
      ensures Reaches(old(tree), tree)
      decreases Size(At(tree, lvl)), 0, 0
    {
      ghost var t0 := tree;
      var p1, p2 := lvl + q1, lvl + q2;
      PathConcat(tree, lvl, q1);
      PathConcat(tree, lvl, q2);
      ReachesSelf(tree);
      if IsJunction(At(tree, p1)) {
        EliminateDups1(TypeOf(At(tree, p1)), p1, [], []);
      }
      ghost var t1 := tree;
      NestedWalk(ty, lvl, q1, q2, t0, t1, transCount > old(transCount));
      QuietOperands(ty, At(t0, lvl), q1, q2);
      var tmp := Join(ty, At(tree, p1), At(tree, p2));
      if tmp.Some? {
        JoinedWalk(ty, lvl, q1, q2, t0, t1);
        JoinReaches(ty, lvl, q1, q2, t0, t1);
        tree := Put(tree, p1, Unit(ty));
        tree := Put(tree, p2, tmp.value);
        transCount := transCount + 1;
      } else {
        UnjoinedWalk(ty, lvl, q1, q2, t0, t1, transCount > old(transCount));
      }
    }

    /** expr_eliminate_dups. */
    method EliminateDups(e: Option<Expr>) returns (r: Option<Expr>)
      modifies this
      ensures transCount == old(transCount)
      ensures r.None? <==> e.None?
      ensures e.Some? ==> MeaningKept(e.value, r.value) && Deduplicated(r.value) && Size(r.value) <= Size(e.value)
      ensures e.Some? && Tests(e.value) == {} ==>
        forall env: Env :: env.Valid() ==> Value(e.value, env) == Value(r.value, env)
      ensures e.Some? && Deduplicated(e.value) ==> r == e
      ensures e.Some? ==> Reaches(e.value, r.value) && (r == e || Reduced(r.value))
    {
      if e.None? {
        return None;
      }
      var oldcount := transCount;
      tree := e.value;
      ReachesSelf(tree);
      while true
        invariant MeaningKept(e.value, tree) && Size(tree) <= Size(e.value)
        invariant Reaches(e.value, tree) && (tree == e.value || Reduced(tree))
        invariant Deduplicated(e.value) ==> tree == e.value
        decreases Size(tree)
      {
        ghost var before := tree;
        transCount := 0;
        if IsJunction(tree) {
          EliminateDups1(TypeOf(tree), [], [], []);
        }
        if transCount == 0 {
          break;
        }
        EliminateYnShape(tree);
        YnKeepsMeaning(tree);
        MeaningTransitive(e.value, before, tree);
        MeaningTransitive(e.value, tree, EliminateYn(tree));
        YnReaches(e.value, before, tree);
        tree := EliminateYn(tree);
      }
      transCount := oldcount;
      r := Some(tree);
      if Tests(e.value) == {} {
        forall env: Env | env.Valid() ensures Value(e.value, env) == Value(tree, env) {
          MeaningWithoutTests(e.value, tree, env);
        }
      }
    }
  }

  lemma YnReaches(e: Expr, f: Expr, g: Expr)
    requires Reaches(e, f) && Reaches(f, g)
    ensures Reaches(e, EliminateYn(g))
  {
    ReachesTransitive(e, f, g);
    ReachesStep(g, EliminateYn(g));
    ReachesTransitive(e, g, EliminateYn(g));
  }

  lemma YnKeepsMeaning(e: Expr)
    ensures MeaningKept(e, EliminateYn(e))
  {
    EliminateYnTests(e);
    forall env: Env | env.Valid() && env.Apart(Tests(e)) ensures Value(e, env) == Value(EliminateYn(e), env) {
      EliminateYnValue(e, env);
    }
  }

  lemma ChildOnSpine(ty: Junction, e: Expr, q: Path, b: bool)
    requires Spine(ty, e, q) && Is(ty, At(e, q))
    ensures Spine(ty, e, q + [b])
    ensures Forks(SkeletonOf(ty, At(e, q + [b]))) < Forks(SkeletonOf(ty, At(e, q)))
  {
    SpineConcat(ty, e, q, [b]);
    PathConcat(e, q, [b]);
    assert [b][1..] == [];
  }

  // ----- the join that loses an inequality -----

  lemma LeafPaths(l: Expr, r: Expr, p: Path)
    requires !IsJunction(l) && !IsJunction(r) && HasPath(And(l, r), p)
    ensures p == [] || p == [false] || p == [true]
  {
    if p != [] {
      assert p == [p[0]] + p[1..];
    }
  }

  lemma LeafAt(l: Expr, r: Expr)
    ensures HasPath(And(l, r), [false]) && At(And(l, r), [false]) == l
    ensures HasPath(And(l, r), [true]) && At(And(l, r), [true]) == r
    ensures forall x, y :: Put(Put(And(l, r), [false], x), [true], y) == And(x, y)
    ensures forall x, y :: Put(Put(And(l, r), [true], x), [false], y) == And(y, x)
  {
    assert [false][1..] == [] && [true][1..] == [];
  }

  /** The only joins in a conjunction of two leaves. */
  lemma LeafJoins(l: Expr, r: Expr, y: Expr, ty: Junction, lvl: Path, q1: Path, q2: Path)
    requires !IsJunction(l) && !IsJunction(r) && JoinsAt(And(l, r), y, ty, lvl, q1, q2)
    ensures (JoinAnd(l, r).Some? && y == And(Sym(Yes), JoinAnd(l, r).value)) ||
            (JoinAnd(r, l).Some? && y == And(JoinAnd(r, l).value, Sym(Yes)))
  {
    LeafAt(l, r);
    LeafPaths(l, r, lvl);
    assert lvl == [] && lvl + q1 == q1 && lvl + q2 == q2;
    LeafPaths(l, r, q1);
    LeafPaths(l, r, q2);
  }

  /** What can come out of (s=c) && (s!=d). */
  function Outcomes(a: Expr, b: Expr): set<Expr> {
    {And(a, b), And(Sym(Yes), a), And(a, Sym(Yes)), a}
  }

  lemma OutcomesClosed(s: Symbol, c: Symbol, d: Symbol, x: Expr, y: Expr)
    requires s.Type().Tristate? && c.Const() && d.Const() && c != d
    requires x in Outcomes(Cmp(Equal, s, c), Cmp(Unequal, s, d)) && Steps(x, y)
    ensures y in Outcomes(Cmp(Equal, s, c), Cmp(Unequal, s, d))
  {
    if y == EliminateYn(x) {
      YnOfOutcomes(Cmp(Equal, s, c), Cmp(Unequal, s, d));
    } else {
      var ty, lvl, q1, q2 :| JoinsAt(x, y, ty, lvl, q1, q2);
      OutcomeJoins(s, c, d, x, y, ty, lvl, q1, q2);
    }
  }

  lemma YnOfOutcomes(a: Expr, b: Expr)
    requires a.Cmp? && b.Cmp?
    ensures EliminateYn(And(a, b)) == And(a, b)
    ensures EliminateYn(And(Sym(Yes), a)) == EliminateYn(And(a, Sym(Yes))) == EliminateYn(a) == a
  {
  }

  lemma OutcomeJoins(s: Symbol, c: Symbol, d: Symbol, x: Expr, y: Expr, ty: Junction, lvl: Path, q1: Path, q2: Path)
    requires s.Type().Tristate? && c.Const() && d.Const() && c != d
    requires x in Outcomes(Cmp(Equal, s, c), Cmp(Unequal, s, d)) && JoinsAt(x, y, ty, lvl, q1, q2)
    ensures y in Outcomes(Cmp(Equal, s, c), Cmp(Unequal, s, d))
  {
    JoinsOfOutcomes(s, c, d);
    if x.And? {
      LeafJoins(x.l, x.r, y, ty, lvl, q1, q2);
    } else {
      LeafIsNoLevel(x, y, ty, lvl, q1, q2);
    }
  }

  lemma LeafIsNoLevel(x: Expr, y: Expr, ty: Junction, lvl: Path, q1: Path, q2: Path)
    requires !IsJunction(x)
    ensures !JoinsAt(x, y, ty, lvl, q1, q2)
  {
  }

  lemma JoinsOfOutcomes(s: Symbol, c: Symbol, d: Symbol)
    requires s.Type().Tristate? && c.Const() && d.Const() && c != d
    ensures var a, b := Cmp(Equal, s, c), Cmp(Unequal, s, d);
      && JoinAnd(a, b) == Some(a) == JoinAnd(b, a)
      && JoinAnd(a, Sym(Yes)).None? && JoinAnd(Sym(Yes), a).None?
  {
  }

  /** The pass turns (s=c) && (s!=d), for different constants c and d, into s=c. Under an assignment in which
      the symbol equals both, the first is n and the second y. */
  method LosesInequality(s: Symbol, c: Symbol, d: Symbol) returns (r: Option<Expr>)
    requires s.Type().Tristate? && c.Const() && d.Const() && c != d
    ensures r == Some(Cmp(Equal, s, c))
    ensures forall env: Env :: env.order(s, c) == 0 && env.order(s, d) == 0 ==>
      Value(And(Cmp(Equal, s, c), Cmp(Unequal, s, d)), env) == 0 && Value(r.value, env) == 2
  {
    var a, b := Cmp(Equal, s, c), Cmp(Unequal, s, d);
    var rewriter := new DupRewriter(0);
    r := rewriter.EliminateDups(Some(And(a, b)));
    OutcomeIs(s, c, d, r.value);
  }

  lemma OutcomeIs(s: Symbol, c: Symbol, d: Symbol, r: Expr)
    requires s.Type().Tristate? && c.Const() && d.Const() && c != d
    requires Reaches(And(Cmp(Equal, s, c), Cmp(Unequal, s, d)), r) && Deduplicated(r)
    requires r == And(Cmp(Equal, s, c), Cmp(Unequal, s, d)) || Reduced(r)
    ensures r == Cmp(Equal, s, c)
  {
    var a, b := Cmp(Equal, s, c), Cmp(Unequal, s, d);
    var n: nat :| ReachesIn(And(a, b), r, n);
    forall x, y | x in Outcomes(a, b) && Steps(x, y) ensures y in Outcomes(a, b) {
      OutcomesClosed(s, c, d, x, y);
    }
    ReachesWithin(And(a, b), r, n, Outcomes(a, b));
    if r == And(a, b) {
      JoinsOfOutcomes(s, c, d);
      assert [false][1..] == [] && [true][1..] == [];
      assert Pair(AndType, r, [], [], [false], [true]);
    }
  }
}
