/**
  Three-valued dependency formulas of the kconfig tool, their meaning, and the
  two local simplifiers that every other pass relies on.
  */
module KconfigExpr {
  import opened Options

  datatype SymbolType = Unknown | Boolean | Tristate | Int | Hex | String

  /** Symbols are compared by identity. The three constants have type S_UNKNOWN
      and carry the SYMBOL_CONST flag. */
  datatype Symbol = Yes | Mod | No | Named(name: string, typ: SymbolType, isConst: bool)
  {
    function Type(): SymbolType {
      if Named? then typ else Unknown
    }

    predicate Const() {
      Named? ==> isConst
    }

    predicate BoolOrTristate() {
      Type().Boolean? || Type().Tristate?
    }
  }

  datatype Relation = Equal | Unequal | Lth | Leq | Gth | Geq

  datatype Expr =
    | Sym(sym: Symbol)
    | Cmp(rel: Relation, left: Symbol, right: Symbol)
    | Not(arg: Expr)
    | And(l: Expr, r: Expr)
    | Or(l: Expr, r: Expr)

  /** The two node types that form levels of operands. */
  datatype Junction = AndType | OrType

  type Tri = v: int | 0 <= v <= 2

  /** A symbol assignment: the tristate value of each symbol and the sign of the
      comparison of two symbols' string values. */
  datatype Env = Env(tri: Symbol -> Tri, order: (Symbol, Symbol) -> int)
  {
    /** What symbol evaluation guarantees: the constants keep their values, boolean
        symbols are never `m`, and comparing a bool or tristate symbol with y, m or n
        compares their values. */
    ghost predicate Valid() {
      && tri(Yes) == 2 && tri(Mod) == 1 && tri(No) == 0
      && (forall s: Symbol :: s.Type().Boolean? ==> tri(s) != 1)
      && (forall s: Symbol, c: Symbol :: s.BoolOrTristate() && !c.Named? ==>
            (order(s, c) == 0 <==> tri(s) == tri(c)))
    }

    /** No tristate symbol equals two different constants at once, among y, m, n and the constants
        that the tests compare it with. */
    ghost predicate Apart(tests: set<(Symbol, Symbol)>) {
      forall s: Symbol, c: Symbol, d: Symbol ::
        Testable(s, c, tests) && Testable(s, d, tests) && c != d && order(s, c) == 0 ==> order(s, d) != 0
    }
  }

  /** The tristate symbol s may be compared with the constant c: that is one of y, m and n, or there is
      a test. */
  predicate Testable(s: Symbol, c: Symbol, tests: set<(Symbol, Symbol)>) {
    s.Type().Tristate? && c.Const() && (c.Named? ==> (s, c) in tests)
  }

  /** Which tristate symbol is tested for equality with which constant other than y, m and n, in an
      operand that is reached through && and ||. */
  function Tests(e: Expr): set<(Symbol, Symbol)> {
    match e
    case Cmp(rel, s, c) =>
      if (rel.Equal? || rel.Unequal?) && s.Type().Tristate? && c.Const() && c.Named? then {(s, c)} else {}
    case And(a, b) => Tests(a) + Tests(b)
    case Or(a, b) => Tests(a) + Tests(b)
    case _ => {}
  }

  function Min(a: Tri, b: Tri): Tri {
    if a < b then a else b
  }

  function Max(a: Tri, b: Tri): Tri {
    if a > b then a else b
  }

  function Holds(rel: Relation, res: int): bool {
    match rel
    case Equal => res == 0
    case Unequal => res != 0
    case Lth => res < 0
    case Leq => res <= 0
    case Gth => res > 0
    case Geq => res >= 0
  }

  /** expr_calc_value on a non-NULL expression. */
  function Value(e: Expr, env: Env): Tri {
    match e
    case Sym(s) => env.tri(s)
    case Cmp(rel, a, b) => if Holds(rel, env.order(a, b)) then 2 else 0
    case Not(a) => 2 - Value(a, env)
    case And(a, b) => Min(Value(a, env), Value(b, env))
    case Or(a, b) => Max(Value(a, env), Value(b, env))
  }

  /** Where symbols are compared by numbers, the relations are those of the numbers. */
  lemma ComparisonsOfNumbers(env: Env, number: Symbol -> int, a: Symbol, b: Symbol)
    requires env.order(a, b) == number(a) - number(b)
    ensures Value(Cmp(Equal, a, b), env) == if number(a) == number(b) then 2 else 0
    ensures Value(Cmp(Unequal, a, b), env) == if number(a) != number(b) then 2 else 0
    ensures Value(Cmp(Lth, a, b), env) == if number(a) < number(b) then 2 else 0
    ensures Value(Cmp(Leq, a, b), env) == if number(a) <= number(b) then 2 else 0
    ensures Value(Cmp(Gth, a, b), env) == if number(a) > number(b) then 2 else 0
    ensures Value(Cmp(Geq, a, b), env) == if number(a) >= number(b) then 2 else 0
  {
  }

  /** A NULL expression counts as yes. */
  function ValueOpt(e: Option<Expr>, env: Env): Tri {
    if e.None? then 2 else Value(e.value, env)
  }

  function Size(e: Expr): nat {
    match e
    case Sym(_) => 1
    case Cmp(_, _, _) => 1
    case Not(a) => 1 + Size(a)
    case And(a, b) => 1 + Size(a) + Size(b)
    case Or(a, b) => 1 + Size(a) + Size(b)
  }

  predicate IsJunction(e: Expr) {
    e.And? || e.Or?
  }

  function TypeOf(e: Expr): Junction
    requires IsJunction(e)
  {
    if e.And? then AndType else OrType
  }

  /** `e->type == type` */
  predicate Is(ty: Junction, e: Expr) {
    match ty
    case AndType => e.And?
    case OrType => e.Or?
  }

  function Node(ty: Junction, a: Expr, b: Expr): Expr {
    match ty
    case AndType => And(a, b)
    case OrType => Or(a, b)
  }

  /** The operand that leaves a level unchanged. */
  function Unit(ty: Junction): Expr {
    match ty
    case AndType => Sym(Yes)
    case OrType => Sym(No)
  }

  function Op(ty: Junction, a: Tri, b: Tri): Tri {
    match ty
    case AndType => Min(a, b)
    case OrType => Max(a, b)
  }

  lemma Regroup(ty: Junction, a: Tri, b: Tri, v1: Tri, v2: Tri)
    ensures Op(ty, Op(ty, a, v1), Op(ty, b, v2)) == Op(ty, Op(ty, a, b), Op(ty, v1, v2))
    ensures Op(ty, Op(ty, a, v2), v1) == Op(ty, a, Op(ty, v1, v2))
    ensures Op(ty, a, b) == Op(ty, b, a)
  {
    match ty
    case AndType =>
    case OrType =>
  }

  lemma NodeValue(ty: Junction, a: Expr, b: Expr, env: Env)
    ensures Value(Node(ty, a, b), env) == Op(ty, Value(a, env), Value(b, env))
  {
    match ty
    case AndType => assert Node(ty, a, b) == And(a, b);
    case OrType => assert Node(ty, a, b) == Or(a, b);
  }

  // ----- expr_eliminate_yn -----

  predicate YesOrNo(e: Expr) {
    e == Sym(Yes) || e == Sym(No)
  }

  function EliminateYn(e: Expr): Expr {
    match e
    case And(a, b) =>
      var l, r := EliminateYn(a), EliminateYn(b);
      if l == Sym(No) then Sym(No)
      else if l == Sym(Yes) then r
      else if r == Sym(No) then Sym(No)
      else if r == Sym(Yes) then l
      else And(l, r)
    case Or(a, b) =>
      var l, r := EliminateYn(a), EliminateYn(b);
      if l == Sym(No) then r
      else if l == Sym(Yes) then Sym(Yes)
      else if r == Sym(No) then l
      else if r == Sym(Yes) then Sym(Yes)
      else Or(l, r)
    case _ => e
  }

  /** No `&&` or `||` that is reached through `&&` and `||` has y or n as an operand. */
  predicate Reduced(e: Expr) {
    IsJunction(e) ==> !YesOrNo(e.l) && !YesOrNo(e.r) && Reduced(e.l) && Reduced(e.r)
  }

  /** Removing y and n keeps the value under every assignment. */
  lemma {:induction false} EliminateYnValue(e: Expr, env: Env)
    requires env.Valid()
    ensures Value(EliminateYn(e), env) == Value(e, env)
  {
    if IsJunction(e) {
      EliminateYnValue(e.l, env);
      EliminateYnValue(e.r, env);
    }
  }

  /** It removes all of them, and makes the expression strictly smaller exactly when
      there was something to remove. */
  lemma {:induction false} EliminateYnShape(e: Expr)
    ensures Reduced(EliminateYn(e))
    ensures if Reduced(e) then EliminateYn(e) == e else Size(EliminateYn(e)) < Size(e)
  {
    if IsJunction(e) {
      EliminateYnShape(e.l);
      EliminateYnShape(e.r);
    }
  }

  /** It brings in no test that was not there. */
  lemma {:induction false} EliminateYnTests(e: Expr)
    ensures Tests(EliminateYn(e)) <= Tests(e)
  {
    if IsJunction(e) {
      EliminateYnTests(e.l);
      EliminateYnTests(e.r);
    }
  }

  /** A symbol is never equal to two of y, m and n, so expressions without other tests need no more. */
  lemma ApartWithoutTests(env: Env)
    requires env.Valid()
    ensures env.Apart({})
  {
  }
}
