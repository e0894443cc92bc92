/**
  Expression trees with explicit parentheses, how they are written as tokens, and the proof
  that the evaluator reads back exactly the trees that carry the parentheses their operators need.
  */
module SdbSyntax {
  import opened SdbExpr
  import opened Options
  import opened Words

  datatype Ast =
    | Lit(v: nat)
    | Register(name: string)
    | Paren(inner: Ast)
    | Star(arg: Ast)
    | Bin(op: BinOp, l: Ast, r: Ast)

  function Print(e: Ast): seq<Token> {
    match e
    case Lit(v) => [Num(v)]
    case Register(n) => [Reg(n)]
    case Paren(x) => [LParen] + Print(x) + [RParen]
    case Star(x) => [Deref] + Print(x)
    case Bin(op, l, r) => Print(l) + [Op(op)] + Print(r)
  }

  /** How tightly the outermost construct binds; 16 for literals, registers and parentheses. */
  function Binding(e: Ast): nat {
    match e
    case Bin(op, _, _) => Priority(op)
    case Star(_) => 15
    case _ => 16
  }

  /** The parentheses that precedence and left associativity ask for are there, and the operand of
      a dereference is a literal, a register or parenthesised. */
  predicate WellParenthesised(e: Ast) {
    match e
    case Lit(_) => true
    case Register(_) => true
    case Paren(x) => WellParenthesised(x)
    case Star(x) => WellParenthesised(x) && Binding(x) > 15
    case Bin(op, l, r) =>
      WellParenthesised(l) && WellParenthesised(r) && Binding(l) >= Priority(op) && Binding(r) > Priority(op)
  }

  // ----- the grammar -----

  // Expressions by levels, the loosest operators first: conjunctions of equalities of sums of products of
  // prefix terms. Every level associates to the left.

  predicate IsConjunction(e: Ast)
    decreases e, 5
  {
    (e.Bin? && e.op.LogAnd? && IsConjunction(e.l) && IsEquality(e.r)) || IsEquality(e)
  }

  predicate IsEquality(e: Ast)
    decreases e, 4
  {
    (e.Bin? && (e.op.Eq? || e.op.Neq?) && IsEquality(e.l) && IsSum(e.r)) || IsSum(e)
  }

  predicate IsSum(e: Ast)
    decreases e, 3
  {
    (e.Bin? && (e.op.Add? || e.op.Sub?) && IsSum(e.l) && IsProduct(e.r)) || IsProduct(e)
  }

  predicate IsProduct(e: Ast)
    decreases e, 2
  {
    (e.Bin? && (e.op.Mul? || e.op.Div?) && IsProduct(e.l) && IsPrefix(e.r)) || IsPrefix(e)
  }

  predicate IsPrefix(e: Ast)
    decreases e, 1
  {
    (e.Star? && IsPrimary(e.arg)) || IsPrimary(e)
  }

  predicate IsPrimary(e: Ast)
    decreases e, 0
  {
    e.Lit? || e.Register? || (e.Paren? && IsConjunction(e.inner))
  }

  /** The parentheses that the priorities ask for are those of the grammar. */
  lemma {:induction false} FollowsGrammar(e: Ast)
    ensures WellParenthesised(e) <==> IsConjunction(e)
    ensures WellParenthesised(e) && Binding(e) >= 9 <==> IsEquality(e)
    ensures WellParenthesised(e) && Binding(e) >= 12 <==> IsSum(e)
    ensures WellParenthesised(e) && Binding(e) >= 13 <==> IsProduct(e)
    ensures WellParenthesised(e) && Binding(e) >= 15 <==> IsPrefix(e)
    ensures WellParenthesised(e) && Binding(e) >= 16 <==> IsPrimary(e)
    decreases e
  {
    if !e.Bin? {
      OtherLevels(e);
    }
    match e
    case Lit(_) =>
    case Register(_) =>
    case Paren(x) => FollowsGrammar(x);
    case Star(x) => FollowsGrammar(x);
    case Bin(op, l, r) =>
      FollowsGrammar(l);
      FollowsGrammar(r);
      BinaryLevels(op, l, r);
  }

  lemma OtherLevels(e: Ast)
    requires !e.Bin?
    ensures IsConjunction(e) == IsEquality(e) == IsSum(e) == IsProduct(e) == IsPrefix(e)
  {
    assert IsSum(e) == IsProduct(e);
    assert IsConjunction(e) == IsEquality(e);
  }

  /** Which level a binary operator is on. */
  lemma BinaryLevels(op: BinOp, l: Ast, r: Ast)
    ensures var e := Bin(op, l, r);
      && !IsPrimary(e) && !IsPrefix(e)
      && (IsProduct(e) <==> (op.Mul? || op.Div?) && IsProduct(l) && IsPrefix(r))
      && (IsSum(e) <==> ((op.Add? || op.Sub?) && IsSum(l) && IsProduct(r)) || IsProduct(e))
      && (IsEquality(e) <==> ((op.Eq? || op.Neq?) && IsEquality(l) && IsSum(r)) || IsSum(e))
      && (IsConjunction(e) <==> (op.LogAnd? && IsConjunction(l) && IsEquality(r)) || IsEquality(e))
  {
    assert !IsPrefix(Bin(op, l, r));
  }

  // ----- meaning of a tree -----

  /** A register in the tree is unknown, or a division has divisor zero. */
  predicate Faulty(e: Ast, ctx: Context) {
    match e
    case Lit(_) => false
    case Register(n) => ctx.reg(n).None?
    case Paren(x) => Faulty(x, ctx)
    case Star(x) => Faulty(x, ctx)
    case Bin(op, l, r) => Faulty(l, ctx) || Faulty(r, ctx) || (op.Div? && Meaning(r, ctx) == 0)
  }

  /** Value of a tree in 32-bit arithmetic; only meaningful for trees that are not faulty. */
  function Meaning(e: Ast, ctx: Context): nat {
    match e
    case Lit(v) => v % W
    case Register(n) => if ctx.reg(n).Some? then ctx.reg(n).value % W else 0
    case Paren(x) => Meaning(x, ctx)
    case Star(x) => ctx.mem(Meaning(x, ctx)) % W
    case Bin(op, l, r) => Arith(op, Meaning(l, ctx), Meaning(r, ctx))
  }

  function Result(e: Ast, ctx: Context): Outcome {
    if Faulty(e, ctx) then Failed else Ok(Meaning(e, ctx))
  }

  // ----- scanning printed trees -----

  lemma {:induction false} PrintNonEmpty(e: Ast)
    ensures |Print(e)| >= 1
    ensures |Print(e)| == 1 <==> e.Lit? || e.Register?
  {
    match e
    case Lit(_) =>
    case Register(_) =>
    case Paren(x) => PrintNonEmpty(x);
    case Star(x) => PrintNonEmpty(x);
    case Bin(_, l, r) => PrintNonEmpty(l); PrintNonEmpty(r);
  }

  lemma {:induction false} NestingConcat(a: seq<Token>, b: seq<Token>, cnt: nat)
    ensures Nesting(a + b, cnt) == if Nesting(a, cnt).None? then None else Nesting(b, Nesting(a, cnt).value)
    decreases |a|
  {
    if a == [] {
      assert a + b == b;
    } else {
      assert (a + b)[1..] == a[1..] + b;
      var next: int := if a[0].LParen? then cnt + 1 else if a[0].RParen? then cnt - 1 else cnt;
      if next >= 0 {
        NestingConcat(a[1..], b, next);
      }
    }
  }

  /** A printed tree returns to the depth it started from. */
  lemma {:induction false} PrintBalanced(e: Ast, cnt: nat)
    ensures Nesting(Print(e), cnt) == Some(cnt)
    decreases e
  {
    match e
    case Lit(_) =>
    case Register(_) =>
    case Paren(x) =>
      PrintBalanced(x, cnt + 1);
      NestingConcat([LParen] + Print(x), [RParen], cnt);
      NestingConcat([LParen], Print(x), cnt);
      assert [LParen][1..] == [] && [RParen][1..] == [];
    case Star(x) =>
      PrintBalanced(x, cnt);
      NestingConcat([Deref], Print(x), cnt);
      assert [Deref][1..] == [];
    case Bin(op, l, r) =>
      PrintBalanced(l, cnt);
      PrintBalanced(r, cnt);
      NestingConcat(Print(l) + [Op(op)], Print(r), cnt);
      NestingConcat(Print(l), [Op(op)], cnt);
      assert [Op(op)][1..] == [];
  }

  /** If a printed tree that is not parenthesised as a whole starts with `(`, the matching `)`
      comes before its end. */
  lemma {:induction false} LeadingParen(e: Ast) returns (x: Ast, tail: seq<Token>)
    requires !e.Paren? && Print(e)[0].LParen?
    ensures Print(e) == [LParen] + Print(x) + [RParen] + tail && tail != []
  {
    match e
    case Bin(op, l, r) =>
      PrintNonEmpty(l);
      var rest := [Op(op)] + Print(r);
      assert Print(e) == Print(l) + rest;
      if l.Paren? {
        x, tail := l.inner, rest;
      } else {
        assert Print(e)[0] == Print(l)[0];
        var t;
        x, t := LeadingParen(l);
        tail := t + rest;
        assert Print(e) == [LParen] + Print(x) + [RParen] + (t + rest);
      }
    case _ =>
      x, tail := e, [];
  }

  lemma Between<T>(p: T, a: seq<T>, q: T, tail: seq<T>)
    requires tail != []
    ensures var ts := [p] + a + [q] + tail; ts[1..|ts| - 1] == a + ([q] + tail[..|tail| - 1])
  {
  }

  /** check_parentheses recognises exactly the parenthesised trees. */
  lemma EnclosedIffParen(e: Ast)
    requires |Print(e)| >= 2
    ensures Enclosed(Print(e)) <==> e.Paren?
  {
    var ts := Print(e);
    if e.Paren? {
      assert ts[1..|ts| - 1] == Print(e.inner);
      PrintBalanced(e.inner, 0);
    } else if ts[0].LParen? && ts[|ts| - 1].RParen? {
      var x, tail := LeadingParen(e);
      Between(LParen, Print(x), RParen, tail);
      PrintBalanced(x, 0);
      NestingConcat(Print(x), [RParen] + tail[..|tail| - 1], 0);
    }
  }

  // ----- the main operator of a printed tree -----

  lemma {:induction false} SearchConcat(a: seq<Token>, b: seq<Token>, i: nat, s: Search)
    ensures SearchAll(a + b, i, s) == SearchAll(b, i + |a|, SearchAll(a, i, s))
    decreases |a|
  {
    if a == [] {
      assert a + b == b;
    } else {
      assert (a + b)[1..] == a[1..] + b;
      SearchConcat(a[1..], b, i + 1, SearchStep(a[0], i, s));
    }
  }

  /** Inside parentheses nothing is considered. */
  lemma {:induction false} SearchInside(e: Ast, i: nat, s: Search)
    requires s.cnt > 0
    ensures SearchAll(Print(e), i, s) == s
    decreases e
  {
    match e
    case Lit(_) =>
    case Register(_) =>
    case Paren(x) =>
      SearchConcat([LParen] + Print(x), [RParen], i, s);
      SearchConcat([LParen], Print(x), i, s);
      assert [LParen][1..] == [] && [RParen][1..] == [];
      SearchInside(x, i + 1, s.(cnt := s.cnt + 1));
    case Star(x) =>
      SearchConcat([Deref], Print(x), i, s);
      assert [Deref][1..] == [];
      SearchInside(x, i + 1, s);
    case Bin(op, l, r) =>
      SearchConcat(Print(l) + [Op(op)], Print(r), i, s);
      SearchConcat(Print(l), [Op(op)], i, s);
      assert [Op(op)][1..] == [];
      SearchInside(l, i, s);
      SearchInside(r, i + |Print(l)| + 1, s);
  }

  /** Position of the outermost operator. */
  function MainPosition(e: Ast): nat {
    if e.Bin? then |Print(e.l)| else 0
  }

  /** The search after an operand of this binding whose main operator is at this position. */
  function Found(binding: nat, position: nat, s: Search): Search {
    if binding < 16 && binding <= s.min then Search(0, position, binding) else s
  }

  /** At depth zero a well-parenthesised tree offers its outermost operator and nothing that
      binds more weakly. */
  lemma {:induction false} SearchPrinted(e: Ast, i: nat, s: Search)
    requires s.cnt == 0 && WellParenthesised(e)
    ensures SearchAll(Print(e), i, s) == Found(Binding(e), i + MainPosition(e), s)
    decreases e
  {
    match e
    case Lit(_) =>
    case Register(_) =>
    case Paren(x) =>
      SearchConcat([LParen] + Print(x), [RParen], i, s);
      SearchConcat([LParen], Print(x), i, s);
      assert [LParen][1..] == [] && [RParen][1..] == [];
      SearchInside(x, i + 1, s.(cnt := 1));
    case Star(x) =>
      SearchConcat([Deref], Print(x), i, s);
      assert [Deref][1..] == [];
      SearchPrinted(x, i + 1, SearchStep(Deref, i, s));
    case Bin(op, l, r) =>
      SearchBin(op, l, r, i, s);
      SearchPrinted(l, i, s);
      var s1 := SearchAll(Print(l), i, s);
      SearchPrinted(r, i + |Print(l)| + 1, SearchStep(Op(op), i + |Print(l)|, s1));
  }

  lemma SearchBin(op: BinOp, l: Ast, r: Ast, i: nat, s: Search)
    ensures SearchAll(Print(Bin(op, l, r)), i, s) ==
            SearchAll(Print(r), i + |Print(l)| + 1, SearchStep(Op(op), i + |Print(l)|, SearchAll(Print(l), i, s)))
  {
    SearchConcat(Print(l) + [Op(op)], Print(r), i, s);
    SearchConcat(Print(l), [Op(op)], i, s);
    assert [Op(op)][1..] == [];
  }

  /** find_main_op finds the outermost operator. */
  lemma MainOpPrinted(e: Ast)
    requires WellParenthesised(e) && Binding(e) < 16
    ensures MainOp(Print(e)) == MainPosition(e)
  {
    SearchPrinted(e, 0, START);
  }

  // ----- the tree the evaluator follows -----

  /** The tree whose structure _eval_sub follows on a token range; None where it gives up. */
  function Parse(ts: seq<Token>): Option<Ast>
    decreases |ts|
  {
    if ts == [] then None
    else if |ts| == 1 then
      match ts[0]
      case Num(v) => Some(Lit(v))
      case Reg(n) => Some(Register(n))
      case _ => None
    else if Enclosed(ts) then
      var x := Parse(ts[1..|ts| - 1]);
      if x.Some? then Some(Paren(x.value)) else None
    else
      var i := MainOp(ts);
      if i == -1 then None
      else
        var right := Parse(ts[i + 1..]);
        if right.None? then None
        else if ts[i].Deref? then Some(Star(right.value))
        else
          var left := Parse(ts[..i]);
          if left.None? then None else Some(Bin(ts[i].op, left.value, right.value))
  }

  lemma CombineResults(op: BinOp, l: Ast, r: Ast, ctx: Context)
    ensures Combine(op, Result(l, ctx), Result(r, ctx)) == Result(Bin(op, l, r), ctx)
  {
  }

  lemma LoadResult(x: Ast, ctx: Context)
    ensures Load(Result(x, ctx), ctx) == Result(Star(x), ctx)
  {
  }

  ghost predicate Follows(ts: seq<Token>, ctx: Context) {
    if Parse(ts).Some? then Eval(ts, ctx) == Result(Parse(ts).value, ctx) else !Eval(ts, ctx).Ok?
  }

  lemma SplitFollows(ts: seq<Token>, ctx: Context, i: nat)
    requires |ts| >= 2 && !Enclosed(ts) && MainOp(ts) == i
    requires Follows(ts[i + 1..], ctx) && (!ts[i].Deref? ==> Follows(ts[..i], ctx))
    ensures Follows(ts, ctx)
  {
    var right := Parse(ts[i + 1..]);
    if ts[i].Deref? {
      if right.Some? {
        LoadResult(right.value, ctx);
      }
    } else if right.Some? && Parse(ts[..i]).Some? {
      CombineResults(ts[i].op, Parse(ts[..i]).value, right.value, ctx);
    }
  }

  /** Evaluation is the meaning of that tree. */
  lemma {:induction false} EvalFollowsParse(ts: seq<Token>, ctx: Context)
    ensures Parse(ts).Some? ==> Eval(ts, ctx) == Result(Parse(ts).value, ctx)
    ensures Parse(ts).None? ==> !Eval(ts, ctx).Ok?
    decreases |ts|
  {
    if |ts| >= 2 {
      if Enclosed(ts) {
        EvalFollowsParse(ts[1..|ts| - 1], ctx);
      } else {
        var i := MainOp(ts);
        if i != -1 {
          EvalFollowsParse(ts[i + 1..], ctx);
          if !ts[i].Deref? {
            EvalFollowsParse(ts[..i], ctx);
          }
          SplitFollows(ts, ctx, i);
        }
      }
    }
  }

  /** Tokens can be skipped (before a dereference) but never made up. */
  lemma {:induction false} ParseLength(ts: seq<Token>)
    ensures Parse(ts).Some? ==> Fits(Parse(ts).value, |ts|)
    decreases |ts|
  {
    if |ts| >= 2 {
      if Enclosed(ts) {
        ParseLength(ts[1..|ts| - 1]);
      } else {
        var i := MainOp(ts);
        if i != -1 {
          ParseLength(ts[i + 1..]);
          if !ts[i].Deref? {
            ParseLength(ts[..i]);
            if Parse(ts).Some? {
              BinFits(ts[i].op, Parse(ts[..i]).value, Parse(ts[i + 1..]).value, i, |ts| - i - 1);
            }
          }
        }
      }
    }
  }

  predicate Fits(e: Ast, n: nat) {
    |Print(e)| <= n
  }

  lemma BinFits(op: BinOp, l: Ast, r: Ast, m: nat, n: nat)
    requires Fits(l, m) && Fits(r, n)
    ensures Fits(Bin(op, l, r), m + 1 + n)
  {
  }

  lemma {:induction false} ParsePrinted(e: Ast)
    requires WellParenthesised(e)
    ensures Parse(Print(e)) == Some(e)
    decreases e
  {
    var ts := Print(e);
    PrintNonEmpty(e);
    match e
    case Lit(_) =>
    case Register(_) =>
    case Paren(x) =>
      PrintNonEmpty(x);
      EnclosedIffParen(e);
      assert ts[1..|ts| - 1] == Print(x);
      ParsePrinted(x);
    case Star(x) =>
      EnclosedIffParen(e);
      MainOpPrinted(e);
      assert ts[1..] == Print(x);
      ParsePrinted(x);
    case Bin(op, l, r) =>
      EnclosedIffParen(e);
      MainOpPrinted(e);
      SplitPrint(op, l, r);
      ParsePrinted(l);
      ParsePrinted(r);
  }

  lemma SplitPrint(op: BinOp, l: Ast, r: Ast)
    ensures var ts, i := Print(Bin(op, l, r)), |Print(l)|;
            |ts| == i + 1 + |Print(r)| && ts[..i] == Print(l) && ts[i] == Op(op) && ts[i + 1..] == Print(r)
  {
  }

  /** Only well-parenthesised trees are read back as they were meant. */
  lemma {:induction false} ReadBackNeedsParentheses(e: Ast)
    requires Parse(Print(e)) == Some(e)
    ensures WellParenthesised(e)
    decreases e
  {
    var ts := Print(e);
    PrintNonEmpty(e);
    match e
    case Lit(_) =>
    case Register(_) =>
    case Paren(x) =>
      PrintNonEmpty(x);
      EnclosedIffParen(e);
      assert ts[1..|ts| - 1] == Print(x);
      ReadBackNeedsParentheses(x);
    case Star(x) =>
      StarPosition(x);
      ReadBackNeedsParentheses(x);
      StarForced(x);
    case Bin(op, l, r) =>
      BinPosition(op, l, r);
      ReadBackNeedsParentheses(l);
      ReadBackNeedsParentheses(r);
      BindingForced(op, l, r);
  }

  lemma StarPosition(x: Ast)
    requires Parse(Print(Star(x))) == Some(Star(x))
    ensures MainOp(Print(Star(x))) == 0 && Parse(Print(x)) == Some(x)
  {
    var ts := Print(Star(x));
    PrintNonEmpty(Star(x));
    EnclosedIffParen(Star(x));
    var i := MainOp(ts);
    ParseLength(ts[i + 1..]);
    assert ts[1..] == Print(x);
  }

  lemma StarForced(x: Ast)
    requires WellParenthesised(x) && MainOp(Print(Star(x))) == 0
    ensures Binding(x) > 15
  {
    SearchConcat([Deref], Print(x), 0, START);
    assert [Deref][1..] == [];
    SearchPrinted(x, 1, SearchStep(Deref, 0, START));
  }

  lemma BinPosition(op: BinOp, l: Ast, r: Ast)
    requires Parse(Print(Bin(op, l, r))) == Some(Bin(op, l, r))
    ensures MainOp(Print(Bin(op, l, r))) == |Print(l)| && Parse(Print(l)) == Some(l) && Parse(Print(r)) == Some(r)
  {
    var ts := Print(Bin(op, l, r));
    PrintNonEmpty(Bin(op, l, r));
    EnclosedIffParen(Bin(op, l, r));
    var i := MainOp(ts);
    ParseLength(ts[i + 1..]);
    ParseLength(ts[..i]);
    SplitPrint(op, l, r);
  }

  lemma BindingForced(op: BinOp, l: Ast, r: Ast)
    requires WellParenthesised(l) && WellParenthesised(r) && MainOp(Print(Bin(op, l, r))) == |Print(l)|
    ensures Binding(l) >= Priority(op) && Binding(r) > Priority(op)
  {
    BestIsMain(Print(Bin(op, l, r)), |Print(l)|);
    BindingForcedAt(op, l, r, 0, START);
  }

  lemma BindingForcedAt(op: BinOp, l: Ast, r: Ast, i: nat, s: Search)
    requires WellParenthesised(l) && WellParenthesised(r) && s.cnt == 0 && s.min >= 16
    requires SearchAll(Print(Bin(op, l, r)), i, s).best == i + |Print(l)|
    ensures Binding(l) >= Priority(op) && Binding(r) > Priority(op)
  {
    SearchBoth(op, l, r, i, s);
    PositionInside(l);
    var n := i + |Print(l)|;
    BestForces(op, Binding(l), i + MainPosition(l), Binding(r), n + 1 + MainPosition(r), n, s);
  }

  lemma SearchBoth(op: BinOp, l: Ast, r: Ast, i: nat, s: Search)
    requires WellParenthesised(l) && WellParenthesised(r) && s.cnt == 0
    ensures SearchAll(Print(Bin(op, l, r)), i, s) ==
            Found(Binding(r), i + |Print(l)| + 1 + MainPosition(r),
                  SearchStep(Op(op), i + |Print(l)|, Found(Binding(l), i + MainPosition(l), s)))
  {
    SearchBin(op, l, r, i, s);
    SearchPrinted(l, i, s);
    SearchPrinted(r, i + |Print(l)| + 1, SearchStep(Op(op), i + |Print(l)|, Found(Binding(l), i + MainPosition(l), s)));
  }

  lemma BestIsMain(ts: seq<Token>, i: nat)
    requires MainOp(ts) == i
    ensures SearchAll(ts, 0, START).best == i
  {
  }

  lemma BestForces(op: BinOp, left: nat, leftAt: nat, right: nat, rightAt: nat, n: nat, s: Search)
    requires leftAt < n < rightAt && s.cnt == 0 && s.min >= 16
    requires Found(right, rightAt, SearchStep(Op(op), n, Found(left, leftAt, s))).best == n
    ensures left >= Priority(op) && right > Priority(op)
  {
  }

  lemma PositionInside(e: Ast)
    ensures MainPosition(e) < |Print(e)|
  {
    PrintNonEmpty(e);
  }

  /** The evaluator reads a printed tree as that tree if and only if it carries the parentheses its
      operators need. */
  lemma ReadBack(e: Ast)
    ensures Parse(Print(e)) == Some(e) <==> WellParenthesised(e)
  {
    if WellParenthesised(e) {
      ParsePrinted(e);
    }
    if Parse(Print(e)) == Some(e) {
      ReadBackNeedsParentheses(e);
    }
  }

  /** A sum of products, and two operators of one level, in the tokens of three operands. */
  lemma ReadsPrecedence(a: Ast, b: Ast, c: Ast, op1: BinOp, op2: BinOp)
    requires IsPrimary(a) && IsPrimary(b) && IsPrimary(c)
    ensures var ts := Print(a) + [Op(op1)] + Print(b) + [Op(op2)] + Print(c);
      var first, second := Bin(op2, Bin(op1, a, b), c), Bin(op1, a, Bin(op2, b, c));
      && ((op1.Add? || op1.Sub?) && (op2.Mul? || op2.Div?) ==> Parse(ts) == Some(second))
      && ((op1.Mul? || op1.Div?) && (op2.Add? || op2.Sub?) ==> Parse(ts) == Some(first))
      && ((op1.Eq? || op1.Neq?) && (op2.Add? || op2.Sub?) ==> Parse(ts) == Some(second))
      && (op1.LogAnd? && (op2.Eq? || op2.Neq?) ==> Parse(ts) == Some(second))
      && ((op1.Add? || op1.Sub?) && (op2.Add? || op2.Sub?) ==> Parse(ts) == Some(first))
      && ((op1.Mul? || op1.Div?) && (op2.Mul? || op2.Div?) ==> Parse(ts) == Some(first))
      && ((op1.Eq? || op1.Neq?) && (op2.Eq? || op2.Neq?) ==> Parse(ts) == Some(first))
      && (op1.LogAnd? && op2.LogAnd? ==> Parse(ts) == Some(first))
  {
    ThreeOperands(a, b, c, op1, op2);
    FollowsGrammar(a);
    FollowsGrammar(b);
    FollowsGrammar(c);
    FollowsGrammar(Bin(op1, a, b));
    FollowsGrammar(Bin(op2, b, c));
    BinaryLevels(op1, a, b);
    BinaryLevels(op2, b, c);
    GroupsFirst(Bin(op1, a, b), op2, c);
    GroupsSecond(a, op1, Bin(op2, b, c));
  }

  lemma ThreeOperands(a: Ast, b: Ast, c: Ast, op1: BinOp, op2: BinOp)
    ensures var ts := Print(a) + [Op(op1)] + Print(b) + [Op(op2)] + Print(c);
      Print(Bin(op2, Bin(op1, a, b), c)) == ts && Print(Bin(op1, a, Bin(op2, b, c))) == ts
  {
    Regrouped(Print(a) + [Op(op1)], Print(b) + [Op(op2)], Print(c));
    Regrouped(Print(a) + [Op(op1)], Print(b), [Op(op2)]);
  }

  /** What is read where the left operand belongs together. */
  lemma GroupsFirst(l: Ast, op: BinOp, c: Ast)
    requires IsPrimary(c)
    ensures IsProduct(l) && (op.Mul? || op.Div?) ==> Parse(Print(Bin(op, l, c))) == Some(Bin(op, l, c))
    ensures IsSum(l) && (op.Add? || op.Sub?) ==> Parse(Print(Bin(op, l, c))) == Some(Bin(op, l, c))
    ensures IsEquality(l) && (op.Eq? || op.Neq?) ==> Parse(Print(Bin(op, l, c))) == Some(Bin(op, l, c))
    ensures IsConjunction(l) && op.LogAnd? ==> Parse(Print(Bin(op, l, c))) == Some(Bin(op, l, c))
  {
    FollowsGrammar(c);
    FollowsGrammar(l);
    ReadBack(Bin(op, l, c));
    FollowsGrammar(Bin(op, l, c));
    BinaryLevels(op, l, c);
  }

  /** What is read where the right operand belongs together. */
  lemma GroupsSecond(a: Ast, op: BinOp, r: Ast)
    requires IsPrimary(a)
    ensures IsProduct(r) && (op.Add? || op.Sub?) ==> Parse(Print(Bin(op, a, r))) == Some(Bin(op, a, r))
    ensures IsSum(r) && (op.Eq? || op.Neq?) ==> Parse(Print(Bin(op, a, r))) == Some(Bin(op, a, r))
    ensures IsEquality(r) && op.LogAnd? ==> Parse(Print(Bin(op, a, r))) == Some(Bin(op, a, r))
  {
    FollowsGrammar(a);
    FollowsGrammar(r);
    ReadBack(Bin(op, a, r));
    FollowsGrammar(Bin(op, a, r));
    BinaryLevels(op, a, r);
  }

  lemma SumOfProductRead(x: nat, y: nat, z: nat)
    ensures Parse([Num(x), Op(Add), Num(y), Op(Mul), Num(z)]) == Some(Bin(Add, Lit(x), Bin(Mul, Lit(y), Lit(z))))
  {
    ReadsPrecedence(Lit(x), Lit(y), Lit(z), Add, Mul);
    assert Print(Lit(x)) + [Op(Add)] + Print(Lit(y)) + [Op(Mul)] + Print(Lit(z)) ==
           [Num(x), Op(Add), Num(y), Op(Mul), Num(z)];
  }

  lemma LitResult(v: nat, ctx: Context)
    requires v < W
    ensures Meaning(Lit(v), ctx) == v && !Faulty(Lit(v), ctx)
  {
  }

  lemma BothResult(op: BinOp, l: Ast, r: Ast, ctx: Context)
    requires !Faulty(l, ctx) && !Faulty(r, ctx) && op != Div
    ensures !Faulty(Bin(op, l, r), ctx)
    ensures Meaning(Bin(op, l, r), ctx) == Arith(op, Meaning(l, ctx), Meaning(r, ctx))
  {
  }

  /** x + y * z is x plus the product, as 1 + 2 * 3 is 7. */
  lemma SumOfProduct(x: nat, y: nat, z: nat, ctx: Context)
    requires x < W && y < W && z < W
    ensures Eval([Num(x), Op(Add), Num(y), Op(Mul), Num(z)], ctx) == Ok(Arith(Add, x, Arith(Mul, y, z)))
    ensures Arith(Add, 1, Arith(Mul, 2, 3)) == 7
  {
    LitResult(x, ctx);
    LitResult(y, ctx);
    LitResult(z, ctx);
    BothResult(Mul, Lit(y), Lit(z), ctx);
    BothResult(Add, Lit(x), Bin(Mul, Lit(y), Lit(z)), ctx);
    SumOfProductRead(x, y, z);
    EvalFollowsParse([Num(x), Op(Add), Num(y), Op(Mul), Num(z)], ctx);
  }

  /** Such a tree evaluates to its value modulo 2^32; evaluation fails exactly for trees with an
      unknown register or a zero divisor, and never aborts. */
  lemma EvalPrinted(e: Ast, ctx: Context)
    requires WellParenthesised(e)
    ensures Eval(Print(e), ctx) == Result(e, ctx)
  {
    ParsePrinted(e);
    EvalFollowsParse(Print(e), ctx);
  }

  // ----- telling dereference from multiplication -----

  /** What the tokeniser sees: an asterisk is not yet known to be a dereference. */
  datatype Lexeme = Plain(t: Token) | Asterisk

  predicate ExpectsExpression(t: Token) {
    t.Op? || t.LParen?
  }

  /** Classification of asterisks in make_token; `prev` is the token before. */
  function Classify(ls: seq<Lexeme>, prev: Option<Token>): seq<Token> {
    if ls == [] then []
    else
      var t :=
        if ls[0].Plain? then ls[0].t
        else if prev.None? || ExpectsExpression(prev.value) then Deref
        else Op(Mul);
      [t] + Classify(ls[1..], Some(t))
  }

  function Lexemes(ts: seq<Token>): seq<Lexeme> {
    seq(|ts|, i requires 0 <= i < |ts| => if ts[i] == Deref || ts[i] == Op(Mul) then Asterisk else Plain(ts[i]))
  }

  lemma LexemesConcat(a: seq<Token>, b: seq<Token>)
    ensures Lexemes(a + b) == Lexemes(a) + Lexemes(b)
  {
  }

  function LastToken(e: Ast): Token {
    match e
    case Lit(v) => Num(v)
    case Register(n) => Reg(n)
    case Paren(_) => RParen
    case Star(x) => LastToken(x)
    case Bin(_, _, r) => LastToken(r)
  }

  predicate MayStart(e: Ast, prev: Option<Token>) {
    prev.None? || ExpectsExpression(prev.value) || Binding(e) == 16
  }

  /** After `prev`, the lexemes of `ts` are classified back to `ts`, whose last token is `last`. */
  ghost predicate Reads(ts: seq<Token>, prev: Option<Token>, last: Token) {
    forall rest: seq<Lexeme> :: Classify(Lexemes(ts) + rest, prev) == ts + Classify(rest, Some(last))
  }

  lemma ReadsOne(t: Token, prev: Option<Token>)
    requires t == Deref ==> prev.None? || ExpectsExpression(prev.value)
    requires t == Op(Mul) ==> prev.Some? && !ExpectsExpression(prev.value)
    ensures Reads([t], prev, t)
  {
    forall rest: seq<Lexeme> ensures Classify(Lexemes([t]) + rest, prev) == [t] + Classify(rest, Some(t)) {
      var ls := Lexemes([t]) + rest;
      assert ls[0] == Lexemes([t])[0] && ls[1..] == rest;
    }
  }

  lemma ReadsBoth(a: seq<Token>, b: seq<Token>, prev: Option<Token>, mid: Token, last: Token)
    requires Reads(a, prev, mid) && Reads(b, Some(mid), last)
    ensures Reads(a + b, prev, last)
  {
    LexemesConcat(a, b);
    forall rest: seq<Lexeme> ensures Classify(Lexemes(a + b) + rest, prev) == (a + b) + Classify(rest, Some(last)) {
      Regrouped(Lexemes(a), Lexemes(b), rest);
      Regrouped(a, b, Classify(rest, Some(last)));
    }
  }

  lemma Regrouped<T>(a: seq<T>, b: seq<T>, c: seq<T>)
    ensures (a + b) + c == a + (b + c)
  {
  }

  /** The tokeniser classifies every asterisk of a well-parenthesised tree as it was meant. */
  lemma {:induction false} ClassifyPrinted(e: Ast, prev: Option<Token>)
    requires WellParenthesised(e) && MayStart(e, prev)
    ensures Reads(Print(e), prev, LastToken(e)) && !ExpectsExpression(LastToken(e))
    decreases e
  {
    match e
    case Lit(v) => ReadsOne(Num(v), prev);
    case Register(n) => ReadsOne(Reg(n), prev);
    case Paren(x) =>
      ReadsOne(LParen, prev);
      ClassifyPrinted(x, Some(LParen));
      ReadsOne(RParen, Some(LastToken(x)));
      ReadsBoth([LParen], Print(x), prev, LParen, LastToken(x));
      ReadsBoth([LParen] + Print(x), [RParen], prev, LastToken(x), RParen);
    case Star(x) =>
      ReadsOne(Deref, prev);
      ClassifyPrinted(x, Some(Deref));
      ReadsBoth([Deref], Print(x), prev, Deref, LastToken(x));
    case Bin(op, l, r) =>
      ClassifyPrinted(l, prev);
      ReadsOne(Op(op), Some(LastToken(l)));
      ClassifyPrinted(r, Some(Op(op)));
      ReadsBoth(Print(l), [Op(op)], prev, LastToken(l), Op(op));
      ReadsBoth(Print(l) + [Op(op)], Print(r), prev, Op(op), LastToken(r));
  }

  lemma ReadsAll(ts: seq<Token>, prev: Option<Token>, last: Token)
    requires Reads(ts, prev, last)
    ensures Classify(Lexemes(ts), prev) == ts
  {
    assert Lexemes(ts) + [] == Lexemes(ts) && ts + [] == ts;
    assert Classify([], Some(last)) == [];
  }

  /** From lexemes to the value. */
  lemma EvalLexemes(e: Ast, ctx: Context)
    requires WellParenthesised(e)
    ensures Eval(Classify(Lexemes(Print(e)), None), ctx) == Result(e, ctx)
  {
    ClassifyPrinted(e, None);
    ReadsAll(Print(e), None, LastToken(e));
    EvalPrinted(e, ctx);
  }

  // ----- which token ranges are read without loss -----

  /** Every dereference stands first, or after an operator or an opening parenthesis. */
  ghost predicate DerefsStart(ts: seq<Token>) {
    forall i :: 0 < i < |ts| && ts[i].Deref? ==> ExpectsExpression(ts[i - 1])
  }

  predicate Balanced(ts: seq<Token>) {
    Nesting(ts, 0) == Some(0)
  }

  /** The classification of asterisks takes care of the first condition. */
  lemma {:induction false} ClassifiedDerefsStart(ls: seq<Lexeme>, prev: Option<Token>)
    requires forall i :: 0 <= i < |ls| && ls[i].Plain? ==> !ls[i].t.Deref?
    ensures DerefsStart(Classify(ls, prev))
    ensures ls != [] && Classify(ls, prev)[0].Deref? && prev.Some? ==> ExpectsExpression(prev.value)
    decreases |ls|
  {
    if ls != [] {
      ClassifiedDerefsStart(ls[1..], Some(Classify(ls, prev)[0]));
    }
  }

  lemma DerefsStartConcat(a: seq<Token>, b: seq<Token>)
    requires DerefsStart(a) && DerefsStart(b)
    requires a != [] && b != [] && b[0].Deref? ==> ExpectsExpression(a[|a| - 1])
    ensures DerefsStart(a + b)
  {
  }

  lemma {:induction false} PrintedDerefsStart(e: Ast)
    requires WellParenthesised(e)
    ensures DerefsStart(Print(e)) && (Print(e)[0].Deref? ==> Binding(e) < 16)
    decreases e
  {
    PrintNonEmpty(e);
    match e
    case Lit(_) =>
    case Register(_) =>
    case Paren(x) =>
      PrintedDerefsStart(x);
      DerefsStartConcat([LParen], Print(x));
      DerefsStartConcat([LParen] + Print(x), [RParen]);
    case Star(x) =>
      PrintedDerefsStart(x);
      DerefsStartConcat([Deref], Print(x));
    case Bin(op, l, r) =>
      PrintedDerefsStart(l);
      PrintedDerefsStart(r);
      DerefsStartConcat(Print(l), [Op(op)]);
      DerefsStartConcat(Print(l) + [Op(op)], Print(r));
  }

  lemma {:induction false} NestingDepth(ts: seq<Token>, i: nat)
    requires i <= |ts| && Nesting(ts[..i], 0).Some?
    ensures Nesting(ts[..i], 0) == Some(Depth(ts, i))
    decreases i
  {
    if i > 0 {
      assert ts[..i] == ts[..i - 1] + [ts[i - 1]];
      NestingConcat(ts[..i - 1], [ts[i - 1]], 0);
      NestingDepth(ts, i - 1);
      assert [ts[i - 1]][1..] == [];
    }
  }

  /** In a balanced range no depth is negative, and a split at depth zero leaves balanced parts. */
  lemma BalancedDepth(ts: seq<Token>, i: nat)
    requires Balanced(ts) && i <= |ts|
    ensures Depth(ts, i) >= 0
    ensures Depth(ts, i) == 0 ==> Balanced(ts[..i]) && Balanced(ts[i..])
  {
    assert ts[..i] + ts[i..] == ts;
    NestingConcat(ts[..i], ts[i..], 0);
    NestingDepth(ts, i);
  }

  lemma BalancedSplit(ts: seq<Token>, i: nat)
    requires Balanced(ts) && Candidate(ts, i)
    ensures Balanced(ts[..i]) && Balanced(ts[i + 1..])
  {
    BalancedDepth(ts, i);
    assert ts[i..] == [ts[i]] + ts[i + 1..];
    NestingConcat([ts[i]], ts[i + 1..], 0);
    assert [ts[i]][1..] == [];
  }

  /** A dereference is the main operator of such a range only in front of it. */
  lemma MainDerefFirst(ts: seq<Token>, i: nat)
    requires Balanced(ts) && DerefsStart(ts) && MainOp(ts) == i && ts[i].Deref?
    ensures i == 0
  {
    MainOpIsWeakest(ts, i);
    if i > 0 {
      BalancedDepth(ts, i - 1);
    }
  }

  lemma DerefsStartParts(ts: seq<Token>, i: nat, j: nat)
    requires DerefsStart(ts) && i <= j <= |ts|
    ensures DerefsStart(ts[i..j])
  {
  }

  /** The two conditions pass to the parts that the evaluator recurses on. */
  ghost predicate Clean(ts: seq<Token>) {
    Balanced(ts) && DerefsStart(ts)
  }

  lemma CleanInside(ts: seq<Token>)
    requires Clean(ts) && Enclosed(ts)
    ensures Clean(ts[1..|ts| - 1]) && ts == [LParen] + ts[1..|ts| - 1] + [RParen]
  {
    DerefsStartParts(ts, 1, |ts| - 1);
  }

  lemma CleanSplit(ts: seq<Token>, i: nat)
    requires Clean(ts) && MainOp(ts) == i
    ensures Clean(ts[..i]) && Clean(ts[i + 1..]) && (ts[i].Deref? ==> i == 0)
    ensures ts == ts[..i] + [ts[i]] + ts[i + 1..]
  {
    MainOpIsWeakest(ts, i);
    BalancedSplit(ts, i);
    DerefsStartParts(ts, i + 1, |ts|);
    DerefsStartParts(ts, 0, i);
    assert ts[0..i] == ts[..i];
    if ts[i].Deref? {
      MainDerefFirst(ts, i);
    }
  }

  lemma {:induction false} ReadKeepsTokens(ts: seq<Token>)
    requires Parse(ts).Some? && Clean(ts)
    ensures Print(Parse(ts).value) == ts
    decreases |ts|
  {
    if |ts| >= 2 {
      if Enclosed(ts) {
        CleanInside(ts);
        ReadKeepsTokens(ts[1..|ts| - 1]);
      } else {
        var i, l, r := ParseSplits(ts);
        CleanSplit(ts, i);
        ReadKeepsTokens(ts[i + 1..]);
        if ts[i].Deref? {
          assert ts == [Deref] + Print(r);
        } else {
          ReadKeepsTokens(ts[..i]);
          assert ts == Print(l) + [ts[i]] + Print(r);
        }
      }
    }
  }

  lemma ParseSplits(ts: seq<Token>) returns (i: nat, l: Ast, r: Ast)
    requires |ts| >= 2 && !Enclosed(ts) && Parse(ts).Some?
    ensures i == MainOp(ts) && Parse(ts[i + 1..]) == Some(r)
    ensures ts[i].Deref? ==> Parse(ts) == Some(Star(r))
    ensures !ts[i].Deref? ==> Parse(ts[..i]) == Some(l) && Parse(ts) == Some(Bin(ts[i].op, l, r))
  {
    i := MainOp(ts);
    r := Parse(ts[i + 1..]).value;
    l := if ts[i].Deref? then r else Parse(ts[..i]).value;
  }

  /** The tree that is evaluated accounts for every token if and only if the parentheses balance and
      every dereference stands where an operand starts. */
  lemma TokensKept(ts: seq<Token>)
    requires Parse(ts).Some?
    ensures Print(Parse(ts).value) == ts <==> Balanced(ts) && DerefsStart(ts)
  {
    var e := Parse(ts).value;
    if Balanced(ts) && DerefsStart(ts) {
      ReadKeepsTokens(ts);
    }
    if Print(e) == ts {
      PrintBalanced(e, 0);
      ReadBack(e);
      PrintedDerefsStart(e);
    }
  }

  /** For what the tokeniser delivers, balance alone decides; then reading is the inverse of printing. */
  lemma ReadIsInverse(ls: seq<Lexeme>, e: Ast)
    requires forall i :: 0 <= i < |ls| && ls[i].Plain? ==> !ls[i].t.Deref?
    requires Balanced(Classify(ls, None))
    ensures var ts := Classify(ls, None);
      Parse(ts) == Some(e) <==> Print(e) == ts && WellParenthesised(e)
  {
    var ts := Classify(ls, None);
    ClassifiedDerefsStart(ls, None);
    if Parse(ts) == Some(e) {
      TokensKept(ts);
      ReadBack(e);
    }
    if Print(e) == ts && WellParenthesised(e) {
      ReadBack(e);
    }
  }

  /** Unbalanced input can lose tokens: `1)(*5` evaluates like `*5`. */
  lemma UnbalancedLosesTokens(ctx: Context)
    ensures var ts := [Num(1), RParen, LParen, Deref, Num(5)];
      Classify(Lexemes(ts), None) == ts && Parse(ts) == Some(Star(Lit(5))) && Eval(ts, ctx) == Ok(ctx.mem(5) % W)
  {
    var ts := [Num(1), RParen, LParen, Deref, Num(5)];
    UnbalancedMain(ts);
    assert ts[4..] == [Num(5)];
    EvalFollowsParse(ts, ctx);
    UnbalancedReads();
    ReadsAll(ts, None, Num(5));
  }

  lemma UnbalancedMain(ts: seq<Token>)
    requires ts == [Num(1), RParen, LParen, Deref, Num(5)]
    ensures MainOp(ts) == 3
  {
    assert Depth(ts, 1) == 0;
    assert Depth(ts, 2) == -1;
    assert Depth(ts, 3) == 0;
    MainOpIsWeakest(ts, 3);
  }

  lemma UnbalancedReads()
    ensures Reads([Num(1), RParen, LParen, Deref, Num(5)], None, Num(5))
  {
    ReadsOne(Num(1), None);
    ReadsOne(RParen, Some(Num(1)));
    ReadsBoth([Num(1)], [RParen], None, Num(1), RParen);
    ReadsOne(LParen, Some(RParen));
    ReadsBoth([Num(1)] + [RParen], [LParen], None, RParen, LParen);
    ReadsOne(Deref, Some(LParen));
    ReadsBoth([Num(1)] + [RParen] + [LParen], [Deref], None, LParen, Deref);
    ReadsOne(Num(5), Some(Deref));
    ReadsBoth([Num(1)] + [RParen] + [LParen] + [Deref], [Num(5)], None, Deref, Num(5));
    assert [Num(1)] + [RParen] + [LParen] + [Deref] + [Num(5)] == [Num(1), RParen, LParen, Deref, Num(5)];
  }

  // ----- where the search for a main operator gives up -----

  predicate StartsOperand(t: Token) {
    t.Num? || t.Reg? || t.LParen? || t.Deref?
  }

  predicate EndsOperand(t: Token) {
    t.Num? || t.Reg? || t.RParen?
  }

  /** Two operands with no operator between them. */
  ghost predicate Juxtaposed(ts: seq<Token>) {
    exists i :: 0 < i < |ts| && JuxtaposedAt(ts, i)
  }

  predicate JuxtaposedAt(ts: seq<Token>, i: nat)
    requires 0 < i < |ts|
  {
    EndsOperand(ts[i - 1]) && StartsOperand(ts[i])
  }

  lemma JuxtaposedPart(ts: seq<Token>, i: nat, j: nat)
    requires i <= j <= |ts| && Juxtaposed(ts[i..j])
    ensures Juxtaposed(ts)
  {
    var k :| 0 < k < |ts[i..j]| && JuxtaposedAt(ts[i..j], k);
    assert JuxtaposedAt(ts, i + k);
  }

  /** Outside parentheses only operators and the tokens that start operands can stand. */
  lemma StartsAt(ts: seq<Token>, i: nat)
    requires Balanced(ts) && i < |ts| && Depth(ts, i) == 0 && !Candidate(ts, i)
    ensures StartsOperand(ts[i])
  {
    BalancedDepth(ts, i + 1);
  }

  lemma FirstReturn(ts: seq<Token>) returns (m: nat)
    requires Balanced(ts) && ts != []
    ensures 0 < m <= |ts| && Depth(ts, m) == 0 && forall i :: 0 < i < m ==> Depth(ts, i) > 0
  {
    assert ts[..|ts|] == ts;
    NestingDepth(ts, |ts|);
    m := 1;
    while Depth(ts, m) != 0
      invariant 0 < m <= |ts| && forall i :: 0 < i < m ==> Depth(ts, i) > 0
      decreases |ts| - m
    {
      BalancedDepth(ts, m);
      m := m + 1;
    }
  }

  lemma {:induction false} InnerNesting(ts: seq<Token>, i: nat)
    requires 0 < i < |ts| && ts[0].LParen? && forall k :: 0 < k <= i ==> Depth(ts, k) > 0
    ensures Nesting(ts[1..i], 0) == Some(Depth(ts, i) - 1)
    decreases i
  {
    if i == 1 {
      assert ts[1..1] == [];
      assert Depth(ts, 1) == Depth(ts, 0) + 1;
    } else {
      InnerNesting(ts, i - 1);
      assert ts[1..i] == ts[1..i - 1] + [ts[i - 1]];
      NestingConcat(ts[1..i - 1], [ts[i - 1]], 0);
      assert [ts[i - 1]][1..] == [];
    }
  }

  /** A range that is neither one token nor enclosed, and has no operator outside parentheses. */
  lemma StuckJuxtaposed(ts: seq<Token>)
    requires Balanced(ts) && |ts| >= 2 && !Enclosed(ts) && MainOp(ts) == -1
    ensures Juxtaposed(ts)
  {
    MainOpIsWeakest(ts, -1);
    var m := FirstReturn(ts);
    StartsAt(ts, 0);
    assert Depth(ts, 1) == Depth(ts, 0) + if ts[0].LParen? then 1 else if ts[0].RParen? then -1 else 0;
    if m == |ts| {
      InnerNesting(ts, |ts| - 1);
    } else {
      StartsAt(ts, m);
      assert JuxtaposedAt(ts, m);
    }
  }

  /** The assertion in the search fails only for input in which two operands are juxtaposed. */
  lemma {:induction false} AbortedJuxtaposed(ts: seq<Token>, ctx: Context)
    requires Clean(ts) && Eval(ts, ctx) == Aborted
    ensures Juxtaposed(ts)
    decreases |ts|
  {
    if Enclosed(ts) {
      CleanInside(ts);
      AbortedJuxtaposed(ts[1..|ts| - 1], ctx);
      JuxtaposedPart(ts, 1, |ts| - 1);
    } else {
      var i := MainOp(ts);
      if i == -1 {
        StuckJuxtaposed(ts);
      } else {
        CleanSplit(ts, i);
        if Eval(ts[i + 1..], ctx) == Aborted {
          AbortedJuxtaposed(ts[i + 1..], ctx);
          assert ts[i + 1..|ts|] == ts[i + 1..];
          JuxtaposedPart(ts, i + 1, |ts|);
        } else {
          AbortedJuxtaposed(ts[..i], ctx);
          assert ts[0..i] == ts[..i];
          JuxtaposedPart(ts, 0, i);
        }
      }
    }
  }

  ghost predicate Apart(ts: seq<Token>) {
    ts != [] && StartsOperand(ts[0]) && EndsOperand(ts[|ts| - 1]) && !Juxtaposed(ts)
  }

  lemma JuxtaposedConcat(a: seq<Token>, b: seq<Token>)
    requires a != [] && b != [] && !Juxtaposed(a) && !Juxtaposed(b)
    requires !(EndsOperand(a[|a| - 1]) && StartsOperand(b[0]))
    ensures !Juxtaposed(a + b)
  {
    forall i | 0 < i < |a + b| ensures !JuxtaposedAt(a + b, i) {
      if i < |a| {
        assert !JuxtaposedAt(a, i);
      } else if i > |a| {
        assert !JuxtaposedAt(b, i - |a|);
      }
    }
  }

  lemma {:induction false} PrintedApart(e: Ast)
    ensures Apart(Print(e))
    decreases e
  {
    match e
    case Lit(_) =>
    case Register(_) =>
    case Paren(x) =>
      PrintedApart(x);
      JuxtaposedConcat([LParen], Print(x));
      JuxtaposedConcat([LParen] + Print(x), [RParen]);
    case Star(x) =>
      PrintedApart(x);
      JuxtaposedConcat([Deref], Print(x));
    case Bin(op, l, r) =>
      PrintedApart(l);
      PrintedApart(r);
      JuxtaposedConcat(Print(l), [Op(op)]);
      JuxtaposedConcat(Print(l) + [Op(op)], Print(r));
  }

  /** Such input has no value. */
  lemma JuxtaposedNotOk(ts: seq<Token>, ctx: Context)
    requires Clean(ts) && Juxtaposed(ts)
    ensures !Eval(ts, ctx).Ok?
  {
    EvalFollowsParse(ts, ctx);
    if Parse(ts).Some? {
      TokensKept(ts);
      PrintedApart(Parse(ts).value);
    }
  }

  /** An operator or opening parenthesis is followed by an operand, an operator or closing one preceded by it. */
  predicate MayFollow(t: Token, u: Token) {
    EndsOperand(t) || StartsOperand(u)
  }

  /** Every operator and every pair of parentheses has its operands. */
  ghost predicate Supplied(ts: seq<Token>) {
    && ts != [] && StartsOperand(ts[0]) && EndsOperand(ts[|ts| - 1])
    && forall i :: 0 < i < |ts| ==> MayFollow(ts[i - 1], ts[i])
  }

  /** Every register is known, and nothing is divided. */
  ghost predicate Safe(ts: seq<Token>, ctx: Context) {
    forall i :: 0 <= i < |ts| ==> ts[i] != Op(Div) && (ts[i].Reg? ==> ctx.reg(ts[i].name).Some?)
  }

  lemma SuppliedInside(ts: seq<Token>)
    requires Supplied(ts) && Enclosed(ts)
    ensures Supplied(ts[1..|ts| - 1])
  {
    var inner := ts[1..|ts| - 1];
    assert MayFollow(ts[0], ts[1]);
    assert MayFollow(ts[|ts| - 2], ts[|ts| - 1]);
    forall i | 0 < i < |inner| ensures MayFollow(inner[i - 1], inner[i]) {
      assert inner[i] == ts[i + 1] && inner[i - 1] == ts[i];
    }
  }

  lemma SuppliedSplit(ts: seq<Token>, i: nat)
    requires Supplied(ts) && i < |ts| && IsOperator(ts[i])
    ensures Supplied(ts[i + 1..]) && (ts[i].Op? ==> Supplied(ts[..i]))
  {
    var right := ts[i + 1..];
    assert i < |ts| - 1;
    assert MayFollow(ts[i], ts[i + 1]);
    forall k | 0 < k < |right| ensures MayFollow(right[k - 1], right[k]) {
      assert right[k] == ts[i + 1 + k] && right[k - 1] == ts[i + k];
    }
    if ts[i].Op? {
      assert i > 0;
      assert MayFollow(ts[i - 1], ts[i]);
    }
  }

  /** Nothing but a juxtaposition can go wrong. */
  ghost predicate Ready(ts: seq<Token>, ctx: Context) {
    Clean(ts) && Supplied(ts) && Safe(ts, ctx)
  }

  lemma ReadyInside(ts: seq<Token>, ctx: Context)
    requires Ready(ts, ctx) && Enclosed(ts)
    ensures Ready(ts[1..|ts| - 1], ctx)
  {
    CleanInside(ts);
    SuppliedInside(ts);
  }

  lemma SafeSplit(ts: seq<Token>, ctx: Context, i: nat)
    requires Safe(ts, ctx) && i < |ts|
    ensures Safe(ts[..i], ctx) && Safe(ts[i + 1..], ctx) && ts[i] != Op(Div)
  {
  }

  lemma ReadySplit(ts: seq<Token>, ctx: Context, i: nat)
    requires Ready(ts, ctx) && MainOp(ts) == i
    ensures Ready(ts[i + 1..], ctx) && (ts[i].Op? ==> Ready(ts[..i], ctx) && ts[i].op != Div)
  {
    CleanSplit(ts, i);
    SuppliedSplit(ts, i);
    SafeSplit(ts, ctx, i);
  }

  lemma {:induction false} NeverFails(ts: seq<Token>, ctx: Context)
    requires Ready(ts, ctx)
    ensures Eval(ts, ctx) != Failed
    decreases |ts|
  {
    if |ts| >= 2 {
      if Enclosed(ts) {
        ReadyInside(ts, ctx);
        NeverFails(ts[1..|ts| - 1], ctx);
      } else {
        var i := MainOp(ts);
        if i != -1 {
          ReadySplit(ts, ctx, i);
          NeverFails(ts[i + 1..], ctx);
          if ts[i].Op? {
            NeverFails(ts[..i], ctx);
          }
        }
      }
    }
  }

  /** On balanced input in which nothing else can go wrong, evaluation aborts if and only if two operands are
      juxtaposed, and yields a value otherwise. */
  lemma AbortsExactly(ts: seq<Token>, ctx: Context)
    requires Ready(ts, ctx)
    ensures Eval(ts, ctx) == Aborted <==> Juxtaposed(ts)
    ensures Eval(ts, ctx).Ok? <==> !Juxtaposed(ts)
  {
    NeverFails(ts, ctx);
    if Eval(ts, ctx) == Aborted {
      AbortedJuxtaposed(ts, ctx);
    }
    if Juxtaposed(ts) {
      JuxtaposedNotOk(ts, ctx);
    }
  }

  /** A dereference directly under a dereference is not supported: its asterisk is taken for a
      multiplication without a left operand, and evaluation fails whatever is dereferenced. */
  lemma ChainedDereferenceFails(x: Ast, ctx: Context)
    requires WellParenthesised(x) && Binding(x) > 15
    ensures Eval(Classify(Lexemes(Print(Star(Star(x)))), None), ctx) == Failed
  {
    var ts := [Deref, Op(Mul)] + Print(x);
    assert Lexemes(Print(Star(Star(x)))) == Lexemes(ts);
    assert Reads(ts, None, LastToken(x)) by {
      ReadsOne(Deref, None);
      ReadsOne(Op(Mul), Some(Deref));
      ReadsBoth([Deref], [Op(Mul)], None, Deref, Op(Mul));
      ClassifyPrinted(x, Some(Op(Mul)));
      ReadsBoth([Deref] + [Op(Mul)], Print(x), None, Op(Mul), LastToken(x));
      assert [Deref] + [Op(Mul)] == [Deref, Op(Mul)];
    }
    ReadsAll(ts, None, LastToken(x));
    EvalStarTimes(x, ctx);
  }

  lemma EvalStarTimes(x: Ast, ctx: Context)
    requires WellParenthesised(x) && Binding(x) > 15
    ensures Eval([Deref, Op(Mul)] + Print(x), ctx) == Failed
  {
    var ts := [Deref, Op(Mul)] + Print(x);
    PrintNonEmpty(x);
    assert MainOp(ts) == 1 by {
      SearchConcat([Deref, Op(Mul)], Print(x), 0, START);
      assert [Deref, Op(Mul)][1..] == [Op(Mul)] && [Op(Mul)][1..] == [];
      SearchPrinted(x, 2, Search(0, 1, 13));
    }
    assert ts[..1] == [Deref] && ts[1] == Op(Mul);
    assert Eval([Deref], ctx) == Failed;
    assert EvalSplit(ts, ctx) == Combine(Mul, Eval(ts[..1], ctx), Eval(ts[2..], ctx));
  }
}
