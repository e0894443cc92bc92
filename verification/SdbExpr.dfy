/**
  The expression evaluator of the debugger: it looks for a surrounding pair of parentheses or
  for the operator that binds weakest, and recurses on token ranges.
  */
module SdbExpr {
  import opened Options
  import opened Words

  datatype BinOp = Add | Sub | Mul | Div | Eq | Neq | LogAnd

  /** Number tokens carry the value that atoi or sscanf reads from their text. */
  datatype Token = Num(value: nat) | Reg(name: string) | LParen | RParen | Op(op: BinOp) | Deref

  datatype Outcome = Ok(value: nat) | Failed | Aborted

  /** Register lookup and memory are supplied by the caller. */
  datatype Context = Context(reg: string -> Option<nat>, mem: nat -> nat)

  function Priority(op: BinOp): nat {
    match op
    case Mul => 13
    case Div => 13
    case Add => 12
    case Sub => 12
    case Eq => 9
    case Neq => 9
    case LogAnd => 5
  }

  predicate IsOperator(t: Token) {
    t.Op? || t.Deref?
  }

  function OpPriority(t: Token): nat
    requires IsOperator(t)
  {
    if t.Deref? then 15 else Priority(t.op)
  }

  // ----- check_parentheses -----

  /** Nesting depth after reading `ts` from depth `cnt`; None if a `)` has no partner. */
  function Nesting(ts: seq<Token>, cnt: nat): Option<nat> {
    if ts == [] then Some(cnt)
    else if ts[0].LParen? then Nesting(ts[1..], cnt + 1)
    else if ts[0].RParen? then if cnt == 0 then None else Nesting(ts[1..], cnt - 1)
    else Nesting(ts[1..], cnt)
  }

  /** The first and the last token are a matching pair of parentheses. */
  predicate Enclosed(ts: seq<Token>) {
    |ts| >= 2 && ts[0].LParen? && ts[|ts| - 1].RParen? && Nesting(ts[1..|ts| - 1], 0) == Some(0)
  }

  lemma SubRange<T>(s: seq<T>, a: nat, b: nat, i: nat, j: nat)
    requires a <= b <= |s| && i <= j <= b - a
    ensures s[a..b][i..j] == s[a + i..a + j]
  {
    var x, y := s[a..b][i..j], s[a + i..a + j];
    assert |x| == |y|;
    forall k | 0 <= k < |x| ensures x[k] == y[k] {
      assert x[k] == s[a..b][i + k] == s[a + i + k];
    }
  }

  method CheckParentheses(tokens: seq<Token>, p: nat, q: nat) returns (r: bool)
    requires p < q < |tokens|
    ensures r == Enclosed(tokens[p..q + 1])
  {
    var ts := tokens[p..q + 1];
    if tokens[p] != LParen || tokens[q] != RParen {
      return false;
    }
    var cnt: nat := 0;
    var i := p + 1;
    ghost var inner := ts[1..|ts| - 1];
    SubRange(tokens, p, q + 1, 1, q - p);
    while i <= q - 1
      invariant p + 1 <= i <= q
      invariant Nesting(tokens[i..q], cnt) == Nesting(inner, 0)
    {
      assert tokens[i..q][1..] == tokens[i + 1..q];
      if tokens[i].LParen? {
        cnt := cnt + 1;
      } else if tokens[i].RParen? {
        if cnt == 0 {
          return false;
        }
        cnt := cnt - 1;
      }
      i := i + 1;
    }
    r := cnt == 0;
  }

  // ----- find_main_op -----

  /** Loop state of find_main_op: parenthesis depth, best position so far (-1 for none), its priority. */
  datatype Search = Search(cnt: int, best: int, min: nat)

  const START := Search(0, -1, 0x114514)

  function SearchStep(t: Token, i: nat, s: Search): Search {
    if t.LParen? then s.(cnt := s.cnt + 1)
    else if t.RParen? then s.(cnt := s.cnt - 1)
    else if s.cnt == 0 && IsOperator(t) && OpPriority(t) <= s.min then s.(best := i, min := OpPriority(t))
    else s
  }

  function SearchAll(ts: seq<Token>, i: nat, s: Search): Search {
    if ts == [] then s else SearchAll(ts[1..], i + 1, SearchStep(ts[0], i, s))
  }

  /** Position of the main operator relative to the start of `ts`. */
  function MainOp(ts: seq<Token>): (i: int)
    ensures i == -1 || (0 <= i < |ts| && IsOperator(ts[i]))
  {
    SearchInRange(ts, 0, START, ts);
    SearchAll(ts, 0, START).best
  }

  lemma {:induction false} SearchInRange(ts: seq<Token>, i: nat, s: Search, all: seq<Token>)
    requires i <= |all| && all[i..] == ts && (s.best == -1 || (0 <= s.best < |all| && IsOperator(all[s.best])))
    ensures var b := SearchAll(ts, i, s).best; b == -1 || (0 <= b < |all| && IsOperator(all[b]))
    decreases |ts|
  {
    if ts != [] {
      assert ts[0] == all[i];
      SearchInRange(ts[1..], i + 1, SearchStep(ts[0], i, s), all);
    }
  }

  /** Parenthesis depth before token i; negative where closing parentheses are ahead. */
  function Depth(ts: seq<Token>, i: nat): int
    requires i <= |ts|
  {
    if i == 0 then 0
    else Depth(ts, i - 1) + if ts[i - 1].LParen? then 1 else if ts[i - 1].RParen? then -1 else 0
  }

  /** An operator outside all parentheses. */
  predicate Candidate(ts: seq<Token>, i: nat) {
    i < |ts| && IsOperator(ts[i]) && Depth(ts, i) == 0
  }

  /** Among the first n tokens, m is the last of the candidates that bind weakest; -1 if there is none. */
  ghost predicate Weakest(ts: seq<Token>, n: nat, m: int) {
    if m == -1 then forall i :: 0 <= i < n ==> !Candidate(ts, i)
    else
      0 <= m < n && Candidate(ts, m) &&
      forall i :: 0 <= i < n && Candidate(ts, i) ==>
        OpPriority(ts[m]) <= OpPriority(ts[i]) && (i > m ==> OpPriority(ts[m]) < OpPriority(ts[i]))
  }

  /** The search has seen the first n tokens. */
  ghost predicate Seen(ts: seq<Token>, n: nat, s: Search)
    requires n <= |ts|
  {
    s.cnt == Depth(ts, n) && Weakest(ts, n, s.best) &&
    s.min == if s.best == -1 then START.min else OpPriority(ts[s.best])
  }

  lemma SeenStep(ts: seq<Token>, n: nat, s: Search)
    requires n < |ts| && Seen(ts, n, s)
    ensures Seen(ts, n + 1, SearchStep(ts[n], n, s))
  {
  }

  lemma {:induction false} SeenAll(ts: seq<Token>, n: nat, s: Search)
    requires n <= |ts| && Seen(ts, n, s)
    ensures Seen(ts, |ts|, SearchAll(ts[n..], n, s))
    decreases |ts| - n
  {
    if n < |ts| {
      SeenStep(ts, n, s);
      SeenAll(ts, n + 1, SearchStep(ts[n], n, s));
      assert ts[n..][1..] == ts[n + 1..];
    }
  }

  lemma WeakestUnique(ts: seq<Token>, m: int, k: int)
    requires Weakest(ts, |ts|, m) && Weakest(ts, |ts|, k)
    ensures m == k
  {
  }

  /** On every token range the search finds the weakest operator outside parentheses, the last one if
      several bind equally weakly, and reports -1 if and only if there is none. */
  lemma MainOpIsWeakest(ts: seq<Token>, m: int)
    ensures MainOp(ts) == m <==> Weakest(ts, |ts|, m)
  {
    SeenAll(ts, 0, START);
    assert ts[0..] == ts;
    if Weakest(ts, |ts|, m) {
      WeakestUnique(ts, m, MainOp(ts));
    }
  }

  /** The shift of positions by the start of the range. */
  lemma {:induction false} SearchShift(ts: seq<Token>, i: nat, s: Search, p: nat)
    requires s.best >= -1
    ensures var a, b := SearchAll(ts, i, s), SearchAll(ts, i + p, s.(best := if s.best == -1 then -1 else s.best + p));
            a.best >= -1 && b == a.(best := if a.best == -1 then -1 else a.best + p)
    decreases |ts|
  {
    if ts != [] {
      SearchShift(ts[1..], i + 1, SearchStep(ts[0], i, s), p);
    }
  }

  /** The assertion in the code fails exactly when the result here is -1. */
  method FindMainOp(tokens: seq<Token>, p: nat, q: nat) returns (r: int)
    requires p <= q < |tokens|
    ensures var m := MainOp(tokens[p..q + 1]); r == if m == -1 then -1 else p + m
    ensures Weakest(tokens[p..q + 1], q + 1 - p, if r == -1 then -1 else r - p)
  {
    var s := START;
    var i := p;
    ghost var ts := tokens[p..q + 1];
    while i <= q
      invariant p <= i <= q + 1
      invariant SearchAll(tokens[i..q + 1], i, s) == SearchAll(ts, p, START)
    {
      assert tokens[i..q + 1][1..] == tokens[i + 1..q + 1];
      s := SearchStep(tokens[i], i, s);
      i := i + 1;
    }
    SearchShift(ts, 0, START, p);
    MainOpIsWeakest(ts, MainOp(ts));
    r := s.best;
  }

  // ----- _eval_sub -----

  /** 32-bit arithmetic of the operators; a zero divisor is handled by the caller. */
  function Arith(op: BinOp, a: nat, b: nat): nat {
    match op
    case Add => (a + b) % W
    case Sub => (a - b) % W
    case Mul => (a * b) % W
    case Div => if b == 0 then 0 else a / b
    case Eq => if a == b then 1 else 0
    case Neq => if a != b then 1 else 0
    case LogAnd => if a != 0 && b != 0 then 1 else 0
  }

  /** What the operators are, on 32-bit words: sum, difference and product modulo 2^32, the quotient
      rounded down, and 1 or 0 for the tests. */
  lemma ArithIs(a: Word, b: Word)
    ensures Arith(Add, a, b) < W && (Arith(Add, a, b) == a + b || Arith(Add, a, b) == a + b - W)
    ensures Arith(Sub, a, b) < W && (Arith(Sub, a, b) + b == a || Arith(Sub, a, b) + b == a + W)
    ensures Arith(Mul, a, b) < W && exists k: nat :: Arith(Mul, a, b) + k * W == a * b
    ensures b > 0 ==> Arith(Div, a, b) * b <= a < Arith(Div, a, b) * b + b
    ensures Arith(Eq, a, b) == (if a == b then 1 else 0) && Arith(Neq, a, b) == 1 - Arith(Eq, a, b)
    ensures Arith(LogAnd, a, b) == if a == 0 || b == 0 then 0 else 1
  {
    assert Arith(Mul, a, b) + (a * b / W) * W == a * b;
    if b > 0 {
      assert a == a / b * b + a % b;
    }
  }

  function Apply(op: BinOp, a: nat, b: nat): Outcome {
    if op.Div? && b == 0 then Failed else Ok(Arith(op, a, b))
  }

  /** A failing operand fails the whole operation; the left one is reported first. */
  function Combine(op: BinOp, left: Outcome, right: Outcome): Outcome {
    if !left.Ok? then left
    else if !right.Ok? then right
    else Apply(op, left.value, right.value)
  }

  function Load(address: Outcome, ctx: Context): Outcome {
    if address.Ok? then Ok(ctx.mem(address.value) % W) else address
  }

  /** What evaluating the token range `ts` yields. */
  function Eval(ts: seq<Token>, ctx: Context): Outcome
    decreases |ts|, 1
  {
    if ts == [] then Failed
    else if |ts| == 1 then
      match ts[0]
      case Num(v) => Ok(v % W)
      case Reg(name) => if ctx.reg(name).Some? then Ok(ctx.reg(name).value % W) else Failed
      case _ => Failed
    else if Enclosed(ts) then Eval(ts[1..|ts| - 1], ctx)
    else EvalSplit(ts, ctx)
  }

  /** The range is split at its main operator; what stands before a dereference is ignored. */
  function EvalSplit(ts: seq<Token>, ctx: Context): Outcome
    requires ts != []
    decreases |ts|, 0
  {
    var i := MainOp(ts);
    if i == -1 then Aborted
    else if ts[i].Deref? then Load(Eval(ts[i + 1..], ctx), ctx)
    else Combine(ts[i].op, Eval(ts[..i], ctx), Eval(ts[i + 1..], ctx))
  }

  method EvalSub(tokens: seq<Token>, p: nat, q: int, ctx: Context) returns (r: Outcome)
    requires p <= q + 1 <= |tokens|
    ensures r == Eval(tokens[p..q + 1], ctx)
    decreases q + 1 - p, 1
  {
    ghost var ts := tokens[p..q + 1];
    if p > q {
      return Failed;
    }
    if p == q {
      match tokens[p]
      case Num(v) => return Ok(v % W);
      case Reg(name) =>
        var v := ctx.reg(name);
        return if v.Some? then Ok(v.value % W) else Failed;
      case _ => return Failed;
    }
    var enclosed := CheckParentheses(tokens, p, q);
    if enclosed {
      SubRange(tokens, p, q + 1, 1, q - p);
      r := EvalSub(tokens, p + 1, q - 1, ctx);
      return;
    }
    r := EvalOperator(tokens, p, q, ctx);
  }

  /** The case of _eval_sub that splits the range at its main operator. */
  method EvalOperator(tokens: seq<Token>, p: nat, q: nat, ctx: Context) returns (r: Outcome)
    requires p < q < |tokens|
    ensures r == EvalSplit(tokens[p..q + 1], ctx)
    decreases q + 1 - p, 0, 1
  {
    ghost var ts := tokens[p..q + 1];
    var op := FindMainOp(tokens, p, q);
    if op == -1 {
      return Aborted;
    }
    SplitRange(tokens, p, q, op - p);
    if tokens[op].Deref? {
      r := EvalSub(tokens, op + 1, q, ctx);
      r := Load(r, ctx);
    } else {
      r := EvalBinary(tokens, p, op, q, ctx);
    }
  }

  method EvalBinary(tokens: seq<Token>, p: nat, op: nat, q: nat, ctx: Context) returns (r: Outcome)
    requires p <= op <= q < |tokens| && tokens[op].Op?
    ensures r == Combine(tokens[op].op, Eval(tokens[p..op], ctx), Eval(tokens[op + 1..q + 1], ctx))
    decreases q + 1 - p, 0, 0
  {
    r := EvalSub(tokens, p, op - 1, ctx);
    if r.Ok? {
      var left := r;
      r := EvalSub(tokens, op + 1, q, ctx);
      r := Combine(tokens[op].op, left, r);
    }
  }

  lemma SplitRange(tokens: seq<Token>, p: nat, q: nat, i: nat)
    requires p <= p + i <= q < |tokens|
    ensures var ts := tokens[p..q + 1];
      ts[..i] == tokens[p..p + i] && ts[i] == tokens[p + i] && ts[i + 1..] == tokens[p + i + 1..q + 1]
  {
    SubRange(tokens, p, q + 1, 0, i);
    SubRange(tokens, p, q + 1, i + 1, q + 1 - p);
  }
}
