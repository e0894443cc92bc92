/**
  The linked list of the CoreMark benchmark: the iterative in-place mergesort, list reversal,
  and removing an item and putting it back.
  */
module CoreList {
  import opened MergeSpec
  import opened ListCompare

  /** The nodes of `s` are linked in this order; the last one is not constrained. */
  ghost predicate Linked(s: seq<ListHead>)
    reads s`next
  {
    forall i {:trigger s[i].next} :: 0 <= i < |s| - 1 ==> s[i].next == s[i + 1]
  }

  function Nth(s: seq<ListHead>, i: nat): ListHead? {
    if i < |s| then s[i] else null
  }

  /** `s` is the whole NULL-terminated list from its head. */
  ghost predicate IsList(head: ListHead?, s: seq<ListHead>)
    reads s`next
  {
    head == Nth(s, 0) && Distinct(s) &&
    (forall i {:trigger s[i].next} :: 0 <= i < |s| ==> s[i].next == Nth(s, i + 1))
  }

  /** The order on nodes is the comparison of their items. */
  ghost predicate Agrees(nodeLe: NodeOrder, book: Book) {
    forall x, y :: x in book.info && y in book.info ==> nodeLe(x, y) == book.le(book.info[x], book.info[y])
  }

  /** More nodes have been compared. */
  ghost predicate Grown(calls0: seq<ListHead>, calls: seq<ListHead>) {
    calls0 <= calls && forall n :: n in calls0 ==> n in calls
  }

  /** All items, except perhaps the last one, have been compared. */
  ghost predicate Settled(book: Book, calls: seq<ListHead>) {
    |calls| + 1 >= |book.order|
  }

  lemma SettledCallable(book: Book, cmp: Comparator, calls: seq<ListHead>, a: ListHead, b: ListHead)
    requires Distinct(book.order) && calls <= book.order && Settled(book, calls)
    requires a in book.order && b in book.order
    ensures Callable(book, cmp, calls, a, b)
  {
    SettledNext(book, calls, a);
    SettledNext(book, Touch(calls, a), b);
  }

  lemma SettledNext(book: Book, calls: seq<ListHead>, n: ListHead)
    requires calls <= book.order && Settled(book, calls) && n in book.order
    ensures Touch(calls, n) <= book.order && Settled(book, Touch(calls, n))
  {
    if n !in calls {
      var k :| 0 <= k < |book.order| && book.order[k] == n;
      assert k >= |calls|;
    }
  }

  ghost function Last(s: seq<ListHead>): ListHead? {
    if s == [] then null else s[|s| - 1]
  }

  /** `done` is the merged list so far; the nodes of `cur` from `pi` to `mid` and from `qi` on
      are not in it and still have their old links. */
  ghost predicate Merging(cur: seq<ListHead>, done: seq<ListHead>, pi: nat, mid: nat, qi: nat)
    requires mid <= |cur|
    reads cur`next, done`next
  {
    && (forall i {:trigger cur[i].next} :: pi <= i < mid || qi <= i < |cur| ==> cur[i].next == Nth(cur, i + 1))
    && (forall i :: pi <= i < mid || qi <= i < |cur| ==> cur[i] !in done)
    && (done != [] ==> done[|done| - 1] in cur)
    && Distinct(done) && Linked(done)
  }

  /** Take `e` from the front of the first or the second run and link it to the merged list. */
  method Append(list0: ListHead?, tail0: ListHead?, e: ListHead,
                ghost cur: seq<ListHead>, ghost done: seq<ListHead>, ghost pi: nat, ghost mid: nat, ghost qi: nat,
                ghost fromP: bool)
    returns (list: ListHead?, tail: ListHead)
    requires pi <= mid <= qi <= |cur| && Distinct(cur) && Merging(cur, done, pi, mid, qi)
    requires if fromP then pi < mid && e == cur[pi] else qi < |cur| && e == cur[qi]
    requires list0 == Nth(done, 0) && tail0 == Last(done)
    modifies (if tail0 == null then {} else {tail0})`next
    ensures Merging(cur, done + [e], if fromP then pi + 1 else pi, mid, if fromP then qi else qi + 1)
    ensures list == Nth(done + [e], 0) && tail == Last(done + [e])
  {
    list := list0;
    if tail0 != null {
      tail0.next := e;
    } else {
      list := e;
    }
    tail := e;
  }

  /** Merging the rests `cur[pi..mid]` and `cur[qi..hi]` after `done` gives `goal`. */
  ghost predicate Owed(le: NodeOrder, cur: seq<ListHead>, done: seq<ListHead>,
                       pi: nat, mid: nat, qi: nat, hi: nat, goal: seq<ListHead>)
  {
    pi <= mid <= qi <= hi <= |cur| && goal == done + Merge(le, cur[pi..mid], cur[qi..hi])
  }

  /** One step of the merge on sequences. */
  lemma EmitOne(le: NodeOrder, cur: seq<ListHead>, done: seq<ListHead>,
                pi: nat, mid: nat, qi: nat, hi: nat, goal: seq<ListHead>, fromP: bool)
    requires Owed(le, cur, done, pi, mid, qi, hi, goal)
    requires if fromP then pi < mid && (qi == hi || le(cur[pi], cur[qi]))
             else qi < hi && (pi == mid || !le(cur[pi], cur[qi]))
    ensures fromP ==> Owed(le, cur, done + [cur[pi]], pi + 1, mid, qi, hi, goal)
    ensures !fromP ==> Owed(le, cur, done + [cur[qi]], pi, mid, qi + 1, hi, goal)
  {
    var a, b := cur[pi..mid], cur[qi..hi];
    if pi < mid {
      assert a[1..] == cur[pi + 1..mid] && a == [cur[pi]] + a[1..];
    }
    if qi < hi {
      assert b[1..] == cur[qi + 1..hi] && b == [cur[qi]] + b[1..];
    }
  }

  lemma NothingOwed(le: NodeOrder, cur: seq<ListHead>, done: seq<ListHead>, mid: nat, hi: nat, goal: seq<ListHead>)
    requires Owed(le, cur, done, mid, mid, hi, hi, goal)
    ensures done == goal
  {
  }

  /** The local variables of the merge loop. */
  datatype Cursor = Cursor(list: ListHead?, tail: ListHead?, p: ListHead?, psize: nat, q: ListHead?, qsize: nat)

  /** The loop variables describe the merged list `done` and the unmerged rests `cur[pi..mid]` and `cur[qi..hi]`. */
  ghost predicate MergeState(c: Cursor, cur: seq<ListHead>, done: seq<ListHead>, pi: nat, mid: nat, qi: nat, hi: nat)
    requires hi <= |cur|
    reads cur`next, done`next
  {
    && pi <= mid <= qi <= hi
    && c.psize == mid - pi && c.q == Nth(cur, qi) && hi == Cap(qi + c.qsize, |cur|)
    && (c.psize > 0 ==> c.p == cur[pi])
    && c.list == Nth(done, 0) && c.tail == Last(done)
    && Merging(cur, done, pi, mid, qi)
  }

  lemma MergeExit(c: Cursor, cur: seq<ListHead>, done: seq<ListHead>, pi: nat, mid: nat, qi: nat, hi: nat)
    requires hi <= |cur| && MergeState(c, cur, done, pi, mid, qi, hi)
    requires c.psize == 0 && (c.qsize == 0 || c.q == null)
    ensures pi == mid && qi == hi
  {
  }

  /** Whether the next element of the merge comes from the first run. */
  method Choose(c: Cursor, cmp: Comparator, ghost nodeLe: NodeOrder, ghost book: Book, ghost cur: seq<ListHead>,
                ghost done: seq<ListHead>, ghost pi: nat, ghost mid: nat, ghost qi: nat, ghost hi: nat,
                ghost calls0: seq<ListHead>)
    returns (fromP: bool, ghost calls: seq<ListHead>)
    requires hi <= |cur| && MergeState(c, cur, done, pi, mid, qi, hi) && (pi < mid || qi < hi)
    requires Right(book, cmp) && Tracked(cur, book, cmp, calls0) && Agrees(nodeLe, book)
    requires pi < mid && qi < hi ==> Callable(book, cmp, calls0, cur[pi], cur[qi])
    modifies book.data.Keys`data16, cmp`res
    ensures if fromP then pi < mid && (qi == hi || nodeLe(cur[pi], cur[qi]))
            else qi < hi && (pi == mid || !nodeLe(cur[pi], cur[qi]))
    ensures Tracked(cur, book, cmp, calls)
    ensures calls == if pi < mid && qi < hi then Touch(Touch(calls0, cur[pi]), cur[qi]) else calls0
  {
    calls := calls0;
    if c.psize == 0 {
      fromP := false;
    } else if c.qsize == 0 || c.q == null {
      fromP := true;
    } else {
      assert c.p in cur && c.q in cur;
      fromP := CompareNodes(c.p, c.q, cmp, cur, book, calls);
      calls := Touch(Touch(calls, c.p), c.q);
    }
  }

  /** Move one element to the merged list. */
  method Advance(c: Cursor, fromP: bool, ghost nodeLe: NodeOrder,
                 ghost cur: seq<ListHead>, ghost done0: seq<ListHead>, ghost pi0: nat, ghost mid: nat,
                 ghost qi0: nat, ghost hi: nat, ghost goal: seq<ListHead>)
    returns (r: Cursor, ghost done: seq<ListHead>, ghost pi: nat, ghost qi: nat)
    requires hi <= |cur| && Distinct(cur) && MergeState(c, cur, done0, pi0, mid, qi0, hi)
    requires Owed(nodeLe, cur, done0, pi0, mid, qi0, hi, goal)
    requires if fromP then pi0 < mid && (qi0 == hi || nodeLe(cur[pi0], cur[qi0]))
             else qi0 < hi && (pi0 == mid || !nodeLe(cur[pi0], cur[qi0]))
    modifies (if c.tail == null then {} else {c.tail})`next
    ensures MergeState(r, cur, done, pi, mid, qi, hi) && Owed(nodeLe, cur, done, pi, mid, qi, hi, goal)
    ensures pi0 <= pi && qi0 <= qi && pi + qi == pi0 + qi0 + 1
    ensures r.psize + r.qsize < c.psize + c.qsize
  {
    EmitOne(nodeLe, cur, done0, pi0, mid, qi0, hi, goal, fromP);
    var e, p, q, psize, qsize := c.p, c.p, c.q, c.psize, c.qsize;
    if fromP {
      e := p;
      p := p.next;
      psize := psize - 1;
      done, pi, qi := done0 + [cur[pi0]], pi0 + 1, qi0;
    } else {
      e := q;
      q := q.next;
      qsize := qsize - 1;
      done, pi, qi := done0 + [cur[qi0]], pi0, qi0 + 1;
    }
    var list, tail := Append(c.list, c.tail, e, cur, done0, pi0, mid, qi0, fromP);
    r := Cursor(list, tail, p, psize, q, qsize);
  }

  /** The comparisons of a merge meet calculated items in list order: nearly all items are settled, or the
      runs are single nodes and the next ones to be compared. */
  ghost predicate InTurn(book: Book, cmp: Comparator, cur: seq<ListHead>, base: nat, mid: nat, hi: nat,
                         calls: seq<ListHead>)
    requires base < mid <= hi <= |cur|
  {
    cmp.mode.Calculate? ==>
      Settled(book, calls) ||
      (mid == base + 1 && hi <= mid + 1 && (mid < hi ==> Callable(book, cmp, calls, cur[base], cur[mid])))
  }

  /** The comparisons made once the merge has come to `pi` and `qi`. */
  ghost predicate Compared(cur: seq<ListHead>, base: nat, mid: nat, hi: nat, pi: nat, qi: nat,
                           calls0: seq<ListHead>, calls: seq<ListHead>)
    requires base < mid <= hi <= |cur|
  {
    && Grown(calls0, calls)
    && (if pi == base && qi == mid then calls == calls0
        else mid < hi ==>
               && cur[base] in calls && cur[mid] in calls
               && (mid == base + 1 && hi == mid + 1 ==> calls == Touch(Touch(calls0, cur[base]), cur[mid])))
    && (mid == hi ==> calls == calls0)
  }

  lemma MayCompare(book: Book, cmp: Comparator, cur: seq<ListHead>, base: nat, mid: nat, hi: nat, pi: nat, qi: nat,
                   calls0: seq<ListHead>, calls: seq<ListHead>)
    requires base <= pi < mid <= qi < hi <= |cur| && InTurn(book, cmp, cur, base, mid, hi, calls0)
    requires Compared(cur, base, mid, hi, pi, qi, calls0, calls)
    requires Tracked(cur, book, cmp, calls)
    ensures Callable(book, cmp, calls, cur[pi], cur[qi])
  {
    if cmp.mode.Calculate? && Settled(book, calls0) {
      SettledCallable(book, cmp, calls, cur[pi], cur[qi]);
    }
  }

  /** One more element has been moved, after a comparison if both runs had elements. */
  lemma ComparedStep(cur: seq<ListHead>, base: nat, mid: nat, hi: nat, pi0: nat, qi0: nat, pi: nat, qi: nat,
                     calls0: seq<ListHead>, calls1: seq<ListHead>, calls: seq<ListHead>)
    requires base <= pi0 <= mid <= qi0 <= hi <= |cur| && base < mid
    requires Compared(cur, base, mid, hi, pi0, qi0, calls0, calls1)
    requires calls == if pi0 < mid && qi0 < hi then Touch(Touch(calls1, cur[pi0]), cur[qi0]) else calls1
    requires pi0 <= pi && qi0 <= qi && pi + qi == pi0 + qi0 + 1
    ensures Compared(cur, base, mid, hi, pi, qi, calls0, calls)
  {
  }

  /** Merge the runs `cur[base..mid]` and `cur[mid..hi]` onto the end of `done0`. */
  method MergeTwo(c0: Cursor, cmp: Comparator, ghost nodeLe: NodeOrder, ghost book: Book, ghost cur: seq<ListHead>,
                  ghost done0: seq<ListHead>, ghost base: nat, ghost mid: nat, ghost hi: nat,
                  ghost calls0: seq<ListHead>)
    returns (c: Cursor, ghost done: seq<ListHead>, ghost calls: seq<ListHead>)
    requires Distinct(cur) && base < mid && hi <= |cur|
    requires MergeState(c0, cur, done0, base, mid, mid, hi)
    requires Right(book, cmp) && Tracked(cur, book, cmp, calls0) && Agrees(nodeLe, book)
    requires InTurn(book, cmp, cur, base, mid, hi, calls0)
    modifies cur`next, book.data.Keys`data16, cmp`res
    ensures done == done0 + Merge(nodeLe, cur[base..mid], cur[mid..hi])
    ensures MergeState(c, cur, done, mid, mid, hi, hi)
    ensures Tracked(cur, book, cmp, calls) && Compared(cur, base, mid, hi, mid, hi, calls0, calls)
  {
    ghost var pi: nat, qi: nat := base, mid;
    ghost var goal := done0 + Merge(nodeLe, cur[base..mid], cur[mid..hi]);
    c, done, calls := c0, done0, calls0;
    while c.psize > 0 || (c.qsize > 0 && c.q != null)
      invariant MergeState(c, cur, done, pi, mid, qi, hi) && base <= pi
      invariant Owed(nodeLe, cur, done, pi, mid, qi, hi, goal)
      invariant Tracked(cur, book, cmp, calls) && Compared(cur, base, mid, hi, pi, qi, calls0, calls)
      decreases c.psize + c.qsize
    {
      ghost var pi0, qi0, calls1 := pi, qi, calls;
      if pi < mid && qi < hi {
        MayCompare(book, cmp, cur, base, mid, hi, pi, qi, calls0, calls);
      }
      c, done, pi, qi, calls := MergeStep(c, cmp, nodeLe, book, cur, done, mid, hi, pi, qi, goal, calls);
      ComparedStep(cur, base, mid, hi, pi0, qi0, pi, qi, calls0, calls1, calls);
    }
    MergeExit(c, cur, done, pi, mid, qi, hi);
    NothingOwed(nodeLe, cur, done, mid, hi, goal);
  }

  /** One turn of the merge loop. */
  method MergeStep(c0: Cursor, cmp: Comparator, ghost nodeLe: NodeOrder, ghost book: Book, ghost cur: seq<ListHead>,
                   ghost done0: seq<ListHead>, ghost mid: nat, ghost hi: nat, ghost pi0: nat, ghost qi0: nat,
                   ghost goal: seq<ListHead>, ghost calls0: seq<ListHead>)
    returns (c: Cursor, ghost done: seq<ListHead>, ghost pi: nat, ghost qi: nat, ghost calls: seq<ListHead>)
    requires Distinct(cur) && hi <= |cur| && (pi0 < mid || qi0 < hi)
    requires MergeState(c0, cur, done0, pi0, mid, qi0, hi) && Owed(nodeLe, cur, done0, pi0, mid, qi0, hi, goal)
    requires Right(book, cmp) && Tracked(cur, book, cmp, calls0) && Agrees(nodeLe, book)
    requires pi0 < mid && qi0 < hi ==> Callable(book, cmp, calls0, cur[pi0], cur[qi0])
    modifies (if c0.tail == null then {} else {c0.tail})`next, book.data.Keys`data16, cmp`res
    ensures MergeState(c, cur, done, pi, mid, qi, hi) && Owed(nodeLe, cur, done, pi, mid, qi, hi, goal)
    ensures pi0 <= pi && qi0 <= qi && pi + qi == pi0 + qi0 + 1 && c.psize + c.qsize < c0.psize + c0.qsize
    ensures Tracked(cur, book, cmp, calls)
    ensures calls == if pi0 < mid && qi0 < hi then Touch(Touch(calls0, cur[pi0]), cur[qi0]) else calls0
  {
    var fromP;
    fromP, calls := Choose(c0, cmp, nodeLe, book, cur, done0, pi0, mid, qi0, hi, calls0);
    c, done, pi, qi := Advance(c0, fromP, nodeLe, cur, done0, pi0, mid, qi0, hi, goal);
  }

  /** Step `insize` places along from `p`, or to the end of the list. */
  method StepAlong(p: ListHead, insize: nat, ghost cur: seq<ListHead>, ghost base: nat)
    returns (q: ListHead?, psize: nat)
    requires base < |cur| && p == cur[base] && insize > 0
    requires forall i {:trigger cur[i].next} :: base <= i < |cur| ==> cur[i].next == Nth(cur, i + 1)
    ensures psize == Cap(insize, |cur| - base) && q == Nth(cur, base + psize)
  {
    q, psize := p, 0;
    var i := 0;
    while i < insize
      invariant 0 <= i <= insize && psize == i && base + psize < |cur| && q == cur[base + psize]
    {
      psize := psize + 1;
      assert cur[base + psize - 1].next == Nth(cur, base + psize);
      q := q.next;
      if q == null {
        break;
      }
      i := i + 1;
    }
  }

  /** Cutting `n` nodes into runs of length `k` leaves a last run of one node. */
  ghost predicate Lone(n: nat, k: nat)
    requires k > 0
  {
    if n <= k then n == 1 else Lone(n - k, k)
  }

  lemma LoneInBlock(n: nat, k: nat)
    requires k > 0 && n <= 2 * k
    ensures Lone(n, k) <==> n == 1 || n == k + 1
  {
    if n > k {
      assert Lone(n, k) == Lone(n - k, k);
    }
  }

  /** All nodes were compared, except possibly a last one that forms a run of its own. */
  ghost predicate Covered(s: seq<ListHead>, n: nat, lone: bool, calls: seq<ListHead>) {
    forall i :: 0 <= i < |s| ==> s[i] in calls || (i == n - 1 && lone)
  }

  /** `base` is the start of a block of two runs of length `k`, in a list of `n` nodes. */
  ghost predicate Aligned(n: nat, base: nat, k: nat) {
    k > 0 && base <= n && Lone(n, k) == Lone(n - base, k) && Lone(n, 2 * k) == Lone(n - base, 2 * k)
  }

  lemma NextBlock(n: nat, base: nat, k: nat)
    requires Aligned(n, base, k) && base + 2 * k <= n
    ensures Aligned(n, base + 2 * k, k) || base + 2 * k == n
  {
    if base + 2 * k < n {
      assert Lone(n - base, k) == Lone(n - base - k, k) == Lone(n - base - k - k, k);
      assert Lone(n - base, 2 * k) == Lone(n - base - 2 * k, 2 * k);
    }
  }

  /** The nodes of the block `cur[base..hi]` are covered once its two runs were merged. */
  lemma BlockCovered(le: NodeOrder, cur: seq<ListHead>, done: seq<ListHead>, k: nat,
                     base: nat, mid: nat, hi: nat, calls: seq<ListHead>)
    requires base < |cur| && |done| == base && Aligned(|cur|, base, k)
    requires mid == base + Cap(k, |cur| - base) && hi == Cap(mid + k, |cur|)
    requires k == 1 || Covered(cur, |cur|, Lone(|cur|, k), calls)
    requires mid < |cur| ==> cur[base] in calls && cur[mid] in calls
    requires Covered(done, |cur|, Lone(|cur|, 2 * k), calls)
    ensures Covered(done + Merge(le, cur[base..mid], cur[mid..hi]), |cur|, Lone(|cur|, 2 * k), calls)
    ensures |done + Merge(le, cur[base..mid], cur[mid..hi])| == hi
  {
    var m := Merge(le, cur[base..mid], cur[mid..hi]);
    MergeMembers(le, cur[base..mid], cur[mid..hi]);
    forall i | 0 <= i < |done + m| && (done + m)[i] !in calls
      ensures i == |cur| - 1 && Lone(|cur|, 2 * k)
    {
      if i >= |done| {
        var j := MergedFrom(le, cur, base, mid, hi, i - base);
        UntouchedAlone(cur, k, base, mid, hi, calls, j);
      }
    }
  }

  lemma MergedFrom(le: NodeOrder, cur: seq<ListHead>, base: nat, mid: nat, hi: nat, i: nat) returns (j: nat)
    requires base <= mid <= hi <= |cur| && i < |Merge(le, cur[base..mid], cur[mid..hi])|
    ensures base <= j < hi && cur[j] == Merge(le, cur[base..mid], cur[mid..hi])[i]
  {
    var x := Merge(le, cur[base..mid], cur[mid..hi])[i];
    MergeMembers(le, cur[base..mid], cur[mid..hi]);
    assert x in cur[base..mid] || x in cur[mid..hi];
    j :| base <= j < hi && cur[j] == x;
  }

  /** A node of the block that was not compared is a block of its own. */
  lemma UntouchedAlone(cur: seq<ListHead>, k: nat, base: nat, mid: nat, hi: nat, calls: seq<ListHead>, j: nat)
    requires base < |cur| && Aligned(|cur|, base, k)
    requires mid == base + Cap(k, |cur| - base) && hi == Cap(mid + k, |cur|)
    requires k == 1 || Covered(cur, |cur|, Lone(|cur|, k), calls)
    requires mid < |cur| ==> cur[base] in calls && cur[mid] in calls
    requires base <= j < hi && cur[j] !in calls
    ensures base == |cur| - 1 == hi - 1 && Lone(|cur|, 2 * k)
  {
    if k > 1 {
      LoneInBlock(|cur| - base, k);
    }
  }

  /** `done` is the part of the pass that belongs to `cur[..base]`. */
  ghost predicate PassedTo(le: NodeOrder, cur: seq<ListHead>, done: seq<ListHead>, base: nat, k: nat) {
    k > 0 && base <= |cur| && done + Pass(le, cur[base..], k) == Pass(le, cur, k)
  }

  lemma PassStep(le: NodeOrder, cur: seq<ListHead>, done: seq<ListHead>, base: nat, mid: nat, hi: nat, k: nat)
    requires PassedTo(le, cur, done, base, k) && base < |cur|
    requires mid == base + Cap(k, |cur| - base) && hi == Cap(mid + k, |cur|)
    ensures PassedTo(le, cur, done + Merge(le, cur[base..mid], cur[mid..hi]), hi, k)
  {
    var m := Merge(le, cur[base..mid], cur[mid..hi]);
    PassUnfold(le, cur, base, mid, hi, k);
    Associate(done, m, Pass(le, cur[hi..], k));
  }

  lemma PassUnfold(le: NodeOrder, cur: seq<ListHead>, base: nat, mid: nat, hi: nat, k: nat)
    requires k > 0 && base < |cur|
    requires mid == base + Cap(k, |cur| - base) && hi == Cap(mid + k, |cur|)
    ensures Pass(le, cur[base..], k) == Merge(le, cur[base..mid], cur[mid..hi]) + Pass(le, cur[hi..], k)
  {
    Slices(cur, base, mid, hi);
    assert mid - base == Cap(k, |cur[base..]|) && hi - base == Cap(2 * k, |cur[base..]|);
  }

  lemma Slices<T>(cur: seq<T>, base: nat, mid: nat, hi: nat)
    requires base <= mid <= hi <= |cur|
    ensures cur[base..][..mid - base] == cur[base..mid]
    ensures cur[base..][mid - base..hi - base] == cur[mid..hi]
    ensures cur[base..][hi - base..] == cur[hi..]
  {
  }

  lemma Associate<T>(a: seq<T>, b: seq<T>, c: seq<T>)
    ensures a + (b + c) == (a + b) + c
  {
  }

  /** Before the merge of a block all nodes from its first one on are unmerged. */
  lemma BlockState(c: Cursor, cur: seq<ListHead>, done: seq<ListHead>, base: nat, mid: nat, hi: nat)
    requires base <= mid <= hi <= |cur| && Merging(cur, done, base, base, base)
    requires base < |cur| && c.p == cur[base] && c.psize == mid - base && c.q == Nth(cur, mid)
    requires hi == Cap(mid + c.qsize, |cur|)
    requires c.list == Nth(done, 0) && c.tail == Last(done)
    ensures MergeState(c, cur, done, base, mid, mid, hi)
  {
  }

  /** `tail->next = NULL` */
  method Terminate(tail: ListHead, ghost cur: seq<ListHead>, ghost done: seq<ListHead>)
    requires Merging(cur, done, |cur|, |cur|, |cur|) && done != [] && tail == Last(done)
    modifies tail`next
    ensures IsList(done[0], done)
  {
    tail.next := null;
  }

  /** The part of the list before `base` is merged: what this says about the nodes alone. */
  ghost predicate PassFacts(le: NodeOrder, cur: seq<ListHead>, done: seq<ListHead>,
                            base: nat, k: nat, nmerges: nat, calls: seq<ListHead>)
  {
    && base <= |cur| && |done| == base
    && (base < |cur| ==> Aligned(|cur|, base, k))
    && (nmerges == 0 <==> base == 0) && (nmerges == 1 ==> base == Cap(2 * k, |cur|)) && (nmerges > 1 ==> |cur| > 2 * k)
    && PassedTo(le, cur, done, base, k)
    && Covered(done, |cur|, Lone(|cur|, 2 * k), calls)
  }

  /** State between two merges of a pass. */
  ghost predicate PassState(c: Cursor, le: NodeOrder, cur: seq<ListHead>, done: seq<ListHead>,
                            base: nat, k: nat, nmerges: nat, calls: seq<ListHead>)
    reads cur`next, done`next
  {
    && PassFacts(le, cur, done, base, k, nmerges, calls)
    && c.q == Nth(cur, base) && c.list == Nth(done, 0) && c.tail == Last(done)
    && Merging(cur, done, base, base, base)
  }

  lemma FactsStep(le: NodeOrder, cur: seq<ListHead>, done: seq<ListHead>,
                  base: nat, mid: nat, hi: nat, k: nat, nmerges: nat, calls0: seq<ListHead>, calls: seq<ListHead>)
    requires PassFacts(le, cur, done, base, k, nmerges, calls0) && base < |cur|
    requires mid == base + Cap(k, |cur| - base) && hi == Cap(mid + k, |cur|) && Grown(calls0, calls)
    requires k == 1 || Covered(cur, |cur|, Lone(|cur|, k), calls0)
    requires mid < |cur| ==> cur[base] in calls && cur[mid] in calls
    ensures PassFacts(le, cur, done + Merge(le, cur[base..mid], cur[mid..hi]), hi, k, nmerges + 1, calls)
  {
    PassStep(le, cur, done, base, mid, hi, k);
    if base + 2 * k <= |cur| {
      NextBlock(|cur|, base, k);
    }
    BlockCovered(le, cur, done, k, base, mid, hi, calls);
  }

  /** Calculated items are compared in list order: in the first pass the nodes before `base` were called, and
      later nearly all items are settled. */
  ghost predicate Turn(book: Book, cmp: Comparator, cur: seq<ListHead>, base: nat, k: nat, calls: seq<ListHead>) {
    cmp.mode.Calculate? ==>
      Settled(book, calls) || (k == 1 && cur == book.order && base <= |cur| && calls == cur[..base])
  }

  lemma TurnOfBlock(book: Book, cmp: Comparator, cur: seq<ListHead>, base: nat, mid: nat, hi: nat, k: nat,
                    calls: seq<ListHead>)
    requires Distinct(cur) && base < |cur| && Turn(book, cmp, cur, base, k, calls)
    requires k > 0 && mid == base + Cap(k, |cur| - base) && hi == Cap(mid + k, |cur|)
    ensures InTurn(book, cmp, cur, base, mid, hi, calls)
  {
    if cmp.mode.Calculate? && !Settled(book, calls) && mid < hi {
      PairTouched(cur, base);
    }
  }

  lemma PairTouched(cur: seq<ListHead>, base: nat)
    requires Distinct(cur) && base + 1 < |cur|
    ensures Touch(Touch(cur[..base], cur[base]), cur[base + 1]) == cur[..base + 2]
  {
    assert cur[base] !in cur[..base];
    assert cur[..base] + [cur[base]] == cur[..base + 1];
    assert cur[base + 1] !in cur[..base + 1];
  }

  lemma NextTurn(book: Book, cmp: Comparator, cur: seq<ListHead>, base: nat, mid: nat, hi: nat, k: nat,
                 calls0: seq<ListHead>, calls: seq<ListHead>)
    requires Distinct(cur) && base < |cur| && Turn(book, cmp, cur, base, k, calls0)
    requires k > 0 && mid == base + Cap(k, |cur| - base) && hi == Cap(mid + k, |cur|)
    requires Compared(cur, base, mid, hi, mid, hi, calls0, calls)
    ensures Turn(book, cmp, cur, hi, k, calls)
  {
    if cmp.mode.Calculate? && !Settled(book, calls0) && mid < hi {
      PairTouched(cur, base);
    }
  }

  /** Merge the two runs that start at `c0.q`. */
  method OneBlock(c0: Cursor, insize: nat, cmp: Comparator, ghost nmerges: nat, ghost nodeLe: NodeOrder,
                  ghost book: Book, ghost cur: seq<ListHead>, ghost done0: seq<ListHead>, ghost base: nat,
                  ghost calls0: seq<ListHead>)
    returns (c: Cursor, ghost done: seq<ListHead>, ghost hi: nat, ghost calls: seq<ListHead>)
    requires insize > 0 && Distinct(cur) && base < |cur|
    requires PassState(c0, nodeLe, cur, done0, base, insize, nmerges, calls0)
    requires Right(book, cmp) && Tracked(cur, book, cmp, calls0) && Agrees(nodeLe, book)
    requires Turn(book, cmp, cur, base, insize, calls0)
    requires insize == 1 || Covered(cur, |cur|, Lone(|cur|, insize), calls0)
    modifies cur`next, book.data.Keys`data16, cmp`res
    ensures base < hi && PassState(c, nodeLe, cur, done, hi, insize, nmerges + 1, calls)
    ensures Tracked(cur, book, cmp, calls) && Grown(calls0, calls) && Turn(book, cmp, cur, hi, insize, calls)
    ensures |cur| == 1 ==> calls == calls0
  {
    ghost var mid;
    var c1;
    c1, mid, hi := StartBlock(c0, insize, nodeLe, cur, done0, base, nmerges, calls0);
    TurnOfBlock(book, cmp, cur, base, mid, hi, insize, calls0);
    c, done, calls := MergeTwo(c1, cmp, nodeLe, book, cur, done0, base, mid, hi, calls0);
    NextTurn(book, cmp, cur, base, mid, hi, insize, calls0, calls);
    FactsStep(nodeLe, cur, done0, base, mid, hi, insize, nmerges, calls0, calls);
  }

  /** Finds the two runs of the next block. */
  method StartBlock(c0: Cursor, insize: nat, ghost nodeLe: NodeOrder, ghost cur: seq<ListHead>,
                    ghost done: seq<ListHead>, ghost base: nat, ghost nmerges: nat, ghost calls: seq<ListHead>)
    returns (c: Cursor, ghost mid: nat, ghost hi: nat)
    requires insize > 0 && base < |cur| && PassState(c0, nodeLe, cur, done, base, insize, nmerges, calls)
    ensures mid == base + Cap(insize, |cur| - base) && hi == Cap(mid + insize, |cur|) && base < mid
    ensures MergeState(c, cur, done, base, mid, mid, hi)
  {
    var p := c0.q;
    var q, psize := StepAlong(p, insize, cur, base);
    mid := base + psize;
    hi := Cap(mid + insize, |cur|);
    c := Cursor(c0.list, c0.tail, p, psize, q, insize);
    BlockState(c, cur, done, base, mid, hi);
  }

  lemma StartState(c: Cursor, le: NodeOrder, cur: seq<ListHead>, k: nat, calls: seq<ListHead>)
    requires k > 0 && cur != [] && IsList(c.q, cur) && c.list == null && c.tail == null
    ensures PassState(c, le, cur, [], 0, k, 0, calls)
  {
    assert cur[0..] == cur;
  }

  lemma FinishState(c: Cursor, le: NodeOrder, cur: seq<ListHead>, done: seq<ListHead>,
                    base: nat, k: nat, nmerges: nat, calls: seq<ListHead>)
    requires k > 0 && cur != [] && PassState(c, le, cur, done, base, k, nmerges, calls) && c.q == null
    ensures done == Pass(le, cur, k) && done != [] && c.tail == Last(done) && c.list == done[0]
    ensures Merging(cur, done, |cur|, |cur|, |cur|) && Covered(done, |cur|, Lone(|cur|, 2 * k), calls)
    ensures nmerges <= 1 <==> |cur| <= 2 * k
    ensures c.tail in cur
  {
  }

  /** The loop over the blocks of one pass. */
  method MergeBlocks(list0: ListHead, insize: nat, cmp: Comparator, ghost nodeLe: NodeOrder, ghost book: Book,
                     ghost cur: seq<ListHead>, ghost calls0: seq<ListHead>)
    returns (c: Cursor, nmerges: nat, ghost done: seq<ListHead>, ghost base: nat, ghost calls: seq<ListHead>)
    requires insize > 0 && cur != [] && IsList(list0, cur)
    requires Right(book, cmp) && Tracked(cur, book, cmp, calls0) && Agrees(nodeLe, book)
    requires Turn(book, cmp, cur, 0, insize, calls0)
    requires insize == 1 || Covered(cur, |cur|, Lone(|cur|, insize), calls0)
    modifies cur`next, book.data.Keys`data16, cmp`res
    ensures PassState(c, nodeLe, cur, done, base, insize, nmerges, calls) && c.q == null
    ensures Tracked(cur, book, cmp, calls) && Turn(book, cmp, cur, base, insize, calls)
    ensures |cur| == 1 ==> calls == calls0
  {
    c := Cursor(null, null, null, 0, list0, 0);
    base, done, calls, nmerges := 0, [], calls0, 0;
    StartState(c, nodeLe, cur, insize, calls);
    while c.q != null
      invariant PassState(c, nodeLe, cur, done, base, insize, nmerges, calls)
      invariant Tracked(cur, book, cmp, calls) && Turn(book, cmp, cur, base, insize, calls) && Grown(calls0, calls)
      invariant |cur| == 1 ==> calls == calls0
      decreases |cur| - base
    {
      c, done, base, calls := OneBlock(c, insize, cmp, nmerges, nodeLe, book, cur, done, base, calls);
      nmerges := nmerges + 1;
    }
  }

  ghost function Members(s: seq<ListHead>): set<ListHead> {
    set n | n in s
  }

  /** One pass of the sort: merges neighbouring runs of length `insize`. */
  method OnePass(list0: ListHead, insize: nat, cmp: Comparator, ghost nodeLe: NodeOrder, ghost book: Book,
                 ghost cur: seq<ListHead>, ghost calls0: seq<ListHead>)
    returns (list: ListHead?, nmerges: nat, ghost done: seq<ListHead>, ghost calls: seq<ListHead>)
    requires insize > 0 && cur != [] && IsList(list0, cur) && |cur| == |book.order|
    requires Right(book, cmp) && Tracked(cur, book, cmp, calls0) && Agrees(nodeLe, book)
    requires Turn(book, cmp, cur, 0, insize, calls0)
    requires insize == 1 || Covered(cur, |cur|, Lone(|cur|, insize), calls0)
    modifies Members(cur)`next, book.data.Keys`data16, cmp`res
    ensures done == Pass(nodeLe, cur, insize) && IsList(list, done)
    ensures Tracked(cur, book, cmp, calls) && (cmp.mode.Calculate? ==> Settled(book, calls))
    ensures Covered(done, |cur|, Lone(|cur|, 2 * insize), calls)
    ensures nmerges <= 1 <==> |cur| <= 2 * insize
    ensures |cur| == 1 ==> calls == calls0
  {
    var c;
    ghost var base;
    c, nmerges, done, base, calls := MergeBlocks(list0, insize, cmp, nodeLe, book, cur, calls0);
    FinishState(c, nodeLe, cur, done, base, insize, nmerges, calls);
    Terminate(c.tail, cur, done);
    list := c.list;
  }

  /** The items of `s` do not decrease, and equivalent ones keep the order they have in `orig`. */
  ghost predicate SortedStable(le: (ListData, ListData) -> bool, orig: seq<ListHead>, s: seq<ListHead>)
    reads s`info
  {
    forall i, j :: 0 <= i < j < |s| ==>
      le(s[i].info, s[j].info) && (le(s[j].info, s[i].info) ==> Before(orig, s[i], s[j]))
  }

  ghost function Infos(s: seq<ListHead>): set<ListData>
    reads s`info
  {
    set n | n in s :: n.info
  }

  ghost predicate PreorderOn(le: (ListData, ListData) -> bool, items: set<ListData>) {
    && (forall x, y :: x in items && y in items ==> le(x, y) || le(y, x))
    && (forall x, y, z :: x in items && y in items && z in items && le(x, y) && le(y, z) ==> le(x, z))
  }

  /** State between two passes: `cur` is the list, cut into runs of length `k`. */
  ghost predicate SortState(list: ListHead?, nodeLe: NodeOrder, book: Book, cmp: Comparator, cur: seq<ListHead>,
                            k: nat, calls: seq<ListHead>)
    reads cur`next
  {
    && k > 0 && list != null && cur != [] && IsList(list, cur)
    && multiset(cur) == multiset(book.order) && |cur| == |book.order|
    && Runs(nodeLe, book.order, cur, k)
    && (k == 1 || Covered(cur, |cur|, Lone(|cur|, k), calls))
    && Turn(book, cmp, cur, 0, k, calls)
  }

  lemma SameNodes(a: seq<ListHead>, b: seq<ListHead>)
    requires multiset(a) == multiset(b)
    ensures forall x :: x in a <==> x in b
    ensures Members(a) == Members(b)
  {
    forall x ensures x in a <==> x in b {
      assert x in a <==> x in multiset(a);
      assert x in b <==> x in multiset(b);
    }
  }

  /** Move the bookkeeping from one order of the nodes to another. */
  lemma TrackedPermuted(a: seq<ListHead>, b: seq<ListHead>, book: Book, cmp: Comparator, calls: seq<ListHead>)
    requires multiset(a) == multiset(b) && Tracked(a, book, cmp, calls)
    ensures Tracked(b, book, cmp, calls)
  {
    SameNodes(a, b);
  }

  lemma PassEffect(nodeLe: NodeOrder, nodes: seq<ListHead>, cur: seq<ListHead>, k: nat)
    requires k > 0 && Distinct(nodes) && TotalPreorder(nodeLe, nodes) && multiset(cur) == multiset(nodes)
    requires Runs(nodeLe, nodes, cur, k)
    ensures Runs(nodeLe, nodes, Pass(nodeLe, cur, k), 2 * k)
    ensures multiset(Pass(nodeLe, cur, k)) == multiset(nodes) && |Pass(nodeLe, cur, k)| == |cur|
  {
    SameNodes(cur, nodes);
    PassMultiset(nodeLe, cur, k);
    PassMembers(nodeLe, cur, k);
    PassRuns(nodeLe, nodes, cur, k);
  }

  /** One pass, seen from the whole sort. */
  method SortPass(list0: ListHead, insize: nat, cmp: Comparator, ghost nodeLe: NodeOrder, ghost book: Book,
                  ghost cur: seq<ListHead>, ghost calls0: seq<ListHead>)
    returns (list: ListHead?, nmerges: nat, ghost sorted: seq<ListHead>, ghost calls: seq<ListHead>)
    requires Right(book, cmp) && Agrees(nodeLe, book) && TotalPreorder(nodeLe, book.order)
    requires SortState(list0, nodeLe, book, cmp, cur, insize, calls0) && Tracked(book.order, book, cmp, calls0)
    modifies Members(book.order)`next, book.data.Keys`data16, cmp`res
    ensures SortState(list, nodeLe, book, cmp, sorted, 2 * insize, calls) && Tracked(book.order, book, cmp, calls)
    ensures nmerges <= 1 <==> |cur| <= 2 * insize
    ensures |cur| == 1 ==> calls == calls0
  {
    assert Members(cur) == Members(book.order) by { SameNodes(cur, book.order); }
    assert Tracked(cur, book, cmp, calls0) by { TrackedPermuted(book.order, cur, book, cmp, calls0); }
    list, nmerges, sorted, calls := OnePass(list0, insize, cmp, nodeLe, book, cur, calls0);
    assert Runs(nodeLe, book.order, sorted, 2 * insize) && multiset(sorted) == multiset(book.order)
           && |sorted| == |cur| by {
      PassEffect(nodeLe, book.order, cur, insize);
    }
    TrackedPermuted(cur, book.order, book, cmp, calls);
  }

  /** The loop over passes of doubling run length. */
  method SortPasses(list0: ListHead, cmp: Comparator, ghost nodeLe: NodeOrder, ghost book: Book)
    returns (list: ListHead?, ghost sorted: seq<ListHead>, ghost calls: seq<ListHead>)
    requires book.order != [] && IsList(list0, book.order)
    requires Right(book, cmp) && Agrees(nodeLe, book) && TotalPreorder(nodeLe, book.order)
    requires Tracked(book.order, book, cmp, [])
    modifies Members(book.order)`next, book.data.Keys`data16, cmp`res
    ensures IsList(list, sorted) && multiset(sorted) == multiset(book.order)
    ensures Ascending(nodeLe, book.order, sorted)
    ensures Tracked(book.order, book, cmp, calls)
    ensures if |book.order| == 1 then calls == [] else forall n :: n in book.order ==> n in calls
  {
    var insize := 1;
    list, sorted, calls := list0, book.order, [];
    SinglesAreRuns(nodeLe, book.order, 0);
    assert book.order[0..] == book.order;
    while true
      invariant SortState(list, nodeLe, book, cmp, sorted, insize, calls)
      invariant Tracked(book.order, book, cmp, calls) && (|book.order| == 1 ==> calls == [])
      decreases 2 * |book.order| - insize
    {
      var nmerges;
      list, nmerges, sorted, calls := SortPass(list, insize, cmp, nodeLe, book, sorted, calls);
      if nmerges <= 1 {
        OneRunAscending(nodeLe, book.order, sorted, 2 * insize);
        AllTouched(book.order, sorted, insize, calls);
        break;
      }
      insize := 2 * insize;
    }
  }

  /** When the last pass had a single merge, every node was compared at some point. */
  lemma AllTouched(nodes: seq<ListHead>, sorted: seq<ListHead>, k: nat, calls: seq<ListHead>)
    requires k > 0 && |sorted| <= 2 * k && multiset(sorted) == multiset(nodes) && |sorted| == |nodes|
    requires Covered(sorted, |sorted|, Lone(|sorted|, 2 * k), calls)
    ensures |nodes| > 1 ==> forall n :: n in nodes ==> n in calls
  {
    SameNodes(nodes, sorted);
  }

  /** The book describes the nodes and their items as they are. */
  ghost predicate Opens(book: Book, cmp: Comparator)
    requires Complete(book)
    reads book.order`info, book.data.Keys`data16, cmp`res
  {
    && (forall n :: n in book.order ==> n.info == book.info[n])
    && Now(book.data.Keys) == book.data && book.before == cmp.res
  }

  lemma OpensTracked(book: Book, cmp: Comparator)
    requires Complete(book) && Opens(book, cmp)
    ensures Tracked(book.order, book, cmp, [])
  {
  }

  lemma NodesPreordered(nodeLe: NodeOrder, book: Book)
    requires Complete(book) && Agrees(nodeLe, book) && PreorderOn(book.le, Infos(book.order))
    requires forall n :: n in book.order ==> n.info == book.info[n]
    ensures TotalPreorder(nodeLe, book.order)
  {
    assert forall x :: x in book.order ==> book.info[x] in Infos(book.order);
  }

  /** core_list_mergesort. The list must not be empty: the code writes through `tail` even
      when no node was visited. */
  method Mergesort(list0: ListHead, cmp: Comparator, ghost book: Book)
    returns (list: ListHead?, ghost sorted: seq<ListHead>)
    requires book.order != [] && IsList(list0, book.order)
    requires Right(book, cmp) && Opens(book, cmp) && PreorderOn(book.le, Infos(book.order))
    modifies book.order`next, book.data.Keys`data16, cmp`res
    ensures IsList(list, sorted) && multiset(sorted) == multiset(book.order)
    ensures SortedStable(book.le, book.order, sorted)
    ensures forall n :: n in book.order ==> n.info == old(n.info)
    ensures forall n :: n in book.order ==>
      n.info.data16 == book.data[n.info] || n.info.data16 == book.after[n.info]
    ensures |book.order| > 1 ==> forall n :: n in book.order ==> n.info.data16 == book.after[n.info]
    ensures |book.order| > 1 && cmp.mode.Calculate? ==> cmp.res == ResultsAt(book, cmp.kernels, |book.order|)
    ensures |book.order| == 1 && cmp.mode.Calculate? ==>
      cmp.res == book.before && forall n :: n in book.order ==> n.info.data16 == book.data[n.info]
  {
    ghost var info, le := book.info, book.le;
    ghost var nodeLe := (x: ListHead, y: ListHead) => x in info && y in info && le(info[x], info[y]);
    OpensTracked(book, cmp);
    NodesPreordered(nodeLe, book);
    ghost var calls;
    list, sorted, calls := SortPasses(list0, cmp, nodeLe, book);
    AscendingSorted(nodeLe, book, cmp, sorted, calls);
    TrackedItems(book, cmp, calls);
  }

  lemma AscendingSorted(nodeLe: NodeOrder, book: Book, cmp: Comparator, sorted: seq<ListHead>, calls: seq<ListHead>)
    requires Tracked(book.order, book, cmp, calls) && Agrees(nodeLe, book)
    requires multiset(sorted) == multiset(book.order) && Ascending(nodeLe, book.order, sorted)
    ensures SortedStable(book.le, book.order, sorted)
  {
    SameNodes(sorted, book.order);
    forall i, j | 0 <= i < j < |sorted|
      ensures book.le(sorted[i].info, sorted[j].info)
      ensures book.le(sorted[j].info, sorted[i].info) ==> Before(book.order, sorted[i], sorted[j])
    {
      assert Less(nodeLe, book.order, sorted[i], sorted[j]);
      assert sorted[i] in book.order && sorted[j] in book.order;
    }
  }

  /** What the records say about the items themselves. */
  lemma TrackedItems(book: Book, cmp: Comparator, calls: seq<ListHead>)
    requires Tracked(book.order, book, cmp, calls)
    ensures forall n :: n in book.order ==>
      && n.info == book.info[n] && n.info in book.after
      && (n.info.data16 == book.data[n.info] || n.info.data16 == book.after[n.info])
    ensures (forall n :: n in book.order ==> n in calls) ==>
      && (forall n :: n in book.order ==> n.info.data16 == book.after[n.info])
      && (cmp.mode.Calculate? ==> cmp.res == ResultsAt(book, cmp.kernels, |book.order|))
    ensures calls == [] && cmp.mode.Calculate? ==>
      cmp.res == book.before && forall n :: n in book.order ==> n.info.data16 == book.data[n.info]
  {
    if (forall n :: n in book.order ==> n in calls) && cmp.mode.Calculate? {
      AllCalled(book.order, calls);
    }
  }

  lemma AllCalled(order: seq<ListHead>, calls: seq<ListHead>)
    requires Distinct(order) && calls <= order && forall n :: n in order ==> n in calls
    ensures |calls| == |order|
  {
    if order != [] {
      var n := order[|order| - 1];
      assert n in calls;
      var i :| 0 <= i < |calls| && calls[i] == n;
      assert order[i] == n;
    }
  }

  // ----- core_list_mergesort(list, cmp_idx, NULL) -----

  function ByIdx(a: ListData, b: ListData): bool {
    a.idx - b.idx <= 0
  }

  /** Low and high byte agree, and the high byte is the old one. */
  ghost predicate Regenerated(d: bv16, was: bv16) {
    d & 0x00ff == d >> 8 == was >> 8
  }

  ghost function ItemsOf(nodes: seq<ListHead>): map<ListHead, ListData>
    reads nodes`info
  {
    map n | n in nodes :: n.info
  }

  /** Comparing by index calculates nothing. */
  function NoKernels(): Kernels {
    Kernels((_, _, memory) => (0, memory), (_, _, memory) => (0, memory), (_, _) => 0)
  }

  lemma IdxBook(cmp: Comparator, nodes: seq<ListHead>) returns (book: Book)
    requires Distinct(nodes) && cmp.mode.Regenerate? && cmp.le == ByIdx
    ensures book.order == nodes && book.data.Keys == Infos(nodes) && book.le == ByIdx
    ensures Right(book, cmp) && Opens(book, cmp) && PreorderOn(ByIdx, Infos(nodes))
  {
    var data := Now(Infos(nodes));
    var after := map d | d in data :: Regen(data[d]);
    book := Book(nodes, ItemsOf(nodes), data, Data(nodes), after, ByIdx, cmp.res);
    BookComplete(book);
  }

  /** Sorting by index with a NULL result block: the nodes come out in index order, those of equal index in
      the order of the list, and, if there are at least two, the data of every node is regenerated from its
      backup byte. */
  method SortByIdx(list0: ListHead, ghost nodes: seq<ListHead>) returns (list: ListHead?, ghost sorted: seq<ListHead>)
    requires nodes != [] && IsList(list0, nodes)
    modifies nodes`next, Infos(nodes)`data16
    ensures IsList(list, sorted) && multiset(sorted) == multiset(nodes)
    ensures forall n :: n in nodes ==> n.info == old(n.info)
    ensures SortedStable(ByIdx, nodes, sorted)
    ensures |nodes| > 1 ==> forall n :: n in nodes ==> Regenerated(n.info.data16, old(n.info.data16))
  {
    var cmp := new Comparator(Regenerate, ByIdx, NoKernels(), Results(0, 0, 0, []));
    ghost var book := IdxBook(cmp, nodes);
    list, sorted := RegenerateAll(list0, cmp, book);
  }

  /** Sorting with the regenerating comparison. */
  method RegenerateAll(list0: ListHead, cmp: Comparator, ghost book: Book)
    returns (list: ListHead?, ghost sorted: seq<ListHead>)
    requires book.order != [] && IsList(list0, book.order) && cmp.mode.Regenerate?
    requires Right(book, cmp) && Opens(book, cmp) && PreorderOn(book.le, Infos(book.order))
    modifies book.order`next, book.data.Keys`data16, cmp`res
    ensures IsList(list, sorted) && multiset(sorted) == multiset(book.order)
    ensures SortedStable(book.le, book.order, sorted)
    ensures forall n :: n in book.order ==> n.info == old(n.info)
    ensures |book.order| > 1 ==> forall n :: n in book.order ==> Regenerated(n.info.data16, old(n.info.data16))
  {
    list, sorted := Mergesort(list0, cmp, book);
    if |book.order| > 1 {
      RegeneratedItems(book, cmp);
    }
  }

  lemma RegeneratedItems(book: Book, cmp: Comparator)
    requires Right(book, cmp) && cmp.mode.Regenerate?
    requires forall n :: n in book.order ==> n.info in book.data && n.info.data16 == book.after[n.info]
    ensures forall n :: n in book.order ==> Regenerated(n.info.data16, book.data[n.info])
  {
    forall n | n in book.order ensures Regenerated(n.info.data16, book.data[n.info]) {
      RegenIdempotent(book.data[n.info]);
    }
  }

  // ----- core_list_mergesort(list, cmp_complex, res) -----

  ghost predicate OwnInfos(nodes: seq<ListHead>)
    reads nodes`info
  {
    forall i, j :: 0 <= i < j < |nodes| ==> nodes[i].info != nodes[j].info
  }

  ghost function Data(nodes: seq<ListHead>): (data: seq<bv16>)
    reads nodes, Infos(nodes)
    ensures |data| == |nodes| && forall k :: 0 <= k < |data| ==> data[k] == nodes[k].info.data16
  {
    seq(|nodes|, k requires 0 <= k < |nodes| reads nodes, Infos(nodes) => nodes[k].info.data16)
  }

  /** Low seven bits: the calculated value. */
  ghost function CachedValue(n: ListHead): bv16
    reads n, n.info
  {
    n.info.data16 & 0x007f
  }

  /** The items have the data, and the result block the contents, that calculating `data` in order from
      `res0` gives; every item is cached, its high byte kept, and `sorted` is sorted by value and stable. */
  ghost predicate ByContent(nodes: seq<ListHead>, kernels: Kernels, data: seq<bv16>, res0: Results, res: Results,
                            sorted: seq<ListHead>)
    reads nodes, Infos(nodes), sorted, Infos(sorted)
  {
    && |data| == |nodes| && res == CalculatedTo(kernels, data, res0, |nodes|)
    && (forall k :: 0 <= k < |nodes| ==>
          && nodes[k].info.data16 == DataAfter(kernels, data[k], CalculatedTo(kernels, data, res0, k))
          && IsCached(nodes[k].info.data16) && nodes[k].info.data16 >> 8 == data[k] >> 8)
    && (forall i, j :: 0 <= i < j < |sorted| ==>
          && AtMost(CachedValue(sorted[i]), CachedValue(sorted[j]))
          && (CachedValue(sorted[i]) == CachedValue(sorted[j]) ==> Before(nodes, sorted[i], sorted[j])))
  }

  /** Sorting by content. The value of an item is calculated at its first comparison and depends on the
      values calculated before. Still, the values are those that a calculation of all items in the original
      order of the list gives, each item is calculated once, and the nodes come out sorted by them and stable. */
  method SortByContent(list0: ListHead, cmp: Comparator, ghost nodes: seq<ListHead>)
    returns (list: ListHead?, ghost sorted: seq<ListHead>)
    requires nodes != [] && IsList(list0, nodes) && OwnInfos(nodes) && cmp.mode.Calculate?
    modifies nodes`next, Infos(nodes)`data16, cmp`res
    ensures IsList(list, sorted) && multiset(sorted) == multiset(nodes)
    ensures forall n :: n in nodes ==> n.info == old(n.info)
    ensures |nodes| > 1 ==> ByContent(nodes, cmp.kernels, old(Data(nodes)), old(cmp.res), cmp.res, sorted)
    ensures |nodes| == 1 ==> cmp.res == old(cmp.res) && Data(nodes) == old(Data(nodes))
  {
    ghost var book := ContentBook(cmp, nodes);
    list, sorted := SortWithBook(list0, cmp, book);
  }

  method SortWithBook(list0: ListHead, cmp: Comparator, ghost book: Book)
    returns (list: ListHead?, ghost sorted: seq<ListHead>)
    requires book.order != [] && IsList(list0, book.order) && cmp.mode.Calculate?
    requires Right(book, cmp) && Opens(book, cmp) && PreorderOn(book.le, Infos(book.order))
    modifies book.order`next, book.data.Keys`data16, cmp`res
    ensures IsList(list, sorted) && multiset(sorted) == multiset(book.order)
    ensures forall n :: n in book.order ==> n.info == old(n.info)
    ensures |book.order| > 1 ==> ByContent(book.order, cmp.kernels, book.content, book.before, cmp.res, sorted)
    ensures |book.order| == 1 ==> cmp.res == book.before && Data(book.order) == book.content
  {
    list, sorted := Mergesort(list0, cmp, book);
    if |book.order| > 1 {
      ContentSorted(book, cmp.kernels, sorted);
    }
  }

  ghost function PositionOf(nodes: seq<ListHead>, d: ListData): (k: nat)
    requires d in Infos(nodes)
    reads nodes`info
    ensures k < |nodes| && nodes[k].info == d
  {
    var k :| 0 <= k < |nodes| && nodes[k].info == d;
    k
  }

  /** The book of a sort by content: data and order come from the values calculated in list order. */
  lemma ContentBook(cmp: Comparator, nodes: seq<ListHead>) returns (book: Book)
    requires Distinct(nodes) && OwnInfos(nodes) && cmp.mode.Calculate?
    ensures book.order == nodes && book.data.Keys == Infos(nodes) && Right(book, cmp) && Opens(book, cmp)
    ensures book.content == Data(nodes) && PreorderOn(book.le, Infos(nodes))
  {
    var position := Positions(nodes);
    var after, value := Afters(cmp.kernels, Data(nodes), cmp.res, position);
    var le := (x: ListData, y: ListData) => x in value && y in value && AtMost(value[x], value[y]);
    book := Book(nodes, ItemsOf(nodes), Now(Infos(nodes)), Data(nodes), after, le, cmp.res);
    BookComplete(book);
    ContentRight(book, cmp.kernels, position, value);
    ValuesPreordered(value, le);
  }

  lemma Positions(nodes: seq<ListHead>) returns (position: map<ListData, nat>)
    requires OwnInfos(nodes)
    ensures position.Keys == Infos(nodes) && forall d :: d in position ==> position[d] < |nodes|
    ensures forall k :: 0 <= k < |nodes| ==> nodes[k].info in position && position[nodes[k].info] == k
  {
    position := map d | d in Infos(nodes) :: PositionOf(nodes, d);
    forall k | 0 <= k < |nodes| ensures nodes[k].info in position && position[nodes[k].info] == k {
      assert nodes[k].info in Infos(nodes);
    }
  }

  /** Data and value of each item after a calculation in list order. */
  ghost predicate Calculated(kernels: Kernels, data: seq<bv16>, res: Results, k: nat, after: bv16, value: bv16) {
    && k < |data|
    && after == DataAfter(kernels, data[k], CalculatedTo(kernels, data, res, k))
    && value == ValueOf(kernels, data[k], CalculatedTo(kernels, data, res, k))
  }

  lemma Afters(kernels: Kernels, data: seq<bv16>, res: Results, position: map<ListData, nat>)
    returns (after: map<ListData, bv16>, value: map<ListData, bv16>)
    requires forall d :: d in position ==> position[d] < |data|
    ensures after.Keys == value.Keys == position.Keys
    ensures forall d :: d in position ==> Calculated(kernels, data, res, position[d], after[d], value[d])
  {
    after := map d | d in position ::
      DataAfter(kernels, data[position[d]], CalculatedTo(kernels, data, res, position[d]));
    value := map d | d in position ::
      ValueOf(kernels, data[position[d]], CalculatedTo(kernels, data, res, position[d]));
  }

  lemma ContentRight(book: Book, kernels: Kernels, position: map<ListData, nat>, value: map<ListData, bv16>)
    requires Complete(book) && value.Keys == position.Keys == book.data.Keys
    requires forall k :: 0 <= k < |book.order| ==> position[book.info[book.order[k]]] == k
    requires forall d :: d in position ==>
      Calculated(kernels, book.content, book.before, position[d], book.after[d], value[d])
    requires forall x, y :: x in value && y in value ==> book.le(x, y) == AtMost(value[x], value[y])
    ensures Calculates(book, kernels)
  {
    OwnPositions(book, position);
    forall k | 0 <= k < |book.order| ensures CalculatedAt(book, kernels, value, k) {
      var d := book.info[book.order[k]];
      assert Calculated(kernels, book.content, book.before, position[d], book.after[d], value[d]);
    }
    ContentOrdered(book, kernels, value);
  }

  ghost predicate CalculatedAt(book: Book, kernels: Kernels, value: map<ListData, bv16>, k: nat)
    requires Complete(book) && value.Keys == book.data.Keys && k < |book.order|
  {
    var d := book.info[book.order[k]];
    book.after[d] == DataAfter(kernels, book.content[k], ResultsAt(book, kernels, k))
    && value[d] == ValueAt(book, kernels, k)
  }

  lemma ContentOrdered(book: Book, kernels: Kernels, value: map<ListData, bv16>)
    requires Complete(book) && value.Keys == book.data.Keys && OwnItems(book)
    requires forall k :: 0 <= k < |book.order| ==> CalculatedAt(book, kernels, value, k)
    requires forall x, y :: x in value && y in value ==> book.le(x, y) == AtMost(value[x], value[y])
    ensures Calculates(book, kernels)
  {
    forall i, j | 0 <= i < |book.order| && 0 <= j < |book.order|
      ensures book.le(book.info[book.order[i]], book.info[book.order[j]]) ==
              AtMost(ValueAt(book, kernels, i), ValueAt(book, kernels, j))
    {
      assert CalculatedAt(book, kernels, value, i) && CalculatedAt(book, kernels, value, j);
    }
    forall k | 0 <= k < |book.order|
      ensures book.after[book.info[book.order[k]]] ==
              DataAfter(kernels, book.content[k], ResultsAt(book, kernels, k))
    {
      assert CalculatedAt(book, kernels, value, k);
    }
  }

  lemma OwnPositions(book: Book, position: map<ListData, nat>)
    requires Complete(book) && position.Keys == book.data.Keys
    requires forall k :: 0 <= k < |book.order| ==> position[book.info[book.order[k]]] == k
    ensures OwnItems(book)
  {
    forall i, j | 0 <= i < j < |book.order| ensures book.info[book.order[i]] != book.info[book.order[j]] {
      assert position[book.info[book.order[i]]] == i && position[book.info[book.order[j]]] == j;
    }
  }

  lemma ValuesPreordered(value: map<ListData, bv16>, le: ItemOrder)
    requires forall x, y :: x in value && y in value ==> le(x, y) == AtMost(value[x], value[y])
    ensures PreorderOn(le, value.Keys)
  {
  }

  lemma BookComplete(book: Book)
    requires Distinct(book.order) && book.info == ItemsOf(book.order) && book.data == Now(Infos(book.order))
    requires book.content == Data(book.order) && book.after.Keys == book.data.Keys
    ensures Complete(book)
  {
    forall n | n in book.order ensures n in book.info && book.info[n] in book.data {
      assert n.info in Infos(book.order);
    }
  }

  lemma ContentItem(book: Book, kernels: Kernels, k: nat)
    requires Complete(book) && Calculates(book, kernels) && k < |book.order|
    ensures var c := book.after[book.info[book.order[k]]];
      && c == DataAfter(kernels, book.content[k], ResultsAt(book, kernels, k))
      && c & 0x007f == ValueAt(book, kernels, k) && IsCached(c) && c >> 8 == book.content[k] >> 8
  {
    var res := ResultsAt(book, kernels, k);
    ValueStays(kernels, book.content[k], res, res);
  }

  lemma ContentOrder(book: Book, kernels: Kernels, a: ListData, b: ListData, i: nat, j: nat)
    requires Complete(book) && Calculates(book, kernels) && i < |book.order| && j < |book.order|
    requires a == book.info[book.order[i]] && b == book.info[book.order[j]] && book.le(a, b)
    ensures AtMost(book.after[a] & 0x007f, book.after[b] & 0x007f)
    ensures book.after[a] & 0x007f == book.after[b] & 0x007f ==> book.le(b, a)
  {
    ContentItem(book, kernels, i);
    ContentItem(book, kernels, j);
  }

  /** The records of a sort by content, in terms of the cached values. */
  lemma ContentSorted(book: Book, kernels: Kernels, sorted: seq<ListHead>)
    requires Complete(book) && Calculates(book, kernels)
    requires forall n :: n in book.order ==> n.info == book.info[n] && n.info.data16 == book.after[n.info]
    requires multiset(sorted) == multiset(book.order) && SortedStable(book.le, book.order, sorted)
    ensures ByContent(book.order, kernels, book.content, book.before, ResultsAt(book, kernels, |book.order|), sorted)
  {
    forall k | 0 <= k < |book.order|
      ensures book.order[k].info.data16 == DataAfter(kernels, book.content[k], ResultsAt(book, kernels, k))
      ensures IsCached(book.order[k].info.data16) && book.order[k].info.data16 >> 8 == book.content[k] >> 8
    {
      assert book.order[k] in book.order;
      ContentItem(book, kernels, k);
    }
    SameNodes(sorted, book.order);
    forall i, j | 0 <= i < j < |sorted|
      ensures AtMost(CachedValue(sorted[i]), CachedValue(sorted[j]))
      ensures CachedValue(sorted[i]) == CachedValue(sorted[j]) ==> Before(book.order, sorted[i], sorted[j])
    {
      assert sorted[i] in book.order && sorted[j] in book.order;
      var k := Position(book, sorted[i]);
      var l := Position(book, sorted[j]);
      ContentOrder(book, kernels, sorted[i].info, sorted[j].info, k, l);
    }
  }

  // ----- which order sorting by index restores -----

  lemma {:induction false} SameFrom(a: seq<ListHead>, b: seq<ListHead>, k: nat)
    requires IsList(Nth(a, 0), a) && IsList(Nth(b, 0), b) && Nth(a, k) == Nth(b, k)
    requires k <= |a| && k <= |b| && a[..k] == b[..k]
    ensures a == b
    decreases |a| - k
  {
    if k < |a| && k < |b| {
      assert a[k].next == Nth(a, k + 1) && b[k].next == Nth(b, k + 1);
      assert a[..k + 1] == a[..k] + [a[k]] && b[..k + 1] == b[..k] + [b[k]];
      SameFrom(a, b, k + 1);
    } else {
      assert a[..k] == a && b[..k] == b;
    }
  }

  /** The links determine the nodes of a list. */
  lemma ListUnique(head: ListHead?, a: seq<ListHead>, b: seq<ListHead>)
    requires IsList(head, a) && IsList(head, b)
    ensures a == b
  {
    SameFrom(a, b, 0);
  }

  /** Sorted and stable, for a fixed assignment of the items. */
  lemma StableIsAscending(info: map<ListHead, ListData>, le: ItemOrder, nodeLe: NodeOrder, nodes: seq<ListHead>,
                          s: seq<ListHead>)
    requires forall n :: n in s ==> n in info && info[n] == n.info
    requires forall x, y :: x in info && y in info ==> nodeLe(x, y) == le(info[x], info[y])
    ensures SortedStable(le, nodes, s) <==> Ascending(nodeLe, nodes, s)
  {
    if Ascending(nodeLe, nodes, s) {
      forall i, j | 0 <= i < j < |s|
        ensures le(s[i].info, s[j].info) && (le(s[j].info, s[i].info) ==> Before(nodes, s[i], s[j]))
      {
        assert Less(nodeLe, nodes, s[i], s[j]);
      }
    }
  }

  lemma StableUnique(le: ItemOrder, nodes: seq<ListHead>, a: seq<ListHead>, b: seq<ListHead>)
    requires Distinct(nodes) && multiset(a) == multiset(b) && SortedStable(le, nodes, a) && SortedStable(le, nodes, b)
    ensures a == b
  {
    SameNodes(a, b);
    var info := ItemsOf(a);
    var nodeLe := (x: ListHead, y: ListHead) => x in info && y in info && le(info[x], info[y]);
    StableIsAscending(info, le, nodeLe, nodes, a);
    StableIsAscending(info, le, nodeLe, nodes, b);
    AscendingUnique(nodeLe, nodes, a, b);
  }

  /** Sorting by index links the nodes in the order `orig` if and only if the indices do not decrease along
      `orig` and nodes of equal index stand in it as they stood in the list. */
  method RestoreByIdx(list0: ListHead, ghost nodes: seq<ListHead>, ghost orig: seq<ListHead>)
    returns (list: ListHead?)
    requires nodes != [] && IsList(list0, nodes) && multiset(orig) == multiset(nodes)
    modifies nodes`next, Infos(nodes)`data16
    ensures IsList(list, orig) <==> SortedStable(ByIdx, nodes, orig)
    ensures forall n :: n in orig ==> n.info == old(n.info)
    ensures |orig| > 1 ==> forall n :: n in orig ==> Regenerated(n.info.data16, old(n.info.data16))
  {
    SameNodes(orig, nodes);
    ghost var sorted;
    list, sorted := SortByIdx(list0, nodes);
    if IsList(list, orig) {
      ListUnique(list, sorted, orig);
    }
    if SortedStable(ByIdx, nodes, orig) {
      StableUnique(ByIdx, nodes, sorted, orig);
    }
    assert |orig| == |multiset(orig)| == |multiset(nodes)| == |nodes|;
  }

  ghost predicate IdxIncreases(s: seq<ListHead>)
    reads s`info
  {
    forall i, j :: 0 <= i < j < |s| ==> s[i].info.idx < s[j].info.idx
  }

  /** So an order is restored from every other order if and only if its indices increase. */
  lemma RestoredFromEveryOrder(orig: seq<ListHead>)
    requires Distinct(orig)
    ensures IdxIncreases(orig) <==>
            forall nodes: seq<ListHead> :: multiset(nodes) == multiset(orig) ==> SortedStable(ByIdx, nodes, orig)
  {
    if forall nodes: seq<ListHead> :: multiset(nodes) == multiset(orig) ==> SortedStable(ByIdx, nodes, orig) {
      ReversedMultiset(orig);
      assert SortedStable(ByIdx, Reversed(orig), orig);
      forall i, j | 0 <= i < j < |orig| ensures orig[i].info.idx < orig[j].info.idx {
        EqualIdxSwapped(orig, i, j);
      }
    }
  }

  /** Of two nodes with equal indices only the order in the list can come out. */
  lemma EqualIndicesKeepOrder(a: ListHead, b: ListHead)
    requires a != b && a.info.idx == b.info.idx
    ensures SortedStable(ByIdx, [a, b], [a, b]) && !SortedStable(ByIdx, [b, a], [a, b])
  {
    assert [a, b][0] == a && [a, b][1] == b;
    assert [b, a][0] == b && [b, a][1] == a;
    assert Before([a, b], a, b) && Before([b, a], b, a);
    BeforeAsymmetric([b, a], b, a);
  }

  /** The index that core_list_init gives the item at position i of a list of fewer than 2^15 items. */
  function InitialIdx(i: bv16, size: bv16, seed: bv16): bv16 {
    if i < size / 5 then i else 0x3fff & ((((i + 1) & 0x0007) << 8) | (i ^ seed))
  }

  /** It can give the same index twice: for seed 6 and a block of 400 bytes, which makes 18 items, and it can
      give the index of the head of the list, for seed 7. */
  lemma InitialIndicesCollide()
    ensures InitialIdx(1, 18, 6) == InitialIdx(7, 18, 6) == 1
    ensures InitialIdx(7, 18, 7) == 0
  {
  }

  lemma EqualIdxSwapped(orig: seq<ListHead>, i: nat, j: nat)
    requires Distinct(orig) && i < j < |orig|
    ensures !Before(Reversed(orig), orig[i], orig[j])
  {
    var r, n := Reversed(orig), |orig|;
    ReversedIs(orig);
    assert Distinct(r);
    assert r[n - 1 - j] == orig[j] && r[n - 1 - i] == orig[i];
    BeforeAsymmetric(r, orig[j], orig[i]);
  }

  lemma {:induction false} ReversedMultiset(s: seq<ListHead>)
    ensures multiset(Reversed(s)) == multiset(s)
    decreases |s|
  {
    if s != [] {
      ReversedMultiset(s[1..]);
      assert s == [s[0]] + s[1..];
    }
  }

  // ----- core_list_remove and core_list_undo_remove -----

  method Remove(item: ListHead) returns (ret: ListHead)
    requires item.next != null && item.next != item
    modifies item, item.next
    ensures ret == old(item.next)
    ensures item.info == old(ret.info) && ret.info == old(item.info)
    ensures item.next == old(item.next.next) && ret.next == null
  {
    ret := item.next;
    var tmp := item.info;
    item.info := ret.info;
    ret.info := tmp;
    item.next := item.next.next;
    ret.next := null;
  }

  method UndoRemove(removed: ListHead, modified: ListHead) returns (ret: ListHead)
    requires removed != modified
    modifies removed, modified
    ensures ret == removed
    ensures removed.info == old(modified.info) && modified.info == old(removed.info)
    ensures removed.next == old(modified.next) && modified.next == removed
  {
    var tmp := removed.info;
    removed.info := modified.info;
    modified.info := tmp;
    removed.next := modified.next;
    modified.next := removed;
    ret := removed;
  }

  /** Removing the item at position `k` takes its data, and only its data, out of the list. */
  method RemoveAt(head: ListHead, item: ListHead, ghost nodes: seq<ListHead>, ghost k: nat) returns (ret: ListHead)
    requires IsList(head, nodes) && k + 1 < |nodes| && item == nodes[k]
    modifies nodes
    ensures ret == nodes[k + 1]
    ensures IsList(head, nodes[..k + 1] + nodes[k + 2..])
    ensures forall i :: 0 <= i < k ==> nodes[i].info == old(nodes[i].info)
    ensures forall i :: k + 1 < i < |nodes| ==> nodes[i].info == old(nodes[i].info)
    ensures nodes[k].info == old(nodes[k + 1].info)
  {
    ghost var rest := nodes[..k + 1] + nodes[k + 2..];
    assert nodes[k].next == Nth(nodes, k + 1) && nodes[k + 1].next == Nth(nodes, k + 2);
    ret := Remove(item);
    forall i | 0 <= i < |rest| ensures rest[i].next == Nth(rest, i + 1) {
      ghost var j := if i <= k then i else i + 1;
      assert rest[i] == nodes[j];
      if j != k {
        assert nodes[j].next == old(nodes[j].next) == Nth(nodes, j + 1);
      }
    }
  }

  /** Undoing a removal restores every link and every data pointer. */
  method RemoveAndUndo(item: ListHead) returns (ret: ListHead)
    requires item.next != null && item.next != item
    modifies item, item.next
    ensures forall n: ListHead :: old(allocated(n)) ==> n.next == old(n.next) && n.info == old(n.info)
  {
    ret := Remove(item);
    ret := UndoRemove(ret, item);
  }

  // ----- reversal -----

  ghost function Reversed(s: seq<ListHead>): seq<ListHead> {
    if s == [] then [] else Reversed(s[1..]) + [s[0]]
  }

  lemma {:induction false} ReversedIs(s: seq<ListHead>)
    ensures |Reversed(s)| == |s| && forall k :: 0 <= k < |s| ==> Reversed(s)[k] == s[|s| - 1 - k]
    decreases |s|
  {
    if s != [] {
      ReversedIs(s[1..]);
    }
  }

  lemma ReversedTwice(s: seq<ListHead>)
    ensures Reversed(Reversed(s)) == s
  {
    var r := Reversed(s);
    ReversedIs(s);
    ReversedIs(r);
    forall k | 0 <= k < |s| ensures Reversed(r)[k] == s[k] {
      assert Reversed(r)[k] == r[|r| - 1 - k];
    }
  }

  /** The node before position i. */
  ghost function Prior(s: seq<ListHead>, i: nat): ListHead?
    requires i <= |s|
  {
    if i == 0 then null else s[i - 1]
  }

  method Reverse(list0: ListHead?, ghost nodes: seq<ListHead>) returns (list: ListHead?)
    requires IsList(list0, nodes)
    modifies nodes`next
    ensures IsList(list, Reversed(nodes))
  {
    var rest := list0;
    ghost var i := 0;
    list := null;
    while rest != null
      invariant i <= |nodes| && rest == Nth(nodes, i) && list == Prior(nodes, i)
      invariant forall j {:trigger nodes[j].next} :: 0 <= j < i ==> nodes[j].next == Prior(nodes, j)
      invariant forall j {:trigger nodes[j].next} :: i <= j < |nodes| ==> nodes[j].next == Nth(nodes, j + 1)
      decreases |nodes| - i
    {
      var following := rest.next;
      rest.next := list;
      list := rest;
      rest := following;
      i := i + 1;
    }
    ReversedIs(nodes);
  }

  /** Reversing twice gives the list back, link by link. */
  method ReverseTwice(list0: ListHead?, ghost nodes: seq<ListHead>) returns (list: ListHead?)
    requires IsList(list0, nodes)
    modifies nodes`next
    ensures list == list0 && forall n :: n in nodes ==> n.next == old(n.next)
  {
    list := Reverse(list0, nodes);
    ReversedIs(nodes);
    list := Reverse(list, Reversed(nodes));
    ReversedTwice(nodes);
  }
}
