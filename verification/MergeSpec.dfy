/**
  Bottom-up merging on sequences: what one pass of the in-place list sort computes, and why
  passes of doubling run length end in a sorted, stable arrangement.
  */
module MergeSpec {

  function Merge<T>(le: (T, T) -> bool, a: seq<T>, b: seq<T>): seq<T> {
    if a == [] then b
    else if b == [] then a
    else if le(a[0], b[0]) then [a[0]] + Merge(le, a[1..], b)
    else [b[0]] + Merge(le, a, b[1..])
  }

  function Cap(k: nat, n: nat): nat {
    if k < n then k else n
  }

  /** One pass: consecutive runs of length `k` are merged pairwise. */
  function Pass<T>(le: (T, T) -> bool, s: seq<T>, k: nat): seq<T>
    requires k > 0
  {
    if s == [] then []
    else
      var mid, hi := Cap(k, |s|), Cap(2 * k, |s|);
      Merge(le, s[..mid], s[mid..hi]) + Pass(le, s[hi..], k)
  }

  ghost predicate Distinct<T>(s: seq<T>) {
    forall i, j :: 0 <= i < j < |s| ==> s[i] != s[j]
  }

  /** `x` stands before `y` in `s`. */
  ghost predicate Before<T>(s: seq<T>, x: T, y: T) {
    exists i, j :: 0 <= i < j < |s| && s[i] == x && s[j] == y
  }

  /** Total preorder on the members of `s`. */
  ghost predicate TotalPreorder<T>(le: (T, T) -> bool, s: seq<T>) {
    && (forall x, y :: x in s && y in s ==> le(x, y) || le(y, x))
    && (forall x, y, z :: x in s && y in s && z in s && le(x, y) && le(y, z) ==> le(x, z))
  }

  /** Order of the sorted result: by `le`, and equivalent elements in their original order. */
  ghost predicate Less<T>(le: (T, T) -> bool, orig: seq<T>, x: T, y: T) {
    le(x, y) && (le(y, x) ==> Before(orig, x, y))
  }

  ghost predicate Ascending<T>(le: (T, T) -> bool, orig: seq<T>, s: seq<T>) {
    forall i, j :: 0 <= i < j < |s| ==> Less(le, orig, s[i], s[j])
  }

  /** `s` is cut into ascending runs of length `k`, each run holding elements that originally
      stood before those of all later runs. */
  ghost predicate Runs<T>(le: (T, T) -> bool, orig: seq<T>, s: seq<T>, k: nat)
    requires k > 0
  {
    s != [] ==>
      var mid := Cap(k, |s|);
      && Ascending(le, orig, s[..mid])
      && AllBefore(orig, s[..mid], s[mid..])
      && Runs(le, orig, s[mid..], k)
  }

  ghost predicate AllBefore<T>(orig: seq<T>, a: seq<T>, b: seq<T>) {
    forall x, y :: x in a && y in b ==> Before(orig, x, y)
  }

  ghost predicate Within<T>(s: seq<T>, orig: seq<T>) {
    forall x :: x in s ==> x in orig
  }

  lemma LessTransitive<T>(le: (T, T) -> bool, orig: seq<T>, x: T, y: T, z: T)
    requires Distinct(orig) && TotalPreorder(le, orig) && x in orig && y in orig && z in orig
    requires Less(le, orig, x, y) && Less(le, orig, y, z)
    ensures Less(le, orig, x, z)
  {
  }

  lemma {:induction false} MergeMultiset<T>(le: (T, T) -> bool, a: seq<T>, b: seq<T>)
    ensures multiset(Merge(le, a, b)) == multiset(a) + multiset(b)
  {
    if a != [] && b != [] {
      if le(a[0], b[0]) {
        assert a == [a[0]] + a[1..];
        MergeMultiset(le, a[1..], b);
      } else {
        assert b == [b[0]] + b[1..];
        MergeMultiset(le, a, b[1..]);
      }
    }
  }

  lemma {:induction false} MergeMembers<T>(le: (T, T) -> bool, a: seq<T>, b: seq<T>)
    ensures |Merge(le, a, b)| == |a| + |b|
    ensures forall x :: x in Merge(le, a, b) ==> x in a || x in b
  {
    if a != [] && b != [] {
      if le(a[0], b[0]) {
        MergeMembers(le, a[1..], b);
      } else {
        MergeMembers(le, a, b[1..]);
      }
    }
  }

  /** The head goes before everything that is left of both runs. */
  lemma AscendingCons<T>(le: (T, T) -> bool, orig: seq<T>, x: T, s: seq<T>)
    requires Ascending(le, orig, s) && forall y :: y in s ==> Less(le, orig, x, y)
    ensures Ascending(le, orig, [x] + s)
  {
  }

  lemma AscendingUncons<T>(le: (T, T) -> bool, orig: seq<T>, s: seq<T>)
    requires s != [] && Ascending(le, orig, s)
    ensures Ascending(le, orig, s[1..])
    ensures forall y :: y in s[1..] ==> Less(le, orig, s[0], y)
  {
  }

  /** What is below the head of an ascending run is below all of it. */
  lemma BelowHead<T>(le: (T, T) -> bool, orig: seq<T>, x: T, s: seq<T>)
    requires Distinct(orig) && TotalPreorder(le, orig) && x in orig && Within(s, orig)
    requires s != [] && Ascending(le, orig, s) && Less(le, orig, x, s[0])
    ensures forall y :: y in s ==> Less(le, orig, x, y)
  {
    AscendingUncons(le, orig, s);
    forall y | y in s ensures Less(le, orig, x, y) {
      if y != s[0] {
        assert y in s[1..] && s[0] in s;
        LessTransitive(le, orig, x, s[0], y);
      }
    }
  }

  lemma MergeBelow<T>(le: (T, T) -> bool, orig: seq<T>, x: T, a: seq<T>, b: seq<T>)
    requires forall y :: y in a ==> Less(le, orig, x, y)
    requires forall y :: y in b ==> Less(le, orig, x, y)
    ensures forall y :: y in Merge(le, a, b) ==> Less(le, orig, x, y)
  {
    MergeMembers(le, a, b);
  }

  lemma {:induction false} MergeAscending<T>(le: (T, T) -> bool, orig: seq<T>, a: seq<T>, b: seq<T>)
    requires Distinct(orig) && TotalPreorder(le, orig) && Within(a, orig) && Within(b, orig)
    requires Ascending(le, orig, a) && Ascending(le, orig, b) && AllBefore(orig, a, b)
    ensures Ascending(le, orig, Merge(le, a, b))
  {
    if a != [] && b != [] {
      assert a[0] in a && b[0] in b;
      AscendingUncons(le, orig, a);
      AscendingUncons(le, orig, b);
      if le(a[0], b[0]) {
        BelowHead(le, orig, a[0], b);
        MergeAscending(le, orig, a[1..], b);
        MergeBelow(le, orig, a[0], a[1..], b);
        AscendingCons(le, orig, a[0], Merge(le, a[1..], b));
      } else {
        BelowHead(le, orig, b[0], a);
        MergeAscending(le, orig, a, b[1..]);
        MergeBelow(le, orig, b[0], a, b[1..]);
        AscendingCons(le, orig, b[0], Merge(le, a, b[1..]));
      }
    }
  }

  lemma {:induction false} PassMultiset<T>(le: (T, T) -> bool, s: seq<T>, k: nat)
    requires k > 0
    ensures multiset(Pass(le, s, k)) == multiset(s)
    decreases |s|
  {
    if s != [] {
      var mid, hi := Cap(k, |s|), Cap(2 * k, |s|);
      assert s == s[..mid] + s[mid..hi] + s[hi..];
      MergeMultiset(le, s[..mid], s[mid..hi]);
      PassMultiset(le, s[hi..], k);
    }
  }

  lemma {:induction false} PassMembers<T>(le: (T, T) -> bool, s: seq<T>, k: nat)
    requires k > 0
    ensures |Pass(le, s, k)| == |s|
    ensures forall x :: x in Pass(le, s, k) ==> x in s
    decreases |s|
  {
    if s != [] {
      var mid, hi := Cap(k, |s|), Cap(2 * k, |s|);
      assert s == s[..mid] + s[mid..hi] + s[hi..];
      MergeMembers(le, s[..mid], s[mid..hi]);
      PassMembers(le, s[hi..], k);
    }
  }

  /** The first two runs and what follows them. */
  lemma TwoRuns<T>(le: (T, T) -> bool, orig: seq<T>, s: seq<T>, k: nat, a: seq<T>, b: seq<T>, c: seq<T>)
    requires k > 0 && s != [] && Runs(le, orig, s, k)
    requires a == s[..Cap(k, |s|)] && b == s[Cap(k, |s|)..Cap(2 * k, |s|)] && c == s[Cap(2 * k, |s|)..]
    ensures Ascending(le, orig, a) && Ascending(le, orig, b) && Runs(le, orig, c, k)
    ensures AllBefore(orig, a, b) && AllBefore(orig, a, c) && AllBefore(orig, b, c)
    ensures s == a + b + c
  {
    var t := RunSlices(s, k, a, b, c);
    FirstRun(le, orig, s, k, a, t);
    AllBeforeParts(orig, a, b, c);
    if t != [] {
      FirstRun(le, orig, t, k, b, c);
    }
  }

  lemma RunSlices<T>(s: seq<T>, k: nat, a: seq<T>, b: seq<T>, c: seq<T>) returns (t: seq<T>)
    requires a == s[..Cap(k, |s|)] && b == s[Cap(k, |s|)..Cap(2 * k, |s|)] && c == s[Cap(2 * k, |s|)..]
    ensures t == s[Cap(k, |s|)..] == b + c && s == a + b + c
    ensures b == t[..Cap(k, |t|)] && c == t[Cap(k, |t|)..]
  {
    t := s[Cap(k, |s|)..];
  }

  lemma AllBeforeParts<T>(orig: seq<T>, a: seq<T>, b: seq<T>, c: seq<T>)
    requires AllBefore(orig, a, b + c)
    ensures AllBefore(orig, a, b) && AllBefore(orig, a, c)
  {
    forall x, y | x in a && (y in b || y in c) ensures Before(orig, x, y) {
      assert y in b + c;
    }
  }

  lemma FirstRun<T>(le: (T, T) -> bool, orig: seq<T>, s: seq<T>, k: nat, a: seq<T>, b: seq<T>)
    requires k > 0 && s != [] && Runs(le, orig, s, k) && a == s[..Cap(k, |s|)] && b == s[Cap(k, |s|)..]
    ensures Ascending(le, orig, a) && AllBefore(orig, a, b) && Runs(le, orig, b, k)
  {
  }

  /** A pass turns runs of length `k` into runs of length `2k`. */
  lemma {:induction false} PassRuns<T>(le: (T, T) -> bool, orig: seq<T>, s: seq<T>, k: nat)
    requires k > 0 && Distinct(orig) && TotalPreorder(le, orig) && Within(s, orig)
    requires Runs(le, orig, s, k)
    ensures Runs(le, orig, Pass(le, s, k), 2 * k)
    decreases |s|
  {
    if s != [] {
      var mid, hi := Cap(k, |s|), Cap(2 * k, |s|);
      var a, b, c := s[..mid], s[mid..hi], s[hi..];
      TwoRuns(le, orig, s, k, a, b, c);
      MergeAscending(le, orig, a, b);
      PassRuns(le, orig, c, k);
      MergedBefore(le, orig, a, b, c, k);
      RunsCons(le, orig, Merge(le, a, b), Pass(le, c, k), 2 * k);
    }
  }

  lemma MergedBefore<T>(le: (T, T) -> bool, orig: seq<T>, a: seq<T>, b: seq<T>, c: seq<T>, k: nat)
    requires k > 0 && AllBefore(orig, a, c) && AllBefore(orig, b, c)
    ensures AllBefore(orig, Merge(le, a, b), Pass(le, c, k))
    ensures |Merge(le, a, b)| == |a| + |b| && |Pass(le, c, k)| == |c|
  {
    MergeMembers(le, a, b);
    PassMembers(le, c, k);
    BeforeMembers(orig, a, b, c, Merge(le, a, b), Pass(le, c, k));
  }

  lemma BeforeMembers<T>(orig: seq<T>, a: seq<T>, b: seq<T>, c: seq<T>, m: seq<T>, r: seq<T>)
    requires AllBefore(orig, a, c) && AllBefore(orig, b, c)
    requires (forall x :: x in m ==> x in a || x in b) && (forall y :: y in r ==> y in c)
    ensures AllBefore(orig, m, r)
  {
    forall x, y | x in m && y in r ensures Before(orig, x, y) {
    }
  }

  lemma RunsCons<T>(le: (T, T) -> bool, orig: seq<T>, m: seq<T>, r: seq<T>, k: nat)
    requires k > 0 && m != [] && |m| <= k && (|m| == k || r == [])
    requires Ascending(le, orig, m) && AllBefore(orig, m, r) && Runs(le, orig, r, k)
    ensures Runs(le, orig, m + r, k)
  {
    var s := m + r;
    assert s[..Cap(k, |s|)] == m && s[Cap(k, |s|)..] == r;
  }

  lemma {:induction false} SinglesAreRuns<T>(le: (T, T) -> bool, orig: seq<T>, from: nat)
    requires from <= |orig|
    ensures Runs(le, orig, orig[from..], 1)
    decreases |orig| - from
  {
    if from < |orig| {
      SinglesAreRuns(le, orig, from + 1);
      var s := orig[from..];
      assert s[1..] == orig[from + 1..];
      forall x, y | x in s[..1] && y in s[1..] ensures Before(orig, x, y) {
        assert x == orig[from];
        var j :| 0 <= j < |s[1..]| && s[1..][j] == y;
        assert orig[from + 1 + j] == y;
      }
    }
  }

  /** No two different elements stand before each other. */
  lemma BeforeAsymmetric<T>(s: seq<T>, x: T, y: T)
    requires Distinct(s) && Before(s, x, y)
    ensures !Before(s, y, x) && x != y
  {
  }

  lemma BeforeTotal<T>(s: seq<T>, x: T, y: T)
    requires x in s && y in s && x != y
    ensures Before(s, x, y) || Before(s, y, x)
  {
    var i :| 0 <= i < |s| && s[i] == x;
    var j :| 0 <= j < |s| && s[j] == y;
  }

  lemma LessAsymmetric<T>(le: (T, T) -> bool, orig: seq<T>, x: T, y: T)
    requires Distinct(orig) && Less(le, orig, x, y)
    ensures !Less(le, orig, y, x)
  {
    if Less(le, orig, y, x) {
      BeforeAsymmetric(orig, x, y);
    }
  }

  lemma {:induction false} DistinctCounts<T>(s: seq<T>, x: T)
    requires Distinct(s)
    ensures multiset(s)[x] <= 1
    decreases |s|
  {
    if s != [] {
      DropFirst(s);
      DistinctCounts(s[1..], x);
      assert s[0] !in s[1..];
    }
  }

  /** Reordering keeps elements different. */
  lemma DistinctPermuted<T>(a: seq<T>, b: seq<T>)
    requires Distinct(a) && multiset(a) == multiset(b)
    ensures Distinct(b)
  {
    forall i, j | 0 <= i < j < |b| ensures b[i] != b[j] {
      DistinctCounts(a, b[i]);
      assert b == b[..j] + b[j..];
      assert multiset(b) == multiset(b[..j]) + multiset(b[j..]);
      assert b[..j][i] == b[i] && b[j..][0] == b[j];
    }
  }

  lemma DropFirst<T>(s: seq<T>)
    requires s != []
    ensures multiset(s[1..]) == multiset(s) - multiset{s[0]}
  {
    assert s == [s[0]] + s[1..];
  }

  lemma SameFirst<T>(le: (T, T) -> bool, orig: seq<T>, a: seq<T>, b: seq<T>)
    requires Distinct(orig) && a != [] && multiset(a) == multiset(b)
    requires Ascending(le, orig, a) && Ascending(le, orig, b)
    ensures b != [] && a[0] == b[0]
  {
    assert a[0] in multiset(a);
    assert a[0] in b;
    assert b[0] in multiset(b);
    assert b[0] in a;
    AscendingUncons(le, orig, a);
    AscendingUncons(le, orig, b);
    if a[0] != b[0] {
      assert Less(le, orig, a[0], b[0]);
      LessAsymmetric(le, orig, a[0], b[0]);
    }
  }

  /** There is only one sorted and stable arrangement. */
  lemma {:induction false} AscendingUnique<T>(le: (T, T) -> bool, orig: seq<T>, a: seq<T>, b: seq<T>)
    requires Distinct(orig) && multiset(a) == multiset(b)
    requires Ascending(le, orig, a) && Ascending(le, orig, b)
    ensures a == b
    decreases |a|
  {
    if a == [] {
      assert |b| == |multiset(b)| == 0;
    } else {
      SameFirst(le, orig, a, b);
      assert a[1..] == b[1..] by {
        DropFirst(a);
        DropFirst(b);
        AscendingUncons(le, orig, a);
        AscendingUncons(le, orig, b);
        AscendingUnique(le, orig, a[1..], b[1..]);
      }
      SameCons(a, b);
    }
  }

  lemma SameCons<T>(a: seq<T>, b: seq<T>)
    requires a != [] && b != [] && a[0] == b[0] && a[1..] == b[1..]
    ensures a == b
  {
    assert a == [a[0]] + a[1..] && b == [b[0]] + b[1..];
  }

  /** A single run is the whole sorted result. */
  lemma OneRunAscending<T>(le: (T, T) -> bool, orig: seq<T>, s: seq<T>, k: nat)
    requires k > 0 && Runs(le, orig, s, k) && |s| <= k
    ensures Ascending(le, orig, s)
  {
    if s != [] {
      assert s[..Cap(k, |s|)] == s;
    }
  }
}
