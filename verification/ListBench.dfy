/**
  The list benchmark of CoreMark: the searches that reorder the list, and the sorts that bring it back to its
  original state.
  */
module ListBench {
  import opened MergeSpec
  import opened ListCompare
  import opened CoreList

  // ----- the sorts of core_bench_list -----

  /** The low byte repeats the high byte, as core_list_init writes it. */
  ghost predicate HasBackup(d: bv16) {
    d & 0x00ff == d >> 8
  }

  lemma FromBackup(d: bv16, sorted: bv16, was: bv16)
    requires HasBackup(was) && sorted >> 8 == was >> 8 && Regenerated(d, sorted)
    ensures d == was
  {
  }

  /** The high bytes of the items are those of `was`. */
  ghost predicate HighBytes(nodes: seq<ListHead>, was: seq<bv16>)
    reads nodes, Infos(nodes)
  {
    |was| == |nodes| && forall k :: 0 <= k < |nodes| ==> nodes[k].info.data16 >> 8 == was[k] >> 8
  }

  lemma SameInfos(a: seq<ListHead>, b: seq<ListHead>)
    requires multiset(a) == multiset(b)
    ensures Infos(a) == Infos(b)
  {
    SameNodes(a, b);
  }

  // ----- the order that the two sorts leave -----

  /** The values by which the first sort orders the nodes; all are equal if it does not take place. */
  function Values(byContent: bool, kernels: Kernels, data: seq<bv16>, res: Results): (values: seq<nat>)
    ensures |values| == |data|
    ensures forall k :: 0 <= k < |data| ==>
      values[k] == if byContent then ValueOf(kernels, data[k], CalculatedTo(kernels, data, res, k)) as nat else 0
  {
    seq(|data|, k requires 0 <= k < |data| =>
      if byContent then ValueOf(kernels, data[k], CalculatedTo(kernels, data, res, k)) as nat else 0)
  }

  /** Smaller value, or equal value and earlier position. */
  predicate Smaller(values: seq<nat>, k: nat, l: nat)
    requires k < |values| && l < |values|
  {
    values[k] < values[l] || (values[k] == values[l] && k < l)
  }

  /** `sorted` holds the nodes in the order of their values, equal ones in their order in the list. */
  ghost predicate ValueOrder(nodes: seq<ListHead>, values: seq<nat>, sorted: seq<ListHead>)
    requires |values| == |nodes|
  {
    forall k, l :: 0 <= k < |nodes| && 0 <= l < |nodes| ==>
      (Before(sorted, nodes[k], nodes[l]) <==> Smaller(values, k, l))
  }

  /** Smaller index, or equal index and smaller value, or equal index and value and earlier position. */
  ghost predicate Earlier(nodes: seq<ListHead>, values: seq<nat>, k: nat, l: nat)
    requires k < |nodes| && l < |nodes| && |values| == |nodes|
    reads nodes`info
  {
    nodes[k].info.idx < nodes[l].info.idx || (nodes[k].info.idx == nodes[l].info.idx && Smaller(values, k, l))
  }

  /** `orig` holds the nodes by index, then by value, then by position in the list. */
  ghost predicate Returns(nodes: seq<ListHead>, values: seq<nat>, orig: seq<ListHead>)
    requires |values| == |nodes|
    reads nodes`info
  {
    forall k, l :: 0 <= k < |nodes| && 0 <= l < |nodes| && Earlier(nodes, values, k, l) ==>
      Before(orig, nodes[k], nodes[l])
  }

  lemma ListOrder(nodes: seq<ListHead>, values: seq<nat>)
    requires Distinct(nodes) && |values| == |nodes| && forall k :: 0 <= k < |values| ==> values[k] == 0
    ensures ValueOrder(nodes, values, nodes)
  {
    forall k, l | 0 <= k < |nodes| && 0 <= l < |nodes| ensures Before(nodes, nodes[k], nodes[l]) <==> k < l {
      if l < k {
        BeforeAsymmetric(nodes, nodes[l], nodes[k]);
      }
    }
  }

  /** Sorting by content puts the nodes in the order of their values. */
  lemma ContentOrdersValues(nodes: seq<ListHead>, kernels: Kernels, data: seq<bv16>, res0: Results, res: Results,
                            sorted: seq<ListHead>)
    requires Distinct(nodes) && Distinct(sorted) && multiset(sorted) == multiset(nodes)
    requires ByContent(nodes, kernels, data, res0, res, sorted)
    ensures ValueOrder(nodes, Values(true, kernels, data, res0), sorted)
  {
    var values := Values(true, kernels, data, res0);
    SameNodes(sorted, nodes);
    forall k | 0 <= k < |nodes| ensures CachedValue(nodes[k]) as nat == values[k] {
      DataAfterReads(kernels, data[k], CalculatedTo(kernels, data, res0, k));
    }
    forall k, l | 0 <= k < |nodes| && 0 <= l < |nodes| && Before(sorted, nodes[k], nodes[l])
      ensures Smaller(values, k, l)
    {
      BeforeIsSmaller(nodes, sorted, k, l);
    }
    TotalOrders(nodes, values, sorted);
  }

  lemma BeforeIsSmaller(nodes: seq<ListHead>, sorted: seq<ListHead>, k: nat, l: nat)
    requires Distinct(nodes) && k < |nodes| && l < |nodes| && Before(sorted, nodes[k], nodes[l])
    requires forall i, j :: 0 <= i < j < |sorted| ==>
      && AtMost(CachedValue(sorted[i]), CachedValue(sorted[j]))
      && (CachedValue(sorted[i]) == CachedValue(sorted[j]) ==> Before(nodes, sorted[i], sorted[j]))
    ensures CachedValue(nodes[k]) as nat <= CachedValue(nodes[l]) as nat
    ensures CachedValue(nodes[k]) == CachedValue(nodes[l]) ==> k < l
  {
    var i, j :| 0 <= i < j < |sorted| && sorted[i] == nodes[k] && sorted[j] == nodes[l];
    assert AtMost(CachedValue(sorted[i]), CachedValue(sorted[j]));
    if CachedValue(nodes[k]) == CachedValue(nodes[l]) {
      PositionsBefore(nodes, k, l);
    }
  }

  lemma PositionsBefore(nodes: seq<ListHead>, k: nat, l: nat)
    requires Distinct(nodes) && k < |nodes| && l < |nodes|
    ensures Before(nodes, nodes[k], nodes[l]) <==> k < l
  {
    if l < k {
      BeforeAsymmetric(nodes, nodes[l], nodes[k]);
    }
  }

  /** One direction suffices, because both orders are total. */
  lemma TotalOrders(nodes: seq<ListHead>, values: seq<nat>, sorted: seq<ListHead>)
    requires Distinct(nodes) && |values| == |nodes| && forall n :: n in nodes ==> n in sorted
    requires forall k, l :: 0 <= k < |nodes| && 0 <= l < |nodes| && Before(sorted, nodes[k], nodes[l]) ==>
      Smaller(values, k, l)
    ensures ValueOrder(nodes, values, sorted)
  {
    forall k, l | 0 <= k < |nodes| && 0 <= l < |nodes| && Smaller(values, k, l)
      ensures Before(sorted, nodes[k], nodes[l])
    {
      assert k != l && nodes[k] != nodes[l];
      BeforeTotal(sorted, nodes[k], nodes[l]);
    }
  }

  lemma StableReturns(nodes: seq<ListHead>, values: seq<nat>, sorted: seq<ListHead>, orig: seq<ListHead>)
    requires Distinct(nodes) && |values| == |nodes| && ValueOrder(nodes, values, sorted)
    requires forall n :: n in nodes ==> n in orig
    requires SortedStable(ByIdx, sorted, orig)
    ensures Returns(nodes, values, orig)
  {
    forall k, l | 0 <= k < |nodes| && 0 <= l < |nodes| && Earlier(nodes, values, k, l)
      ensures Before(orig, nodes[k], nodes[l])
    {
      assert k != l && nodes[k] != nodes[l];
      BeforeTotal(orig, nodes[k], nodes[l]);
      if Before(orig, nodes[l], nodes[k]) {
        StableBefore(sorted, orig, nodes[l], nodes[k]);
      }
    }
  }

  lemma StableBefore(sorted: seq<ListHead>, orig: seq<ListHead>, x: ListHead, y: ListHead)
    requires SortedStable(ByIdx, sorted, orig) && Before(orig, x, y)
    ensures x.info.idx <= y.info.idx && (x.info.idx == y.info.idx ==> Before(sorted, x, y))
  {
    var i, j :| 0 <= i < j < |orig| && orig[i] == x && orig[j] == y;
    assert ByIdx(orig[i].info, orig[j].info);
  }

  lemma ReturnsStable(nodes: seq<ListHead>, values: seq<nat>, sorted: seq<ListHead>, orig: seq<ListHead>)
    requires Distinct(nodes) && Distinct(orig) && |values| == |nodes| && ValueOrder(nodes, values, sorted)
    requires forall n :: n in orig ==> n in nodes
    requires Returns(nodes, values, orig)
    ensures SortedStable(ByIdx, sorted, orig)
  {
    forall i, j | 0 <= i < j < |orig|
      ensures ByIdx(orig[i].info, orig[j].info)
      ensures ByIdx(orig[j].info, orig[i].info) ==> Before(sorted, orig[i], orig[j])
    {
      assert orig[i] in nodes && orig[j] in nodes;
      var k :| 0 <= k < |nodes| && nodes[k] == orig[i];
      var l :| 0 <= l < |nodes| && nodes[l] == orig[j];
      BeforeAsymmetric(orig, orig[i], orig[j]);
      assert !Earlier(nodes, values, l, k);
    }
  }

  /** With increasing indices neither values nor positions matter. */
  lemma IncreasingReturns(nodes: seq<ListHead>, values: seq<nat>, orig: seq<ListHead>)
    requires Distinct(nodes) && |values| == |nodes| && (forall n :: n in nodes ==> n in orig) && IdxIncreases(orig)
    ensures Returns(nodes, values, orig)
  {
    forall k, l | 0 <= k < |nodes| && 0 <= l < |nodes| && Earlier(nodes, values, k, l)
      ensures Before(orig, nodes[k], nodes[l])
    {
      assert nodes[k] in orig && nodes[l] in orig;
      var i :| 0 <= i < |orig| && orig[i] == nodes[k];
      var j :| 0 <= j < |orig| && orig[j] == nodes[l];
    }
  }

  // ----- the sorts -----

  /** The first sort, if asked for. */
  method FirstSort(list0: ListHead, cmp: Comparator, byContent: bool, ghost nodes: seq<ListHead>)
    returns (list: ListHead?, ghost sorted: seq<ListHead>)
    requires |nodes| > 1 && IsList(list0, nodes) && OwnInfos(nodes) && cmp.mode.Calculate?
    modifies nodes`next, Infos(nodes)`data16, cmp`res
    ensures IsList(list, sorted) && multiset(sorted) == multiset(nodes) && |sorted| == |nodes|
    ensures forall n :: n in nodes ==> n.info == old(n.info)
    ensures HighBytes(nodes, old(Data(nodes)))
    ensures ValueOrder(nodes, Values(byContent, cmp.kernels, old(Data(nodes)), old(cmp.res)), sorted)
  {
    if byContent {
      list, sorted := SortByContent(list0, cmp, nodes);
      ContentOrdersValues(nodes, cmp.kernels, old(Data(nodes)), old(cmp.res), cmp.res, sorted);
      assert |sorted| == |multiset(sorted)| == |multiset(nodes)| == |nodes|;
    } else {
      list, sorted := list0, nodes;
      ListOrder(nodes, Values(byContent, cmp.kernels, Data(nodes), cmp.res));
    }
  }

  /** The first sort, and taking an item out of the list and putting it back. */
  method SortAndUndo(list0: ListHead, cmp: Comparator, byContent: bool, ghost nodes: seq<ListHead>)
    returns (list: ListHead?, ghost sorted: seq<ListHead>)
    requires |nodes| >= 3 && IsList(list0, nodes) && OwnInfos(nodes) && cmp.mode.Calculate?
    modifies nodes, Infos(nodes)`data16, cmp`res
    ensures IsList(list, sorted) && multiset(sorted) == multiset(nodes) && sorted != []
    ensures forall n :: n in nodes ==> n.info == old(n.info)
    ensures HighBytes(nodes, old(Data(nodes)))
    ensures ValueOrder(nodes, Values(byContent, cmp.kernels, old(Data(nodes)), old(cmp.res)), sorted)
  {
    list, sorted := FirstSort(list0, cmp, byContent, nodes);
    SameNodes(sorted, nodes);
    assert sorted[0].next == sorted[1] && sorted[1].next == sorted[2];
    assert sorted[1] in nodes && sorted[2] in nodes;
    var removed := RemoveAndUndo(list.next);
  }

  /** Sorting by index brings back the data from the high bytes, and the order where the indices decide it. */
  method RestoreFromBackup(list0: ListHead, ghost sorted: seq<ListHead>, ghost nodes: seq<ListHead>,
                           ghost orig: seq<ListHead>, ghost was: seq<bv16>)
    returns (list: ListHead?)
    requires |nodes| > 1 && sorted != [] && IsList(list0, sorted)
    requires multiset(sorted) == multiset(nodes) == multiset(orig)
    requires HighBytes(nodes, was) && forall k :: 0 <= k < |was| ==> HasBackup(was[k])
    modifies Members(sorted)`next, Infos(sorted)`data16
    ensures IsList(list, orig) <==> SortedStable(ByIdx, sorted, orig)
    ensures Data(nodes) == was && forall n :: n in nodes ==> n.info == old(n.info)
  {
    SameNodes(orig, nodes);
    assert |orig| == |multiset(orig)| == |multiset(nodes)| == |nodes|;
    list := RestoreByIdx(list0, sorted, orig);
    forall k | 0 <= k < |nodes| ensures nodes[k].info.data16 == was[k] {
      assert nodes[k] in orig;
      FromBackup(nodes[k].info.data16, old(nodes[k].info.data16), was[k]);
    }
  }

  lemma ReturnsIffStable(nodes: seq<ListHead>, values: seq<nat>, sorted: seq<ListHead>, orig: seq<ListHead>)
    requires Distinct(nodes) && multiset(orig) == multiset(nodes)
    requires |values| == |nodes| && ValueOrder(nodes, values, sorted)
    ensures SortedStable(ByIdx, sorted, orig) <==> Returns(nodes, values, orig)
    ensures IdxIncreases(orig) ==> Returns(nodes, values, orig)
  {
    SameNodes(orig, nodes);
    DistinctPermuted(nodes, orig);
    if SortedStable(ByIdx, sorted, orig) {
      StableReturns(nodes, values, sorted, orig);
    }
    if Returns(nodes, values, orig) {
      ReturnsStable(nodes, values, sorted, orig);
    }
    if IdxIncreases(orig) {
      IncreasingReturns(nodes, values, orig);
    }
  }

  /** Sorting by content or not, taking an item out and putting it back, and sorting by index. Whatever the
      order before, every data pointer and every item is as it was; the nodes are linked in the order `orig`
      if and only if `orig` holds them by index, then by value, then by position, and so whenever the
      indices increase along `orig`. */
  method SortAndRestore(list0: ListHead, cmp: Comparator, byContent: bool, ghost nodes: seq<ListHead>,
                        ghost orig: seq<ListHead>)
    returns (list: ListHead?)
    requires |nodes| >= 3 && IsList(list0, nodes) && OwnInfos(nodes) && cmp.mode.Calculate?
    requires multiset(orig) == multiset(nodes)
    requires forall k :: 0 <= k < |nodes| ==> HasBackup(nodes[k].info.data16)
    modifies Members(nodes), Infos(nodes)`data16, cmp`res
    ensures forall n :: n in nodes ==> n.info == old(n.info) && n.info.data16 == old(n.info.data16)
    ensures IsList(list, orig) <==>
            Returns(nodes, Values(byContent, cmp.kernels, Data(nodes), old(cmp.res)), orig)
    ensures IdxIncreases(orig) ==> IsList(list, orig)
  {
    ghost var was := Data(nodes);
    ghost var values := Values(byContent, cmp.kernels, was, cmp.res);
    ghost var sorted;
    list, sorted := SortAndUndo(list0, cmp, byContent, nodes);
    SameNodes(sorted, nodes);
    SameInfos(sorted, nodes);
    assert Infos(nodes) == old(Infos(nodes));
    list := RestoreFromBackup(list, sorted, nodes, orig, was);
    ReturnsIffStable(nodes, values, sorted, orig);
    assert forall k :: 0 <= k < |nodes| ==> nodes[k].info.data16 == was[k] == old(nodes[k].info.data16);
  }

  // ----- the searches -----

  function LowByte(d: bv16): nat {
    (d & 0x00ff) as nat
  }

  /** What core_list_find looks for: an index, or with a negative index a low byte. */
  ghost predicate Matches(d: ListData, idx: int, data: nat)
    reads d`data16
  {
    if idx >= 0 then d.idx == idx else LowByte(d.data16) == data
  }

  /** The first match of a search is at position k; k is the length of the list if there is none. */
  ghost predicate FoundAt(nodes: seq<ListHead>, idx: int, data: nat, k: nat)
    reads nodes`info, Infos(nodes)`data16
  {
    && k <= |nodes| && (forall i :: 0 <= i < k ==> !Matches(nodes[i].info, idx, data))
    && (k < |nodes| ==> Matches(nodes[k].info, idx, data))
  }

  /** core_list_find */
  method Find(list0: ListHead?, idx: int, data: nat, ghost nodes: seq<ListHead>)
    returns (list: ListHead?, ghost k: nat)
    requires IsList(list0, nodes)
    ensures FoundAt(nodes, idx, data, k) && list == Nth(nodes, k)
  {
    list, k := list0, 0;
    while list != null && (if idx >= 0 then list.info.idx != idx else (list.info.data16 & 0x00ff) as nat != data)
      invariant k <= |nodes| && list == Nth(nodes, k)
      invariant forall i :: 0 <= i < k ==> !Matches(nodes[i].info, idx, data)
      decreases |nodes| - k
    {
      list, k := list.next, k + 1;
    }
  }

  /** Node p + 1 moved behind the head. */
  ghost function MovedUp(s: seq<ListHead>, p: nat): seq<ListHead>
    requires p + 1 < |s|
  {
    [s[0], s[p + 1]] + s[1..p + 1] + s[p + 2..]
  }

  lemma MovedUpSame(s: seq<ListHead>, p: nat)
    requires p + 1 < |s|
    ensures multiset(MovedUp(s, p)) == multiset(s)
  {
    assert s == [s[0]] + s[1..p + 1] + [s[p + 1]] + s[p + 2..];
  }

  lemma MovedUpAt(s: seq<ListHead>, p: nat, i: nat)
    requires p + 1 < |s| && i <= |s|
    ensures Nth(MovedUp(s, p), i) ==
            Nth(s, if i == 0 then 0 else if i == 1 then p + 1 else if i <= p + 1 then i - 1 else i)
  {
  }

  /** Moves the item after the one found behind the head of the list. */
  method MoveUp(list: ListHead, found: ListHead, ghost s: seq<ListHead>, ghost p: nat)
    requires IsList(list, s) && p + 1 < |s| && found == s[p]
    modifies Members(s)`next
    ensures IsList(list, MovedUp(s, p))
  {
    ghost var r := MovedUp(s, p);
    MovedUpSame(s, p);
    DistinctPermuted(s, r);
    assert s[p].next == Nth(s, p + 1) && s[p + 1].next == Nth(s, p + 2) && s[0].next == Nth(s, 1);
    var finder := found.next;
    found.next := finder.next;
    finder.next := list.next;
    list.next := finder;
    forall i | 0 <= i < |r| ensures r[i].next == Nth(r, i + 1) {
      MovedUpAt(s, p, i);
      MovedUpAt(s, p, i + 1);
    }
  }

  /** The list after the item that follows node p, if there is one, has moved up. */
  ghost function AfterMove(s: seq<ListHead>, p: nat): seq<ListHead> {
    if p + 1 < |s| then MovedUp(s, p) else s
  }

  method MoveFollowing(list: ListHead?, found: ListHead, ghost s: seq<ListHead>, ghost p: nat)
    requires IsList(list, s) && p < |s| && found == s[p]
    modifies Members(s)`next
    ensures IsList(list, AfterMove(s, p)) && multiset(AfterMove(s, p)) == multiset(s)
  {
    assert s[p].next == Nth(s, p + 1);
    if found.next != null {
      MoveUp(list, found, s, p);
      MovedUpSame(s, p);
    }
  }

  /** One turn of the search loop: the list is reversed, and the item after the one found moves up. */
  ghost function AfterSearch(nodes: seq<ListHead>, k: nat): seq<ListHead> {
    if k < |nodes| then AfterMove(Reversed(nodes), |nodes| - 1 - k) else Reversed(nodes)
  }

  /** The node before the one found comes second, behind the last one, and the others are reversed; if the first
      node is found, or none, the list is only reversed. */
  lemma AfterSearchIs(nodes: seq<ListHead>, k: nat)
    ensures k == 0 || k >= |nodes| ==> AfterSearch(nodes, k) == Reversed(nodes)
    ensures 0 < k < |nodes| ==>
      var after := AfterSearch(nodes, k);
      && |after| == |nodes| && after[0] == nodes[|nodes| - 1] && after[1] == nodes[k - 1]
      && [after[0]] + after[2..] == Reversed(nodes[..k - 1] + nodes[k..])
  {
    ReversedIs(nodes);
    if 0 < k < |nodes| {
      ReversedWithout(nodes, k - 1);
      MovedUpIs(Reversed(nodes), |nodes| - 1 - k);
    }
  }

  lemma MovedUpIs(s: seq<ListHead>, p: nat)
    requires p + 1 < |s|
    ensures var t := MovedUp(s, p);
      |t| == |s| && t[0] == s[0] && t[1] == s[p + 1] && [t[0]] + t[2..] == s[..p + 1] + s[p + 2..]
  {
    assert s[..p + 1] == [s[0]] + s[1..p + 1];
  }

  lemma ReversedWithout(nodes: seq<ListHead>, j: nat)
    requires j < |nodes|
    ensures |Reversed(nodes)| == |nodes|
    ensures Reversed(nodes[..j] + nodes[j + 1..]) ==
            Reversed(nodes)[..|nodes| - 1 - j] + Reversed(nodes)[|nodes| - j..]
  {
    ReversedIs(nodes);
    ReversedIs(nodes[..j] + nodes[j + 1..]);
  }

  method SearchOnce(list0: ListHead, idx: int, data: nat, ghost nodes: seq<ListHead>)
    returns (list: ListHead?, ghost after: seq<ListHead>, ghost k: nat)
    requires nodes != [] && IsList(list0, nodes)
    modifies Members(nodes)`next
    ensures old(FoundAt(nodes, idx, data, k)) && after == AfterSearch(nodes, k)
    ensures IsList(list, after) && multiset(after) == multiset(nodes)
  {
    var found;
    found, k := Find(list0, idx, data, nodes);
    list, after := ReverseAndMove(list0, found, nodes, k);
  }

  lemma ReversedNth(nodes: seq<ListHead>, k: nat)
    ensures |Reversed(nodes)| == |nodes| && (k < |nodes| ==> Reversed(nodes)[|nodes| - 1 - k] == nodes[k])
  {
    ReversedIs(nodes);
  }

  method ReverseAndMove(list0: ListHead, found: ListHead?, ghost nodes: seq<ListHead>, ghost k: nat)
    returns (list: ListHead?, ghost after: seq<ListHead>)
    requires IsList(list0, nodes) && k <= |nodes| && found == Nth(nodes, k)
    modifies Members(nodes)`next
    ensures after == AfterSearch(nodes, k) && IsList(list, after) && multiset(after) == multiset(nodes)
  {
    ghost var r := Reversed(nodes);
    ReversedNth(nodes, k);
    ReversedMultiset(nodes);
    list := Reverse(list0, nodes);
    after := r;
    if found != null {
      ghost var p: nat := |nodes| - 1 - k;
      assert Members(r) == Members(nodes) by { SameNodes(r, nodes); }
      MoveFollowing(list, found, r, p);
      after := AfterMove(r, p);
    }
  }

  /** The next index to look for: a 16-bit number that counts up unless it is negative. */
  function NextIdx(idx: int): int {
    if idx < 0 then idx else if idx == 0x7fff then -0x8000 else idx + 1
  }

  /** The number of searches; none for a negative parameter. */
  function Count(number: int): (n: nat)
    ensures number >= 0 ==> n == number
    ensures number < 0 ==> n == 0
  {
    if number < 0 then 0 else number
  }

  /** The index that search number i looks for. */
  function IdxAt(finderIdx: int, i: nat): int {
    if i == 0 then finderIdx else NextIdx(IdxAt(finderIdx, i - 1))
  }

  /** A negative index stays, and another one counts the searches as long as it fits 15 bits; then it is the
      least 16-bit number. */
  lemma {:induction false} IdxCounts(finderIdx: int, i: nat)
    ensures finderIdx < 0 ==> IdxAt(finderIdx, i) == finderIdx
    ensures 0 <= finderIdx && finderIdx + i <= 0x7fff ==> IdxAt(finderIdx, i) == finderIdx + i
    ensures 0 <= finderIdx <= 0x7fff < finderIdx + i ==> IdxAt(finderIdx, i) == -0x8000
  {
    if i > 0 {
      IdxCounts(finderIdx, i - 1);
    }
  }

  /** What the searches compare: the index and the low byte of each item. */
  ghost function Keys(nodes: seq<ListHead>): (keys: map<ListHead, (int, nat)>)
    reads nodes`info, Infos(nodes)`data16
    ensures forall n :: n in nodes ==> n in keys && keys[n] == (n.info.idx, LowByte(n.info.data16))
  {
    map n | n in nodes :: (n.info.idx, LowByte(n.info.data16))
  }

  /** The node is what the search looks for. */
  predicate KeyMatches(keys: map<ListHead, (int, nat)>, n: ListHead, idx: int, data: nat) {
    n in keys && if idx >= 0 then keys[n].0 == idx else keys[n].1 == data
  }

  /** The position of the first match; the length of the list if there is none. */
  ghost function FirstMatch(nodes: seq<ListHead>, keys: map<ListHead, (int, nat)>, idx: int, data: nat): nat {
    if nodes == [] || KeyMatches(keys, nodes[0], idx, data) then 0
    else 1 + FirstMatch(nodes[1..], keys, idx, data)
  }

  /** By index if that is not negative, else by byte. */
  lemma FirstMatchIs(nodes: seq<ListHead>, keys: map<ListHead, (int, nat)>, idx: int, data: nat, k: nat)
    requires k <= |nodes| && forall n :: n in nodes ==> n in keys
    ensures idx >= 0 ==> (FirstMatch(nodes, keys, idx, data) == k <==>
      (forall i :: 0 <= i < k ==> keys[nodes[i]].0 != idx) && (k < |nodes| ==> keys[nodes[k]].0 == idx))
    ensures idx < 0 ==> (FirstMatch(nodes, keys, idx, data) == k <==>
      (forall i :: 0 <= i < k ==> keys[nodes[i]].1 != data) && (k < |nodes| ==> keys[nodes[k]].1 == data))
  {
    FirstIs(nodes, keys, idx, data, k);
    forall i | 0 <= i < |nodes| ensures KeyMatches(keys, nodes[i], idx, data) <==>
      if idx >= 0 then keys[nodes[i]].0 == idx else keys[nodes[i]].1 == data
    {
      assert nodes[i] in nodes;
    }
  }

  lemma {:induction false} FirstIs(nodes: seq<ListHead>, keys: map<ListHead, (int, nat)>, idx: int, data: nat,
                                   k: nat)
    ensures FirstMatch(nodes, keys, idx, data) == k <==>
      && k <= |nodes| && (forall i :: 0 <= i < k ==> !KeyMatches(keys, nodes[i], idx, data))
      && (k < |nodes| ==> KeyMatches(keys, nodes[k], idx, data))
    decreases |nodes|
  {
    if nodes != [] && !KeyMatches(keys, nodes[0], idx, data) && k > 0 {
      FirstIs(nodes[1..], keys, idx, data, k - 1);
      assert forall i :: 0 < i < |nodes| ==> nodes[i] == nodes[1..][i - 1];
    }
  }

  lemma AfterSearchSame(nodes: seq<ListHead>, k: nat)
    ensures multiset(AfterSearch(nodes, k)) == multiset(nodes)
  {
    ReversedIs(nodes);
    ReversedMultiset(nodes);
    if 0 < k < |nodes| {
      MovedUpSame(Reversed(nodes), |nodes| - 1 - k);
    }
  }

  /** One search. */
  ghost function SearchedOnce(nodes: seq<ListHead>, keys: map<ListHead, (int, nat)>, idx: int, data: nat)
    : (after: seq<ListHead>)
    ensures multiset(after) == multiset(nodes)
  {
    var k := FirstMatch(nodes, keys, idx, data);
    AfterSearchSame(nodes, k);
    AfterSearch(nodes, k)
  }

  /** The order of the list after the first i searches. */
  ghost function Reordered(nodes: seq<ListHead>, keys: map<ListHead, (int, nat)>, finderIdx: int, i: nat)
    : (after: seq<ListHead>)
    ensures multiset(after) == multiset(nodes)
  {
    if i == 0 then nodes
    else SearchedOnce(Reordered(nodes, keys, finderIdx, i - 1), keys, IdxAt(finderIdx, i - 1), (i - 1) % 256)
  }

  lemma {:induction false} NoMatch(nodes: seq<ListHead>, keys: map<ListHead, (int, nat)>, idx: int, data: nat)
    requires forall n :: n in nodes ==> !KeyMatches(keys, n, idx, data)
    ensures FirstMatch(nodes, keys, idx, data) == |nodes|
    decreases |nodes|
  {
    if nodes != [] {
      assert nodes[0] in nodes;
      NoMatch(nodes[1..], keys, idx, data);
    }
  }

  /** The list reversed i times. */
  ghost function Turned(nodes: seq<ListHead>, i: nat): seq<ListHead> {
    if i == 0 then nodes else Reversed(Turned(nodes, i - 1))
  }

  lemma {:induction false} TurnedByParity(nodes: seq<ListHead>, i: nat)
    ensures Turned(nodes, i) == if i % 2 == 0 then nodes else Reversed(nodes)
  {
    if i >= 2 {
      TurnedByParity(nodes, i - 2);
      TurnedTwice(nodes, i - 2);
    } else if i == 1 {
      assert Turned(nodes, 0) == nodes;
    }
  }

  lemma TurnedTwice(nodes: seq<ListHead>, i: nat)
    ensures Turned(nodes, i + 2) == Turned(nodes, i)
  {
    var s := Turned(nodes, i);
    assert Turned(nodes, i + 1) == Reversed(s);
    ReversedTwice(s);
  }

  /** Search number j finds none of the nodes. */
  ghost predicate FindsNothing(nodes: seq<ListHead>, keys: map<ListHead, (int, nat)>, finderIdx: int, j: nat) {
    forall n :: n in nodes ==> !KeyMatches(keys, n, IdxAt(finderIdx, j), j % 256)
  }

  lemma {:induction false} NothingFoundTurns(nodes: seq<ListHead>, keys: map<ListHead, (int, nat)>, finderIdx: int,
                                             i: nat) returns (s: seq<ListHead>)
    requires forall j :: 0 <= j < i ==> FindsNothing(nodes, keys, finderIdx, j)
    ensures Reordered(nodes, keys, finderIdx, i) == s && s == Turned(nodes, i)
    decreases i
  {
    if i == 0 {
      s := nodes;
    } else {
      var before := NothingFoundTurns(nodes, keys, finderIdx, i - 1);
      s := ReversedInVain(nodes, before, keys, finderIdx, i - 1);
    }
  }

  /** A search that finds nothing only reverses the list. */
  lemma ReversedInVain(nodes: seq<ListHead>, before: seq<ListHead>, keys: map<ListHead, (int, nat)>, finderIdx: int,
                       j: nat)
    returns (after: seq<ListHead>)
    requires FindsNothing(nodes, keys, finderIdx, j) && before == Reordered(nodes, keys, finderIdx, j)
    ensures after == Reversed(before) && after == Reordered(nodes, keys, finderIdx, j + 1)
  {
    after := SearchedOnce(before, keys, IdxAt(finderIdx, j), j % 256);
    SameNodes(before, nodes);
    NoMatch(before, keys, IdxAt(finderIdx, j), j % 256);
  }

  /** If no search finds anything, the list is reversed once for each of them. */
  lemma NothingFound(nodes: seq<ListHead>, keys: map<ListHead, (int, nat)>, finderIdx: int, i: nat)
    requires forall j :: 0 <= j < i ==> FindsNothing(nodes, keys, finderIdx, j)
    ensures Reordered(nodes, keys, finderIdx, i) == if i % 2 == 0 then nodes else Reversed(nodes)
  {
    var s := NothingFoundTurns(nodes, keys, finderIdx, i);
    TurnedByParity(nodes, i);
  }

  ghost predicate HasKeys(nodes: seq<ListHead>, keys: map<ListHead, (int, nat)>)
    reads nodes`info, Infos(nodes)`data16
  {
    forall n :: n in nodes ==> n in keys && keys[n] == (n.info.idx, LowByte(n.info.data16))
  }

  /** Search number i, as the keys decide it. */
  method SearchByKeys(list0: ListHead, i: nat, idx: int, ghost before: seq<ListHead>, ghost nodes: seq<ListHead>,
                      ghost keys: map<ListHead, (int, nat)>, ghost finderIdx: int)
    returns (list: ListHead, ghost after: seq<ListHead>)
    requires before != [] && IsList(list0, before) && HasKeys(before, keys)
    requires before == Reordered(nodes, keys, finderIdx, i) && idx == IdxAt(finderIdx, i)
    modifies Members(before)`next
    ensures IsList(list, after) && after != [] && HasKeys(after, keys)
    ensures after == Reordered(nodes, keys, finderIdx, i + 1)
  {
    ghost var k;
    var next;
    next, after, k := SearchOnce(list0, idx, i % 256, before);
    FoundIsFirst(before, keys, idx, i % 256, k);
    SameNodes(after, before);
    assert |after| == |multiset(after)| == |multiset(before)| == |before|;
    list := next;
  }

  /** The search loop reorders the list as the single searches do, and changes nothing else. */
  method Searches(list0: ListHead, number: int, finderIdx: int, ghost nodes: seq<ListHead>)
    returns (list: ListHead, idx: int, ghost after: seq<ListHead>)
    requires nodes != [] && IsList(list0, nodes)
    modifies Members(nodes)`next
    ensures IsList(list, after) && after == Reordered(nodes, old(Keys(nodes)), finderIdx, Count(number))
    ensures idx == IdxAt(finderIdx, Count(number))
  {
    list, after, idx := list0, nodes, finderIdx;
    ghost var keys := Keys(nodes);
    var i := 0;
    while i < number
      invariant 0 <= i <= Count(number) && (number >= 0 ==> i <= number)
      invariant IsList(list, after) && after != [] && HasKeys(after, keys)
      invariant after == Reordered(nodes, keys, finderIdx, i) && idx == IdxAt(finderIdx, i)
    {
      assert Members(after) == Members(nodes) by { SameNodes(after, nodes); }
      list, after := SearchByKeys(list, i, idx, after, nodes, keys, finderIdx);
      idx := NextIdx(idx);
      i := i + 1;
    }
    assert i == Count(number);
  }

  lemma FoundIsFirst(nodes: seq<ListHead>, keys: map<ListHead, (int, nat)>, idx: int, data: nat, k: nat)
    requires HasKeys(nodes, keys) && FoundAt(nodes, idx, data, k)
    ensures k == FirstMatch(nodes, keys, idx, data)
  {
    assert forall i :: 0 <= i < |nodes| ==> nodes[i] in nodes;
    FirstIs(nodes, keys, idx, data, k);
  }

  // ----- core_bench_list -----

  /** Every node has its data as before. */
  lemma DataKept(nodes: seq<ListHead>, after: seq<ListHead>)
    requires multiset(after) == multiset(nodes) && forall k :: 0 <= k < |nodes| ==> HasBackup(nodes[k].info.data16)
    ensures forall k :: 0 <= k < |after| ==> HasBackup(after[k].info.data16)
  {
    SameNodes(after, nodes);
    forall k | 0 <= k < |after| ensures HasBackup(after[k].info.data16) {
      assert after[k] in nodes;
    }
  }

  lemma OwnInfosPermuted(nodes: seq<ListHead>, after: seq<ListHead>)
    requires Distinct(nodes) && multiset(after) == multiset(nodes) && OwnInfos(nodes)
    ensures OwnInfos(after)
  {
    SameNodes(after, nodes);
    DistinctPermuted(nodes, after);
    forall i, j | 0 <= i < j < |after| ensures after[i].info != after[j].info {
      assert after[i] in nodes && after[j] in nodes;
      var k :| 0 <= k < |nodes| && nodes[k] == after[i];
      var l :| 0 <= l < |nodes| && nodes[l] == after[j];
    }
  }

  /** The benchmark as far as it changes the list. At its end every data pointer and every item is as it was,
      and the nodes are linked in the order `orig` if and only if `orig` holds them by index, then by value,
      then by the position that the searches left them in; in particular the list is back to its original
      state whenever its indices increase. */
  method BenchList(list0: ListHead, cmp: Comparator, number: int, finderIdx: int, ghost nodes: seq<ListHead>,
                   ghost orig: seq<ListHead>)
    returns (list: ListHead?, ghost after: seq<ListHead>)
    requires |nodes| >= 3 && IsList(list0, nodes) && OwnInfos(nodes) && cmp.mode.Calculate?
    requires multiset(orig) == multiset(nodes)
    requires forall k :: 0 <= k < |nodes| ==> HasBackup(nodes[k].info.data16)
    modifies nodes, Infos(nodes)`data16, cmp`res
    ensures forall n :: n in nodes ==> n.info == old(n.info) && n.info.data16 == old(n.info.data16)
    ensures after == Reordered(nodes, old(Keys(nodes)), finderIdx, Count(number))
    ensures |after| == |nodes|
    ensures IsList(list, orig) <==>
            Returns(after, Values(finderIdx > 0, cmp.kernels, Data(after), old(cmp.res)), orig)
    ensures IdxIncreases(orig) ==> IsList(list, orig)
    ensures IdxIncreases(nodes) && orig == nodes ==>
      list == list0 && forall n :: n in nodes ==> n.next == old(n.next)
  {
    var head, idx;
    head, idx, after := Searches(list0, number, finderIdx, nodes);
    assert |after| == |multiset(after)| == |multiset(nodes)| == |nodes|;
    SameNodes(after, nodes);
    SameInfos(after, nodes);
    DataKept(nodes, after);
    OwnInfosPermuted(nodes, after);
    list := SortAndRestore(head, cmp, finderIdx > 0, after, orig);
    assert forall n :: n in nodes ==> n in after;
  }
}
