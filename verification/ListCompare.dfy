/**
  Comparison of the items of a CoreMark list. Comparing changes the items: by index it can regenerate
  their data, by content it calculates and caches a value in each of them.
  */
module ListCompare {
  import opened MergeSpec

  class ListData {
    const idx: int
    var data16: bv16

    constructor (i: int, d: bv16)
      ensures idx == i && data16 == d
    {
      idx := i;
      data16 := d;
    }
  }

  class ListHead {
    var next: ListHead?
    var info: ListData

    constructor (d: ListData)
      ensures info == d && next == null
    {
      info := d;
      next := null;
    }
  }

  type NodeOrder = (ListHead, ListHead) -> bool
  type ItemOrder = (ListData, ListData) -> bool

  // ----- the data of one item -----

  /** Regenerate the low byte from the backup in the high byte. */
  function Regen(d: bv16): bv16 {
    (d & 0xff00) | (0x00ff & (d >> 8))
  }

  lemma RegenIdempotent(d: bv16)
    ensures Regen(Regen(d)) == Regen(d)
    ensures Regen(d) & 0x00ff == Regen(d) >> 8
    ensures Regen(d) >> 8 == d >> 8
  {
  }

  /** The part of the result block that a calculation reads and writes, and the memory blocks it points to. */
  datatype Results = Results(crc: bv16, crcState: bv16, crcMatrix: bv16, memory: seq<nat>)

  /** The state or the matrix benchmark: from the operand, the running checksum and the memory to the outcome
      and the memory that it leaves. */
  type Kernel = (bv16, bv16, seq<nat>) -> (bv16, seq<nat>)

  datatype Kernels = Kernels(state: Kernel, matrix: Kernel, crc: (bv16, bv16) -> bv16)

  predicate IsCached(d: bv16) {
    d & 0x0080 != 0
  }

  /** Bits 3 to 6, doubled. */
  function Operand(d: bv16): bv16 {
    var t := (d >> 3) & 0x000f;
    t | (t << 4)
  }

  /** What the function in bits 0 to 2 returns, and the memory that it leaves. */
  function Effect(k: Kernels, d: bv16, res: Results): (bv16, seq<nat>) {
    if d & 0x0007 == 0 then k.state(if Operand(d) < 0x22 then 0x22 else Operand(d), res.crc, res.memory)
    else if d & 0x0007 == 1 then k.matrix(Operand(d), res.crc, res.memory)
    else (d, res.memory)
  }

  function Outcome(k: Kernels, d: bv16, res: Results): bv16 {
    Effect(k, d, res).0
  }

  function Cached(d: bv16, value: bv16): bv16 {
    (d & 0xff00) | 0x0080 | value
  }

  lemma CachedReads(d: bv16, value: bv16)
    requires value & 0x007f == value
    ensures IsCached(Cached(d, value)) && Cached(d, value) & 0x007f == value && Cached(d, value) >> 8 == d >> 8
  {
  }

  lemma LowSeven(x: bv16)
    ensures (x & 0x007f) & 0x007f == x & 0x007f
  {
  }

  /** The value of an item: from its cache, or calculated. */
  function ValueOf(k: Kernels, d: bv16, res: Results): bv16 {
    if IsCached(d) then d & 0x007f else Outcome(k, d, res) & 0x007f
  }

  function DataAfter(k: Kernels, d: bv16, res: Results): bv16 {
    if IsCached(d) then d else Cached(d, ValueOf(k, d, res))
  }

  function ResultsAfter(k: Kernels, d: bv16, res: Results): Results {
    if IsCached(d) then res
    else
      var r := Outcome(k, d, res);
      NoteFirst(d, r, res).(crc := k.crc(r, res.crc), memory := Effect(k, d, res).1)
  }

  /** The first outcome of each benchmark is kept. */
  function NoteFirst(d: bv16, r: bv16, res: Results): Results {
    if d & 0x0007 == 0 && res.crcState == 0 then res.(crcState := r)
    else if d & 0x0007 == 1 && res.crcMatrix == 0 then res.(crcMatrix := r)
    else res
  }

  lemma OperandOf(hi: bv16, t: bv16, flag: bv16)
    requires hi < 0x0100 && t < 0x0010 && flag < 0x0008
    ensures var d := (hi << 8) | (t << 3) | flag;
      !IsCached(d) && d & 0x0007 == flag && Operand(d) == 0x0011 * t && (Operand(d) < 0x22 <==> t < 2)
  {
  }

  /** Function 0 runs the state benchmark and function 1 the matrix benchmark, on the type times 17 and, for the
      state benchmark, on no less than 0x22; their first outcomes are kept. Every other function is the data. */
  lemma FunctionChosen(k: Kernels, hi: bv16, t: bv16, flag: bv16, res: Results)
    requires hi < 0x0100 && t < 0x0010 && flag < 0x0008
    ensures var d := (hi << 8) | (t << 3) | flag;
      var (r, memory) := if flag == 0 then k.state(if t < 2 then 0x22 else 0x0011 * t, res.crc, res.memory)
                         else if flag == 1 then k.matrix(0x0011 * t, res.crc, res.memory)
                         else (d, res.memory);
      && ValueOf(k, d, res) == r & 0x007f
      && ResultsAfter(k, d, res) == Results(k.crc(r, res.crc),
                                            if flag == 0 && res.crcState == 0 then r else res.crcState,
                                            if flag == 1 && res.crcMatrix == 0 then r else res.crcMatrix, memory)
  {
    OperandOf(hi, t, flag);
  }

  /** The data that core_list_init gives the item at position i: the low byte twice. */
  function InitialData(i: bv16, seed: bv16): bv16 {
    var dat := (((seed ^ i) & 0x000f) << 3) | (i & 0x0007);
    (dat << 8) | dat
  }

  /** It is calculated first, and regenerating it afterwards takes the calculated value out again. */
  lemma RegenRestores(k: Kernels, i: bv16, seed: bv16, res: Results)
    ensures var d := InitialData(i, seed);
      !IsCached(d) && Regen(d) == d && Regen(DataAfter(k, d, res)) == d
  {
    var d := InitialData(i, seed);
    InitialBytes(i, seed);
    RegenCached(d, ValueOf(k, d, res));
    LowSeven(Outcome(k, d, res));
  }

  lemma InitialBytes(i: bv16, seed: bv16)
    ensures !IsCached(InitialData(i, seed)) && Regen(InitialData(i, seed)) == InitialData(i, seed)
  {
  }

  lemma RegenCached(d: bv16, value: bv16)
    requires Regen(d) == d && value & 0x007f == value
    ensures Regen(Cached(d, value)) == d
  {
  }

  /** Once calculated, the value stays. */
  lemma ValueStays(k: Kernels, d: bv16, res: Results, later: Results)
    ensures var c := DataAfter(k, d, res);
      && ValueOf(k, c, later) == ValueOf(k, d, res) == c & 0x007f && IsCached(c) && c >> 8 == d >> 8
      && DataAfter(k, c, later) == c && ResultsAfter(k, c, later) == later
  {
    DataAfterReads(k, d, res);
    CachedStays(k, DataAfter(k, d, res), later);
  }

  lemma DataAfterReads(k: Kernels, d: bv16, res: Results)
    ensures var c := DataAfter(k, d, res); IsCached(c) && c & 0x007f == ValueOf(k, d, res) && c >> 8 == d >> 8
  {
    if !IsCached(d) {
      CacheFill(d, Outcome(k, d, res));
    }
  }

  lemma CacheFill(d: bv16, r: bv16)
    ensures var c := Cached(d, r & 0x007f); IsCached(c) && c & 0x007f == r & 0x007f && c >> 8 == d >> 8
  {
    LowSeven(r);
    CachedReads(d, r & 0x007f);
  }

  lemma CachedStays(k: Kernels, c: bv16, res: Results)
    requires IsCached(c)
    ensures ValueOf(k, c, res) == c & 0x007f && DataAfter(k, c, res) == c && ResultsAfter(k, c, res) == res
  {
  }

  // ----- the comparison callbacks -----

  /** A comparison without effect, cmp_idx with a NULL result block, and cmp_complex. */
  datatype Mode = Plain | Regenerate | Calculate

  class Comparator {
    const mode: Mode
    const le: ItemOrder
    const kernels: Kernels
    var res: Results

    constructor (mode: Mode, le: ItemOrder, kernels: Kernels, res: Results)
      ensures this.mode == mode && this.le == le && this.kernels == kernels && this.res == res
    {
      this.mode, this.le, this.kernels, this.res := mode, le, kernels, res;
    }

    /** The switch of calc_func. */
    method Run(data: bv16) returns (retval: bv16)
      modifies this`res
      ensures retval == Outcome(kernels, data, old(res))
      ensures res == NoteFirst(data, retval, old(res)).(memory := Effect(kernels, data, old(res)).1)
    {
      var flag, dtype := data & 0x0007, Operand(data);
      if flag == 0 {
        if dtype < 0x22 {
          dtype := 0x22;
        }
        var (value, memory) := kernels.state(dtype, res.crc, res.memory);
        retval, res := value, res.(memory := memory);
        if res.crcState == 0 {
          res := res.(crcState := retval);
        }
      } else if flag == 1 {
        var (value, memory) := kernels.matrix(dtype, res.crc, res.memory);
        retval, res := value, res.(memory := memory);
        if res.crcMatrix == 0 {
          res := res.(crcMatrix := retval);
        }
      } else {
        retval := data;
      }
    }

    /** calc_func */
    method CalcFunc(d: ListData) returns (value: bv16)
      modifies d`data16, this`res
      ensures value == ValueOf(kernels, old(d.data16), old(res))
      ensures d.data16 == DataAfter(kernels, old(d.data16), old(res))
      ensures res == ResultsAfter(kernels, old(d.data16), old(res))
    {
      var data := d.data16;
      if IsCached(data) {
        return data & 0x007f;
      }
      var retval := Run(data);
      res := res.(crc := kernels.crc(retval, res.crc));
      value := retval & 0x007f;
      d.data16 := Cached(data, value);
    }
  }

  // ----- what the comparisons of one sort do -----

  /** The nodes of a sort in their original order, with their items, the data of the items before and
      after their first comparison, and the order that the comparisons decide. */
  datatype Book = Book(order: seq<ListHead>, info: map<ListHead, ListData>, data: map<ListData, bv16>,
                       content: seq<bv16>, after: map<ListData, bv16>, le: ItemOrder, before: Results)

  /** The result block after the first k items were calculated one after the other. */
  function CalculatedTo(kernels: Kernels, data: seq<bv16>, res: Results, k: nat): Results
    requires k <= |data|
  {
    if k == 0 then res else ResultsAfter(kernels, data[k - 1], CalculatedTo(kernels, data, res, k - 1))
  }

  ghost function ResultsAt(book: Book, kernels: Kernels, k: nat): Results
    requires Complete(book) && k <= |book.order|
  {
    CalculatedTo(kernels, book.content, book.before, k)
  }

  ghost predicate Complete(book: Book) {
    && Distinct(book.order) && book.after.Keys == book.data.Keys && |book.content| == |book.order|
    && (forall n :: n in book.order ==> n in book.info && book.info[n] in book.data)
    && (forall k :: 0 <= k < |book.order| ==> book.content[k] == book.data[book.info[book.order[k]]])
  }

  ghost function ValueAt(book: Book, kernels: Kernels, k: nat): bv16
    requires Complete(book) && k < |book.order|
  {
    ValueOf(kernels, book.content[k], ResultsAt(book, kernels, k))
  }

  /** val1 - val2 <= 0 */
  predicate AtMost(a: bv16, b: bv16) {
    a as int - b as int <= 0
  }

  /** Every node has an item of its own. */
  ghost predicate OwnItems(book: Book)
    requires Complete(book)
  {
    forall i, j :: 0 <= i < j < |book.order| ==> book.info[book.order[i]] != book.info[book.order[j]]
  }

  /** The book is right for calculated values: the item of node number k gets the value that a calculation
      in list order gives it. */
  ghost predicate Calculates(book: Book, kernels: Kernels)
    requires Complete(book)
  {
    && OwnItems(book)
    && (forall k :: 0 <= k < |book.order| ==>
          var d := book.info[book.order[k]];
          book.after[d] == DataAfter(kernels, book.content[k], ResultsAt(book, kernels, k)))
    && (forall i, j :: 0 <= i < |book.order| && 0 <= j < |book.order| ==>
          book.le(book.info[book.order[i]], book.info[book.order[j]]) ==
          AtMost(ValueAt(book, kernels, i), ValueAt(book, kernels, j)))
  }

  ghost predicate Right(book: Book, cmp: Comparator) {
    && Complete(book)
    && match cmp.mode
       case Plain => book.le == cmp.le && book.after == book.data
       case Regenerate => book.le == cmp.le && forall d :: d in book.data ==> book.after[d] == Regen(book.data[d])
       case Calculate => Calculates(book, cmp.kernels)
  }

  /** Items have the data from before or after their first comparison, the latter if their node is in
      `calls`, the list of the nodes compared so far. Calculated items were compared in list order. */
  ghost predicate Records(book: Book, mode: Mode, kernels: Kernels, res: Results, calls: seq<ListHead>,
                          now: map<ListData, bv16>)
    requires Complete(book)
  {
    && now.Keys == book.data.Keys
    && (forall n :: n in book.order ==>
          var d := book.info[n];
          (now[d] == book.data[d] || now[d] == book.after[d]) && (n in calls ==> now[d] == book.after[d]))
    && (mode.Calculate? ==> InStep(book, kernels, res, calls, now))
  }

  ghost predicate InStep(book: Book, kernels: Kernels, res: Results, calls: seq<ListHead>, now: map<ListData, bv16>)
    requires Complete(book) && now.Keys == book.data.Keys
  {
    && calls <= book.order && res == ResultsAt(book, kernels, |calls|)
    && forall i :: |calls| <= i < |book.order| ==>
         var d := book.info[book.order[i]];
         now[d] == book.data[d]
  }

  ghost function Now(items: set<ListData>): map<ListData, bv16>
    reads items`data16
  {
    map d | d in items :: d.data16
  }

  ghost predicate Tracked(nodes: seq<ListHead>, book: Book, cmp: Comparator, calls: seq<ListHead>)
    reads nodes`info, book.data.Keys`data16, cmp`res
  {
    && Complete(book)
    && (forall n :: n in nodes ==> n in book.order && n.info == book.info[n])
    && Records(book, cmp.mode, cmp.kernels, cmp.res, calls, Now(book.data.Keys))
  }

  /** The calls after comparing one more node. */
  ghost function Touch(calls: seq<ListHead>, n: ListHead): seq<ListHead> {
    if n in calls then calls else calls + [n]
  }

  /** Calculated items must be compared in list order the first time. */
  ghost predicate Callable(book: Book, cmp: Comparator, calls: seq<ListHead>, a: ListHead, b: ListHead) {
    cmp.mode.Calculate? ==> Touch(Touch(calls, a), b) <= book.order
  }

  /** Where a node stands in the original order. */
  lemma Position(book: Book, n: ListHead) returns (k: nat)
    requires Complete(book) && n in book.order
    ensures k < |book.order| && book.order[k] == n
  {
    k :| 0 <= k < |book.order| && book.order[k] == n;
  }

  /** The item of a node that was called before has its value in the cache. */
  lemma OldCall(book: Book, kernels: Kernels, k: nat, res: Results)
    requires Complete(book) && Calculates(book, kernels) && k < |book.order|
    ensures var c := book.after[book.info[book.order[k]]];
      ValueOf(kernels, c, res) == ValueAt(book, kernels, k) && DataAfter(kernels, c, res) == c
      && ResultsAfter(kernels, c, res) == res
  {
    ValueStays(kernels, book.content[k], ResultsAt(book, kernels, k), res);
  }

  lemma CallPosition(book: Book, calls: seq<ListHead>, k: nat)
    requires Distinct(book.order) && k < |book.order|
    requires calls <= book.order && Touch(calls, book.order[k]) <= book.order
    ensures if book.order[k] in calls then k < |calls| else k == |calls|
  {
    if book.order[k] !in calls {
      assert (calls + [book.order[k]])[|calls|] == book.order[|calls|];
    }
  }

  /** calc_func on the item of node k gives its value and keeps the records. */
  ghost predicate Anticipates(book: Book, kernels: Kernels, res: Results, calls: seq<ListHead>,
                              now: map<ListData, bv16>, k: nat)
    requires Complete(book) && now.Keys == book.data.Keys && k < |book.order|
  {
    var d := book.info[book.order[k]];
    && ValueOf(kernels, now[d], res) == ValueAt(book, kernels, k)
    && Records(book, Calculate, kernels, ResultsAfter(kernels, now[d], res), Touch(calls, book.order[k]),
               now[d := DataAfter(kernels, now[d], res)])
  }

  lemma CallRecords(book: Book, kernels: Kernels, res: Results, calls: seq<ListHead>, now: map<ListData, bv16>, k: nat)
    requires Complete(book) && Calculates(book, kernels) && Records(book, Calculate, kernels, res, calls, now)
    requires k < |book.order| && Touch(calls, book.order[k]) <= book.order
    ensures Anticipates(book, kernels, res, calls, now, k)
  {
    var d := book.info[book.order[k]];
    CallPosition(book, calls, k);
    if book.order[k] in calls {
      OldCall(book, kernels, k, res);
      assert now[d := now[d]] == now;
    } else {
      NewCallRecords(book, kernels, res, calls, now, k);
    }
  }

  lemma NewCallRecords(book: Book, kernels: Kernels, res: Results, calls: seq<ListHead>, now: map<ListData, bv16>,
                       k: nat)
    requires Complete(book) && OwnItems(book) && Records(book, Calculate, kernels, res, calls, now)
    requires k == |calls| < |book.order| && book.order[k] !in calls
    ensures var d := book.info[book.order[k]];
      && now[d] == book.data[d]
      && Records(book, Calculate, kernels, ResultsAt(book, kernels, k + 1), calls + [book.order[k]],
                 now[d := book.after[d]])
  {
    var d := book.info[book.order[k]];
    var next := now[d := book.after[d]];
    assert calls + [book.order[k]] == book.order[..k + 1];
    assert InStep(book, kernels, ResultsAt(book, kernels, k + 1), calls + [book.order[k]], next);
  }

  /** calc_func, seen from a set of items. */
  method CalculateItem(d: ListData, cmp: Comparator, ghost items: set<ListData>) returns (value: bv16)
    requires d in items
    modifies d`data16, cmp`res
    ensures value == ValueOf(cmp.kernels, old(d.data16), old(cmp.res))
    ensures cmp.res == ResultsAfter(cmp.kernels, old(d.data16), old(cmp.res))
    ensures Now(items) == old(Now(items))[d := DataAfter(cmp.kernels, old(d.data16), old(cmp.res))]
  {
    value := cmp.CalcFunc(d);
  }

  /** calc_func on the item of a node. */
  method CalculateNode(n: ListHead, cmp: Comparator, ghost nodes: seq<ListHead>, ghost book: Book,
                       ghost calls: seq<ListHead>, ghost k: nat)
    returns (value: bv16)
    requires cmp.mode.Calculate? && Tracked(nodes, book, cmp, calls)
    requires n in nodes && k < |book.order| && n == book.order[k]
    requires Anticipates(book, cmp.kernels, cmp.res, calls, Now(book.data.Keys), k)
    modifies n.info`data16, cmp`res
    ensures value == ValueAt(book, cmp.kernels, k) && Tracked(nodes, book, cmp, Touch(calls, n))
  {
    value := CalculateItem(n.info, cmp, book.data.Keys);
  }

  method CalculateBoth(a: ListHead, b: ListHead, cmp: Comparator, ghost nodes: seq<ListHead>, ghost book: Book,
                       ghost calls: seq<ListHead>)
    returns (r: bool)
    requires a in nodes && b in nodes && Right(book, cmp) && Tracked(nodes, book, cmp, calls)
    requires cmp.mode.Calculate? && Callable(book, cmp, calls, a, b)
    modifies a.info`data16, b.info`data16, cmp`res
    ensures r == book.le(book.info[a], book.info[b])
    ensures Tracked(nodes, book, cmp, Touch(Touch(calls, a), b))
  {
    ghost var i := Position(book, a);
    ghost var j := Position(book, b);
    assert Touch(calls, a) <= Touch(Touch(calls, a), b);
    CallRecords(book, cmp.kernels, cmp.res, calls, Now(book.data.Keys), i);
    var v := CalculateNode(a, cmp, nodes, book, calls, i);
    CallRecords(book, cmp.kernels, cmp.res, Touch(calls, a), Now(book.data.Keys), j);
    var w := CalculateNode(b, cmp, nodes, book, Touch(calls, a), j);
    r := AtMost(v, w);
  }

  lemma RegenRecords(book: Book, kernels: Kernels, res: Results, calls: seq<ListHead>, now: map<ListData, bv16>,
                     n: ListHead)
    requires Complete(book) && forall d :: d in book.data ==> book.after[d] == Regen(book.data[d])
    requires Records(book, Regenerate, kernels, res, calls, now) && n in book.order
    ensures var d := book.info[n]; Records(book, Regenerate, kernels, res, Touch(calls, n), now[d := Regen(now[d])])
  {
    var d := book.info[n];
    RegenIdempotent(book.data[d]);
    assert Regen(now[d]) == book.after[d];
    ComparedRecords(book, Regenerate, kernels, res, calls, now, n);
  }

  lemma ComparedRecords(book: Book, mode: Mode, kernels: Kernels, res: Results, calls: seq<ListHead>,
                        now: map<ListData, bv16>, n: ListHead)
    requires Complete(book) && !mode.Calculate? && Records(book, mode, kernels, res, calls, now) && n in book.order
    ensures var d := book.info[n]; Records(book, mode, kernels, res, Touch(calls, n), now[d := book.after[d]])
  {
  }

  method RegenerateNode(n: ListHead, cmp: Comparator, ghost nodes: seq<ListHead>, ghost book: Book,
                        ghost calls: seq<ListHead>)
    requires n in nodes && Right(book, cmp) && cmp.mode.Regenerate? && Tracked(nodes, book, cmp, calls)
    modifies n.info`data16
    ensures Tracked(nodes, book, cmp, Touch(calls, n))
  {
    ghost var now := Now(book.data.Keys);
    RegenRecords(book, cmp.kernels, cmp.res, calls, now, n);
    n.info.data16 := Regen(n.info.data16);
    assert Now(book.data.Keys) == now[n.info := n.info.data16];
  }

  /** Compares the items of two nodes: answers `cmp(a, b, res) <= 0`. */
  method CompareNodes(a: ListHead, b: ListHead, cmp: Comparator, ghost nodes: seq<ListHead>, ghost book: Book,
                      ghost calls: seq<ListHead>)
    returns (r: bool)
    requires a in nodes && b in nodes && Right(book, cmp) && Tracked(nodes, book, cmp, calls)
    requires Callable(book, cmp, calls, a, b)
    modifies a.info`data16, b.info`data16, cmp`res
    ensures r == book.le(book.info[a], book.info[b])
    ensures Tracked(nodes, book, cmp, Touch(Touch(calls, a), b))
  {
    match cmp.mode
    case Calculate =>
      r := CalculateBoth(a, b, cmp, nodes, book, calls);
    case Regenerate =>
      RegenerateNode(a, cmp, nodes, book, calls);
      RegenerateNode(b, cmp, nodes, book, Touch(calls, a));
      r := cmp.le(a.info, b.info);
    case Plain =>
      r := cmp.le(a.info, b.info);
  }
}
