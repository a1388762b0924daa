/** The merge of `compare`: advance the inputs, sort them, take the group with the smallest key. */
module Compare {
  import opened Keys
  import opened Merge

  /**
   One input: all the keys it will deliver, how many it has delivered, whether one is waiting
   to go into a group (and which), and whether it is known to have no more.
   */
  datatype Input = Input(rows: seq<Key>, pos: nat, rowLoaded: bool, key: Key, done: bool) {
    ghost predicate Wf() {
      && pos <= |rows|
      && (rowLoaded ==> pos > 0 && key == rows[pos - 1] && !done)
      && (done ==> pos == |rows|)
    }

    /** The number of rows that have gone into groups. */
    function Used(): nat {
      if rowLoaded && pos > 0 then pos - 1 else pos
    }
  }

  function RowsOf(inputs: seq<Input>): (r: seq<seq<Key>>)
    ensures |r| == |inputs|
  {
    seq(|inputs|, i requires 0 <= i < |inputs| => inputs[i].rows)
  }

  function UsedOf(inputs: seq<Input>): (r: seq<nat>)
    ensures |r| == |inputs|
  {
    seq(|inputs|, i requires 0 <= i < |inputs| => inputs[i].Used())
  }

  // ---------------------------------------------------------------------------------------
  // Comparing inputs
  // ---------------------------------------------------------------------------------------

  /** Inputs without a row come last. */
  function KeysOnly(c: CellOrder, x: Input, y: Input): int {
    if !x.rowLoaded && !y.rowLoaded then 0
    else if !x.rowLoaded then 1
    else if !y.rowLoaded then -1
    else KeyCmp(c, x.key, y.key, 0)
  }

  /** Compare inputs number `x` and `y`; equal keys are told apart by the input's number. */
  function InputCmp(c: CellOrder, inputs: seq<Input>, x: nat, y: nat): int
    requires x < |inputs| && y < |inputs|
  {
    var cmp := KeysOnly(c, inputs[x], inputs[y]);
    if cmp == 0 then (if x < y then -1 else if x > y then 1 else 0) else cmp
  }

  /** A waiting row comes before none, a smaller key before a larger one, and else the smaller number. */
  lemma InputCmpSays(c: CellOrder, inputs: seq<Input>, x: nat, y: nat)
    requires IsOrder(c) && x < |inputs| && y < |inputs|
    ensures inputs[x].rowLoaded && !inputs[y].rowLoaded ==> InputCmp(c, inputs, x, y) < 0 < InputCmp(c, inputs, y, x)
    ensures inputs[x].rowLoaded && inputs[y].rowLoaded && KeyCmp(c, inputs[x].key, inputs[y].key, 0) < 0 ==>
      InputCmp(c, inputs, x, y) < 0 < InputCmp(c, inputs, y, x)
    ensures x < y && inputs[x].rowLoaded && inputs[y].rowLoaded && KeyCmp(c, inputs[x].key, inputs[y].key, 0) == 0 ==>
      InputCmp(c, inputs, x, y) < 0 < InputCmp(c, inputs, y, x)
    ensures x < y && !inputs[x].rowLoaded && !inputs[y].rowLoaded ==>
      InputCmp(c, inputs, x, y) < 0 < InputCmp(c, inputs, y, x)
  {
    hide IsOrder, KeyCmp;
    CmpOpposite(c, inputs[x].key, inputs[y].key, 0);
    CmpOpposite(c, inputs[y].key, inputs[x].key, 0);
  }

  lemma InputOrder(c: CellOrder, inputs: seq<Input>, x: nat, y: nat, z: nat)
    requires IsOrder(c) && x < |inputs| && y < |inputs| && z < |inputs|
    ensures InputCmp(c, inputs, x, y) <= 0 || InputCmp(c, inputs, y, x) <= 0
    ensures InputCmp(c, inputs, x, y) <= 0 && InputCmp(c, inputs, y, z) <= 0 ==> InputCmp(c, inputs, x, z) <= 0
  {
    hide IsOrder, KeyCmp;
    var kx, ky, kz := inputs[x].key, inputs[y].key, inputs[z].key;
    KeyOrder(c, kx, ky, kz);
    KeyOrder(c, kx, kz, ky);
    KeyOrder(c, ky, kz, kx);
    KeyOrder(c, kz, kx, ky);
    KeyOrder(c, kz, ky, kx);
    KeyOrder(c, ky, kx, kz);
  }

  // ---------------------------------------------------------------------------------------
  // Sorting the inputs
  // ---------------------------------------------------------------------------------------

  ghost predicate Permuted(order: seq<nat>, n: nat) {
    && |order| == n && (forall a :: 0 <= a < n ==> order[a] < n) && (forall i :: 0 <= i < n ==> i in order)
    && Distinct(order)
  }

  ghost predicate Distinct(order: seq<nat>) {
    forall a, b :: 0 <= a < b < |order| ==> order[a] != order[b]
  }

  ghost predicate Ordered(c: CellOrder, inputs: seq<Input>, order: seq<nat>) {
    && (forall a :: 0 <= a < |order| ==> order[a] < |inputs|)
    && forall a, b :: 0 <= a < b < |order| ==> InputCmp(c, inputs, order[a], order[b]) <= 0
  }

  /** The inputs `order` with `x` put before the first one that is not below it. */
  function Insert(c: CellOrder, inputs: seq<Input>, order: seq<nat>, x: nat): (r: seq<nat>)
    requires x < |inputs| && forall a :: 0 <= a < |order| ==> order[a] < |inputs|
    ensures |r| == |order| + 1 && forall y :: y in r <==> y == x || y in order
  {
    if order == [] then [x]
    else if InputCmp(c, inputs, x, order[0]) <= 0 then [x] + order
    else [order[0]] + Insert(c, inputs, order[1..], x)
  }

  lemma {:induction false} InsertOrdered(c: CellOrder, inputs: seq<Input>, order: seq<nat>, x: nat)
    requires IsOrder(c) && x < |inputs| && Ordered(c, inputs, order)
    ensures Ordered(c, inputs, Insert(c, inputs, order, x))
  {
    hide InputCmp, IsOrder;
    var r := Insert(c, inputs, order, x);
    if order != [] {
      var y := order[0];
      InputOrder(c, inputs, x, y, x);
      if InputCmp(c, inputs, x, y) <= 0 {
        forall b | 1 <= b < |r| ensures InputCmp(c, inputs, x, r[b]) <= 0 {
          if b > 1 {
            InputOrder(c, inputs, x, y, r[b]);
          }
        }
      } else {
        var tail := Insert(c, inputs, order[1..], x);
        InsertOrdered(c, inputs, order[1..], x);
        forall b | 1 <= b < |r| ensures InputCmp(c, inputs, y, r[b]) <= 0 {
          assert r[b] == tail[b - 1] && tail[b - 1] in tail;
        }
      }
    }
  }

  lemma DistinctCons(x: nat, order: seq<nat>)
    requires Distinct(order) && x !in order
    ensures Distinct([x] + order)
  {
  }

  lemma DistinctTail(order: seq<nat>)
    requires Distinct(order) && order != []
    ensures Distinct(order[1..]) && order[0] !in order[1..]
  {
  }

  lemma {:induction false} InsertDistinct(c: CellOrder, inputs: seq<Input>, order: seq<nat>, x: nat)
    requires x < |inputs| && (forall a :: 0 <= a < |order| ==> order[a] < |inputs|)
    requires Distinct(order) && x !in order
    ensures Distinct(Insert(c, inputs, order, x))
  {
    hide InputCmp, Distinct;
    DistinctCons(x, order);
    if order != [] {
      DistinctTail(order);
      InsertDistinct(c, inputs, order[1..], x);
      DistinctCons(order[0], Insert(c, inputs, order[1..], x));
    } else {
      assert [x] + order == [x];
    }
  }

  /** C's `qsort`, with the inputs told apart by their number. */
  method SortInputs(c: CellOrder, inputs: seq<Input>, toSort: seq<nat>) returns (order: seq<nat>)
    requires IsOrder(c) && Permuted(toSort, |inputs|)
    ensures Permuted(order, |inputs|) && Ordered(c, inputs, order)
  {
    hide IsOrder, InputCmp;
    order := [];
    var n := 0;
    while n < |toSort|
      invariant n <= |toSort| && |order| == n && Ordered(c, inputs, order)
      invariant forall y :: y in order <==> y in toSort[..n]
      invariant Distinct(order)
    {
      var x := toSort[n];
      assert toSort[..n + 1] == toSort[..n] + [x];
      InsertOrdered(c, inputs, order, x);
      InsertDistinct(c, inputs, order, x);
      order := Insert(c, inputs, order, x);
      n := n + 1;
    }
    assert toSort[..n] == toSort;
  }

  // ---------------------------------------------------------------------------------------
  // The next group
  // ---------------------------------------------------------------------------------------

  /** Every input has a row waiting, or has no more. */
  ghost predicate Advanced(inputs: seq<Input>) {
    forall i :: 0 <= i < |inputs| ==> inputs[i].Wf() && (inputs[i].rowLoaded || inputs[i].done)
  }

  ghost predicate AnyLoaded(inputs: seq<Input>) {
    exists i :: 0 <= i < |inputs| && inputs[i].rowLoaded
  }

  predicate SameKey(c: CellOrder, x: Input, y: Input) {
    y.rowLoaded && KeysOnly(c, x, y) == 0
  }

  /** Exactly the inputs up to position `last` of the order have a row with the smallest key. */
  ghost predicate Smallest(c: CellOrder, inputs: seq<Input>, order: seq<nat>, last: nat) {
    && last < |order| == |inputs| && (forall a :: 0 <= a < |order| ==> order[a] < |inputs|)
    && inputs[order[0]].rowLoaded
    && (forall a :: 0 <= a <= last ==> SameKey(c, inputs[order[0]], inputs[order[a]]))
    && (forall a :: last < a < |order| ==> !SameKey(c, inputs[order[0]], inputs[order[a]]))
  }

  /** The rows waiting at the first inputs of the order, as a group. */
  function GroupOf(inputs: seq<Input>, order: seq<nat>, last: nat): Group
    requires last < |order| && forall a :: 0 <= a < |order| ==> order[a] < |inputs|
  {
    Group(inputs[order[0]].key,
          seq(last + 1, a requires 0 <= a < last + 1 => Member(order[a], inputs[order[a]].Used())))
  }

  /** What comes after the first input that differs differs too. */
  lemma BeyondSmallest(c: CellOrder, inputs: seq<Input>, order: seq<nat>, a: nat, b: nat)
    requires IsOrder(c) && Ordered(c, inputs, order) && a <= b < |order|
    requires inputs[order[0]].rowLoaded && inputs[order[a]].rowLoaded && !SameKey(c, inputs[order[0]], inputs[order[a]])
    ensures !SameKey(c, inputs[order[0]], inputs[order[b]])
  {
    hide IsOrder, KeyCmp;
    var x, y, z := inputs[order[0]].key, inputs[order[a]].key, inputs[order[b]].key;
    KeyOrder(c, x, y, x);
    KeyOrder(c, y, z, x);
    KeyOrder(c, z, x, y);
    KeyOrder(c, x, z, y);
    assert a < b ==> InputCmp(c, inputs, order[a], order[b]) <= 0;
    assert 0 < a ==> InputCmp(c, inputs, order[0], order[a]) <= 0;
  }

  /** If the first input of the order has no row waiting, none has. */
  lemma LoadedFirst(c: CellOrder, inputs: seq<Input>, order: seq<nat>, a: nat, b: nat)
    requires Ordered(c, inputs, order) && a <= b < |order| && inputs[order[b]].rowLoaded
    ensures inputs[order[a]].rowLoaded
  {
    assert a < b ==> InputCmp(c, inputs, order[a], order[b]) <= 0;
  }

  /** The end of the group: the last input in the order whose key is that of the first. */
  method FindLast(c: CellOrder, inputs: seq<Input>, order: seq<nat>) returns (last: nat)
    requires IsOrder(c) && Permuted(order, |inputs|) && Ordered(c, inputs, order) && AnyLoaded(inputs)
    ensures Smallest(c, inputs, order, last)
  {
    hide IsOrder, InputCmp, KeysOnly, Ordered;
    ghost var some :| 0 <= some < |inputs| && inputs[some].rowLoaded;
    assert some in order;
    ghost var at :| 0 <= at < |order| && order[at] == some;
    LoadedFirst(c, inputs, order, 0, at);
    FirstIsSame(c, inputs[order[0]]);
    last := 0;
    var minInput := inputs[order[0]];
    var i := 1;
    while i < |order|
      invariant last < i <= |order|
      invariant forall a :: 0 <= a <= last ==> SameKey(c, minInput, inputs[order[a]])
      invariant forall a :: last < a < i ==> !inputs[order[a]].rowLoaded
    {
      var next := inputs[order[i]];
      if next.rowLoaded {
        LoadedFirst(c, inputs, order, i - 1, i);
        if KeysOnly(c, minInput, next) != 0 {
          forall b | i <= b < |order| ensures !SameKey(c, minInput, inputs[order[b]]) {
            BeyondSmallest(c, inputs, order, i, b);
          }
          return;
        }
        last := i;
      }
      i := i + 1;
    }
  }

  lemma FirstIsSame(c: CellOrder, x: Input)
    requires IsOrder(c) && x.rowLoaded
    ensures SameKey(c, x, x)
  {
    KeyOrder(c, x.key, x.key, x.key);
  }

  /** The group found takes the next row of exactly the inputs with the smallest next key. */
  lemma GroupIsSmallest(c: CellOrder, inputs: seq<Input>, order: seq<nat>, last: nat)
    requires IsOrder(c) && Advanced(inputs) && Permuted(order, |inputs|) && Ordered(c, inputs, order)
    requires Smallest(c, inputs, order, last)
    ensures TakesSmallest(c, RowsOf(inputs), UsedOf(inputs), GroupOf(inputs, order, last))
  {
    hide IsOrder, KeyCmp, InputCmp, Ordered, SameKey;
    var rows, used, g := RowsOf(inputs), UsedOf(inputs), GroupOf(inputs, order, last);
    GroupAscends(c, inputs, order, last);
    assert inputs[order[0]].Wf();
    assert used[order[0]] < |rows[order[0]]| && rows[order[0]][used[order[0]]] == g.key;
    forall i | 0 <= i < |used| && used[i] < |rows[i]| ensures Le(c, g.key, rows[i][used[i]]) {
      assert inputs[i].Wf();
      assert i in order;
      var a :| 0 <= a < |order| && order[a] == i;
      SmallestKey(c, inputs, order, a);
    }
    forall m ensures m in g.members
      <==> m.input < |used| && m.row == used[m.input] < |rows[m.input]| && Equiv(c, rows[m.input][used[m.input]], g.key)
    {
      InGroup(c, inputs, order, last, m);
    }
  }

  lemma SmallestKey(c: CellOrder, inputs: seq<Input>, order: seq<nat>, a: nat)
    requires IsOrder(c) && Ordered(c, inputs, order) && a < |order|
    requires inputs[order[0]].rowLoaded && inputs[order[a]].rowLoaded
    ensures Le(c, inputs[order[0]].key, inputs[order[a]].key)
  {
    hide IsOrder, KeyCmp;
    KeyOrder(c, inputs[order[0]].key, inputs[order[0]].key, inputs[order[0]].key);
    assert 0 < a ==> InputCmp(c, inputs, order[0], order[a]) <= 0;
  }

  lemma GroupAscends(c: CellOrder, inputs: seq<Input>, order: seq<nat>, last: nat)
    requires IsOrder(c) && Permuted(order, |inputs|) && Ordered(c, inputs, order) && Smallest(c, inputs, order, last)
    ensures Ascending(GroupOf(inputs, order, last).members)
  {
    hide IsOrder, KeyCmp, Ordered, Permuted;
    var members := GroupOf(inputs, order, last).members;
    forall a, b | 0 <= a < b < |members| ensures members[a].input < members[b].input {
      assert SameKey(c, inputs[order[0]], inputs[order[a]]) && SameKey(c, inputs[order[0]], inputs[order[b]]);
      TiesByNumber(c, inputs, order, a, b);
    }
  }

  lemma TiesByNumber(c: CellOrder, inputs: seq<Input>, order: seq<nat>, a: nat, b: nat)
    requires IsOrder(c) && Permuted(order, |inputs|) && Ordered(c, inputs, order) && a < b < |order|
    requires inputs[order[0]].rowLoaded
    requires SameKey(c, inputs[order[0]], inputs[order[a]]) && SameKey(c, inputs[order[0]], inputs[order[b]])
    ensures order[a] < order[b]
  {
    hide IsOrder, KeyCmp;
    var x, y, z := inputs[order[0]].key, inputs[order[a]].key, inputs[order[b]].key;
    EquivTransitive(c, y, x, z);
    EquivTransitive(c, x, y, x);
    assert InputCmp(c, inputs, order[a], order[b]) <= 0;
  }

  lemma InGroup(c: CellOrder, inputs: seq<Input>, order: seq<nat>, last: nat, m: Member)
    requires IsOrder(c) && Advanced(inputs) && Permuted(order, |inputs|) && Smallest(c, inputs, order, last)
    ensures m in GroupOf(inputs, order, last).members <==>
      && m.input < |inputs| && m.row == inputs[m.input].Used() < |inputs[m.input].rows|
      && Equiv(c, inputs[m.input].rows[inputs[m.input].Used()], inputs[order[0]].key)
  {
    hide IsOrder, KeyCmp;
    var members := GroupOf(inputs, order, last).members;
    if m.input < |inputs| {
      assert m.input in order;
      var a :| 0 <= a < |order| && order[a] == m.input;
      assert inputs[m.input].Wf();
      if inputs[m.input].rowLoaded {
        EquivTransitive(c, inputs[order[0]].key, inputs[order[a]].key, inputs[order[0]].key);
      }
      if a <= last && m.row == inputs[m.input].Used() {
        assert members[a] == m;
      }
    }
  }

  // ---------------------------------------------------------------------------------------
  // Advancing and taking
  // ---------------------------------------------------------------------------------------

  ghost predicate AllWf(inputs: seq<Input>) {
    forall i :: 0 <= i < |inputs| ==> inputs[i].Wf()
  }

  /** Fetching rows changes neither the inputs' rows nor how many have gone into groups. */
  ghost predicate Fetched(before: seq<Input>, after: seq<Input>) {
    && |before| == |after|
    && forall i :: 0 <= i < |before| ==>
      after[i].Wf() && after[i].rows == before[i].rows && after[i].Used() == before[i].Used()
  }

  lemma FetchedSame(before: seq<Input>, after: seq<Input>)
    requires Fetched(before, after)
    ensures RowsOf(after) == RowsOf(before) && UsedOf(after) == UsedOf(before)
  {
  }

  /** The rows of the first inputs of the order are no longer waiting. */
  ghost predicate Reset(before: seq<Input>, after: seq<Input>, order: seq<nat>, n: nat) {
    && |before| == |after| == |order| && n <= |order| && (forall a :: 0 <= a < |order| ==> order[a] < |before|)
    && forall a :: 0 <= a < |order| ==>
      after[order[a]] == if a < n then before[order[a]].(rowLoaded := false) else before[order[a]]
  }

  lemma ResetAt(before: seq<Input>, after: seq<Input>, order: seq<nat>, last: nat, i: nat)
    requires AllWf(before) && Permuted(order, |before|) && last < |order| && Reset(before, after, order, last + 1)
    requires i < |before|
    requires forall a :: 0 <= a <= last ==> before[order[a]].rowLoaded
    ensures after[i].Wf() && after[i].rows == before[i].rows
    ensures after[i].Used()
         == before[i].Used() + if Member(i, before[i].Used()) in GroupOf(before, order, last).members then 1 else 0
  {
    var members := GroupOf(before, order, last).members;
    assert i in order;
    var a :| 0 <= a < |order| && order[a] == i;
    assert before[i].Wf();
    if a <= last {
      assert members[a] == Member(i, before[i].Used());
    } else {
      forall b | 0 <= b < |members| ensures members[b].input != i {
        assert order[b] != order[a];
      }
    }
  }

  /** So the rows of the group have been used up. */
  lemma ResetMoves(before: seq<Input>, after: seq<Input>, order: seq<nat>, last: nat)
    requires AllWf(before) && Permuted(order, |before|) && |after| == |before| && last < |order|
    requires Reset(before, after, order, last + 1) && forall a :: 0 <= a <= last ==> before[order[a]].rowLoaded
    ensures AllWf(after) && RowsOf(after) == RowsOf(before)
    ensures UsedOf(after) == Moved(UsedOf(before), GroupOf(before, order, last))
  {
    hide GroupOf, Reset, AllWf;
    forall i | 0 <= i < |before| ensures after[i].Wf() && after[i].rows == before[i].rows
      && UsedOf(after)[i] == Moved(UsedOf(before), GroupOf(before, order, last))[i]
    {
      ResetAt(before, after, order, last, i);
    }
    WfAll(after);
  }

  /** The group's rows are the last ones delivered by the first inputs of the order. */
  ghost predicate Heads(inputs: seq<Input>, order: seq<nat>, last: nat, g: Group) {
    && Permuted(order, |inputs|) && last < |inputs| && |g.members| == last + 1
    && forall a :: 0 <= a <= last ==>
      g.members[a].input == order[a] && g.members[a].row + 1 == inputs[order[a]].pos <= |inputs[order[a]].rows|
  }

  lemma GroupHeads(c: CellOrder, before: seq<Input>, after: seq<Input>, order: seq<nat>, last: nat)
    requires AllWf(before) && Permuted(order, |before|) && Smallest(c, before, order, last)
    requires Reset(before, after, order, last + 1)
    ensures Heads(after, order, last, GroupOf(before, order, last))
  {
    hide KeyCmp;
    forall a | 0 <= a <= last ensures before[order[a]].Wf() && before[order[a]].rowLoaded {
      assert SameKey(c, before[order[0]], before[order[a]]);
    }
  }

  lemma WfAll(inputs: seq<Input>)
    ensures (forall i :: 0 <= i < |inputs| ==> inputs[i].Wf()) ==> AllWf(inputs)
  {
  }

  // ---------------------------------------------------------------------------------------
  // The state of a comparison
  // ---------------------------------------------------------------------------------------

  /** The groups that are output; with `--require-all-inputs`, those with a row of every input. */
  function Printed(groups: seq<Group>, requireAllInputs: bool, inputCount: nat): seq<Group> {
    if groups == [] then []
    else
      var last := groups[|groups| - 1];
      Printed(groups[..|groups| - 1], requireAllInputs, inputCount)
      + if !requireAllInputs || |last.members| == inputCount then [last] else []
  }

  /** What is printed of some groups and of others after them is printed of all, in order. */
  lemma {:induction false} PrintedSplits(groups: seq<Group>, more: seq<Group>, requireAllInputs: bool, inputCount: nat)
    ensures Printed(groups + more, requireAllInputs, inputCount)
         == Printed(groups, requireAllInputs, inputCount) + Printed(more, requireAllInputs, inputCount)
  {
    if more == [] {
      assert groups + more == groups;
    } else {
      var front, last := more[..|more| - 1], more[|more| - 1];
      PrintedSplits(groups, front, requireAllInputs, inputCount);
      assert (groups + more)[..|groups + more| - 1] == groups + front;
    }
  }

  /** Of one group of a join, all is printed, or with required inputs all if every input has a row in it. */
  lemma PrintedOne(g: Group, requireAllInputs: bool, inputCount: nat)
    requires Ascending(g.members) && forall m :: m in g.members ==> m.input < inputCount
    ensures Printed([g], requireAllInputs, inputCount) ==
            if requireAllInputs && exists i :: 0 <= i < inputCount && !HasInput(g.members, i) then [] else [g]
  {
    hide HasInput, Ascending;
    FullGroup(g.members, inputCount);
    assert [g][..0] == [];
  }

  lemma {:induction false} PrintedFrom(groups: seq<Group>, requireAllInputs: bool, inputCount: nat, g: Group)
    requires g in Printed(groups, requireAllInputs, inputCount)
    ensures g in groups
  {
    if g in Printed(groups[..|groups| - 1], requireAllInputs, inputCount) {
      PrintedFrom(groups[..|groups| - 1], requireAllInputs, inputCount, g);
    }
  }

  lemma PrintedSnoc(groups: seq<Group>, g: Group, requireAllInputs: bool, inputCount: nat)
    ensures Printed(groups + [g], requireAllInputs, inputCount) == Printed(groups, requireAllInputs, inputCount)
         + if !requireAllInputs || |g.members| == inputCount then [g] else []
  {
    assert (groups + [g])[..|groups|] == groups;
  }

  datatype Status = Ok | NoMoreInput

  /** The rows of the inputs not in groups yet. */
  function Left(rows: seq<seq<Key>>, used: seq<nat>, n: nat): nat
    requires n <= |rows| == |used|
  {
    if n == 0 then 0
    else Left(rows, used, n - 1) + if used[n - 1] < |rows[n - 1]| then |rows[n - 1]| - used[n - 1] else 0
  }

  lemma {:induction false} LeftLess(rows: seq<seq<Key>>, used: seq<nat>, g: Group, n: nat)
    requires n <= |rows| == |used|
    ensures Left(rows, Moved(used, g), n) <= Left(rows, used, n)
    ensures (exists i :: 0 <= i < n && used[i] < |rows[i]| && Member(i, used[i]) in g.members) ==>
              Left(rows, Moved(used, g), n) < Left(rows, used, n)
  {
    hide Moved;
    if n > 0 {
      LeftLess(rows, used, g, n - 1);
      MovedAt(used, g, n - 1);
    }
  }

  class Comparison {
    const c: CellOrder
    const requireAllInputs: bool
    const inputs: array<Input>
    var inputsToSort: seq<nat>
    var rowCount: nat
    var printed: seq<Group>
    ghost var groups: seq<Group>   // all groups so far, printed or not

    ghost predicate Valid()
      reads this, inputs
    {
      && IsOrder(c) && Permuted(inputsToSort, inputs.Length) && AllWf(inputs[..])
      && (forall i :: 0 <= i < inputs.Length ==> Sorted(c, RowsOf(inputs[..])[i]))
      && Merging(c, RowsOf(inputs[..]), UsedOf(inputs[..]), groups)
      && rowCount == |groups| && printed == Printed(groups, requireAllInputs, inputs.Length)
    }

    constructor (c: CellOrder, requireAllInputs: bool, rows: seq<seq<Key>>)
      requires IsOrder(c) && forall i :: 0 <= i < |rows| ==> Sorted(c, rows[i])
      ensures Valid() && groups == [] && RowsOf(inputs[..]) == rows && fresh(inputs)
      ensures this.c == c && this.requireAllInputs == requireAllInputs
    {
      this.c, this.requireAllInputs := c, requireAllInputs;
      inputs := new Input[|rows|](i requires 0 <= i < |rows| => Input(rows[i], 0, false, [], false));
      inputsToSort := seq(|rows|, i => i);
      rowCount, printed, groups := 0, [], [];
      new;
      Beginning(c, rows, inputs[..], inputsToSort);
    }

    /** zsv_compare_advance(): fetch a row of every input that has none waiting. */
    method Advance() returns (got: bool)
      requires AllWf(inputs[..])
      modifies inputs
      ensures Fetched(old(inputs[..]), inputs[..]) && Advanced(inputs[..])
      ensures got <==> AnyLoaded(inputs[..])
    {
      got := false;
      ghost var before := inputs[..];
      var i := 0;
      while i < inputs.Length
        invariant 0 <= i <= inputs.Length
        invariant forall j :: 0 <= j < inputs.Length ==>
          inputs[j].Wf() && inputs[j].rows == before[j].rows && inputs[j].Used() == before[j].Used()
        invariant forall j :: 0 <= j < i ==> inputs[j].rowLoaded || inputs[j].done
        invariant got <==> exists j :: 0 <= j < i && inputs[j].rowLoaded
      {
        var input := inputs[i];
        if input.done {
        } else if input.rowLoaded {
          got := true;
        } else if input.pos == |input.rows| {
          inputs[i] := input.(done := true);
        } else {
          inputs[i] := input.(pos := input.pos + 1, key := input.rows[input.pos], rowLoaded := true);
          got := true;
        }
        i := i + 1;
      }
    }

    /** Mark the rows of the first `last + 1` inputs of the order as used. */
    method ResetLoaded(last: nat)
      requires Permuted(inputsToSort, inputs.Length) && last < inputs.Length
      modifies inputs
      ensures Reset(old(inputs[..]), inputs[..], inputsToSort, last + 1)
    {
      ghost var before, order := inputs[..], inputsToSort;
      var n := 0;
      while n <= last
        invariant n <= last + 1 && inputsToSort == order
        invariant forall a :: 0 <= a < |order| ==>
          inputs[order[a]] == if a < n then before[order[a]].(rowLoaded := false) else before[order[a]]
      {
        inputs[inputsToSort[n]] := inputs[inputsToSort[n]].(rowLoaded := false);
        n := n + 1;
      }
    }

    /**
     zsv_compare_next(): form and output the group with the smallest key. Its rows are those of
     the first `last + 1` inputs of `inputsToSort`.
     */
    method Next() returns (status: Status, last: nat)
      requires Valid()
      modifies this, inputs
      ensures Valid() && RowsOf(inputs[..]) == old(RowsOf(inputs[..]))
      ensures status == NoMoreInput ==> groups == old(groups)
      ensures status == NoMoreInput ==> IsJoin(c, RowsOf(inputs[..]), groups)
      ensures status == Ok ==>
        Left(RowsOf(inputs[..]), UsedOf(inputs[..]), inputs.Length)
        < old(Left(RowsOf(inputs[..]), UsedOf(inputs[..]), inputs.Length))
      ensures status == Ok ==>
        && |groups| == |old(groups)| + 1 && groups == old(groups) + [groups[|groups| - 1]]
        && Heads(inputs[..], inputsToSort, last, groups[|groups| - 1])
    {
      hide IsOrder, Permuted, AllWf, RowsOf, UsedOf, Merging, Sorted, Printed, Left, Fetched, Advanced, AnyLoaded,
           Ordered, Smallest, TakesSmallest, Reset, IsJoin, GroupOf, Moved, Heads;
      last := 0;
      ghost var rows, used := RowsOf(inputs[..]), UsedOf(inputs[..]);
      var got := Advance();
      FetchedSame(old(inputs[..]), inputs[..]);
      AdvancedWf(inputs[..]);
      if !got {
        AllUsed(inputs[..]);
        MergingEnds(c, rows, used, groups);
        return NoMoreInput, 0;
      }
      rowCount := rowCount + 1;
      inputsToSort := SortInputs(c, inputs[..], inputsToSort);
      last := FindLast(c, inputs[..], inputsToSort);
      var before, order := inputs[..], inputsToSort;
      SmallestBound(c, before, order, last);
      var g := GroupOf(before, order, last);
      GroupIsSmallest(c, before, order, last);
      MergingStep(c, rows, used, groups, g);
      PrintedSnoc(groups, g, requireAllInputs, inputs.Length);
      LeftTaken(c, rows, used, g);
      if !requireAllInputs || last + 1 == inputs.Length {
        printed := printed + [g];
      }
      groups := groups + [g];
      ResetLoaded(last);
      ResetMoves(before, inputs[..], order, last);
      GroupHeads(c, before, inputs[..], order, last);
      status := Ok;
    }

    /** The whole comparison: the groups are the join of the inputs. */
    method Run()
      requires Valid() && groups == []
      modifies this, inputs
      ensures Valid() && RowsOf(inputs[..]) == old(RowsOf(inputs[..]))
      ensures IsJoin(c, RowsOf(inputs[..]), groups) && printed == Printed(groups, requireAllInputs, inputs.Length)
    {
      hide IsOrder, Permuted, AllWf, RowsOf, UsedOf, Merging, Sorted, Printed, Left, IsJoin;
      var status := Ok;
      while status == Ok
        invariant Valid() && RowsOf(inputs[..]) == old(RowsOf(inputs[..]))
        invariant status == NoMoreInput ==> IsJoin(c, RowsOf(inputs[..]), groups)
        decreases if status == Ok then 1 else 0, Left(RowsOf(inputs[..]), UsedOf(inputs[..]), inputs.Length)
      {
        var last;
        status, last := Next();
      }
    }
  }

  lemma AdvancedWf(inputs: seq<Input>)
    requires Advanced(inputs)
    ensures AllWf(inputs)
  {
  }

  lemma AllUsed(inputs: seq<Input>)
    requires Advanced(inputs) && !AnyLoaded(inputs)
    ensures forall i :: 0 <= i < |inputs| ==> UsedOf(inputs)[i] == |RowsOf(inputs)[i]|
  {
    forall i | 0 <= i < |inputs| ensures inputs[i].done && inputs[i].Wf() && !inputs[i].rowLoaded {
    }
  }

  lemma SmallestBound(c: CellOrder, inputs: seq<Input>, order: seq<nat>, last: nat)
    requires Smallest(c, inputs, order, last)
    ensures last < |order| == |inputs| && (forall a :: 0 <= a < |order| ==> order[a] < |inputs|)
    ensures forall a :: 0 <= a <= last ==> inputs[order[a]].rowLoaded
    ensures |GroupOf(inputs, order, last).members| == last + 1
  {
  }

  lemma LeftTaken(c: CellOrder, rows: seq<seq<Key>>, used: seq<nat>, g: Group)
    requires |used| == |rows| && TakesSmallest(c, rows, used, g)
    ensures Left(rows, Moved(used, g), |rows|) < Left(rows, used, |rows|)
  {
    hide Moved, Left, Equiv;
    var m := g.members[0];
    assert m in g.members && m == Member(m.input, used[m.input]);
    LeftLess(rows, used, g, |rows|);
  }

  lemma Beginning(c: CellOrder, rows: seq<seq<Key>>, inputs: seq<Input>, order: seq<nat>)
    requires |inputs| == |rows| == |order|
    requires forall i :: 0 <= i < |rows| ==> inputs[i] == Input(rows[i], 0, false, [], false) && order[i] == i
    ensures Permuted(order, |rows|) && AllWf(inputs) && RowsOf(inputs) == rows
    ensures Merging(c, rows, UsedOf(inputs), [])
  {
    forall i | 0 <= i < |rows| ensures i in order {
      assert order[i] == i;
    }
    assert UsedOf(inputs) == seq(|rows|, i => 0);
  }

  lemma {:induction false} PrintedAll(groups: seq<Group>, inputCount: nat)
    ensures Printed(groups, false, inputCount) == groups
  {
    if groups != [] {
      PrintedAll(groups[..|groups| - 1], inputCount);
    }
  }

  lemma JoinLed(c: CellOrder, rows: seq<seq<Key>>, groups: seq<Group>, g: Group)
    requires IsJoin(c, rows, groups) && g in groups
    ensures LedBy(rows, g)
  {
    hide Belongs, Ascending, InSomeGroup, LedBy;
    var t :| 0 <= t < |groups| && groups[t] == g;
  }

  /** Compare sorted inputs: what is printed is their join, or the full groups of it. */
  method CompareInputs(c: CellOrder, requireAllInputs: bool, rows: seq<seq<Key>>) returns (printed: seq<Group>)
    requires IsOrder(c) && forall i :: 0 <= i < |rows| ==> Sorted(c, rows[i])
    ensures !requireAllInputs ==> IsJoin(c, rows, printed)
    ensures exists groups :: IsJoin(c, rows, groups) && printed == Printed(groups, requireAllInputs, |rows|)
    ensures forall g :: g in printed ==>
      && g.members != []
      && var first := g.members[0];
      first.input < |rows| && first.row < |rows[first.input]| && g.key == rows[first.input][first.row]
  {
    hide IsOrder, Sorted, IsJoin, Printed;
    var data := new Comparison(c, requireAllInputs, rows);
    data.Run();
    printed := data.printed;
    PrintedAll(data.groups, |rows|);
    assert IsJoin(c, rows, data.groups) && printed == Printed(data.groups, requireAllInputs, |rows|);
    forall g | g in printed ensures LedBy(rows, g) {
      PrintedFrom(data.groups, requireAllInputs, |rows|, g);
      JoinLed(c, rows, data.groups, g);
    }
  }
}
