/** What a merge of sorted inputs is, on values: groups of rows with one key, one from each input that has it. */
module Merge {
  import opened Keys

  /** Row `row` of input `input`. */
  datatype Member = Member(input: nat, row: nat)

  datatype Group = Group(key: Key, members: seq<Member>)

  ghost predicate Sorted(c: CellOrder, keys: seq<Key>) {
    forall a, b :: 0 <= a <= b < |keys| ==> Le(c, keys[a], keys[b])
  }

  /** How many of the first `n` keys compare equal to `k`. */
  function Same(c: CellOrder, keys: seq<Key>, n: nat, k: Key): nat
    requires n <= |keys|
  {
    if n == 0 then 0 else Same(c, keys, n - 1, k) + if Equiv(c, keys[n - 1], k) then 1 else 0
  }

  function GroupKeys(groups: seq<Group>): (r: seq<Key>)
    ensures |r| == |groups|
  {
    seq(|groups|, t requires 0 <= t < |groups| => groups[t].key)
  }

  /** Row `r` of an input is the `Nth(c, keys, r)`-th with its key, counted from 0. */
  function Nth(c: CellOrder, keys: seq<Key>, r: nat): nat
    requires r < |keys|
  {
    Same(c, keys, r, keys[r])
  }

  /**
   The groups are the join of the inputs: in the order of their keys, and for each key the j-th
   group with it holds the j-th row with it of every input that has one, in the order of the inputs.
   */
  ghost predicate IsJoin(c: CellOrder, inputs: seq<seq<Key>>, groups: seq<Group>) {
    && Sorted(c, GroupKeys(groups))
    && (forall t :: 0 <= t < |groups| ==> Ascending(groups[t].members) && LedBy(inputs, groups[t]))
    && (forall t, i, r | 0 <= t < |groups| && 0 <= i < |inputs| && 0 <= r < |inputs[i]| ::
          Member(i, r) in groups[t].members <==> Belongs(c, inputs, groups, t, i, r))
    && (forall t, m :: 0 <= t < |groups| && m in groups[t].members ==> m.input < |inputs| && m.row < |inputs[m.input]|)
    && (forall i, r :: 0 <= i < |inputs| && 0 <= r < |inputs[i]| ==> InSomeGroup(groups, i, r))
    && (forall i :: 0 <= i < |inputs| ==> GroupsWith(groups, i) == |inputs[i]|)
  }

  /** The key of the group is that of its first row; other rows may have an equivalent one. */
  ghost predicate LedBy(inputs: seq<seq<Key>>, g: Group) {
    && g.members != [] && g.members[0].input < |inputs| && g.members[0].row < |inputs[g.members[0].input]|
    && g.key == inputs[g.members[0].input][g.members[0].row]
  }

  ghost predicate HasInput(members: seq<Member>, i: nat) {
    exists a :: 0 <= a < |members| && members[a].input == i
  }

  /** How many groups have a row of input `i`. */
  ghost function GroupsWith(groups: seq<Group>, i: nat): nat {
    if groups == [] then 0
    else GroupsWith(groups[..|groups| - 1], i) + if HasInput(groups[|groups| - 1].members, i) then 1 else 0
  }

  ghost predicate InSomeGroup(groups: seq<Group>, i: nat, r: nat) {
    exists t :: 0 <= t < |groups| && Member(i, r) in groups[t].members
  }

  ghost predicate Ascending(members: seq<Member>) {
    forall a, b :: 0 <= a < b < |members| ==> members[a].input < members[b].input
  }

  /** Row `r` of input `i` has the key of group `t`, and is as many-th with it. */
  ghost predicate Belongs(c: CellOrder, inputs: seq<seq<Key>>, groups: seq<Group>, t: nat, i: nat, r: nat)
    requires t < |groups| && i < |inputs| && r < |inputs[i]|
  {
    Equiv(c, inputs[i][r], groups[t].key) && Nth(c, inputs[i], r) == Nth(c, GroupKeys(groups), t)
  }

  // ---------------------------------------------------------------------------------------
  // Counting equal keys
  // ---------------------------------------------------------------------------------------

  lemma {:induction false} SameEquiv(c: CellOrder, keys: seq<Key>, n: nat, k: Key, k': Key)
    requires IsOrder(c) && n <= |keys| && Equiv(c, k, k')
    ensures Same(c, keys, n, k) == Same(c, keys, n, k')
  {
    hide Equiv, Le, IsOrder;
    if n > 0 {
      SameEquiv(c, keys, n - 1, k, k');
      EquivTransitive(c, keys[n - 1], k, k');
      EquivTransitive(c, keys[n - 1], k', k);
      KeyOrder(c, k, k', k);
      KeyOrder(c, k', k, k');
    }
  }

  /** The places among the first `n` with a key that compares equal to `k`. */
  function EqualTo(c: CellOrder, keys: seq<Key>, n: nat, k: Key): set<nat>
    requires n <= |keys|
  {
    set a: nat | a < n && KeyCmp(c, keys[a], k, 0) == 0
  }

  lemma {:induction false} SameCounts(c: CellOrder, keys: seq<Key>, n: nat, k: Key)
    requires n <= |keys|
    ensures Same(c, keys, n, k) == |EqualTo(c, keys, n, k)|
  {
    hide KeyCmp;
    if n > 0 {
      SameCounts(c, keys, n - 1, k);
      var before := EqualTo(c, keys, n - 1, k);
      assert EqualTo(c, keys, n, k) == if Equiv(c, keys[n - 1], k) then before + {n - 1} else before;
    }
  }

  lemma EquivTransitive(c: CellOrder, x: Key, y: Key, z: Key)
    requires IsOrder(c)
    ensures Equiv(c, x, y) && Equiv(c, y, z) ==> Equiv(c, x, z)
    ensures Equiv(c, x, y) <==> Equiv(c, y, x)
  {
    hide Equiv, Le, IsOrder;
    KeyOrder(c, x, y, z);
    KeyOrder(c, y, x, z);
    KeyOrder(c, z, y, x);
    KeyOrder(c, y, z, x);
    KeyOrder(c, x, z, y);
  }

  lemma {:induction false} SamePrefix(c: CellOrder, keys: seq<Key>, keys': seq<Key>, n: nat, k: Key)
    requires n <= |keys| && n <= |keys'| && keys[..n] == keys'[..n]
    ensures Same(c, keys, n, k) == Same(c, keys', n, k)
  {
    hide Equiv;
    if n > 0 {
      assert keys[..n - 1] == keys[..n][..n - 1] == keys'[..n - 1];
      assert keys[n - 1] == keys[..n][n - 1] == keys'[n - 1];
      SamePrefix(c, keys, keys', n - 1, k);
    }
  }

  /** No key below `k` counts. */
  lemma {:induction false} SameNone(c: CellOrder, keys: seq<Key>, n: nat, k: Key)
    requires n <= |keys| && forall a :: 0 <= a < n ==> !Equiv(c, keys[a], k)
    ensures Same(c, keys, n, k) == 0
  {
    hide Equiv;
    if n > 0 {
      SameNone(c, keys, n - 1, k);
    }
  }

  lemma {:induction false} SameGrows(c: CellOrder, keys: seq<Key>, m: nat, n: nat, k: Key)
    requires m <= n <= |keys|
    ensures Same(c, keys, m, k) <= Same(c, keys, n, k)
  {
    hide Equiv;
    if m < n {
      SameGrows(c, keys, m, n - 1, k);
    }
  }

  // ---------------------------------------------------------------------------------------
  // The state between two groups
  // ---------------------------------------------------------------------------------------

  /** The first `at[i]` rows of each input have gone into groups. */
  ghost predicate Merging(c: CellOrder, inputs: seq<seq<Key>>, at: seq<nat>, groups: seq<Group>) {
    && |at| == |inputs| && (forall i :: 0 <= i < |at| ==> at[i] <= |inputs[i]|)
    && Sorted(c, GroupKeys(groups))
    && (forall t :: 0 <= t < |groups| ==> GroupHolds(c, inputs, at, groups, t))
    && (forall i :: 0 <= i < |at| ==> InputHolds(c, inputs[i], at[i], groups, i))
  }

  ghost predicate GroupHolds(c: CellOrder, inputs: seq<seq<Key>>, at: seq<nat>, groups: seq<Group>, t: nat)
    requires |at| == |inputs| && t < |groups|
  {
    && Ascending(groups[t].members) && LedBy(inputs, groups[t])
    && forall m :: m in groups[t].members ==> MemberHolds(c, inputs, at, groups, t, m)
  }

  ghost predicate MemberHolds(c: CellOrder, inputs: seq<seq<Key>>, at: seq<nat>, groups: seq<Group>, t: nat, m: Member)
    requires |at| == |inputs| && t < |groups|
  {
    m.input < |at| && m.row < at[m.input] <= |inputs[m.input]| && Belongs(c, inputs, groups, t, m.input, m.row)
  }

  ghost predicate InputHolds(c: CellOrder, keys: seq<Key>, at: nat, groups: seq<Group>, i: nat) {
    && at <= |keys|
    && (forall r :: 0 <= r < at ==> InSomeGroup(groups, i, r))
    && GroupsWith(groups, i) == at
    && (at < |keys| ==> NextHolds(c, keys[at], keys, at, groups))
  }

  /** The input's next row is not below any group, and is as many-th with its key as the next group with it. */
  ghost predicate NextHolds(c: CellOrder, k: Key, keys: seq<Key>, at: nat, groups: seq<Group>)
    requires at <= |keys|
  {
    && (forall t :: 0 <= t < |groups| ==> Le(c, groups[t].key, k))
    && Same(c, keys, at, k) == Same(c, GroupKeys(groups), |groups|, k)
  }

  // ---------------------------------------------------------------------------------------
  // One more group
  // ---------------------------------------------------------------------------------------

  /** Group `g` takes the next row of exactly the inputs whose next key is the smallest one. */
  ghost predicate TakesSmallest(c: CellOrder, inputs: seq<seq<Key>>, at: seq<nat>, g: Group)
    requires |at| == |inputs|
  {
    && Ascending(g.members) && LedBy(inputs, g)
    && (exists i :: 0 <= i < |at| && at[i] < |inputs[i]| && inputs[i][at[i]] == g.key)
    && (forall i :: 0 <= i < |at| && at[i] < |inputs[i]| ==> Le(c, g.key, inputs[i][at[i]]))
    && (forall m :: m in g.members <==>
          m.input < |at| && m.row == at[m.input] < |inputs[m.input]| && Equiv(c, inputs[m.input][at[m.input]], g.key))
  }

  function Moved(at: seq<nat>, g: Group): (r: seq<nat>)
    ensures |r| == |at|
  {
    seq(|at|, i requires 0 <= i < |at| => if Member(i, at[i]) in g.members then at[i] + 1 else at[i])
  }

  lemma KeysSnoc(groups: seq<Group>, g: Group)
    ensures GroupKeys(groups + [g]) == GroupKeys(groups) + [g.key]
  {
  }

  lemma SameSnoc(c: CellOrder, groups: seq<Group>, g: Group, k: Key)
    ensures Same(c, GroupKeys(groups + [g]), |groups| + 1, k)
         == Same(c, GroupKeys(groups), |groups|, k) + if Equiv(c, g.key, k) then 1 else 0
  {
    hide Equiv;
    KeysSnoc(groups, g);
    SamePrefix(c, GroupKeys(groups), GroupKeys(groups + [g]), |groups|, k);
  }

  lemma NthSnoc(c: CellOrder, groups: seq<Group>, g: Group, t: nat)
    requires t < |groups|
    ensures Nth(c, GroupKeys(groups + [g]), t) == Nth(c, GroupKeys(groups), t)
  {
    hide Equiv;
    var keys, keys' := GroupKeys(groups), GroupKeys(groups + [g]);
    KeysSnoc(groups, g);
    assert keys'[..t] == keys[..t];
    SamePrefix(c, keys, keys', t, keys[t]);
  }

  /** An input whose next row was not taken: its key is above the group's. */
  lemma NotTaken(c: CellOrder, keys: seq<Key>, at: nat, groups: seq<Group>, g: Group)
    requires IsOrder(c) && at < |keys| && NextHolds(c, keys[at], keys, at, groups)
    requires Le(c, g.key, keys[at]) && !Equiv(c, keys[at], g.key)
    ensures NextHolds(c, keys[at], keys, at, groups + [g])
  {
    hide Equiv, Le, IsOrder, GroupKeys;
    SameSnoc(c, groups, g, keys[at]);
    EquivTransitive(c, keys[at], g.key, g.key);
  }

  /** An input whose next row was taken: the row after has the same key, or one not seen yet. */
  lemma Taken(c: CellOrder, keys: seq<Key>, at: nat, groups: seq<Group>, g: Group)
    requires IsOrder(c) && Sorted(c, keys) && at + 1 < |keys| && NextHolds(c, keys[at], keys, at, groups)
    requires Equiv(c, keys[at], g.key)
    ensures NextHolds(c, keys[at + 1], keys, at + 1, groups + [g])
  {
    hide Equiv, Le, IsOrder, GroupKeys, Same, Sorted;
    var k, k' := keys[at], keys[at + 1];
    SortedAt(c, keys, at, at + 1);
    AllBelow(c, groups, g, k, k');
    SameStep(c, keys, at, k');
    SameSnoc(c, groups, g, k');
    EquivTransitive(c, g.key, k', k);
    EquivTransitive(c, k, g.key, k');
    EquivTransitive(c, g.key, k, k');
    if Equiv(c, k, k') {
      SameEquiv(c, keys, at, k, k');
      SameEquiv(c, GroupKeys(groups), |groups|, k, k');
    } else {
      NewKey(c, keys, at, k');
      NewGroupKey(c, groups, k, k');
    }
  }

  lemma SortedAt(c: CellOrder, keys: seq<Key>, a: nat, b: nat)
    requires Sorted(c, keys) && a <= b < |keys|
    ensures Le(c, keys[a], keys[b])
  {
  }

  lemma SameStep(c: CellOrder, keys: seq<Key>, n: nat, k: Key)
    requires n < |keys|
    ensures Same(c, keys, n + 1, k) == Same(c, keys, n, k) + if Equiv(c, keys[n], k) then 1 else 0
  {
  }

  lemma AllBelow(c: CellOrder, groups: seq<Group>, g: Group, k: Key, k': Key)
    requires IsOrder(c) && Le(c, k, k') && Equiv(c, k, g.key)
    requires forall t :: 0 <= t < |groups| ==> Le(c, groups[t].key, k)
    ensures forall t :: 0 <= t < |groups| + 1 ==> Le(c, (groups + [g])[t].key, k')
  {
    hide Equiv, Le, IsOrder;
    var all := groups + [g];
    forall t | 0 <= t < |all| ensures Le(c, all[t].key, k') {
      KeyOrder(c, k, g.key, k);
      KeyOrder(c, all[t].key, k, k');
    }
  }

  lemma Above(c: CellOrder, x: Key, k: Key, k': Key)
    requires IsOrder(c) && Le(c, x, k) && Le(c, k, k') && !Equiv(c, k, k')
    ensures !Equiv(c, x, k')
  {
    hide Equiv, Le, IsOrder;
    KeyOrder(c, x, k', k);
    KeyOrder(c, k', x, k);
    KeyOrder(c, k, k', k);
  }

  lemma NewKey(c: CellOrder, keys: seq<Key>, at: nat, k': Key)
    requires IsOrder(c) && Sorted(c, keys) && at < |keys| && Le(c, keys[at], k') && !Equiv(c, keys[at], k')
    ensures Same(c, keys, at, k') == 0
  {
    hide Equiv, Le, IsOrder, Same;
    forall a | 0 <= a < at ensures !Equiv(c, keys[a], k') {
      Above(c, keys[a], keys[at], k');
    }
    SameNone(c, keys, at, k');
  }

  lemma NewGroupKey(c: CellOrder, groups: seq<Group>, k: Key, k': Key)
    requires IsOrder(c) && Le(c, k, k') && !Equiv(c, k, k')
    requires forall t :: 0 <= t < |groups| ==> Le(c, groups[t].key, k)
    ensures Same(c, GroupKeys(groups), |groups|, k') == 0
  {
    hide Equiv, Le, IsOrder, Same;
    forall a | 0 <= a < |groups| ensures !Equiv(c, GroupKeys(groups)[a], k') {
      Above(c, groups[a].key, k, k');
    }
    SameNone(c, GroupKeys(groups), |groups|, k');
  }

  lemma KeysStaySorted(c: CellOrder, inputs: seq<seq<Key>>, at: seq<nat>, groups: seq<Group>, g: Group)
    requires IsOrder(c) && Merging(c, inputs, at, groups) && TakesSmallest(c, inputs, at, g)
    ensures Sorted(c, GroupKeys(groups + [g]))
  {
    hide Equiv, Le, IsOrder, Same, GroupHolds, Ascending, GroupKeys;
    var i :| 0 <= i < |at| && at[i] < |inputs[i]| && inputs[i][at[i]] == g.key;
    assert InputHolds(c, inputs[i], at[i], groups, i);
    KeyOrder(c, g.key, g.key, g.key);
    KeysSnoc(groups, g);
    KeysAt(groups);
  }

  lemma KeysAt(groups: seq<Group>)
    ensures forall t :: 0 <= t < |groups| ==> GroupKeys(groups)[t] == groups[t].key
  {
  }

  lemma MovedAt(at: seq<nat>, g: Group, i: nat)
    requires i < |at|
    ensures Moved(at, g)[i] == if Member(i, at[i]) in g.members then at[i] + 1 else at[i]
  {
  }

  lemma OldGroupHolds(c: CellOrder, inputs: seq<seq<Key>>, at: seq<nat>, groups: seq<Group>, g: Group, t: nat)
    requires |at| == |inputs| && t < |groups| && GroupHolds(c, inputs, at, groups, t)
    requires forall i :: 0 <= i < |at| ==> Moved(at, g)[i] <= |inputs[i]|
    ensures GroupHolds(c, inputs, Moved(at, g), groups + [g], t)
  {
    hide Equiv, Nth, GroupKeys, Moved, Ascending;
    var all := groups + [g];
    assert all[t] == groups[t];
    forall m | m in all[t].members ensures MemberHolds(c, inputs, Moved(at, g), all, t, m) {
      assert MemberHolds(c, inputs, at, groups, t, m);
      MovedAt(at, g, m.input);
      NthSnoc(c, groups, g, t);
    }
  }

  lemma NewGroupHolds(c: CellOrder, inputs: seq<seq<Key>>, at: seq<nat>, groups: seq<Group>, g: Group)
    requires IsOrder(c) && Merging(c, inputs, at, groups) && TakesSmallest(c, inputs, at, g)
    ensures GroupHolds(c, inputs, Moved(at, g), groups + [g], |groups|)
  {
    hide Equiv, Le, IsOrder, Same, GroupHolds, Ascending, GroupKeys, Moved, Sorted;
    var all, t := groups + [g], |groups|;
    GroupHoldsIf(c, inputs, Moved(at, g), all, t);
    forall m | m in g.members ensures MemberHolds(c, inputs, Moved(at, g), all, t, m) {
      var i := m.input;
      assert InputHolds(c, inputs[i], at[i], groups, i);
      MovedAt(at, g, i);
      assert m == Member(i, at[i]);
      NewMember(c, inputs[i], at[i], groups, g);
    }
  }

  lemma GroupHoldsIf(c: CellOrder, inputs: seq<seq<Key>>, at: seq<nat>, groups: seq<Group>, t: nat)
    requires |at| == |inputs| && t < |groups| && Ascending(groups[t].members) && LedBy(inputs, groups[t])
    ensures (forall m :: m in groups[t].members ==> MemberHolds(c, inputs, at, groups, t, m)) ==>
      GroupHolds(c, inputs, at, groups, t)
  {
  }

  lemma NewMember(c: CellOrder, keys: seq<Key>, at: nat, groups: seq<Group>, g: Group)
    requires IsOrder(c) && at < |keys| && NextHolds(c, keys[at], keys, at, groups) && Equiv(c, keys[at], g.key)
    ensures Nth(c, keys, at) == Nth(c, GroupKeys(groups + [g]), |groups|)
  {
    hide Equiv, Le, IsOrder, GroupKeys, Same;
    KeysSnoc(groups, g);
    SameEquiv(c, GroupKeys(groups), |groups|, keys[at], g.key);
    SamePrefix(c, GroupKeys(groups), GroupKeys(groups + [g]), |groups|, g.key);
  }

  lemma StillInGroup(groups: seq<Group>, g: Group, i: nat, r: nat)
    ensures InSomeGroup(groups, i, r) || Member(i, r) in g.members ==> InSomeGroup(groups + [g], i, r)
  {
    var all := groups + [g];
    if InSomeGroup(groups, i, r) {
      var t :| 0 <= t < |groups| && Member(i, r) in groups[t].members;
      assert all[t] == groups[t];
    } else if Member(i, r) in g.members {
      assert all[|groups|] == g;
    }
  }

  lemma GroupsWithSnoc(groups: seq<Group>, g: Group, i: nat)
    ensures GroupsWith(groups + [g], i) == GroupsWith(groups, i) + if HasInput(g.members, i) then 1 else 0
  {
    hide HasInput;
    assert (groups + [g])[..|groups|] == groups;
  }

  /** The groups, by number, with a row of input `i`. */
  ghost function WithInput(groups: seq<Group>, i: nat): set<nat> {
    set t: nat | t < |groups| && HasInput(groups[t].members, i)
  }

  lemma {:induction false} GroupsWithCounts(groups: seq<Group>, i: nat)
    ensures GroupsWith(groups, i) == |WithInput(groups, i)|
  {
    hide HasInput;
    if groups != [] {
      var n := |groups| - 1;
      GroupsWithCounts(groups[..n], i);
      var before := WithInput(groups[..n], i);
      assert forall t: nat :: t in before <==> t < n && HasInput(groups[t].members, i);
      assert WithInput(groups, i) == if HasInput(groups[n].members, i) then before + {n} else before;
    }
  }

  /** A group that takes smallest rows has a row of an input just when it takes the next one. */
  lemma TakesNext(c: CellOrder, inputs: seq<seq<Key>>, at: seq<nat>, g: Group, i: nat)
    requires |at| == |inputs| && TakesSmallest(c, inputs, at, g) && i < |at|
    ensures HasInput(g.members, i) <==> Member(i, at[i]) in g.members
  {
    hide Equiv, Le, Ascending;
    if HasInput(g.members, i) {
      var a :| 0 <= a < |g.members| && g.members[a].input == i;
      assert g.members[a] in g.members;
      assert g.members[a] == Member(i, at[i]);
    }
    if Member(i, at[i]) in g.members {
      var a :| 0 <= a < |g.members| && g.members[a] == Member(i, at[i]);
      assert g.members[a].input == i;
    }
  }

  lemma InputStillHolds(c: CellOrder, inputs: seq<seq<Key>>, at: seq<nat>, groups: seq<Group>, g: Group, i: nat)
    requires IsOrder(c) && |at| == |inputs| && TakesSmallest(c, inputs, at, g)
    requires i < |at| && Sorted(c, inputs[i]) && InputHolds(c, inputs[i], at[i], groups, i)
    ensures InputHolds(c, inputs[i], Moved(at, g)[i], groups + [g], i)
  {
    hide Equiv, Le, IsOrder, NextHolds, Moved, Sorted, InSomeGroup, Ascending, GroupsWith, HasInput;
    var keys, n := inputs[i], at[i];
    MovedAt(at, g, i);
    GroupsWithSnoc(groups, g, i);
    TakesNext(c, inputs, at, g, i);
    var n' := Moved(at, g)[i];
    forall r | 0 <= r < n' ensures InSomeGroup(groups + [g], i, r) {
      StillInGroup(groups, g, i, r);
    }
    if Member(i, n) in g.members {
      if n + 1 < |keys| {
        Taken(c, keys, n, groups, g);
      }
    } else if n < |keys| {
      NotTaken(c, keys, n, groups, g);
    }
  }

  /** A group that takes the smallest next rows keeps the merge going. */
  lemma MergingStep(c: CellOrder, inputs: seq<seq<Key>>, at: seq<nat>, groups: seq<Group>, g: Group)
    requires IsOrder(c) && (forall i :: 0 <= i < |inputs| ==> Sorted(c, inputs[i]))
    requires Merging(c, inputs, at, groups) && TakesSmallest(c, inputs, at, g)
    ensures Merging(c, inputs, Moved(at, g), groups + [g])
  {
    hide Equiv, Le, IsOrder, Moved, Sorted, InputHolds, GroupHolds, TakesSmallest;
    var at', all := Moved(at, g), groups + [g];
    KeysStaySorted(c, inputs, at, groups, g);
    forall i | 0 <= i < |at'| ensures InputHolds(c, inputs[i], at'[i], all, i) && at'[i] <= |inputs[i]| {
      InputStillHolds(c, inputs, at, groups, g, i);
      InputBound(c, inputs[i], at'[i], all, i);
    }
    forall t | 0 <= t < |all| ensures GroupHolds(c, inputs, at', all, t) {
      if t < |groups| {
        OldGroupHolds(c, inputs, at, groups, g, t);
      } else {
        NewGroupHolds(c, inputs, at, groups, g);
      }
    }
  }

  lemma InputBound(c: CellOrder, keys: seq<Key>, at: nat, groups: seq<Group>, i: nat)
    requires InputHolds(c, keys, at, groups, i)
    ensures at <= |keys|
  {
  }

  // ---------------------------------------------------------------------------------------
  // The end of the merge
  // ---------------------------------------------------------------------------------------

  lemma NthOrdered(c: CellOrder, keys: seq<Key>, t: nat, u: nat)
    requires IsOrder(c) && t < u < |keys| && Equiv(c, keys[t], keys[u])
    ensures Nth(c, keys, t) < Nth(c, keys, u)
  {
    hide Equiv, Le, IsOrder, Same;
    SameEquiv(c, keys, t, keys[t], keys[u]);
    SameStep(c, keys, t, keys[u]);
    SameGrows(c, keys, t + 1, u, keys[u]);
  }

  /** Two groups with one key are not as many-th with it. */
  lemma OneGroup(c: CellOrder, inputs: seq<seq<Key>>, groups: seq<Group>, t: nat, u: nat, i: nat, r: nat)
    requires IsOrder(c) && t < |groups| && u < |groups| && i < |inputs| && r < |inputs[i]|
    requires Belongs(c, inputs, groups, t, i, r) && Belongs(c, inputs, groups, u, i, r)
    ensures t == u
  {
    hide Equiv, Le, IsOrder, Nth, GroupKeys;
    var keys := GroupKeys(groups);
    KeysAt(groups);
    EquivTransitive(c, groups[t].key, inputs[i][r], groups[u].key);
    EquivTransitive(c, groups[t].key, groups[u].key, groups[t].key);
    if t < u {
      NthOrdered(c, keys, t, u);
    } else if u < t {
      NthOrdered(c, keys, u, t);
    }
  }

  /** When all rows have gone into groups, the groups are the join. */
  lemma MergingEnds(c: CellOrder, inputs: seq<seq<Key>>, at: seq<nat>, groups: seq<Group>)
    requires IsOrder(c) && Merging(c, inputs, at, groups)
    requires forall i :: 0 <= i < |at| ==> at[i] == |inputs[i]|
    ensures IsJoin(c, inputs, groups)
  {
    hide Equiv, Le, IsOrder, Nth, GroupKeys, Sorted, Belongs, InSomeGroup, Ascending, LedBy;
    forall i, r | 0 <= i < |inputs| && 0 <= r < |inputs[i]| ensures InSomeGroup(groups, i, r) {
      assert InputHolds(c, inputs[i], at[i], groups, i);
    }
    forall t, i, r | 0 <= t < |groups| && 0 <= i < |inputs| && 0 <= r < |inputs[i]|
      ensures Member(i, r) in groups[t].members <==> Belongs(c, inputs, groups, t, i, r)
    {
      MemberIff(c, inputs, at, groups, t, i, r);
    }
    forall t, m | 0 <= t < |groups| && m in groups[t].members ensures m.input < |inputs| && m.row < |inputs[m.input]| {
      assert GroupHolds(c, inputs, at, groups, t);
      assert MemberHolds(c, inputs, at, groups, t, m);
    }
    forall t | 0 <= t < |groups| ensures Ascending(groups[t].members) && LedBy(inputs, groups[t]) {
      assert GroupHolds(c, inputs, at, groups, t);
    }
  }

  lemma MemberIff(c: CellOrder, inputs: seq<seq<Key>>, at: seq<nat>, groups: seq<Group>, t: nat, i: nat, r: nat)
    requires IsOrder(c) && |at| == |inputs| && t < |groups| && i < |inputs| && r < |inputs[i]|
    requires (forall t :: 0 <= t < |groups| ==> GroupHolds(c, inputs, at, groups, t)) && InSomeGroup(groups, i, r)
    ensures Member(i, r) in groups[t].members <==> Belongs(c, inputs, groups, t, i, r)
  {
    hide Equiv, Le, IsOrder, Nth, GroupKeys, Belongs, Ascending;
    var u :| 0 <= u < |groups| && Member(i, r) in groups[u].members;
    assert GroupHolds(c, inputs, at, groups, u);
    assert MemberHolds(c, inputs, at, groups, u, Member(i, r));
    if Member(i, r) in groups[t].members {
      assert GroupHolds(c, inputs, at, groups, t);
      assert MemberHolds(c, inputs, at, groups, t, Member(i, r));
    } else if Belongs(c, inputs, groups, t, i, r) {
      OneGroup(c, inputs, groups, t, u, i, r);
    }
  }

  /** No row is in two groups of a join. */
  lemma RowsOnce(c: CellOrder, inputs: seq<seq<Key>>, groups: seq<Group>, t: nat, u: nat, m: Member)
    requires IsOrder(c) && IsJoin(c, inputs, groups) && t < |groups| && u < |groups|
    requires m in groups[t].members && m in groups[u].members
    ensures t == u
  {
    hide Belongs;
    assert m == Member(m.input, m.row);
    OneGroup(c, inputs, groups, t, u, m.input, m.row);
  }

  lemma {:induction false} NthExists(c: CellOrder, keys: seq<Key>, n: nat, k: Key, j: nat) returns (r: nat)
    requires n <= |keys| && j < Same(c, keys, n, k)
    ensures r < n && Equiv(c, keys[r], k) && Same(c, keys, r, k) == j
  {
    hide Equiv;
    if Equiv(c, keys[n - 1], k) && Same(c, keys, n - 1, k) == j {
      r := n - 1;
    } else {
      r := NthExists(c, keys, n - 1, k, j);
    }
  }

  /** The j-th group with a key has a row of just those inputs that have more than j rows with it. */
  lemma JoinCovers(c: CellOrder, inputs: seq<seq<Key>>, groups: seq<Group>, t: nat, i: nat)
    requires IsOrder(c) && IsJoin(c, inputs, groups) && t < |groups| && i < |inputs|
    ensures (exists r: nat :: Member(i, r) in groups[t].members)
       <==> Same(c, inputs[i], |inputs[i]|, groups[t].key) > Nth(c, GroupKeys(groups), t)
  {
    hide Equiv, IsOrder, Le, Same, InSomeGroup, Ascending, GroupKeys, Sorted;
    var keys, k, j := inputs[i], groups[t].key, Nth(c, GroupKeys(groups), t);
    if exists r: nat :: Member(i, r) in groups[t].members {
      var r: nat :| Member(i, r) in groups[t].members;
      assert Member(i, r).input == i;
      SameEquiv(c, keys, r, keys[r], k);
      SameStep(c, keys, r, k);
      SameGrows(c, keys, r + 1, |keys|, k);
    }
    if Same(c, keys, |keys|, k) > j {
      var r := NthExists(c, keys, |keys|, k, j);
      SameEquiv(c, keys, r, keys[r], k);
      assert Belongs(c, inputs, groups, t, i, r);
    }
  }

  /** A group has as many members as there are inputs just when every input has a row in it. */
  lemma FullGroup(members: seq<Member>, n: nat)
    requires Ascending(members) && forall m :: m in members ==> m.input < n
    ensures |members| == n <==> forall i :: 0 <= i < n ==> HasInput(members, i)
  {
    forall a | 0 <= a < |members| ensures a <= members[a].input <= n - |members| + a {
      InputAtLeast(members, a);
      InputAtMost(members, n, a);
    }
    if forall i :: 0 <= i < n ==> HasInput(members, i) {
      AllInputs(members, n, n);
      if members != [] {
        InputAtLeast(members, |members| - 1);
        assert members[|members| - 1] in members;
      }
    }
    if |members| == n {
      forall i | 0 <= i < n ensures HasInput(members, i) {
        assert members[i].input == i;
      }
    }
  }

  lemma {:induction false} InputAtLeast(members: seq<Member>, a: nat)
    requires Ascending(members) && a < |members|
    ensures a <= members[a].input
  {
    if a > 0 {
      InputAtLeast(members, a - 1);
    }
  }

  lemma {:induction false} InputAtMost(members: seq<Member>, n: nat, a: nat)
    requires Ascending(members) && (forall m :: m in members ==> m.input < n) && a < |members|
    ensures members[a].input <= n - |members| + a
    decreases |members| - a
  {
    if a < |members| - 1 {
      InputAtMost(members, n, a + 1);
    } else {
      assert members[a] in members;
    }
  }

  lemma {:induction false} AllInputs(members: seq<Member>, n: nat, i: nat)
    requires Ascending(members) && i <= n
    requires forall i :: 0 <= i < n ==> HasInput(members, i)
    ensures i <= |members| && forall k :: 0 <= k < i ==> members[k].input == k
  {
    if i > 0 {
      AllInputs(members, n, i - 1);
      assert HasInput(members, i - 1);
      var a :| 0 <= a < |members| && members[a].input == i - 1;
      InputAtLeast(members, a);
      InputAtLeast(members, i - 1);
    }
  }
}
