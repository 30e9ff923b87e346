/** Grouping a sequence by a key, the way both the status server (a
    LinkedHashMap of folder lists) and the history view (an object of
    arrays built by `reduce`) do it: one group per distinct key, groups in
    order of first appearance, members in sequence order. */
module Grouping {
  import opened Common

  datatype Group<K, T> = Group(key: K, members: seq<T>)

  /** The distinct keys of `xs` in order of first appearance. */
  function Keys<T, K(==)>(xs: seq<T>, key: T -> K): (ks: seq<K>)
    ensures Distinct(ks)
  {
    if xs == [] then []
    else
      var ks := Keys(xs[..|xs| - 1], key);
      if key(xs[|xs| - 1]) in ks then ks else ks + [key(xs[|xs| - 1])]
  }

  /** Every key of an element is among the keys, and every key is the key
      of some element. */
  lemma {:induction false} KeysComplete<T, K>(xs: seq<T>, key: T -> K)
    ensures forall i | 0 <= i < |xs| :: key(xs[i]) in Keys(xs, key)
    ensures forall j | 0 <= j < |Keys(xs, key)| :: exists i | 0 <= i < |xs| :: key(xs[i]) == Keys(xs, key)[j]
  {
    if xs != [] {
      var init := xs[..|xs| - 1];
      KeysComplete(init, key);
      var ks0, ks := Keys(init, key), Keys(xs, key);
      assert ks == if key(xs[|xs| - 1]) in ks0 then ks0 else ks0 + [key(xs[|xs| - 1])];
      forall i | 0 <= i < |xs| ensures key(xs[i]) in ks {
        if i < |init| {
          assert xs[i] == init[i];
        }
      }
      forall j | 0 <= j < |ks| ensures exists i | 0 <= i < |xs| :: key(xs[i]) == ks[j] {
        if j < |ks0| {
          var i :| 0 <= i < |init| && key(init[i]) == ks0[j];
          assert xs[i] == init[i] && ks[j] == ks0[j];
          assert key(xs[i]) == ks[j];
        } else {
          var i := |xs| - 1;
          assert key(xs[i]) == ks[j];
        }
      }
    } else {
      assert Keys(xs, key) == [];
    }
  }

  /** `Keys` of a longer sequence extends `Keys` of its prefix, by the last
      key exactly when that key is new. */
  lemma KeysSnoc<T, K>(xs: seq<T>, key: T -> K)
    requires xs != []
    ensures var ks0, ks := Keys(xs[..|xs| - 1], key), Keys(xs, key);
      && |ks0| <= |ks| <= |ks0| + 1
      && (forall j | 0 <= j < |ks0| :: ks[j] == ks0[j])
      && (|ks| == |ks0| <==> key(xs[|xs| - 1]) in ks0)
      && (|ks| > |ks0| ==> ks[|ks0|] == key(xs[|xs| - 1]))
  {
  }

  /** The keys come in order of first appearance: the keys of any prefix
      of `xs` are a prefix of the keys of `xs`. */
  lemma {:induction false} KeysFirstAppearance<T, K>(xs: seq<T>, key: T -> K, i: nat)
    requires i <= |xs|
    ensures Keys(xs[..i], key) <= Keys(xs, key)
  {
    if i < |xs| {
      var init := xs[..|xs| - 1];
      KeysFirstAppearance(init, key, i);
      assert init[..i] == xs[..i];
      KeysSnoc(xs, key);
    } else {
      assert xs[..i] == xs;
    }
  }

  /** The members of `xs` that carry key `k`, in order. */
  function Members<T, K(==)>(xs: seq<T>, key: T -> K, k: K): (r: seq<T>)
    ensures forall i | 0 <= i < |r| :: key(r[i]) == k && r[i] in xs
    ensures forall i | 0 <= i < |xs| && key(xs[i]) == k :: xs[i] in r
  {
    if xs == [] then []
    else
      var init := xs[..|xs| - 1];
      assert forall i | 0 <= i < |init| :: xs[i] == init[i];
      Members(init, key, k) + if key(xs[|xs| - 1]) == k then [xs[|xs| - 1]] else []
  }

  /** One group per key of `ks`, holding the members with that key. */
  function GroupsOf<T, K(==)>(xs: seq<T>, key: T -> K, ks: seq<K>): (gs: seq<Group<K, T>>)
    ensures |gs| == |ks|
    ensures forall j | 0 <= j < |ks| :: gs[j] == Group(ks[j], Members(xs, key, ks[j]))
  {
    if ks == [] then [] else [Group(ks[0], Members(xs, key, ks[0]))] + GroupsOf(xs, key, ks[1..])
  }

  /** The reference grouping: one group per key of `Keys`, holding exactly
      the members with that key, in order. */
  function GroupBy<T, K(==)>(xs: seq<T>, key: T -> K): (gs: seq<Group<K, T>>)
    ensures |gs| == |Keys(xs, key)|
    ensures forall j | 0 <= j < |gs| :: gs[j].key == Keys(xs, key)[j]
  {
    GroupsOf(xs, key, Keys(xs, key))
  }

  /** The index of the group keyed `k`, if there is one. */
  function FindGroup<K(==), T>(gs: seq<Group<K, T>>, k: K): (r: Option<nat>)
    ensures r.Some? ==> r.value < |gs| && gs[r.value].key == k
    ensures r.Some? ==> forall j | 0 <= j < r.value :: gs[j].key != k
    ensures r.None? ==> forall j | 0 <= j < |gs| :: gs[j].key != k
  {
    if gs == [] then None
    else if gs[0].key == k then Some(0)
    else match FindGroup(gs[1..], k)
      case Some(j) => Some(j + 1)
      case None => None
  }

  /** One step of the imperative grouping: append `x` to the group of its
      key, opening a new group at the end when the key is new. */
  function Insert<T, K(==)>(gs: seq<Group<K, T>>, x: T, key: T -> K): seq<Group<K, T>> {
    match FindGroup(gs, key(x))
    case Some(j) => gs[j := Group(key(x), gs[j].members + [x])]
    case None => gs + [Group(key(x), [x])]
  }

  /** The imperative grouping: `Insert` each element in turn. */
  function GroupFold<T, K(==)>(xs: seq<T>, key: T -> K): seq<Group<K, T>> {
    if xs == [] then [] else Insert(GroupFold(xs[..|xs| - 1], key), xs[|xs| - 1], key)
  }

  lemma MembersSnoc<T, K>(xs: seq<T>, x: T, key: T -> K, k: K)
    ensures Members(xs + [x], key, k) == Members(xs, key, k) + if key(x) == k then [x] else []
  {
    assert (xs + [x])[..|xs|] == xs;
  }

  /** Inserting one more element into the reference grouping gives the
      reference grouping of the longer sequence. */
  lemma GroupBySnoc<T, K>(xs: seq<T>, x: T, key: T -> K)
    ensures GroupBy(xs + [x], key) == Insert(GroupBy(xs, key), x, key)
  {
    var g := GroupBy(xs, key);
    match FindGroup(g, key(x))
    case Some(j) =>
      GroupBySnocOld(xs, x, key, j);
    case None =>
      GroupBySnocNew(xs, x, key);
  }

  /** `GroupBySnoc` stated on the last element of a non-empty sequence. */
  lemma GroupByLast<T, K>(xs: seq<T>, key: T -> K)
    requires xs != []
    ensures GroupBy(xs, key) == Insert(GroupBy(xs[..|xs| - 1], key), xs[|xs| - 1], key)
  {
    assert xs[..|xs| - 1] + [xs[|xs| - 1]] == xs;
    GroupBySnoc(xs[..|xs| - 1], xs[|xs| - 1], key);
  }

  lemma GroupBySnocOld<T, K>(xs: seq<T>, x: T, key: T -> K, j: nat)
    requires j < |Keys(xs, key)| && Keys(xs, key)[j] == key(x)
    ensures GroupBy(xs + [x], key) == GroupBy(xs, key)[j := Group(key(x), GroupBy(xs, key)[j].members + [x])]
  {
    var xs' := xs + [x];
    assert xs'[..|xs'| - 1] == xs;
    KeysSnoc(xs', key);
    SnocOldKey(xs, x, key, Keys(xs, key), j);
  }

  lemma GroupBySnocNew<T, K>(xs: seq<T>, x: T, key: T -> K)
    requires forall j | 0 <= j < |GroupBy(xs, key)| :: GroupBy(xs, key)[j].key != key(x)
    ensures GroupBy(xs + [x], key) == GroupBy(xs, key) + [Group(key(x), [x])]
  {
    var xs' := xs + [x];
    assert xs'[..|xs'| - 1] == xs;
    KeysSnoc(xs', key);
    var ks := Keys(xs, key);
    assert key(x) !in ks by {
      forall i | 0 <= i < |ks| ensures ks[i] != key(x) {
        assert GroupBy(xs, key)[i].key == ks[i];
      }
    }
    NoMembers(xs, key, key(x));
    SnocNewKey(xs, x, key, ks);
  }

  lemma SnocOldKey<T, K>(xs: seq<T>, x: T, key: T -> K, ks: seq<K>, j: nat)
    requires Distinct(ks) && j < |ks| && ks[j] == key(x)
    ensures GroupsOf(xs + [x], key, ks) ==
            GroupsOf(xs, key, ks)[j := Group(key(x), GroupsOf(xs, key, ks)[j].members + [x])]
  {
    var g, g' := GroupsOf(xs, key, ks), GroupsOf(xs + [x], key, ks);
    var r := g[j := Group(key(x), g[j].members + [x])];
    forall i | 0 <= i < |ks| ensures g'[i] == r[i] {
      MembersSnoc(xs, x, key, ks[i]);
      if i != j {
        assert ks[i] != ks[j];
      }
    }
  }

  lemma SnocNewKey<T, K>(xs: seq<T>, x: T, key: T -> K, ks: seq<K>)
    requires key(x) !in ks && Members(xs, key, key(x)) == []
    ensures GroupsOf(xs + [x], key, ks + [key(x)]) == GroupsOf(xs, key, ks) + [Group(key(x), [x])]
  {
    var g, g' := GroupsOf(xs, key, ks), GroupsOf(xs + [x], key, ks + [key(x)]);
    var r := g + [Group(key(x), [x])];
    forall i | 0 <= i < |ks| + 1 ensures g'[i] == r[i] {
      var k := (ks + [key(x)])[i];
      MembersSnoc(xs, x, key, k);
      if i < |ks| {
        assert k == ks[i] != key(x);
      }
    }
  }

  lemma NoMembers<T, K>(xs: seq<T>, key: T -> K, k: K)
    requires k !in Keys(xs, key)
    ensures Members(xs, key, k) == []
  {
  }

  /** The imperative grouping computes the reference grouping. */
  lemma {:induction false} GroupFoldIsGroupBy<T, K>(xs: seq<T>, key: T -> K)
    ensures GroupFold(xs, key) == GroupBy(xs, key)
  {
    if xs != [] {
      var init, x := xs[..|xs| - 1], xs[|xs| - 1];
      assert xs == init + [x];
      GroupFoldIsGroupBy(init, key);
      GroupBySnoc(init, x, key);
      calc {
        GroupFold(xs, key);
        Insert(GroupFold(init, key), x, key);
        Insert(GroupBy(init, key), x, key);
        GroupBy(init + [x], key);
      }
    }
  }

  /** All members of all groups, group after group. */
  function Flatten<K, T>(gs: seq<Group<K, T>>): seq<T> {
    if gs == [] then [] else gs[0].members + Flatten(gs[1..])
  }

  lemma {:induction false} FlattenAppend<K, T>(a: seq<Group<K, T>>, b: seq<Group<K, T>>)
    ensures Flatten(a + b) == Flatten(a) + Flatten(b)
  {
    if a == [] {
      assert a + b == b;
    } else {
      assert (a + b)[1..] == a[1..] + b;
      FlattenAppend(a[1..], b);
    }
  }

  lemma FlattenUpdate<K, T>(gs: seq<Group<K, T>>, j: nat, g: Group<K, T>)
    requires j < |gs|
    ensures multiset(Flatten(gs[j := g])) + multiset(gs[j].members) ==
            multiset(Flatten(gs)) + multiset(g.members)
  {
    assert gs == gs[..j] + [gs[j]] + gs[j + 1..];
    assert gs[j := g] == gs[..j] + [g] + gs[j + 1..];
    FlattenAppend(gs[..j] + [gs[j]], gs[j + 1..]);
    FlattenAppend(gs[..j], [gs[j]]);
    FlattenAppend(gs[..j] + [g], gs[j + 1..]);
    FlattenAppend(gs[..j], [g]);
  }

  lemma MultisetCancel<T>(a: multiset<T>, b: multiset<T>, m: multiset<T>)
    requires a + m == b + m
    ensures a == b
  {
    forall e ensures a[e] == b[e] {
      assert (a + m)[e] == (b + m)[e];
    }
  }

  lemma InsertAddsOne<T, K>(gs: seq<Group<K, T>>, x: T, key: T -> K)
    ensures multiset(Flatten(Insert(gs, x, key))) == multiset(Flatten(gs)) + multiset{x}
  {
    match FindGroup(gs, key(x))
    case Some(j) =>
      var g := Group(key(x), gs[j].members + [x]);
      FlattenUpdate(gs, j, g);
      var a, b, m := multiset(Flatten(gs[j := g])), multiset(Flatten(gs)), multiset(gs[j].members);
      assert multiset(g.members) == m + multiset{x};
      var c := b + multiset{x};
      MultisetCancel(a, c, m);
    case None =>
      FlattenAppend(gs, [Group(key(x), [x])]);
      assert Flatten([Group(key(x), [x])]) == [x];
  }

  /** Every element lands in exactly one group: the groups together hold
      the input, each element as often as it occurs. */
  lemma {:induction false} GroupByPartitions<T, K>(xs: seq<T>, key: T -> K)
    ensures multiset(Flatten(GroupBy(xs, key))) == multiset(xs)
    ensures forall j, i | 0 <= j < |GroupBy(xs, key)| && 0 <= i < |GroupBy(xs, key)[j].members| ::
              key(GroupBy(xs, key)[j].members[i]) == GroupBy(xs, key)[j].key
  {
    if xs != [] {
      var init := xs[..|xs| - 1];
      var x := xs[|xs| - 1];
      assert init + [x] == xs;
      GroupByPartitions(init, key);
      GroupBySnoc(init, x, key);
      InsertAddsOne(GroupBy(init, key), x, key);
    }
  }
}
