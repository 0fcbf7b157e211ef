/** Kotlin's `groupBy`, `filter { it.value.size > 1 }` and `values.flatten()` over
    a list, as the duplicate detector chains them. `groupBy` fills a LinkedHashMap:
    keys keep the order in which they first appear, and each key's list keeps the
    order of its elements in the input. */
module Grouping {

  /** One entry of the map `groupBy` returns: a key and the elements filed under it. */
  datatype Group<K, T> = Group(key: K, members: seq<T>)

  /** The keys of a group list, in order. */
  function Keys<K, T>(gs: seq<Group<K, T>>): seq<K> {
    seq(|gs|, i requires 0 <= i < |gs| => gs[i].key)
  }

  /** No value occurs twice. */
  predicate Distinct<K(==)>(ks: seq<K>) {
    forall i, j :: 0 <= i < j < |ks| ==> ks[i] != ks[j]
  }

  /** The elements of `xs` whose key is `k`, in their order in `xs`. */
  function Select<K(==), T(!new)>(xs: seq<T>, key: T -> K, k: K): (r: seq<T>)
    ensures |r| <= |xs|
    ensures forall x :: x in r <==> x in xs && key(x) == k
  {
    if |xs| == 0 then []
    else
      var n := |xs| - 1;
      assert xs == xs[..n] + [xs[n]];
      Select(xs[..n], key, k) + (if key(xs[n]) == k then [xs[n]] else [])
  }

  /** The keys of `xs`, each once, in order of first appearance. */
  function FirstKeys<K(==,!new), T>(xs: seq<T>, key: T -> K): (ks: seq<K>)
    ensures Distinct(ks)
    ensures forall k :: k in ks <==> exists x :: x in xs && key(x) == k
  {
    if |xs| == 0 then []
    else
      var n := |xs| - 1;
      assert xs == xs[..n] + [xs[n]];
      var prev := FirstKeys(xs[..n], key);
      if key(xs[n]) in prev then prev else prev + [key(xs[n])]
  }

  /** `getOrPut(k) { ArrayList() }.add(x)` on the map under construction: appends
      `x` to the group of `k`, or opens a new last group for `k`. */
  function Insert<K(==), T>(gs: seq<Group<K, T>>, k: K, x: T): seq<Group<K, T>>
  {
    if |gs| == 0 then [Group(k, [x])]
    else if gs[0].key == k then [Group(k, gs[0].members + [x])] + gs[1..]
    else [gs[0]] + Insert(gs[1..], k, x)
  }

  /** With distinct keys, `Insert` grows exactly the group of `k`, or adds it last. */
  lemma {:induction false} InsertSpec<K, T>(gs: seq<Group<K, T>>, k: K, x: T)
    requires Distinct(Keys(gs))
    ensures |Insert(gs, k, x)| == if k in Keys(gs) then |gs| else |gs| + 1
    ensures forall i :: 0 <= i < |gs| ==>
              Insert(gs, k, x)[i] == if gs[i].key == k then Group(k, gs[i].members + [x]) else gs[i]
    ensures k !in Keys(gs) ==> Insert(gs, k, x)[|gs|] == Group(k, [x])
  {
    var r := Insert(gs, k, x);
    if |gs| > 0 {
      var tail := gs[1..];
      if gs[0].key == k {
        assert k in Keys(gs) by {
          assert Keys(gs)[0] == k;
        }
        forall i | 1 <= i < |gs| ensures gs[i].key != k {
          assert Keys(gs)[0] != Keys(gs)[i];
        }
      } else {
        forall i, j | 0 <= i < j < |tail| ensures Keys(tail)[i] != Keys(tail)[j] {
          assert Keys(gs)[i + 1] != Keys(gs)[j + 1];
        }
        InsertSpec(tail, k, x);
        var rest := Insert(tail, k, x);
        assert r == [gs[0]] + rest;
        assert k in Keys(gs) <==> k in Keys(tail) by {
          if k in Keys(gs) {
            var i :| 0 <= i < |gs| && Keys(gs)[i] == k;
            assert i > 0 && Keys(tail)[i - 1] == k;
          }
          if k in Keys(tail) {
            var i :| 0 <= i < |tail| && Keys(tail)[i] == k;
            assert Keys(gs)[i + 1] == k;
          }
        }
      }
    }
  }

  /** No element of `xs` has key `k`, so nothing is selected. */
  lemma SelectNone<K, T(!new)>(xs: seq<T>, key: T -> K, k: K)
    requires forall y :: y in xs ==> key(y) != k
    ensures Select(xs, key, k) == []
  {
    if |xs| > 0 {
      SelectNone(xs[..|xs| - 1], key, k);
    }
  }

  /** `groupBy(key)`: one group per key in order of first appearance, each
      holding exactly the elements with that key, in input order. */
  function GroupBy<K(==,!new), T(!new)>(xs: seq<T>, key: T -> K): (gs: seq<Group<K, T>>)
    ensures Keys(gs) == FirstKeys(xs, key)
    ensures forall i :: 0 <= i < |gs| ==> gs[i].members == Select(xs, key, gs[i].key)
  {
    if |xs| == 0 then []
    else
      var n := |xs| - 1;
      var prev := GroupBy(xs[..n], key);
      var k := key(xs[n]);
      var r := Insert(prev, k, xs[n]);
      GroupByStep(xs, key, prev, r);
      r
  }

  /** One step of `GroupBy`: inserting the last element into the groups of the prefix. */
  lemma {:induction false} GroupByStep<K(!new), T(!new)>(xs: seq<T>, key: T -> K, prev: seq<Group<K, T>>, r: seq<Group<K, T>>)
    requires |xs| > 0
    requires Keys(prev) == FirstKeys(xs[..|xs| - 1], key)
    requires forall i :: 0 <= i < |prev| ==> prev[i].members == Select(xs[..|xs| - 1], key, prev[i].key)
    requires r == Insert(prev, key(xs[|xs| - 1]), xs[|xs| - 1])
    ensures Keys(r) == FirstKeys(xs, key)
    ensures forall i :: 0 <= i < |r| ==> r[i].members == Select(xs, key, r[i].key)
  {
    var n := |xs| - 1;
    var x := xs[n];
    var k := key(x);
    InsertSpec(prev, k, x);
    var pk := FirstKeys(xs[..n], key);
    assert FirstKeys(xs, key) == if k in pk then pk else pk + [k];
    assert Keys(r) == FirstKeys(xs, key) by {
      if k in pk {
        assert |Keys(r)| == |pk|;
        forall i | 0 <= i < |pk| ensures Keys(r)[i] == pk[i] {
          assert Keys(prev)[i] == pk[i];
        }
      } else {
        assert |Keys(r)| == |pk| + 1;
        forall i | 0 <= i < |pk| + 1 ensures Keys(r)[i] == (pk + [k])[i] {
          if i < |pk| {
            assert Keys(prev)[i] == pk[i];
          }
        }
      }
    }
    forall i | 0 <= i < |r| ensures r[i].members == Select(xs, key, r[i].key) {
      assert Select(xs, key, r[i].key) == Select(xs[..n], key, r[i].key) + (if k == r[i].key then [x] else []);
      if i == |prev| {
        SelectNone(xs[..n], key, k);
      } else {
        assert Keys(prev)[i] == prev[i].key;
      }
    }
  }

  /** `filter { it.value.size > 1 }`: the groups with more than one member, in order. */
  function KeepRepeated<K(!new), T(!new)>(gs: seq<Group<K, T>>): (r: seq<Group<K, T>>)
    ensures forall g :: g in r <==> g in gs && |g.members| > 1
  {
    if |gs| == 0 then []
    else (if |gs[0].members| > 1 then [gs[0]] else []) + KeepRepeated(gs[1..])
  }

  /** `values.flatten()`: every group's members, group after group. */
  function Flatten<K(!new), T(!new)>(gs: seq<Group<K, T>>): (r: seq<T>)
    ensures forall x :: x in r <==> exists g :: g in gs && x in g.members
  {
    if |gs| == 0 then []
    else
      var rest := Flatten(gs[1..]);
      assert forall g :: g in gs <==> g == gs[0] || g in gs[1..];
      gs[0].members + rest
  }

  /** Each element of the input lands in the group of its own key. */
  lemma GroupOfElement<K(!new), T(!new)>(xs: seq<T>, key: T -> K, x: T) returns (i: nat)
    requires x in xs
    ensures i < |GroupBy(xs, key)|
    ensures GroupBy(xs, key)[i].key == key(x)
    ensures x in GroupBy(xs, key)[i].members
  {
    var gs := GroupBy(xs, key);
    assert key(x) in FirstKeys(xs, key);
    assert key(x) in Keys(gs);
    i :| 0 <= i < |gs| && Keys(gs)[i] == key(x);
  }

  /** Selecting by one key and then by another is selecting by the pair of keys. */
  lemma {:induction false} SelectSelect<A, B, T(!new)>(xs: seq<T>, f: T -> A, g: T -> B, h: T -> (A, B), a: A, b: B)
    requires forall x :: h(x) == (f(x), g(x))
    ensures Select(Select(xs, f, a), g, b) == Select(xs, h, (a, b))
  {
    if |xs| > 0 {
      var n := |xs| - 1;
      SelectSelect(xs[..n], f, g, h, a, b);
      var inner := Select(xs[..n], f, a);
      assert Select(xs, h, (a, b)) == Select(xs[..n], h, (a, b)) + (if h(xs[n]) == (a, b) then [xs[n]] else []);
      if f(xs[n]) == a {
        assert Select(xs, f, a) == inner + [xs[n]];
        SelectSnoc(inner, g, b, xs[n]);
      } else {
        assert Select(xs, f, a) == inner;
      }
    }
  }

  /** Selecting from a list without repeated elements gives a list without repeated elements. */
  lemma {:induction false} SelectDistinct<K, T(!new)>(xs: seq<T>, key: T -> K, k: K)
    requires Distinct(xs)
    ensures Distinct(Select(xs, key, k))
  {
    if |xs| > 0 {
      var n := |xs| - 1;
      var p := xs[..n];
      assert Distinct(p) by {
        forall i, j | 0 <= i < j < n ensures p[i] != p[j] {
          assert p[i] == xs[i] && p[j] == xs[j];
        }
      }
      SelectDistinct(p, key, k);
      var sp := Select(p, key, k);
      if key(xs[n]) == k {
        assert xs[n] !in p by {
          forall i | 0 <= i < n ensures p[i] != xs[n] {
            assert p[i] == xs[i];
          }
        }
        var r := sp + [xs[n]];
        forall i, j | 0 <= i < j < |r| ensures r[i] != r[j] {
          if j < |sp| {
            assert r[i] == sp[i] && r[j] == sp[j];
          } else {
            assert r[i] in sp;
          }
        }
      }
    }
  }

  /** Selecting from a list with one more element at its end. */
  lemma SelectSnoc<K, T(!new)>(xs: seq<T>, key: T -> K, k: K, x: T)
    ensures Select(xs + [x], key, k) == Select(xs, key, k) + (if key(x) == k then [x] else [])
  {
    assert (xs + [x])[..|xs|] == xs;
  }

  /** The groups `groupBy(key).filter { it.value.size > 1 }` keeps: each has more
      than one member, holds exactly the elements with its key, and no two share a key. */
  lemma {:induction false} RepeatedGroups<K(!new), T(!new)>(xs: seq<T>, key: T -> K)
    ensures forall g :: g in KeepRepeated(GroupBy(xs, key)) ==>
              |g.members| > 1 && g.members == Select(xs, key, g.key)
    ensures Distinct(Keys(KeepRepeated(GroupBy(xs, key))))
  {
    var gs := GroupBy(xs, key);
    forall g | g in KeepRepeated(gs) ensures |g.members| > 1 && g.members == Select(xs, key, g.key) {
      var i :| 0 <= i < |gs| && gs[i] == g;
    }
    KeepRepeatedDistinct(gs);
  }

  /** Keeping the repeated groups keeps their keys distinct. */
  lemma {:induction false} KeepRepeatedDistinct<K(!new), T(!new)>(gs: seq<Group<K, T>>)
    requires Distinct(Keys(gs))
    ensures Distinct(Keys(KeepRepeated(gs)))
  {
    if |gs| > 0 {
      var tail := gs[1..];
      var rest := KeepRepeated(tail);
      forall i, j | 0 <= i < j < |tail| ensures Keys(tail)[i] != Keys(tail)[j] {
        assert Keys(gs)[i + 1] != Keys(gs)[j + 1];
      }
      KeepRepeatedDistinct(tail);
      if |gs[0].members| > 1 {
        assert KeepRepeated(gs) == [gs[0]] + rest;
        forall h | h in rest ensures h.key != gs[0].key {
          var k :| 0 <= k < |tail| && tail[k] == h;
          assert Keys(gs)[0] != Keys(gs)[k + 1];
        }
        ConsDistinct(gs[0], rest);
      } else {
        assert KeepRepeated(gs) == rest;
      }
    }
  }

  /** Dropping the first group of a distinct-key list leaves a distinct-key list
      without the first key. */
  lemma TailDistinct<K, T>(gs: seq<Group<K, T>>)
    requires |gs| > 0 && Distinct(Keys(gs))
    ensures Distinct(Keys(gs[1..]))
    ensures forall h :: h in gs[1..] ==> h.key != gs[0].key
  {
    var tail := gs[1..];
    forall i, j | 0 <= i < j < |tail| ensures Keys(tail)[i] != Keys(tail)[j] {
      assert Keys(gs)[i + 1] != Keys(gs)[j + 1];
    }
    forall h | h in tail ensures h.key != gs[0].key {
      var k :| 0 <= k < |tail| && tail[k] == h;
      assert Keys(gs)[0] != Keys(gs)[k + 1];
    }
  }

  /** A group whose key no later group has keeps a distinct-key list distinct. */
  lemma ConsDistinct<K, T>(g: Group<K, T>, rest: seq<Group<K, T>>)
    requires Distinct(Keys(rest))
    requires forall h :: h in rest ==> h.key != g.key
    ensures Distinct(Keys([g] + rest))
  {
    var r := [g] + rest;
    forall i, j | 0 <= i < j < |r| ensures Keys(r)[i] != Keys(r)[j] {
      assert r[j] == rest[j - 1];
      if i == 0 {
        assert r[j] in rest;
      } else {
        assert Keys(rest)[i - 1] != Keys(rest)[j - 1];
      }
    }
  }

  /** Two different elements with one key sit together in a repeated group. */
  lemma {:induction false} InRepeatedGroup<K(!new), T(!new)>(xs: seq<T>, key: T -> K, x: T, y: T) returns (g: Group<K, T>)
    requires x in xs && y in xs && x != y && key(x) == key(y)
    ensures g in KeepRepeated(GroupBy(xs, key))
    ensures g.key == key(x) && x in g.members && y in g.members
  {
    var i := GroupOfElement(xs, key, x);
    g := GroupBy(xs, key)[i];
    assert y in g.members;
    var a :| 0 <= a < |g.members| && g.members[a] == x;
    var b :| 0 <= b < |g.members| && g.members[b] == y;
    assert a != b;
  }
  /** Selecting from two lists joined is joining what is selected from each. */
  lemma {:induction false} SelectAppend<K, T(!new)>(a: seq<T>, b: seq<T>, key: T -> K, k: K)
    ensures Select(a + b, key, k) == Select(a, key, k) + Select(b, key, k)
  {
    if |b| == 0 {
      assert a + b == a;
    } else {
      var n := |b| - 1;
      var y := b[n];
      var e := if key(y) == k then [y] else [];
      SnocSplit(a, b);
      SelectAppend(a, b[..n], key, k);
      SelectSnoc(a + b[..n], key, k, y);
      SelectSnoc(b[..n], key, k, y);
      calc {
        Select(a + b, key, k);
        Select(a + b[..n], key, k) + e;
        (Select(a, key, k) + Select(b[..n], key, k)) + e;
        Select(a, key, k) + (Select(b[..n], key, k) + e);
        Select(a, key, k) + Select(b, key, k);
      }
    }
  }

  /** A non-empty list appended to another is the shorter join with its last element added. */
  lemma SnocSplit<T>(a: seq<T>, b: seq<T>)
    requires |b| > 0
    ensures a + b == (a + b[..|b| - 1]) + [b[|b| - 1]]
    ensures b == b[..|b| - 1] + [b[|b| - 1]]
  {
  }

  /** The keys of two lists that share no key, joined, are the keys of the first
      followed by the keys of the second. */
  lemma {:induction false} FirstKeysAppend<K(!new), T(!new)>(a: seq<T>, b: seq<T>, key: T -> K)
    requires forall x, y :: x in a && y in b ==> key(x) != key(y)
    ensures FirstKeys(a + b, key) == FirstKeys(a, key) + FirstKeys(b, key)
  {
    if |b| == 0 {
      assert a + b == a;
    } else {
      var n := |b| - 1;
      var y := b[n];
      var bn := b[..n];
      SnocSplit(a, b);
      forall x, z | x in a && z in bn ensures key(x) != key(z) {
        assert z in b;
      }
      FirstKeysAppend(a, bn, key);
      KeyNotListed(a, key, y, b);
      FirstKeysSnoc(a + bn, key, y);
      FirstKeysSnoc(bn, key, y);
      SnocKeys(FirstKeys(a, key), FirstKeys(bn, key), key(y));
    }
  }

  /** A key no element of `a` has is not among the keys of `a`. */
  lemma KeyNotListed<K(!new), T(!new)>(a: seq<T>, key: T -> K, y: T, b: seq<T>)
    requires y in b
    requires forall x, z :: x in a && z in b ==> key(x) != key(z)
    ensures key(y) !in FirstKeys(a, key)
  {
  }

  /** Adding a key absent from the first part to a joined key list adds it to the second part. */
  lemma SnocKeys<K>(fa: seq<K>, fb: seq<K>, k: K)
    requires k !in fa
    ensures (if k in fa + fb then fa + fb else fa + fb + [k]) == fa + (if k in fb then fb else fb + [k])
  {
    if k !in fb {
      assert fa + fb + [k] == fa + (fb + [k]);
    }
  }

  /** The keys of a list with one more element: its key is added when new. */
  lemma FirstKeysSnoc<K(!new), T>(xs: seq<T>, key: T -> K, x: T)
    ensures FirstKeys(xs + [x], key)
            == if key(x) in FirstKeys(xs, key) then FirstKeys(xs, key) else FirstKeys(xs, key) + [key(x)]
  {
    assert (xs + [x])[..|xs|] == xs;
  }

  /** A key of one list selects nothing from a list sharing no key with it. */
  lemma KeyAbsent<K(!new), T(!new)>(a: seq<T>, b: seq<T>, key: T -> K, k: K)
    requires forall x, y :: x in a && y in b ==> key(x) != key(y)
    requires k in FirstKeys(a, key)
    ensures Select(b, key, k) == []
  {
    var x :| x in a && key(x) == k;
    SelectNone(b, key, k);
  }

  /** Grouping two lists that share no key, joined, gives the groups of the first
      followed by the groups of the second. */
  lemma GroupByAppend<K(!new), T(!new)>(a: seq<T>, b: seq<T>, key: T -> K)
    requires forall x, y :: x in a && y in b ==> key(x) != key(y)
    ensures GroupBy(a + b, key) == GroupBy(a, key) + GroupBy(b, key)
  {
    FirstKeysAppend(a, b, key);
    GroupsLength(a, b, key);
    GroupsAgree(a, b, key);
    SameElements(GroupBy(a + b, key), GroupBy(a, key) + GroupBy(b, key));
  }

  /** Index by index, the groups of two joined lists that share no key are the
      groups of the first followed by those of the second. */
  lemma GroupsAgree<K(!new), T(!new)>(a: seq<T>, b: seq<T>, key: T -> K)
    requires forall x, y :: x in a && y in b ==> key(x) != key(y)
    requires FirstKeys(a + b, key) == FirstKeys(a, key) + FirstKeys(b, key)
    requires |GroupBy(a + b, key)| == |GroupBy(a, key)| + |GroupBy(b, key)|
    ensures forall i :: 0 <= i < |GroupBy(a + b, key)| ==>
              GroupBy(a + b, key)[i] == (GroupBy(a, key) + GroupBy(b, key))[i]
  {
    forall i | 0 <= i < |GroupBy(a + b, key)|
      ensures GroupBy(a + b, key)[i] == (GroupBy(a, key) + GroupBy(b, key))[i]
    {
      GroupAt(a, b, key, i);
    }
  }

  /** The number of groups of two joined lists that share no key. */
  lemma GroupsLength<K(!new), T(!new)>(a: seq<T>, b: seq<T>, key: T -> K)
    requires FirstKeys(a + b, key) == FirstKeys(a, key) + FirstKeys(b, key)
    ensures |GroupBy(a + b, key)| == |GroupBy(a, key)| + |GroupBy(b, key)|
  {
    assert |Keys(GroupBy(a + b, key))| == |GroupBy(a + b, key)|;
    assert |Keys(GroupBy(a, key))| == |GroupBy(a, key)|;
    assert |Keys(GroupBy(b, key))| == |GroupBy(b, key)|;
  }

  /** Two sequences of one length that agree at every index are equal. */
  lemma SameElements<T>(x: seq<T>, y: seq<T>)
    requires |x| == |y|
    requires forall i :: 0 <= i < |x| ==> x[i] == y[i]
    ensures x == y
  {
  }

  /** One group of two joined lists that share no key. */
  lemma GroupAt<K(!new), T(!new)>(a: seq<T>, b: seq<T>, key: T -> K, i: nat)
    requires forall x, y :: x in a && y in b ==> key(x) != key(y)
    requires FirstKeys(a + b, key) == FirstKeys(a, key) + FirstKeys(b, key)
    requires i < |GroupBy(a + b, key)|
    ensures i < |GroupBy(a, key)| ==> GroupBy(a + b, key)[i] == GroupBy(a, key)[i]
    ensures i >= |GroupBy(a, key)| ==> GroupBy(a + b, key)[i] == GroupBy(b, key)[i - |GroupBy(a, key)|]
  {
    var g := GroupBy(a + b, key);
    var ga := GroupBy(a, key);
    var gb := GroupBy(b, key);
    var k := g[i].key;
    assert Keys(g)[i] == k;
    assert |Keys(ga)| == |ga|;
    SelectAppend(a, b, key, k);
    if i < |ga| {
      assert Keys(ga)[i] == ga[i].key;
      KeyAbsent(a, b, key, k);
    } else {
      assert Keys(gb)[i - |ga|] == gb[i - |ga|].key;
      KeyAbsent(b, a, key, k);
    }
  }

  /** Keeping the repeated groups of two joined group lists keeps those of each. */
  lemma {:induction false} KeepRepeatedAppend<K(!new), T(!new)>(a: seq<Group<K, T>>, b: seq<Group<K, T>>)
    ensures KeepRepeated(a + b) == KeepRepeated(a) + KeepRepeated(b)
  {
    if |a| == 0 {
      assert a + b == b;
    } else {
      assert (a + b)[0] == a[0] && (a + b)[1..] == a[1..] + b;
      KeepRepeatedAppend(a[1..], b);
    }
  }

  /** Two lists without repeats and without common elements join into one without repeats. */
  lemma DistinctConcat<T>(a: seq<T>, b: seq<T>)
    requires Distinct(a) && Distinct(b)
    requires forall x :: x in a ==> x !in b
    ensures Distinct(a + b)
  {
    var r := a + b;
    forall i, j | 0 <= i < j < |r| ensures r[i] != r[j] {
      if j < |a| {
        assert r[i] == a[i] && r[j] == a[j];
      } else if i >= |a| {
        assert r[i] == b[i - |a|] && r[j] == b[j - |a|];
      } else {
        assert r[i] == a[i] && r[i] in a && r[j] == b[j - |a|];
      }
    }
  }

  /** Flattening groups with distinct keys, each holding the elements of a list
      without repeats that have its key, gives a list without repeats. */
  lemma {:induction false} FlattenDistinct<K(!new), T(!new)>(gs: seq<Group<K, T>>, xs: seq<T>, key: T -> K)
    requires Distinct(xs) && Distinct(Keys(gs))
    requires forall i :: 0 <= i < |gs| ==> gs[i].members == Select(xs, key, gs[i].key)
    ensures Distinct(Flatten(gs))
  {
    if |gs| > 0 {
      var tail := gs[1..];
      TailDistinct(gs);
      assert forall i :: 0 <= i < |tail| ==> tail[i] == gs[i + 1];
      FlattenDistinct(tail, xs, key);
      SelectDistinct(xs, key, gs[0].key);
      var rest := Flatten(tail);
      forall y | y in rest ensures key(y) != gs[0].key {
        var h :| h in tail && y in h.members;
        var i :| 0 <= i < |tail| && tail[i] == h;
      }
      DistinctConcat(gs[0].members, rest);
    }
  }

  /** The first element selected for a key is the first element of the list with that key. */
  lemma {:induction false} SelectFirst<K, T(!new)>(xs: seq<T>, key: T -> K, k: K) returns (i: nat)
    requires |Select(xs, key, k)| > 0
    ensures i < |xs| && xs[i] == Select(xs, key, k)[0]
    ensures forall j :: 0 <= j < i ==> key(xs[j]) != k
  {
    var n := |xs| - 1;
    var prefix := Select(xs[..n], key, k);
    if |prefix| > 0 {
      i := SelectFirst(xs[..n], key, k);
      assert xs[..n][i] == xs[i];
      assert forall j :: 0 <= j < i ==> xs[..n][j] == xs[j];
    } else {
      i := n;
      forall j | 0 <= j < n ensures key(xs[j]) != k {
        assert xs[j] == xs[..n][j] && xs[..n][j] in xs[..n];
      }
    }
  }
}
