/** Grouping as the extractor does it with Python dictionaries filled in a loop: the keys in
    order of first appearance (dictionaries keep insertion order), and for each key the
    elements that carry it, in their original order. Also `max(xs, key=...)`, which returns
    the first of several maximal elements. */
module Grouping {

  /** The elements of `xs` whose key is `k`, in order. */
  function Members<T, K(==, !new)>(xs: seq<T>, key: T -> K, k: K): (ms: seq<T>)
    ensures |ms| <= |xs|
    ensures forall j :: 0 <= j < |ms| ==> key(ms[j]) == k
  {
    if xs == [] then []
    else
      var front := xs[..|xs| - 1];
      var x := xs[|xs| - 1];
      assert forall i :: 0 <= i < |front| ==> front[i] == xs[i];
      Members(front, key, k) + (if key(x) == k then [x] else [])
  }

  /** A key has members exactly when some element carries it. */
  lemma {:induction false} MembersNonEmpty<T, K(!new)>(xs: seq<T>, key: T -> K, k: K)
    ensures |Members(xs, key, k)| > 0 <==> exists i :: 0 <= i < |xs| && key(xs[i]) == k
  {
    if xs != [] {
      var front := xs[..|xs| - 1];
      MembersNonEmpty(front, key, k);
      assert forall i :: 0 <= i < |front| ==> front[i] == xs[i];
    }
  }

  /** The members of a key are elements of `xs`. */
  lemma {:induction false} MembersAreElements<T, K(!new)>(xs: seq<T>, key: T -> K, k: K)
    ensures forall j :: 0 <= j < |Members(xs, key, k)| ==> Members(xs, key, k)[j] in xs
  {
    if xs != [] {
      var front := xs[..|xs| - 1];
      MembersAreElements(front, key, k);
      assert forall x :: x in front ==> x in xs;
    }
  }

  /** An element of `xs` is among the members of its own key. */
  lemma {:induction false} MemberOf<T, K(!new)>(xs: seq<T>, key: T -> K, k: nat)
    requires k < |xs|
    ensures xs[k] in Members(xs, key, key(xs[k]))
  {
    var front := xs[..|xs| - 1];
    if k < |xs| - 1 {
      MemberOf(front, key, k);
      assert front[k] == xs[k];
    }
  }

  /** The distinct keys of `xs` in order of first appearance. */
  function KeysInOrder<T, K(==, !new)>(xs: seq<T>, key: T -> K): (ks: seq<K>)
    ensures forall i, j :: 0 <= i < j < |ks| ==> ks[i] != ks[j]
    ensures forall i :: 0 <= i < |ks| ==> |Members(xs, key, ks[i])| > 0
  {
    if xs == [] then []
    else
      var front := xs[..|xs| - 1];
      var ks := KeysInOrder(front, key);
      var k := key(xs[|xs| - 1]);
      assert forall i :: 0 <= i < |front| ==> front[i] == xs[i];
      if k in ks then ks else ks + [k]
  }

  /** The keys are exactly those some element carries. */
  lemma {:induction false} KeysInOrderHas<T, K(!new)>(xs: seq<T>, key: T -> K)
    ensures forall k :: k in KeysInOrder(xs, key) <==> exists i :: 0 <= i < |xs| && key(xs[i]) == k
  {
    if xs != [] {
      var front := xs[..|xs| - 1];
      KeysInOrderHas(front, key);
      assert forall i :: 0 <= i < |front| ==> front[i] == xs[i];
    }
  }

  /** One more element joins the members of its own key and no other. */
  lemma MembersSnoc<T, K(!new)>(xs: seq<T>, x: T, key: T -> K, k: K)
    ensures Members(xs + [x], key, k) == Members(xs, key, k) + (if key(x) == k then [x] else [])
  {
    assert (xs + [x])[..|xs|] == xs;
  }

  /** One more element adds its key at the end, unless the key is already there. */
  lemma KeysInOrderSnoc<T, K(!new)>(xs: seq<T>, x: T, key: T -> K)
    ensures var ks := KeysInOrder(xs, key);
      KeysInOrder(xs + [x], key) == if key(x) in ks then ks else ks + [key(x)]
  {
    assert (xs + [x])[..|xs|] == xs;
  }

  /** A key not among the keys has no members. */
  lemma AbsentKeyNoMembers<T, K(!new)>(xs: seq<T>, key: T -> K, k: K)
    requires k !in KeysInOrder(xs, key)
    ensures Members(xs, key, k) == []
  {
    KeysInOrderHas(xs, key);
    MembersNonEmpty(xs, key, k);
  }

  /** The keys really come in order of first appearance: the first element carrying the key
      `ks[i]` is preceded only by elements whose keys come earlier in `ks`. */
  lemma {:induction false} KeysInFirstAppearanceOrder<T, K(!new)>(xs: seq<T>, key: T -> K, i: nat)
    requires i < |KeysInOrder(xs, key)|
    ensures var ks := KeysInOrder(xs, key);
      exists p :: 0 <= p < |xs| && key(xs[p]) == ks[i]
        && forall q :: 0 <= q < p ==> key(xs[q]) in ks[..i]
  {
    var front := xs[..|xs| - 1];
    var ks0 := KeysInOrder(front, key);
    if i < |ks0| {
      KeysInFirstAppearanceOrder(front, key, i);
      var p :| 0 <= p < |front| && key(front[p]) == ks0[i]
        && forall q :: 0 <= q < p ==> key(front[q]) in ks0[..i];
      assert forall q :: 0 <= q < |front| ==> front[q] == xs[q];
      FrontKeyAppearance(xs, key, i, p);
    } else {
      LastKeyAppearance(xs, key, i);
    }
  }

  /** A key the front already has keeps its first appearance in `xs`. */
  lemma FrontKeyAppearance<T, K(!new)>(xs: seq<T>, key: T -> K, i: nat, p: nat)
    requires xs != []
    requires var ks0 := KeysInOrder(xs[..|xs| - 1], key);
      i < |ks0| && p < |xs| - 1 && key(xs[p]) == ks0[i]
      && forall q :: 0 <= q < p ==> key(xs[q]) in ks0[..i]
    ensures var ks := KeysInOrder(xs, key);
      i < |ks| && key(xs[p]) == ks[i] && forall q :: 0 <= q < p ==> key(xs[q]) in ks[..i]
  {
    var front := xs[..|xs| - 1];
    var ks0, ks := KeysInOrder(front, key), KeysInOrder(xs, key);
    assert ks[..|ks0|] == ks0;
    assert ks[..i] == ks0[..i];
  }

  /** A key new with the last element first appears there, after elements of earlier keys. */
  lemma LastKeyAppearance<T, K(!new)>(xs: seq<T>, key: T -> K, i: nat)
    requires xs != []
    requires |KeysInOrder(xs[..|xs| - 1], key)| <= i < |KeysInOrder(xs, key)|
    ensures var ks := KeysInOrder(xs, key);
      key(xs[|xs| - 1]) == ks[i] && forall q :: 0 <= q < |xs| - 1 ==> key(xs[q]) in ks[..i]
  {
    var front := xs[..|xs| - 1];
    var ks0, ks := KeysInOrder(front, key), KeysInOrder(xs, key);
    var p := |xs| - 1;
    assert ks == ks0 + [key(xs[p])];
    assert ks[..i] == ks0;
    EarlierKeysKnown(xs, key);
  }

  /** Every element before the last carries a key already among those of the front. */
  lemma EarlierKeysKnown<T, K(!new)>(xs: seq<T>, key: T -> K)
    requires xs != []
    ensures forall q :: 0 <= q < |xs| - 1 ==> key(xs[q]) in KeysInOrder(xs[..|xs| - 1], key)
  {
    var front := xs[..|xs| - 1];
    KeysInOrderHas(front, key);
    forall q | 0 <= q < |xs| - 1 ensures key(xs[q]) in KeysInOrder(front, key) {
      assert xs[q] == front[q];
    }
  }

  /** The grouping loops of the source: a dictionary from key to the list of elements filled
      in one pass, together with the order in which its keys were inserted. */
  method GroupBy<T, K(==, !new)>(xs: seq<T>, key: T -> K) returns (order: seq<K>, groups: map<K, seq<T>>)
    ensures order == KeysInOrder(xs, key)
    ensures forall k :: k in groups <==> k in order
    ensures forall k :: k in groups ==> groups[k] == Members(xs, key, k)
  {
    order := [];
    groups := map[];
    var n := 0;
    while n < |xs|
      invariant 0 <= n <= |xs|
      invariant order == KeysInOrder(xs[..n], key)
      invariant forall k :: k in groups <==> k in order
      invariant forall k :: k in groups ==> groups[k] == Members(xs[..n], key, k)
    {
      assert xs[..n + 1] == xs[..n] + [xs[n]];
      order, groups := GroupStep(xs[..n], xs[n], key, order, groups);
      n := n + 1;
    }
    assert xs[..n] == xs;
  }

  /** One iteration of a grouping loop: the element's key is inserted if new, and the element
      is appended to its key's list. */
  method GroupStep<T, K(==, !new)>(xs: seq<T>, x: T, key: T -> K, order: seq<K>, groups: map<K, seq<T>>)
    returns (order': seq<K>, groups': map<K, seq<T>>)
    requires order == KeysInOrder(xs, key)
    requires forall k :: k in groups <==> k in order
    requires forall k :: k in groups ==> groups[k] == Members(xs, key, k)
    ensures order' == KeysInOrder(xs + [x], key)
    ensures forall k :: k in groups' <==> k in order'
    ensures forall k :: k in groups' ==> groups'[k] == Members(xs + [x], key, k)
  {
    var k := key(x);
    assert (xs + [x])[..|xs|] == xs;
    order', groups' := order, groups;
    if k !in groups {
      KeysInOrderHas(xs, key);
      MembersNonEmpty(xs, key, k);
      groups' := groups'[k := []];
      order' := order' + [k];
    }
    groups' := groups'[k := groups'[k] + [x]];
  }

  /** Index of the result of `max(xs, key=score)`: a maximal element, and the first one. */
  function FirstMaxIndex<T>(xs: seq<T>, score: T -> real): (i: nat)
    requires |xs| > 0
    ensures i < |xs|
    ensures forall j :: 0 <= j < |xs| ==> score(xs[j]) <= score(xs[i])
    ensures forall j :: 0 <= j < i ==> score(xs[j]) < score(xs[i])
  {
    if |xs| == 1 then 0
    else
      var front := xs[..|xs| - 1];
      var m := FirstMaxIndex(front, score);
      assert forall j :: 0 <= j < |front| ==> front[j] == xs[j];
      if score(xs[|xs| - 1]) > score(xs[m]) then |xs| - 1 else m
  }

  /** `max(xs, key=score)`. */
  function Max<T>(xs: seq<T>, score: T -> real): (m: T)
    requires |xs| > 0
    ensures m in xs
    ensures forall x :: x in xs ==> score(x) <= score(m)
  {
    xs[FirstMaxIndex(xs, score)]
  }
}
