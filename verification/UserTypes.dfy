/** Order in which the user types of a keyspace are created again: a type after all it refers to. */
module UserTypes {
  import opened Basics

  /** A type with the identifiers its definition mentions, of this keyspace or not. */
  datatype UserType = UserType(name: string, refs: set<string>)

  function Names(types: seq<UserType>): set<string> {
    set i | 0 <= i < |types| :: types[i].name
  }

  ghost predicate DistinctNames(types: seq<UserType>) {
    forall i, j :: 0 <= i < j < |types| ==> types[i].name != types[j].name
  }

  /** Every keyspace type that order[k] mentions is created before it. */
  ghost predicate CreatedAfterRefs(types: seq<UserType>, order: seq<UserType>, k: nat)
    requires k < |order|
  {
    forall r :: r in order[k].refs && r in Names(types) ==> r in Names(order[..k])
  }

  ghost predicate InOrder(types: seq<UserType>, order: seq<UserType>) {
    forall k :: 0 <= k < |order| ==> CreatedAfterRefs(types, order, k)
  }

  // ---------------------------------------------------------------- cycles

  ghost predicate Refers(types: seq<UserType>, a: string, b: string) {
    b in Names(types) && exists i :: 0 <= i < |types| && types[i].name == a && b in types[i].refs
  }

  /** A walk along references inside the keyspace. */
  ghost predicate Walk(types: seq<UserType>, w: seq<string>) {
    forall i :: 0 <= i < |w| - 1 ==> Refers(types, w[i], w[i + 1])
  }

  ghost predicate Cycle(types: seq<UserType>, w: seq<string>) {
    |w| >= 2 && w[0] == w[|w| - 1] && Walk(types, w)
  }

  ghost predicate Cyclic(types: seq<UserType>) {
    exists w :: Cycle(types, w)
  }

  /** Every pending type mentions a pending type. */
  ghost predicate Stuck(types: seq<UserType>, pending: seq<UserType>) {
    forall i :: 0 <= i < |pending| ==> pending[i] in types && pending[i].refs * Names(pending) != {}
  }

  lemma {:induction false} LongWalk(types: seq<UserType>, pending: seq<UserType>, n: nat) returns (w: seq<string>)
    requires pending != [] && Stuck(types, pending) && Names(pending) <= Names(types)
    ensures |w| == n + 1 && Walk(types, w) && forall i :: 0 <= i < |w| ==> w[i] in Names(pending)
  {
    if n == 0 {
      w := [pending[0].name];
    } else {
      var v := LongWalk(types, pending, n - 1);
      var last := v[n - 1];
      var i :| 0 <= i < |pending| && pending[i].name == last;
      var r :| r in pending[i].refs * Names(pending);
      assert Refers(types, last, r) by {
        var k :| 0 <= k < |types| && types[k] == pending[i];
      }
      w := v + [r];
    }
  }

  lemma RepeatedElement(w: seq<string>, s: set<string>) returns (i: nat, j: nat)
    requires |w| > |s| && forall k :: 0 <= k < |w| ==> w[k] in s
    ensures i < j < |w| && w[i] == w[j]
  {
    if Distinct(w) {
      DistinctSize(w);
      assert Elements(w) <= s;
      SubsetSize(Elements(w), s);
      assert false;
    }
    i, j :| 0 <= i < j < |w| && w[i] == w[j];
  }

  lemma {:induction false} SubsetSize(a: set<string>, b: set<string>)
    requires a <= b
    ensures |a| <= |b|
  {
    if a != {} {
      var x :| x in a;
      SubsetSize(a - {x}, b - {x});
    }
  }

  /** A stuck pass reveals a cycle. */
  lemma StuckIsCyclic(types: seq<UserType>, pending: seq<UserType>)
    requires pending != [] && Stuck(types, pending) && Names(pending) <= Names(types)
    ensures Cyclic(types)
  {
    var w := LongWalk(types, pending, |Names(pending)|);
    var i, j := RepeatedElement(w, Names(pending));
    var c := w[i..j + 1];
    assert Cycle(types, c);
  }

  ghost predicate Complete(types: seq<UserType>, order: seq<UserType>) {
    multiset(order) == multiset(types)
  }

  /** Along a walk the creation positions fall strictly. */
  lemma {:induction false} WalkDescends(types: seq<UserType>, order: seq<UserType>, w: seq<string>, p: nat) returns (q: nat)
    requires DistinctNames(types) && Complete(types, order) && InOrder(types, order)
    requires |w| >= 2 && Walk(types, w) && p < |order| && order[p].name == w[0]
    ensures q < p && order[q].name == w[|w| - 1]
    decreases |w|
  {
    assert Refers(types, w[0], w[1]);
    var i :| 0 <= i < |types| && types[i].name == w[0] && w[1] in types[i].refs;
    SameMultiset(order, types);
    assert order[p] in types;
    var k :| 0 <= k < |types| && types[k] == order[p];
    assert k == i;
    assert CreatedAfterRefs(types, order, p);
    var m :| 0 <= m < p && order[..p][m].name == w[1];
    if |w| == 2 {
      q := m;
    } else {
      assert Walk(types, w[1..]) by {
        forall t | 0 <= t < |w[1..]| - 1 ensures Refers(types, w[1..][t], w[1..][t + 1]) {
          assert Refers(types, w[t + 1], w[t + 2]);
        }
      }
      q := WalkDescends(types, order, w[1..], m);
    }
  }

  lemma OrderNamesUnique(types: seq<UserType>, order: seq<UserType>, p: nat, q: nat)
    requires DistinctNames(types) && Complete(types, order) && p < |order| && q < |order| && order[p].name == order[q].name
    ensures p == q
  {
    SameMultiset(order, types);
    assert order[p] in types && order[q] in types;
    var i :| 0 <= i < |types| && types[i] == order[p];
    var j :| 0 <= j < |types| && types[j] == order[q];
    assert i == j;
    if p < q {
      MultisetCount(order, p, q);
      TypeCount(types, i);
      assert false;
    } else if q < p {
      MultisetCount(order, q, p);
      TypeCount(types, i);
      assert false;
    }
  }

  lemma TypeCount(types: seq<UserType>, i: nat)
    requires DistinctNames(types) && i < |types|
    ensures multiset(types)[types[i]] == 1
  {
    assert Distinct(types);
    DistinctCount(types, types[i]);
  }

  /** If all types could be ordered there is no cycle. */
  lemma OrderedIsAcyclic(types: seq<UserType>, order: seq<UserType>)
    requires DistinctNames(types) && Complete(types, order) && InOrder(types, order)
    ensures !Cyclic(types)
  {
    if w :| Cycle(types, w) {
      assert Refers(types, w[0], w[1]);
      var i :| 0 <= i < |types| && types[i].name == w[0];
      SameMultiset(order, types);
      assert types[i] in order;
      var p :| 0 <= p < |order| && order[p] == types[i];
      var q := WalkDescends(types, order, w, p);
      OrderNamesUnique(types, order, p, q);
      assert false;
    }
  }

  // ---------------------------------------------------------------- the loop

  /** `order` and `left` share out `before` and `seen`, with nothing lost or doubled. */
  ghost predicate Shares(before: seq<UserType>, seen: seq<UserType>, order: seq<UserType>, left: seq<UserType>) {
    && before <= order
    && multiset(order) + multiset(left) == multiset(before) + multiset(seen)
    && Names(order) + Names(left) == Names(before) + Names(seen)
  }

  lemma SharesStep(before: seq<UserType>, seen: seq<UserType>, order: seq<UserType>, left: seq<UserType>, t: UserType)
    requires Shares(before, seen, order, left)
    ensures Shares(before, seen + [t], order + [t], left) && Shares(before, seen + [t], order, left + [t])
  {
    NamesAppend(seen, t);
    NamesAppend(order, t);
    NamesAppend(left, t);
    assert multiset(seen + [t]) == multiset(seen) + multiset{t};
    assert multiset(order + [t]) == multiset(order) + multiset{t};
    assert multiset(left + [t]) == multiset(left) + multiset{t};
    MoveOver(multiset(order), multiset(left), multiset(before), multiset(seen), multiset{t});
  }

  lemma MoveOver(a: multiset<UserType>, b: multiset<UserType>, c: multiset<UserType>, d: multiset<UserType>, t: multiset<UserType>)
    requires a + b == c + d
    ensures (a + t) + b == c + (d + t) && a + (b + t) == c + (d + t)
  {
    assert (a + t) + b == (a + b) + t;
    assert a + (b + t) == (a + b) + t;
    assert c + (d + t) == (c + d) + t;
  }

  /** The types that mention one of `names`, or those that do not, in their order. */
  function Those(types: seq<UserType>, names: set<string>, mentioning: bool): seq<UserType> {
    if types == [] then []
    else
      var last := types[|types| - 1];
      Those(types[..|types| - 1], names, mentioning) + if (last.refs * names != {}) == mentioning then [last] else []
  }

  /** The state of a pass after k pending types. */
  ghost predicate PassState(types: seq<UserType>, before: seq<UserType>, pending: seq<UserType>, k: nat,
                            order: seq<UserType>, left: seq<UserType>, changed: bool)
    requires k <= |pending|
  {
    && InOrder(types, order) && Shares(before, pending[..k], order, left)
    && (forall i :: 0 <= i < |left| ==> left[i] in types && left[i].refs * Names(pending) != {})
    && (!changed ==> left == pending[..k] && order == before)
    && |left| <= k && (changed <==> |left| < k)
  }

  /** What has been yielded and what is left is told apart by the names pending when the pass began. */
  ghost predicate ToldApart(names: set<string>, before: seq<UserType>, seen: seq<UserType>, order: seq<UserType>, left: seq<UserType>) {
    left == Those(seen, names, true) && order == before + Those(seen, names, false)
  }

  lemma ToldApartStep(names: set<string>, before: seq<UserType>, pending: seq<UserType>, k: nat, order: seq<UserType>, left: seq<UserType>)
    requires k < |pending| && ToldApart(names, before, pending[..k], order, left)
    ensures var t := pending[k];
      if t.refs * names != {} then ToldApart(names, before, pending[..k + 1], order, left + [t])
      else ToldApart(names, before, pending[..k + 1], order + [t], left)
  {
    assert pending[..k + 1][..k] == pending[..k];
    var kept := Those(pending[..k], names, false);
    assert kept + [] == kept && left + [] == left;
    assert before + (kept + [pending[k]]) == (before + kept) + [pending[k]];
  }

  lemma PassStep(types: seq<UserType>, before: seq<UserType>, pending: seq<UserType>, k: nat,
                 order: seq<UserType>, left: seq<UserType>, changed: bool)
    requires k < |pending| && pending[k] in types && Names(types) == Names(before) + Names(pending)
    requires PassState(types, before, pending, k, order, left, changed)
    ensures var t := pending[k];
      if t.refs * Names(pending) != {} then PassState(types, before, pending, k + 1, order, left + [t], changed)
      else PassState(types, before, pending, k + 1, order + [t], left, true)
  {
    var t := pending[k];
    assert pending[..k + 1] == pending[..k] + [t];
    SharesStep(before, pending[..k], order, left, t);
    if t.refs * Names(pending) == {} {
      YieldInOrder(types, before, pending, order, t);
    }
  }

  /** One pass: yields the pending types that mention no type pending when the pass began. */
  method OnePass(types: seq<UserType>, pending: seq<UserType>, before: seq<UserType>)
    returns (order: seq<UserType>, left: seq<UserType>, changed: bool)
    requires InOrder(types, before) && Names(types) == Names(before) + Names(pending)
    requires forall i :: 0 <= i < |pending| ==> pending[i] in types
    ensures InOrder(types, order) && Shares(before, pending, order, left)
    ensures forall i :: 0 <= i < |left| ==> left[i] in types
    ensures changed <==> |left| < |pending|
    ensures !changed ==> left == pending && order == before && Stuck(types, pending)
    ensures ToldApart(Names(pending), before, pending, order, left)
  {
    var pendingSet := Names(pending);
    order, left, changed := before, [], false;
    for k := 0 to |pending|
      invariant PassState(types, before, pending, k, order, left, changed)
      invariant ToldApart(pendingSet, before, pending[..k], order, left)
    {
      PassStep(types, before, pending, k, order, left, changed);
      ToldApartStep(pendingSet, before, pending, k, order, left);
      if pending[k].refs * pendingSet != {} {
        left := left + [pending[k]];
        continue;
      }
      order := order + [pending[k]];
      changed := true;
    }
    assert pending[..|pending|] == pending;
  }

  lemma NamesAppend(types: seq<UserType>, t: UserType)
    ensures Names(types + [t]) == Names(types) + {t.name}
  {
    var all := types + [t];
    assert all[|types|] == t;
    forall n | n in Names(types) ensures n in Names(all) {
      var i :| 0 <= i < |types| && types[i].name == n;
      assert all[i].name == n;
    }
  }

  lemma YieldInOrder(types: seq<UserType>, before: seq<UserType>, pending: seq<UserType>, order: seq<UserType>, t: UserType)
    requires before <= order && InOrder(types, order)
    requires Names(types) == Names(before) + Names(pending) && t.refs * Names(pending) == {}
    ensures InOrder(types, order + [t])
  {
    var next := order + [t];
    forall k | 0 <= k < |next| ensures CreatedAfterRefs(types, next, k) {
      assert next[..k] == order[..k];
      if k < |order| {
        assert CreatedAfterRefs(types, order, k);
      } else {
        assert order[..k] == order;
        forall r | r in t.refs && r in Names(types) ensures r in Names(order) {
          assert r !in t.refs * Names(pending);
          assert r in Names(before);
          var i :| 0 <= i < |before| && before[i].name == r;
          assert order[i].name == r;
        }
      }
    }
  }

  /** All types, each once and after the types it refers to; or a loop error, exactly when the
      references inside the keyspace have a cycle. */
  method RestoreOrder(types: seq<UserType>) returns (order: seq<UserType>, loopDetected: bool)
    requires DistinctNames(types)
    ensures InOrder(types, order)
    ensures loopDetected <==> Cyclic(types)
    ensures !loopDetected ==> Complete(types, order)
    ensures multiset(order) <= multiset(types)
  {
    var pending := types;
    order := [];
    while pending != []
      invariant InOrder(types, order) && Names(types) == Names(order) + Names(pending)
      invariant forall i :: 0 <= i < |pending| ==> pending[i] in types
      invariant multiset(order) + multiset(pending) == multiset(types)
      decreases |pending|
    {
      var changed;
      order, pending, changed := OnePass(types, pending, order);
      if !changed {
        StuckIsCyclic(types, pending);
        return order, true;
      }
    }
    OrderedIsAcyclic(types, order);
    return order, false;
  }
}
