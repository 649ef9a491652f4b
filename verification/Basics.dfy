/** Shared vocabulary: optional values, stable sorting, splitting and joining text on '/'. */
module Basics {

  datatype Option<+T> = None | Some(value: T)

  datatype Result<+T, +E> = Ok(value: T) | Err(error: E)

  ghost predicate Distinct<T>(s: seq<T>) {
    forall i, j :: 0 <= i < j < |s| ==> s[i] != s[j]
  }

  ghost function Elements<T>(s: seq<T>): set<T> {
    set x | x in s
  }

  // ---------------------------------------------------------------- finite sets

  /** An injective map cannot have more keys than a set that holds all its values. */
  lemma {:induction false} Pigeonhole<A, B>(f: map<A, B>, target: set<B>)
    requires forall a :: a in f ==> f[a] in target
    requires forall a, b :: a in f && b in f && f[a] == f[b] ==> a == b
    ensures |f| <= |target|
    decreases |f|
  {
    if |f| == 0 {
    } else {
      var a :| a in f;
      var g := f - {a};
      assert g.Keys == f.Keys - {a};
      Pigeonhole(g, target - {f[a]});
    }
  }

  lemma PrefixStep<T>(s: seq<T>, k: nat)
    requires k < |s|
    ensures s[..k + 1] == s[..k] + [s[k]]
    ensures Distinct(s) ==> s[k] !in s[..k]
    ensures forall x :: x in s[..k + 1] <==> x in s[..k] || x == s[k]
  {
    assert s[..k + 1] == s[..k] + [s[k]];
  }

  lemma {:induction false} DistinctSize<T>(s: seq<T>)
    requires Distinct(s)
    ensures |Elements(s)| == |s|
  {
    if s == [] {
    } else {
      var last := |s| - 1;
      DistinctSize(s[..last]);
      assert Elements(s) == Elements(s[..last]) + {s[last]};
    }
  }

  /** The keys of a Python dictionary filled from `s`: each element once, by first appearance. */
  function FirstSeen<T(==)>(s: seq<T>): seq<T> {
    if s == [] then []
    else
      var before := FirstSeen(s[..|s| - 1]);
      var x := s[|s| - 1];
      if x in before then before else before + [x]
  }

  lemma {:induction false} FirstSeenElements<T>(s: seq<T>)
    ensures Distinct(FirstSeen(s))
    ensures forall x :: x in FirstSeen(s) <==> x in s
  {
    if s == [] {
    } else {
      var last := |s| - 1;
      FirstSeenElements(s[..last]);
      assert s == s[..last] + [s[last]];
    }
  }

  /** Where an element first appears. */
  function First<T(==)>(s: seq<T>, x: T): (i: nat)
    requires x in s
    ensures i < |s| && s[i] == x && forall k :: 0 <= k < i ==> s[k] != x
  {
    if s[0] == x then 0
    else
      assert s == [s[0]] + s[1..];
      1 + First(s[1..], x)
  }

  lemma FirstIs<T>(s: seq<T>, x: T, i: nat)
    requires i < |s| && s[i] == x && forall k :: 0 <= k < i ==> s[k] != x
    ensures First(s, x) == i
  {
  }

  lemma FirstOfPrefix<T>(s: seq<T>, last: T, x: T)
    ensures x in s ==> First(s + [last], x) == First(s, x)
    ensures x !in s && x == last ==> First(s + [last], x) == |s|
  {
    if x in s {
      FirstIs(s + [last], x, First(s, x));
    } else if x == last {
      FirstIs(s + [last], x, |s|);
    }
  }

  /** The elements of `keys` are listed in the order in which they first appear in `s`. */
  ghost predicate ByAppearance<T>(keys: seq<T>, s: seq<T>) {
    && (forall i :: 0 <= i < |keys| ==> keys[i] in s)
    && (forall i, j :: 0 <= i < j < |keys| ==> First(s, keys[i]) < First(s, keys[j]))
  }

  lemma AppearanceGrows<T>(keys: seq<T>, s: seq<T>, x: T)
    requires ByAppearance(keys, s)
    ensures ByAppearance(keys, s + [x])
    ensures x !in s ==> ByAppearance(keys + [x], s + [x])
  {
    forall i | 0 <= i < |keys| ensures First(s + [x], keys[i]) == First(s, keys[i]) {
      FirstOfPrefix(s, x, keys[i]);
    }
    FirstOfPrefix(s, x, x);
  }

  /** The keys of the dictionary come in the order in which they were first seen. */
  lemma {:induction false} FirstSeenInOrder<T>(s: seq<T>)
    ensures ByAppearance(FirstSeen(s), s)
  {
    if s == [] {
    } else {
      var before := s[..|s| - 1];
      FirstSeenInOrder(before);
      FirstSeenElements(before);
      AppearanceGrows(FirstSeen(before), before, s[|s| - 1]);
      assert s == before + [s[|s| - 1]];
    }
  }

  // ---------------------------------------------------------------- stable sort

  ghost predicate TotalPreorder<T(!new)>(leq: (T, T) -> bool) {
    && (forall x, y :: leq(x, y) || leq(y, x))
    && (forall x, y, z :: leq(x, y) && leq(y, z) ==> leq(x, z))
  }

  ghost predicate SortedBy<T>(s: seq<T>, leq: (T, T) -> bool) {
    forall i, j :: 0 <= i < j < |s| ==> leq(s[i], s[j])
  }

  /** Puts `x` in front of the first element it does not exceed, hence before its equals. */
  function Insert<T>(x: T, s: seq<T>, leq: (T, T) -> bool): seq<T> {
    if s == [] then [x]
    else if leq(x, s[0]) then [x] + s
    else [s[0]] + Insert(x, s[1..], leq)
  }

  /** Stable sort: elements that compare equal keep their order. */
  function SortBy<T>(s: seq<T>, leq: (T, T) -> bool): seq<T> {
    if s == [] then [] else Insert(s[0], SortBy(s[1..], leq), leq)
  }

  lemma {:induction false} InsertKeeps<T>(x: T, s: seq<T>, leq: (T, T) -> bool)
    ensures multiset(Insert(x, s, leq)) == multiset([x]) + multiset(s)
  {
    if s == [] || leq(x, s[0]) {
    } else {
      InsertKeeps(x, s[1..], leq);
      assert s == [s[0]] + s[1..];
    }
  }

  lemma {:induction false} SortByPermutes<T>(s: seq<T>, leq: (T, T) -> bool)
    ensures multiset(SortBy(s, leq)) == multiset(s)
    ensures |SortBy(s, leq)| == |s|
    ensures forall x :: x in SortBy(s, leq) <==> x in s
  {
    if s == [] {
    } else {
      SortByPermutes(s[1..], leq);
      InsertKeeps(s[0], SortBy(s[1..], leq), leq);
      assert s == [s[0]] + s[1..];
    }
    SameMultiset(SortBy(s, leq), s);
  }

  lemma SameMultiset<T>(a: seq<T>, b: seq<T>)
    requires multiset(a) == multiset(b)
    ensures |a| == |b|
    ensures forall x :: x in a <==> x in b
  {
    assert |multiset(a)| == |a| && |multiset(b)| == |b|;
    forall x ensures x in a <==> x in b {
      assert x in a <==> x in multiset(a);
      assert x in b <==> x in multiset(b);
    }
  }

  lemma {:induction false} InsertSorted<T(!new)>(x: T, s: seq<T>, leq: (T, T) -> bool)
    requires TotalPreorder(leq) && SortedBy(s, leq)
    ensures SortedBy(Insert(x, s, leq), leq)
  {
    if s == [] || leq(x, s[0]) {
    } else {
      InsertSorted(x, s[1..], leq);
      InsertKeeps(x, s[1..], leq);
      var t := Insert(x, s[1..], leq);
      forall y | y in t ensures leq(s[0], y) {
        assert y in multiset(t);
        assert y == x || y in s[1..];
      }
    }
  }

  lemma {:induction false} SortBySorted<T(!new)>(s: seq<T>, leq: (T, T) -> bool)
    requires TotalPreorder(leq)
    ensures SortedBy(SortBy(s, leq), leq)
  {
    if s == [] {
    } else {
      SortBySorted(s[1..], leq);
      InsertSorted(s[0], SortBy(s[1..], leq), leq);
    }
  }

  /** Sorted, and what compares equal is in the order `ord`. */
  ghost predicate StablySorted<T>(s: seq<T>, leq: (T, T) -> bool, ord: (T, T) -> bool) {
    forall i, j :: 0 <= i < j < |s| ==> leq(s[i], s[j]) && (leq(s[j], s[i]) ==> ord(s[i], s[j]))
  }

  lemma StableCons<T>(x: T, s: seq<T>, leq: (T, T) -> bool, ord: (T, T) -> bool)
    requires StablySorted(s, leq, ord) && forall y :: y in s ==> leq(x, y) && (leq(y, x) ==> ord(x, y))
    ensures StablySorted([x] + s, leq, ord)
  {
  }

  lemma {:induction false} InsertStable<T(!new)>(x: T, s: seq<T>, leq: (T, T) -> bool, ord: (T, T) -> bool)
    requires TotalPreorder(leq) && StablySorted(s, leq, ord) && forall y :: y in s ==> ord(x, y)
    ensures StablySorted(Insert(x, s, leq), leq, ord)
  {
    if s == [] {
    } else if leq(x, s[0]) {
      forall y | y in s ensures leq(x, y) {
        var i :| 0 <= i < |s| && s[i] == y;
        assert i > 0 ==> leq(s[0], s[i]);
      }
      StableCons(x, s, leq, ord);
    } else {
      InsertStable(x, s[1..], leq, ord);
      InsertKeeps(x, s[1..], leq);
      var t := Insert(x, s[1..], leq);
      forall y | y in t ensures leq(s[0], y) && (leq(y, s[0]) ==> ord(s[0], y)) {
        assert y in multiset(t);
        if y != x {
          assert y in s[1..];
          var i :| 0 < i < |s| && s[i] == y;
        }
      }
      StableCons(s[0], t, leq, ord);
    }
  }

  /** Elements that compare equal keep the order they had. */
  lemma {:induction false} SortByStable<T(!new)>(s: seq<T>, leq: (T, T) -> bool, ord: (T, T) -> bool)
    requires TotalPreorder(leq) && forall i, j :: 0 <= i < j < |s| ==> ord(s[i], s[j])
    ensures StablySorted(SortBy(s, leq), leq, ord)
  {
    if s == [] {
    } else {
      SortByStable(s[1..], leq, ord);
      SortByPermutes(s[1..], leq);
      InsertStable(s[0], SortBy(s[1..], leq), leq, ord);
    }
  }

  lemma {:induction false} MultisetCount<T>(s: seq<T>, i: nat, j: nat)
    requires i < j < |s| && s[i] == s[j]
    ensures multiset(s)[s[i]] >= 2
  {
    assert s == s[..i] + [s[i]] + s[i + 1..j] + [s[j]] + s[j + 1..];
  }

  lemma {:induction false} DistinctCount<T>(s: seq<T>, x: T)
    requires Distinct(s)
    ensures multiset(s)[x] == if x in s then 1 else 0
  {
    if s == [] {
    } else {
      var last := |s| - 1;
      DistinctCount(s[..last], x);
      assert s == s[..last] + [s[last]];
    }
  }

  lemma SortByDistinct<T>(s: seq<T>, leq: (T, T) -> bool)
    requires Distinct(s)
    ensures Distinct(SortBy(s, leq))
  {
    var r := SortBy(s, leq);
    SortByPermutes(s, leq);
    forall i, j | 0 <= i < j < |r| ensures r[i] != r[j] {
      if r[i] == r[j] {
        MultisetCount(r, i, j);
        DistinctCount(s, r[i]);
        assert false;
      }
    }
  }

  /** The elements of a set, each once, in some order. */
  method ListOf<T(==)>(items: set<T>) returns (list: seq<T>)
    ensures Distinct(list) && forall x :: x in list <==> x in items
  {
    list := [];
    var todo := items;
    while todo != {}
      invariant Distinct(list) && todo <= items
      invariant forall x :: x in list <==> x in items - todo
      decreases todo
    {
      var x :| x in todo;
      assert x !in list;
      list := list + [x];
      todo := todo - {x};
    }
  }

  // ---------------------------------------------------------------- text

  /** Dictionary order on text, as Python compares strings. */
  predicate TextLeq(a: string, b: string) {
    if a == "" then true
    else if b == "" then false
    else if a[0] != b[0] then a[0] < b[0]
    else TextLeq(a[1..], b[1..])
  }

  lemma {:induction false} TextLeqTotal(a: string, b: string)
    ensures TextLeq(a, b) || TextLeq(b, a)
  {
    if a != "" && b != "" && a[0] == b[0] {
      TextLeqTotal(a[1..], b[1..]);
    }
  }

  lemma {:induction false} TextLeqTransitive(a: string, b: string, c: string)
    requires TextLeq(a, b) && TextLeq(b, c)
    ensures TextLeq(a, c)
  {
    if a != "" && b != "" && c != "" && a[0] == b[0] && b[0] == c[0] {
      TextLeqTransitive(a[1..], b[1..], c[1..]);
    }
  }

  lemma TextLeqOrders()
    ensures TotalPreorder(TextLeq)
  {
    forall x, y ensures TextLeq(x, y) || TextLeq(y, x) {
      TextLeqTotal(x, y);
    }
    forall x, y, z | TextLeq(x, y) && TextLeq(y, z) ensures TextLeq(x, z) {
      TextLeqTransitive(x, y, z);
    }
  }

  /** Up to k the texts are the same; there `a` ends or has the smaller character. */
  ghost predicate SmallerAt(a: string, b: string, k: nat) {
    k <= |a| && k <= |b| && (forall i :: 0 <= i < k ==> a[i] == b[i]) && (k == |a| || (k < |b| && a[k] < b[k]))
  }

  /** One text is the beginning of the other, or is smaller where they first differ. */
  lemma {:induction false} TextLeqIff(a: string, b: string)
    ensures TextLeq(a, b) <==> exists k: nat :: SmallerAt(a, b, k)
  {
    if a == "" {
      assert SmallerAt(a, b, 0);
    } else if b != "" && a[0] == b[0] {
      TextLeqIff(a[1..], b[1..]);
      if k: nat :| SmallerAt(a[1..], b[1..], k) {
        assert SmallerAt(a, b, k + 1);
      }
      if k: nat :| SmallerAt(a, b, k) {
        assert SmallerAt(a[1..], b[1..], k - 1);
      }
    } else if b != "" {
      assert a[0] < b[0] ==> SmallerAt(a, b, 0);
    }
  }

  predicate NoSlash(s: string) {
    '/' !in s
  }

  /** Python's `s.split("/")`: never empty, and "" splits to [""]. */
  function Split(s: string): (parts: seq<string>)
    ensures |parts| > 0
  {
    if s == "" then [""]
    else
      var rest := Split(s[1..]);
      if s[0] == '/' then [""] + rest else [[s[0]] + rest[0]] + rest[1..]
  }

  /** Python's `"/".join(parts)`. */
  function Join(parts: seq<string>): string {
    if parts == [] then ""
    else if |parts| == 1 then parts[0]
    else parts[0] + "/" + Join(parts[1..])
  }

  lemma {:induction false} SplitPlain(s: string)
    requires NoSlash(s)
    ensures Split(s) == [s]
  {
    if s == "" {
    } else {
      assert forall c :: c in s[1..] ==> c in s;
      SplitPlain(s[1..]);
      assert [s[0]] + s[1..] == s;
    }
  }

  lemma {:induction false} SplitAtSlash(a: string, b: string)
    requires NoSlash(a)
    ensures Split(a + "/" + b) == [a] + Split(b)
  {
    var s := a + "/" + b;
    if a == "" {
      assert s[1..] == b;
    } else {
      assert s[1..] == a[1..] + "/" + b;
      assert forall c :: c in a[1..] ==> c in a;
      SplitAtSlash(a[1..], b);
      assert [a[0]] + a[1..] == a;
    }
  }

  /** Splitting the joined form gives the parts back, when no part holds a slash. */
  lemma {:induction false} SplitJoin(parts: seq<string>)
    requires |parts| > 0
    requires forall p :: p in parts ==> NoSlash(p)
    ensures Split(Join(parts)) == parts
  {
    if |parts| == 1 {
      SplitPlain(parts[0]);
    } else {
      SplitJoin(parts[1..]);
      SplitAtSlash(parts[0], Join(parts[1..]));
      assert [parts[0]] + parts[1..] == parts;
    }
  }

  /** Appending "/name" appends one part. */
  lemma {:induction false} SplitAppend(s: string, name: string)
    requires NoSlash(name)
    ensures Split(s + "/" + name) == Split(s) + [name]
  {
    if s == "" {
      assert s + "/" + name == "/" + name;
      SplitAtSlash("", name);
      SplitPlain(name);
    } else {
      assert (s + "/" + name)[1..] == s[1..] + "/" + name;
      SplitAppend(s[1..], name);
    }
  }

  /** Join(Split(s)) is s, so splitting loses nothing. */
  lemma {:induction false} JoinSplit(s: string)
    ensures Join(Split(s)) == s
  {
    if s == "" {
    } else {
      JoinSplit(s[1..]);
      var rest := Split(s[1..]);
      if s[0] == '/' {
        assert ([""] + rest)[1..] == rest;
      } else {
        var parts := [[s[0]] + rest[0]] + rest[1..];
        assert parts[1..] == rest[1..];
      }
      assert [s[0]] + s[1..] == s;
    }
  }
}
