/** Sequence operations behind java.util.List as the editor uses it: remove(Object) drops the
    first occurrence, add(index, x) inserts, and filters keep the list order. */
module Seqs {

  predicate Distinct<T(==)>(s: seq<T>)
  {
    forall i, j :: 0 <= i < j < |s| ==> s[i] != s[j]
  }

  /** List.remove(Object): drops the first occurrence of x, if there is one. */
  function RemoveFirst<T(==)>(s: seq<T>, x: T): (r: seq<T>)
    ensures |r| == if x in s then |s| - 1 else |s|
  {
    if s == [] then []
    else if s[0] == x then s[1..]
    else [s[0]] + RemoveFirst(s[1..], x)
  }

  /** Without x in the list, remove(x) changes nothing. */
  lemma {:induction false} RemoveFirstAbsent<T>(s: seq<T>, x: T)
    requires x !in s
    ensures RemoveFirst(s, x) == s
  {
    if s != [] {
      RemoveFirstAbsent(s[1..], x);
      assert s == [s[0]] + s[1..];
    }
  }

  /** Only the first occurrence goes: everything before it and after it stays, in order. */
  lemma {:induction false} RemoveFirstAt<T>(s: seq<T>, x: T, i: nat)
    requires i < |s| && s[i] == x
    requires forall j :: 0 <= j < i ==> s[j] != x
    ensures RemoveFirst(s, x) == s[..i] + s[i + 1..]
  {
    if i == 0 {
      assert s[..0] + s[1..] == s[1..];
    } else {
      var t := s[1..];
      RemoveFirstAt(t, x, i - 1);
      assert t[..i - 1] == s[1..i];
      assert t[i..] == s[i + 1..];
      assert [s[0]] + s[1..i] == s[..i];
    }
  }

  /** remove(x) takes away one copy of x and nothing else. */
  lemma {:induction false} RemoveFirstMultiset<T>(s: seq<T>, x: T)
    requires x in s
    ensures multiset(RemoveFirst(s, x)) == multiset(s) - multiset{x}
  {
    assert s == [s[0]] + s[1..];
    if s[0] != x {
      RemoveFirstMultiset(s[1..], x);
    }
  }

  /** The elements of s outside xs, in their order in s. */
  function Without<T(==)>(s: seq<T>, xs: set<T>): (r: seq<T>)
    ensures |r| <= |s|
  {
    if s == [] then []
    else (if s[0] in xs then [] else [s[0]]) + Without(s[1..], xs)
  }

  /** WithoutMembers for one value, which need not be known to be allocated at the call. */
  lemma WithoutHas<T>(s: seq<T>, xs: set<T>, y: T)
    ensures y in Without(s, xs) <==> y in s && y !in xs
  {
    WithoutMembers(s, xs);
  }

  /** Without keeps exactly the elements of s outside xs. */
  lemma {:induction false} WithoutMembers<T>(s: seq<T>, xs: set<T>)
    ensures forall y :: y in Without(s, xs) <==> y in s && y !in xs
  {
    if s != [] {
      WithoutMembers(s[1..], xs);
      assert s == [s[0]] + s[1..];
    }
  }

  /** The elements of s that also occur in sel, in their order in s. */
  function Keep<T(==)>(s: seq<T>, sel: seq<T>): (r: seq<T>)
    ensures |r| <= |s|
  {
    if s == [] then []
    else (if s[0] in sel then [s[0]] else []) + Keep(s[1..], sel)
  }

  /** KeepMembers for one value, which need not be known to be allocated at the call. */
  lemma KeepHas<T>(s: seq<T>, sel: seq<T>, y: T)
    ensures y in Keep(s, sel) <==> y in s && y in sel
  {
    KeepMembers(s, sel);
  }

  /** Keep keeps exactly the elements of s that occur in sel. */
  lemma {:induction false} KeepMembers<T>(s: seq<T>, sel: seq<T>)
    ensures forall y :: y in Keep(s, sel) <==> y in s && y in sel
    ensures forall i :: 0 <= i < |Keep(s, sel)| ==> Keep(s, sel)[i] in s && Keep(s, sel)[i] in sel
  {
    if s != [] {
      KeepMembers(s[1..], sel);
      assert s == [s[0]] + s[1..];
    }
  }

  lemma {:induction false} WithoutDistinct<T>(s: seq<T>, xs: set<T>)
    requires Distinct(s)
    ensures Distinct(Without(s, xs))
  {
    if s != [] {
      assert Distinct(s[1..]);
      WithoutDistinct(s[1..], xs);
      WithoutMembers(s[1..], xs);
      assert s[0] !in s[1..];
    }
  }

  lemma {:induction false} KeepDistinct<T>(s: seq<T>, sel: seq<T>)
    requires Distinct(s)
    ensures Distinct(Keep(s, sel))
  {
    if s != [] {
      assert Distinct(s[1..]);
      KeepDistinct(s[1..], sel);
      KeepMembers(s[1..], sel);
      assert s[0] !in s[1..];
    }
  }

  lemma {:induction false} WithoutAppend<T>(a: seq<T>, b: seq<T>, xs: set<T>)
    ensures Without(a + b, xs) == Without(a, xs) + Without(b, xs)
  {
    if a == [] {
      assert a + b == b;
    } else {
      assert (a + b)[0] == a[0];
      assert (a + b)[1..] == a[1..] + b;
      WithoutAppend(a[1..], b, xs);
    }
  }

  /** Filtering twice is filtering once by both sets. */
  lemma {:induction false} WithoutWithout<T>(s: seq<T>, xs: set<T>, ys: set<T>)
    ensures Without(Without(s, xs), ys) == Without(s, xs + ys)
  {
    if s != [] {
      WithoutWithout(s[1..], xs, ys);
      var head := if s[0] in xs then [] else [s[0]];
      WithoutAppend(head, Without(s[1..], xs), ys);
    }
  }

  lemma {:induction false} WithoutNothing<T>(s: seq<T>, xs: set<T>)
    requires forall j :: 0 <= j < |s| ==> s[j] !in xs
    ensures Without(s, xs) == s
  {
    if s != [] {
      WithoutNothing(s[1..], xs);
      assert s == [s[0]] + s[1..];
    }
  }

  lemma {:induction false} RemoveFirstIsWithout<T>(s: seq<T>, x: T)
    requires Distinct(s)
    ensures RemoveFirst(s, x) == Without(s, {x})
  {
    if s != [] {
      assert Distinct(s[1..]);
      RemoveFirstIsWithout(s[1..], x);
      if s[0] == x {
        WithoutNothing(s[1..], {x});
      }
    }
  }

  /** List.add(index, x). */
  function Insert<T>(s: seq<T>, i: nat, x: T): (r: seq<T>)
    requires i <= |s|
    ensures |r| == |s| + 1 && r[i] == x
    ensures r[..i] == s[..i] && r[i + 1..] == s[i..]
  {
    s[..i] + [x] + s[i..]
  }

  /** remove(x) followed by add(i, x): the reordering primitive of the drawing model. */
  function MoveTo<T(==)>(s: seq<T>, x: T, i: nat): seq<T>
    requires x in s && i < |s|
  {
    Insert(RemoveFirst(s, x), i, x)
  }

  /** Moving x to slot i keeps the same elements and puts x at i. */
  lemma MoveToPermutes<T>(s: seq<T>, x: T, i: nat)
    requires x in s && i < |s|
    ensures |MoveTo(s, x, i)| == |s| && MoveTo(s, x, i)[i] == x
    ensures multiset(MoveTo(s, x, i)) == multiset(s)
  {
    var rest := RemoveFirst(s, x);
    assert multiset(rest) + multiset{x} == multiset(s) by {
      RemoveFirstMultiset(s, x);
      assert x in multiset(s);
    }
    assert multiset(MoveTo(s, x, i)) == multiset(rest) + multiset{x} by {
      assert rest == rest[..i] + rest[i..];
      assert MoveTo(s, x, i) == rest[..i] + [x] + rest[i..];
    }
  }

  lemma InsertDistinct<T>(rest: seq<T>, i: nat, x: T)
    requires Distinct(rest) && x !in rest && i <= |rest|
    ensures Distinct(Insert(rest, i, x))
  {
    var r := Insert(rest, i, x);
    forall p, q | 0 <= p < q < |r| ensures r[p] != r[q] {
      if p != i && q != i {
        var p' := if p < i then p else p - 1;
        var q' := if q < i then q else q - 1;
        assert r[p] == rest[p'] && r[q] == rest[q'];
      } else if p == i {
        assert r[q] == rest[q - 1];
      } else {
        assert r[p] == rest[p];
      }
    }
  }

  lemma InsertWithout<T>(rest: seq<T>, i: nat, x: T)
    requires x !in rest && i <= |rest|
    ensures Without(Insert(rest, i, x), {x}) == rest
  {
    var a, b := rest[..i], rest[i..];
    assert Insert(rest, i, x) == a + [x] + b;
    assert rest == a + b;
    WithoutAppend(a + [x], b, {x});
    WithoutAppend(a, [x], {x});
    assert Without([x], {x}) == [];
    WithoutNothing(a, {x});
    WithoutNothing(b, {x});
  }

  /** On a duplicate-free list, moving x keeps the list duplicate-free and leaves
      the other elements in their previous relative order. */
  lemma MoveToKeepsOthers<T>(s: seq<T>, x: T, i: nat)
    requires Distinct(s) && x in s && i < |s|
    ensures Distinct(MoveTo(s, x, i))
    ensures Without(MoveTo(s, x, i), {x}) == Without(s, {x})
  {
    var rest := RemoveFirst(s, x);
    RemoveFirstIsWithout(s, x);
    WithoutDistinct(s, {x});
    WithoutMembers(s, {x});
    assert x !in rest;
    InsertDistinct(rest, i, x);
    InsertWithout(rest, i, x);
  }

  /** The elements of a list, as a set. */
  function Elements<T>(s: seq<T>): set<T>
  {
    set x | x in s
  }

  /** The list backwards. */
  function Reverse<T>(s: seq<T>): (r: seq<T>)
    ensures |r| == |s|
    ensures forall m :: 0 <= m < |s| ==> r[m] == s[|s| - 1 - m]
  {
    if s == [] then [] else [s[|s| - 1]] + Reverse(s[..|s| - 1])
  }

  /** Reversing a list with one more element at its end puts that element first. */
  lemma ReverseSnoc<T>(s: seq<T>, x: T)
    ensures Reverse(s + [x]) == [x] + Reverse(s)
  {
    assert (s + [x])[..|s|] == s;
  }

  /** Appending to the list being filtered appends to the filtered list. */
  lemma {:induction false} KeepSnoc<T>(s: seq<T>, x: T, sel: seq<T>)
    ensures Keep(s + [x], sel) == Keep(s, sel) + (if x in sel then [x] else [])
  {
    if s == [] {
      assert s + [x] == [x];
    } else {
      var head := if s[0] in sel then [s[0]] else [];
      assert (s + [x])[0] == s[0] && (s + [x])[1..] == s[1..] + [x];
      KeepSnoc(s[1..], x, sel);
      assert Keep(s + [x], sel) == head + Keep(s[1..] + [x], sel);
      assert Keep(s, sel) == head + Keep(s[1..], sel);
    }
  }

  /** remove(x) on a concatenation whose first part holds x. */
  lemma {:induction false} RemoveFirstAppendLeft<T>(a: seq<T>, b: seq<T>, x: T)
    requires x in a
    ensures RemoveFirst(a + b, x) == RemoveFirst(a, x) + b
  {
    assert (a + b)[1..] == a[1..] + b;
    if a[0] != x {
      RemoveFirstAppendLeft(a[1..], b, x);
    }
  }

  /** remove(x) on a concatenation whose first part lacks x. */
  lemma {:induction false} RemoveFirstAppendRight<T>(a: seq<T>, b: seq<T>, x: T)
    requires x !in a
    ensures RemoveFirst(a + b, x) == a + RemoveFirst(b, x)
  {
    if a == [] {
      assert a + b == b;
    } else {
      assert (a + b)[1..] == a[1..] + b;
      RemoveFirstAppendRight(a[1..], b, x);
      assert a == [a[0]] + a[1..];
    }
  }

  /** Moving an element of the front part a to the last slot of a, in front of the part b
      that holds the elements already moved: it joins b at its front. */
  lemma MoveToBackBoundary<T>(a: seq<T>, b: seq<T>, x: T, w: seq<T>)
    requires Distinct(a) && x in a && x !in b && w == Without(a, {x})
    ensures MoveTo(a + b, x, |a| - 1) == w + ([x] + b)
  {
    RemoveFirstAppendLeft(a, b, x);
    RemoveFirstIsWithout(a, x);
    assert |w| == |a| - 1;
    assert Insert(w + b, |a| - 1, x) == w + ([x] + b) by {
      assert (w + b)[..|w|] == w;
      assert (w + b)[|w|..] == b;
    }
  }

  /** Moving an element of the back part a to the first slot after the part b that holds
      the elements already moved: it joins b at its end. */
  lemma MoveToFrontBoundary<T>(b: seq<T>, a: seq<T>, x: T)
    requires Distinct(a) && x in a && x !in b
    ensures MoveTo(b + a, x, |b|) == b + [x] + Without(a, {x})
  {
    RemoveFirstAppendRight(b, a, x);
    RemoveFirstIsWithout(a, x);
    var r := RemoveFirst(a, x);
    assert Insert(b + r, |b|, x) == b + [x] + r by {
      assert (b + r)[..|b|] == b;
      assert (b + r)[|b|..] == r;
    }
  }

  /** Filtering by two sets that agree on the elements of s gives the same list. */
  lemma {:induction false} WithoutSameOn<T>(s: seq<T>, xs: set<T>, ys: set<T>)
    requires forall i :: 0 <= i < |s| ==> (s[i] in xs <==> s[i] in ys)
    ensures Without(s, xs) == Without(s, ys)
  {
    if s != [] {
      WithoutSameOn(s[1..], xs, ys);
    }
  }

  /** With b the elements already moved to the back and s filtered of them in front:
      moving x to the last slot of the front part adds it to the moved ones. */
  lemma BackStep<T>(s: seq<T>, b: seq<T>, x: T)
    requires Distinct(s) && x in s && x !in b
    ensures x in Without(s, Elements(b))
    ensures MoveTo(Without(s, Elements(b)) + b, x, |Without(s, Elements(b))| - 1) ==
      Without(s, Elements([x] + b)) + ([x] + b)
  {
    var a := Without(s, Elements(b));
    WithoutHas(s, Elements(b), x);
    WithoutDistinct(s, Elements(b));
    WithoutWithout(s, Elements(b), {x});
    ElementsCons(x, b);
    assert Without(a, {x}) == Without(s, Elements([x] + b));
    MoveToBackBoundary(a, b, x, Without(s, Elements([x] + b)));
  }

  /** With b the elements already moved to the front and s filtered of them behind:
      moving x to the first slot after b adds it to the moved ones. */
  lemma FrontStep<T>(s: seq<T>, b: seq<T>, x: T)
    requires Distinct(s) && x in s && x !in b
    ensures x in Without(s, Elements(b))
    ensures MoveTo(b + Without(s, Elements(b)), x, |b|) ==
      (b + [x]) + Without(s, Elements(b + [x]))
  {
    var a := Without(s, Elements(b));
    WithoutHas(s, Elements(b), x);
    WithoutDistinct(s, Elements(b));
    MoveToFrontBoundary(b, a, x);
    WithoutWithout(s, Elements(b), {x});
    ElementsSnoc(b, x);
  }

  /** The element just before a suffix of a list without repetitions is not in the suffix,
      and prepending it gives the next longer suffix. */
  lemma SuffixStep<T>(s: seq<T>, k: nat)
    requires Distinct(s) && 0 < k <= |s|
    ensures s[k - 1] !in s[k..] && s[k - 1..] == [s[k - 1]] + s[k..]
  {
  }

  /** The element just after a prefix of a list without repetitions is not in the prefix,
      and appending it gives the next longer prefix. */
  lemma PrefixStep<T>(s: seq<T>, k: nat)
    requires Distinct(s) && k < |s|
    ensures s[k] !in s[..k] && s[..k + 1] == s[..k] + [s[k]]
  {
  }

  /** Filtering one more element of a prefix. */
  lemma KeepPrefixStep<T>(s: seq<T>, i: nat, sel: seq<T>)
    requires i < |s|
    ensures Keep(s[..i + 1], sel) == Keep(s[..i], sel) + if s[i] in sel then [s[i]] else []
  {
    KeepSnoc(s[..i], s[i], sel);
    assert s[..i + 1] == s[..i] + [s[i]];
  }

  /** Filtering one more element of a prefix, read backwards. */
  lemma ReverseKeepPrefixStep<T>(s: seq<T>, i: nat, sel: seq<T>)
    requires i < |s|
    ensures Reverse(Keep(s[..i + 1], sel)) ==
      (if s[i] in sel then [s[i]] else []) + Reverse(Keep(s[..i], sel))
  {
    KeepPrefixStep(s, i, sel);
    if s[i] in sel {
      ReverseSnoc(Keep(s[..i], sel), s[i]);
    } else {
      assert Keep(s[..i + 1], sel) == Keep(s[..i], sel);
    }
  }

  /** Filtering one more value out: the list loses that value if it still held it. */
  lemma WithoutOneMore<T>(s: seq<T>, xs: set<T>, x: T)
    ensures x in Without(s, xs) ==> Without(s, xs + {x}) == Without(Without(s, xs), {x})
    ensures x !in Without(s, xs) ==> Without(s, xs + {x}) == Without(s, xs)
  {
    WithoutWithout(s, xs, {x});
    if x !in Without(s, xs) {
      WithoutNothing(Without(s, xs), {x});
    }
  }

  /** The elements of a list one longer. */
  lemma ElementsSnoc<T>(s: seq<T>, x: T)
    ensures Elements(s + [x]) == Elements(s) + {x}
  {
  }

  /** The elements of a list one longer at the front. */
  lemma ElementsCons<T>(x: T, s: seq<T>)
    ensures Elements([x] + s) == Elements(s) + {x}
  {
  }

  /** A list that admits no duplicates: x is appended unless it is already there. */
  function AppendNew<T(==)>(s: seq<T>, x: T): (r: seq<T>)
  {
    if x in s then s else s + [x]
  }

  /** AppendNew with each element of xs in turn. The result extends s, holds every element
      of xs, holds nothing else, and has no duplicates if s has none. */
  function AppendEach<T(==)>(s: seq<T>, xs: seq<T>): (r: seq<T>)
    ensures |s| <= |r| && r[..|s|] == s
    ensures forall i :: 0 <= i < |xs| ==> xs[i] in r
    ensures forall i :: 0 <= i < |r| ==> r[i] in s || r[i] in xs
    ensures Distinct(s) ==> Distinct(r)
    decreases |xs|
  {
    if xs == [] then s else AppendNew(AppendEach(s, xs[..|xs| - 1]), xs[|xs| - 1])
  }

  /** When no element of xs is in s yet and xs has no duplicates, every one is appended. */
  lemma {:induction false} AppendEachFresh<T>(s: seq<T>, xs: seq<T>)
    requires Distinct(xs) && forall i :: 0 <= i < |xs| ==> xs[i] !in s
    ensures AppendEach(s, xs) == s + xs
    decreases |xs|
  {
    if xs != [] {
      var init := xs[..|xs| - 1];
      AppendEachFresh(s, init);
      assert xs[|xs| - 1] !in s + init;
      assert init + [xs[|xs| - 1]] == xs;
    }
  }

  /** Splitting a list into the elements outside sel and those in it loses nothing. */
  lemma {:induction false} WithoutKeepPermutes<T>(s: seq<T>, sel: seq<T>)
    ensures multiset(Without(s, Elements(sel)) + Keep(s, sel)) == multiset(s)
  {
    if s != [] {
      var e := Elements(sel);
      var w, k := Without(s[1..], e), Keep(s[1..], sel);
      WithoutKeepPermutes(s[1..], sel);
      assert s == [s[0]] + s[1..];
      if s[0] in sel {
        assert Without(s, e) == w && Keep(s, sel) == [s[0]] + k;
        assert multiset(w + ([s[0]] + k)) == multiset{s[0]} + multiset(w + k);
      } else {
        assert Without(s, e) == [s[0]] + w && Keep(s, sel) == k;
        assert multiset([s[0]] + w + k) == multiset{s[0]} + multiset(w + k);
      }
    }
  }

  /** In a list without duplicates every element occurs once. */
  lemma {:induction false} DistinctCount<T>(s: seq<T>, x: T)
    requires Distinct(s)
    ensures multiset(s)[x] == if x in s then 1 else 0
  {
    if s != [] {
      assert Distinct(s[1..]);
      DistinctCount(s[1..], x);
      assert s == [s[0]] + s[1..];
    }
  }

  /** Two lists without duplicates and with the same elements are permutations of each other. */
  lemma DistinctSameMultiset<T>(a: seq<T>, b: seq<T>)
    requires Distinct(a) && Distinct(b)
    requires forall x :: x in a <==> x in b
    ensures multiset(a) == multiset(b)
  {
    forall x
      ensures multiset(a)[x] == multiset(b)[x]
    {
      DistinctCount(a, x);
      DistinctCount(b, x);
    }
  }

  lemma {:induction false} KeepAppend<T>(a: seq<T>, b: seq<T>, sel: seq<T>)
    ensures Keep(a + b, sel) == Keep(a, sel) + Keep(b, sel)
  {
    if a == [] {
      assert a + b == b;
    } else {
      var head := if a[0] in sel then [a[0]] else [];
      assert (a + b)[0] == a[0] && (a + b)[1..] == a[1..] + b;
      assert Keep(a + b, sel) == head + Keep(a[1..] + b, sel);
      KeepAppend(a[1..], b, sel);
      assert head + (Keep(a[1..], sel) + Keep(b, sel)) == (head + Keep(a[1..], sel)) + Keep(b, sel);
    }
  }

  /** Filtering the kept elements is idempotent, and filtering either part by the other's
      criterion leaves nothing. */
  lemma {:induction false} KeepSplitStable<T>(s: seq<T>, sel: seq<T>)
    ensures Keep(Keep(s, sel), sel) == Keep(s, sel)
    ensures Without(Keep(s, sel), Elements(sel)) == []
    ensures Keep(Without(s, Elements(sel)), sel) == []
    ensures Without(Without(s, Elements(sel)), Elements(sel)) == Without(s, Elements(sel))
  {
    if s != [] {
      KeepSplitStable(s[1..], sel);
      var k, w := Keep(s[1..], sel), Without(s[1..], Elements(sel));
      if s[0] in sel {
        assert Keep(s, sel) == [s[0]] + k;
        assert ([s[0]] + k)[0] == s[0] && ([s[0]] + k)[1..] == k;
        assert Without(s, Elements(sel)) == w;
      } else {
        assert Keep(s, sel) == k;
        assert Without(s, Elements(sel)) == [s[0]] + w;
        assert ([s[0]] + w)[0] == s[0] && ([s[0]] + w)[1..] == w;
        assert Without([s[0]] + w, Elements(sel)) == [s[0]] + Without(w, Elements(sel));
      }
    }
  }

  /** Splitting a split list again, the same way, gives the same parts. */
  lemma SplitStable<T>(s: seq<T>, sel: seq<T>)
    ensures var w, k := Without(s, Elements(sel)), Keep(s, sel);
      Without(w + k, Elements(sel)) == w && Keep(w + k, sel) == k &&
      Without(k + w, Elements(sel)) == w && Keep(k + w, sel) == k
  {
    var e := Elements(sel);
    var w, k := Without(s, e), Keep(s, sel);
    KeepSplitStable(s, sel);
    WithoutAppend(w, k, e);
    KeepAppend(w, k, sel);
    WithoutAppend(k, w, e);
    KeepAppend(k, w, sel);
    assert w + [] == w && [] + w == w && k + [] == k && [] + k == k;
  }
}
