/** Data preparation: every genre's children are sorted in place by
    descending value (app.js:30-32), with the comparator `b.value - a.value`
    and the stable sort the language guarantees. */
module Preparation {
  import opened Movies

  /** The comparator passed to the sort: negative when `a` belongs before `b`. */
  function ByValueDesc(a: Leaf, b: Leaf): int {
    b.value - a.value
  }

  /** Children are in non-increasing order of value. */
  predicate NonIncreasing(s: seq<Leaf>) {
    forall i, j :: 0 <= i < j < |s| ==> s[i].value >= s[j].value
  }

  /** The leaves of `s` whose value is `v`, in their order in `s`. */
  function WithValue(s: seq<Leaf>, v: int): seq<Leaf> {
    if |s| == 0 then []
    else WithValue(s[..|s| - 1], v) + (if s[|s| - 1].value == v then [s[|s| - 1]] else [])
  }

  /** Inserts `x` into `s` after every element the comparator does not put
      behind `x`; this is the step of a stable insertion sort. */
  function Insert(s: seq<Leaf>, x: Leaf): seq<Leaf> {
    if |s| == 0 || ByValueDesc(x, s[|s| - 1]) >= 0 then s + [x]
    else Insert(s[..|s| - 1], x) + [s[|s| - 1]]
  }

  /** The specification of the sort: a stable sort by descending value. */
  function SortDesc(s: seq<Leaf>): seq<Leaf> {
    if |s| == 0 then [] else Insert(SortDesc(s[..|s| - 1]), s[|s| - 1])
  }

  lemma {:induction false} InsertPermutes(s: seq<Leaf>, x: Leaf)
    ensures multiset(Insert(s, x)) == multiset(s) + multiset{x}
  {
    if |s| > 0 && ByValueDesc(x, s[|s| - 1]) < 0 {
      InsertPermutes(s[..|s| - 1], x);
      assert s == s[..|s| - 1] + [s[|s| - 1]];
    }
  }

  lemma {:induction false} InsertKeepsOrder(s: seq<Leaf>, x: Leaf)
    requires NonIncreasing(s)
    ensures NonIncreasing(Insert(s, x))
  {
    if |s| > 0 && ByValueDesc(x, s[|s| - 1]) < 0 {
      var init, last := s[..|s| - 1], s[|s| - 1];
      InsertKeepsOrder(init, x);
      InsertPermutes(init, x);
      var r := Insert(init, x);
      forall i | 0 <= i < |r|
        ensures r[i].value >= last.value
      {
        assert r[i] in multiset(r);
        if r[i] != x {
          assert r[i] in multiset(init);
          var k :| 0 <= k < |init| && init[k] == r[i];
          assert s[k] == init[k];
        }
      }
    }
  }

  lemma {:induction false} WithValueAppend(s: seq<Leaf>, t: seq<Leaf>, v: int)
    ensures WithValue(s + t, v) == WithValue(s, v) + WithValue(t, v)
    decreases |t|
  {
    if |t| == 0 {
      assert s + t == s;
    } else {
      var st := s + t;
      assert st[..|st| - 1] == s + t[..|t| - 1];
      WithValueAppend(s, t[..|t| - 1], v);
    }
  }

  lemma WithValueSingle(x: Leaf, v: int)
    ensures WithValue([x], v) == if x.value == v then [x] else []
  {
    assert [x][..0] == [];
  }

  lemma {:induction false} InsertStable(s: seq<Leaf>, x: Leaf, v: int)
    ensures WithValue(Insert(s, x), v) == WithValue(s, v) + WithValue([x], v)
  {
    if |s| == 0 || ByValueDesc(x, s[|s| - 1]) >= 0 {
      WithValueAppend(s, [x], v);
    } else {
      var init, last := s[..|s| - 1], s[|s| - 1];
      assert Insert(s, x) == Insert(init, x) + [last];
      assert s == init + [last];
      InsertStable(init, x, v);
      InsertStableStep(init, last, x, v);
    }
  }

  /** The step of `InsertStable` where `x` moves in front of `last`: the two
      differ in value, so at most one of them is kept by the filter. */
  lemma InsertStableStep(init: seq<Leaf>, last: Leaf, x: Leaf, v: int)
    requires x.value > last.value
    requires WithValue(Insert(init, x), v) == WithValue(init, v) + WithValue([x], v)
    ensures WithValue(Insert(init, x) + [last], v) == WithValue(init + [last], v) + WithValue([x], v)
  {
    var wi, wx, wl := WithValue(init, v), WithValue([x], v), WithValue([last], v);
    WithValueAppend(Insert(init, x), [last], v);
    WithValueAppend(init, [last], v);
    WithValueSingle(x, v);
    WithValueSingle(last, v);
    assert wx == [] || wl == [];
    assert wi + wx + wl == wi + wl + wx;
  }

  /** The specification sorts: its result is in non-increasing order. */
  lemma {:induction false} SortDescOrdered(s: seq<Leaf>)
    ensures NonIncreasing(SortDesc(s))
  {
    if |s| > 0 {
      SortDescOrdered(s[..|s| - 1]);
      InsertKeepsOrder(SortDesc(s[..|s| - 1]), s[|s| - 1]);
    }
  }

  /** The specification only reorders: its result is a permutation. */
  lemma {:induction false} SortDescPermutes(s: seq<Leaf>)
    ensures multiset(SortDesc(s)) == multiset(s)
  {
    if |s| > 0 {
      var init, last := s[..|s| - 1], s[|s| - 1];
      assert SortDesc(s) == Insert(SortDesc(init), last);
      SortDescPermutes(init);
      InsertPermutes(SortDesc(init), last);
      assert s == init + [last];
      assert multiset(s) == multiset(init) + multiset{last};
    }
  }

  /** The sort is stable: leaves of equal value keep their relative order. */
  lemma {:induction false} SortDescStable(s: seq<Leaf>, v: int)
    ensures WithValue(SortDesc(s), v) == WithValue(s, v)
  {
    if |s| > 0 {
      var init, last := s[..|s| - 1], s[|s| - 1];
      SortDescStable(init, v);
      InsertStable(SortDesc(init), last, v);
      WithValueSingle(last, v);
    }
  }

  /** Children already in order are left as they are; hence preparing the
      data twice is the same as preparing it once. */
  lemma {:induction false} SortDescOfOrdered(s: seq<Leaf>)
    requires NonIncreasing(s)
    ensures SortDesc(s) == s
  {
    if |s| > 0 {
      var init, last := s[..|s| - 1], s[|s| - 1];
      assert NonIncreasing(init) by {
        forall i, j | 0 <= i < j < |init| ensures init[i].value >= init[j].value {
          assert init[i] == s[i] && init[j] == s[j];
        }
      }
      SortDescOfOrdered(init);
      assert SortDesc(s) == Insert(init, last);
      if |init| > 0 {
        assert init[|init| - 1] == s[|s| - 2];
        assert ByValueDesc(last, init[|init| - 1]) >= 0;
      }
      assert Insert(init, last) == init + [last];
      assert s == init + [last];
    }
  }

  lemma SortDescIdempotent(s: seq<Leaf>)
    ensures SortDesc(SortDesc(s)) == SortDesc(s)
  {
    SortDescOrdered(s);
    SortDescOfOrdered(SortDesc(s));
  }

  /** Where the insertion puts `x`: after `s[..j]`, when every element from
      `j` on gives way to `x` and the one before `j` does not. */
  lemma {:induction false} InsertPosition(s: seq<Leaf>, x: Leaf, j: nat)
    requires j <= |s|
    requires forall k :: j <= k < |s| ==> ByValueDesc(x, s[k]) < 0
    requires j == 0 || ByValueDesc(x, s[j - 1]) >= 0
    ensures Insert(s, x) == s[..j] + [x] + s[j..]
    decreases |s|
  {
    if |s| == j {
      assert s[..j] == s;
    } else {
      var init := s[..|s| - 1];
      assert ByValueDesc(x, s[|s| - 1]) < 0;
      assert Insert(s, x) == Insert(init, x) + [s[|s| - 1]];
      InsertPosition(init, x, j);
      assert init[..j] == s[..j];
      assert init[j..] + [s[|s| - 1]] == s[j..];
    }
  }

  /** The state the shifting loop ends in, read as a sequence `b`: the
      prefix up to `j`, then `x`, then the shifted rest of the prefix, then
      the untouched suffix of `orig`. */
  lemma InsertLands(orig: seq<Leaf>, i: nat, x: Leaf, j: nat, b: seq<Leaf>)
    requires j <= i < |orig| && |b| == |orig|
    requires forall k :: j <= k < i ==> ByValueDesc(x, orig[k]) < 0
    requires j == 0 || ByValueDesc(x, orig[j - 1]) >= 0
    requires forall k :: 0 <= k < j ==> b[k] == orig[k]
    requires b[j] == x
    requires forall k :: j < k <= i ==> b[k] == orig[k - 1]
    requires forall k :: i < k < |b| ==> b[k] == orig[k]
    ensures b[..i + 1] == Insert(orig[..i], x)
    ensures b[i + 1..] == orig[i + 1..]
  {
    var sorted := orig[..i];
    InsertPosition(sorted, x, j);
    assert b[..i + 1] == sorted[..j] + [x] + sorted[j..];
    var bs, os := b[i + 1..], orig[i + 1..];
    assert |bs| == |os|;
    forall k | 0 <= k < |bs| ensures bs[k] == os[k] {
      assert bs[k] == b[i + 1 + k];
    }
  }

  /** One pass of the sort: moves `a[i]` left past the leaves of smaller
      value, into the already sorted prefix `a[..i]`. */
  method InsertAt(a: array<Leaf>, i: nat)
    requires i < a.Length
    modifies a
    ensures a[..i + 1] == Insert(old(a[..i]), old(a[i]))
    ensures a[i + 1..] == old(a[i + 1..])
  {
    ghost var orig := a[..];
    var x := a[i];
    var j := i;
    while j > 0 && ByValueDesc(x, a[j - 1]) < 0
      invariant 0 <= j <= i
      invariant forall k :: 0 <= k < j ==> a[k] == orig[k]
      invariant forall k :: j < k <= i ==> a[k] == orig[k - 1]
      invariant forall k :: i < k < a.Length ==> a[k] == orig[k]
      invariant forall k :: j <= k < i ==> ByValueDesc(x, orig[k]) < 0
    {
      a[j] := a[j - 1];
      j := j - 1;
    }
    a[j] := x;
    InsertLands(orig, i, x, j, a[..]);
  }

  /** `children.sort((a, b) => b.value - a.value)` on one genre's array. */
  method SortChildren(a: array<Leaf>)
    modifies a
    ensures a[..] == SortDesc(old(a[..]))
    ensures NonIncreasing(a[..]) && multiset(a[..]) == multiset(old(a[..]))
  {
    ghost var input := a[..];
    var i := 0;
    while i < a.Length
      invariant 0 <= i <= a.Length
      invariant a[..i] == SortDesc(input[..i])
      invariant a[i..] == input[i..]
    {
      ghost var sortedPrefix, rest := a[..i], a[i..];
      assert rest[0] == input[i] && rest[1..] == input[i + 1..];
      InsertAt(a, i);
      assert a[..i + 1] == Insert(sortedPrefix, input[i]);
      assert input[..i + 1][..i] == input[..i];
      assert a[..i + 1] == SortDesc(input[..i + 1]);
      assert a[i + 1..] == rest[1..];
      i := i + 1;
    }
    assert input[..a.Length] == input;
    SortDescOrdered(input);
    SortDescPermutes(input);
  }

  /** The children arrays of distinct genres are distinct objects, as they
      are in any parsed JSON document. */
  predicate DistinctChildren(genres: seq<Genre>)
    reads set g | g in genres
  {
    forall i, j :: 0 <= i < j < |genres| ==> genres[i].children != genres[j].children
  }

  /** `data.children.map((child) => child.name)`: the genre list used for
      the colour domain and the legend. */
  function GenreNames(genres: seq<Genre>): seq<string>
    reads set g | g in genres
  {
    if |genres| == 0 then [] else [genres[0].name] + GenreNames(genres[1..])
  }

  /** `data.children.forEach(genre => genre.children.sort(...))`. */
  method Prepare(genres: seq<Genre>)
    requires DistinctChildren(genres)
    modifies set g | g in genres :: g.children
    ensures forall i :: 0 <= i < |genres| ==>
      genres[i].children[..] == SortDesc(old(genres[i].children[..]))
    ensures forall i :: 0 <= i < |genres| ==>
      NonIncreasing(genres[i].children[..]) &&
      multiset(genres[i].children[..]) == multiset(old(genres[i].children[..]))
    ensures forall i :: 0 <= i < |genres| ==>
      genres[i].name == old(genres[i].name) && genres[i].children == old(genres[i].children)
    ensures GenreNames(genres) == old(GenreNames(genres))
  {
    var k := 0;
    while k < |genres|
      invariant 0 <= k <= |genres|
      invariant forall i :: 0 <= i < k ==>
        genres[i].children[..] == SortDesc(old(genres[i].children[..]))
      invariant forall i :: k <= i < |genres| ==>
        genres[i].children[..] == old(genres[i].children[..])
    {
      var c := genres[k].children;
      assert forall i :: 0 <= i < |genres| && i != k ==> genres[i].children != c;
      SortChildren(c);
      k := k + 1;
    }
    forall i | 0 <= i < |genres|
      ensures NonIncreasing(genres[i].children[..])
      ensures multiset(genres[i].children[..]) == multiset(old(genres[i].children[..]))
    {
      SortDescOrdered(old(genres[i].children[..]));
      SortDescPermutes(old(genres[i].children[..]));
    }
  }
}
