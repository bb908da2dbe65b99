/**
 * Player ids in the order a std::map<int, ...> visits them: ascending.
 * The game stores players in std::map containers, so every loop "for (auto &[id, _] : m)"
 * sees the keys of `m` sorted; `Sorted` is that order and `Without` is the filter that
 * drops one id from it.
 */
module OrderedIds {

  /** `xs` is strictly ascending (so it has no duplicates). */
  predicate Ascending(xs: seq<int>) {
    forall i, j :: 0 <= i < j < |xs| ==> xs[i] < xs[j]
  }

  /** `m` is the least element of `s`. */
  predicate IsMin(m: int, s: set<int>) {
    m in s && forall x :: x in s ==> m <= x
  }

  /** A non-empty set has a member. */
  lemma HasMember(s: set<int>)
    requires s != {}
    ensures exists y :: y in s
  {
    if forall y :: y !in s {
      assert false;
    }
  }

  /** Every non-empty finite set of ids has a least element. */
  lemma {:induction false} MinExists(s: set<int>)
    requires s != {}
    ensures exists m :: IsMin(m, s)
  {
    HasMember(s);
    var y :| y in s;
    if s != {y} {
      MinExists(s - {y});
      var m :| IsMin(m, s - {y});
      forall x | x in s && x != y
        ensures m <= x
      {
        assert x in s - {y};
      }
      if y < m {
        assert IsMin(y, s);
      } else {
        assert IsMin(m, s);
      }
    } else {
      assert IsMin(y, s);
    }
  }

  /** The least element of a non-empty set. */
  function Min(s: set<int>): (m: int)
    requires s != {}
    ensures IsMin(m, s)
  {
    MinExists(s);
    var m :| IsMin(m, s);
    m
  }

  /** The elements of `s` in ascending order. */
  function Sorted(s: set<int>): (r: seq<int>)
    ensures Ascending(r)
    ensures forall x :: x in r <==> x in s
    ensures |r| == |s|
    decreases |s|
  {
    if s == {} then []
    else
      var m := Min(s);
      [m] + Sorted(s - {m})
  }

  /** Two sequences with the same elements are empty together. */
  lemma EmptyTogether(a: seq<int>, b: seq<int>)
    requires forall x :: x in a <==> x in b
    ensures |a| == 0 <==> |b| == 0
  {
    if |a| > 0 {
      var z := a[0];
      assert z in a;
      assert z in b;
    }
    if |b| > 0 {
      var z := b[0];
      assert z in b;
      assert z in a;
    }
  }

  /** Two ascending sequences with the same elements are the same sequence. */
  lemma {:induction false} AscendingUnique(a: seq<int>, b: seq<int>)
    requires Ascending(a) && Ascending(b)
    requires forall x :: x in a <==> x in b
    ensures a == b
    decreases |a|
  {
    EmptyTogether(a, b);
    if |a| > 0 {
      var a0, b0 := a[0], b[0];
      assert a0 in a && b0 in b;
      assert a0 in b && b0 in a;
      var i :| 0 <= i < |a| && a[i] == b0;
      var j :| 0 <= j < |b| && b[j] == a0;
      assert a0 <= a[i] && b0 <= b[j];
      assert a0 == b0;
      HeadBelowTail(a);
      HeadBelowTail(b);
      forall x
        ensures x in a[1..] <==> x in b[1..]
      {
        if x in a[1..] {
          assert x in a && x != a0;
          var q :| 0 <= q < |b| && b[q] == x;
          assert b[1..][q - 1] == x;
        }
        if x in b[1..] {
          assert x in b && x != b0;
          var p :| 0 <= p < |a| && a[p] == x;
          assert a[1..][p - 1] == x;
        }
      }
      AscendingUnique(a[1..], b[1..]);
      assert a == [a0] + a[1..] && b == [b0] + b[1..];
    }
  }

  /** `xs` with every occurrence of `v` removed, the others kept in their order. */
  function Without(xs: seq<int>, v: int): (r: seq<int>)
    ensures forall x :: x in r <==> x in xs && x != v
    ensures |r| <= |xs|
    ensures Ascending(xs) ==> Ascending(r)
  {
    if xs == [] then []
    else if xs[0] == v then Without(xs[1..], v)
    else
      var rest := Without(xs[1..], v);
      if Ascending(xs) then
        HeadBelowTail(xs);
        ConsAscending(xs[0], rest);
        [xs[0]] + rest
      else
        [xs[0]] + rest
  }

  /** The head of an ascending sequence is below everything after it, and the tail is ascending. */
  lemma HeadBelowTail(xs: seq<int>)
    requires Ascending(xs) && xs != []
    ensures Ascending(xs[1..])
    ensures forall y :: y in xs[1..] ==> xs[0] < y
  {
    forall y | y in xs[1..]
      ensures xs[0] < y
    {
      var k :| 0 <= k < |xs[1..]| && xs[1..][k] == y;
      assert xs[k + 1] == y;
    }
    forall i, j | 0 <= i < j < |xs[1..]|
      ensures xs[1..][i] < xs[1..][j]
    {
      assert xs[1..][i] == xs[i + 1] && xs[1..][j] == xs[j + 1];
    }
  }

  /** Putting an id below all others in front of an ascending sequence keeps it ascending. */
  lemma ConsAscending(x: int, rest: seq<int>)
    requires Ascending(rest)
    requires forall y :: y in rest ==> x < y
    ensures Ascending([x] + rest)
  {
    var r := [x] + rest;
    forall i, j | 0 <= i < j < |r|
      ensures r[i] < r[j]
    {
      assert r[j] == rest[j - 1];
      if i == 0 {
        assert rest[j - 1] in rest;
      } else {
        assert r[i] == rest[i - 1];
      }
    }
  }

  /** Filtering one id out of the ascending ids gives the ascending ids of the smaller set. */
  lemma SortedWithout(s: set<int>, v: int)
    ensures Without(Sorted(s), v) == Sorted(s - {v})
  {
    AscendingUnique(Without(Sorted(s), v), Sorted(s - {v}));
  }

  /** Appending an id above all others to an ascending sequence keeps it ascending. */
  lemma SnocAscending(xs: seq<int>, x: int)
    requires Ascending(xs)
    requires forall y :: y in xs ==> y < x
    ensures Ascending(xs + [x])
  {
    var r := xs + [x];
    forall i, j | 0 <= i < j < |r|
      ensures r[i] < r[j]
    {
      assert r[i] == xs[i];
      if j == |xs| {
        assert xs[i] in xs;
      } else {
        assert r[j] == xs[j];
      }
    }
  }

  /** In an ascending sequence everything before position `i` is below the entry at `i`. */
  lemma PrefixBelow(xs: seq<int>, i: int)
    requires Ascending(xs) && 0 <= i < |xs|
    ensures forall y :: y in xs[..i] ==> y < xs[i]
  {
    forall y | y in xs[..i]
      ensures y < xs[i]
    {
      var j :| 0 <= j < i && xs[..i][j] == y;
      assert xs[j] == y;
    }
  }

  /** Every entry of the ascending listing of `s` is a member of `s`. */
  lemma SortedMembers(s: set<int>)
    ensures forall k :: 0 <= k < |Sorted(s)| ==> Sorted(s)[k] in s
  {
    var xs := Sorted(s);
    forall k | 0 <= k < |xs|
      ensures xs[k] in s
    {
      assert xs[k] in xs;
    }
  }

  /** The members of the prefix of length `i + 1` are those of the prefix of length `i` and `xs[i]`. */
  lemma PrefixSnoc(xs: seq<int>, i: int)
    requires 0 <= i < |xs|
    ensures forall y :: y in xs[..i + 1] <==> y in xs[..i] || y == xs[i]
  {
    assert xs[..i + 1] == xs[..i] + [xs[i]];
  }

  /** The ids of `s` in the order a std::map with keys `s` visits them. */
  method AscendingIds(s: set<int>) returns (ks: seq<int>)
    ensures Ascending(ks)
    ensures forall x :: x in ks <==> x in s
    ensures forall k :: 0 <= k < |ks| ==> ks[k] in s
    ensures |ks| == |s|
  {
    ks := Sorted(s);
    SortedMembers(s);
  }
}
