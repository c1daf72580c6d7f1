/** The list combinatorics behind the reshuffling of alignments: itertools.combinations over
    positions, the slot-filling `assign`, order-preserving shuffles of several paths and the
    Cartesian product of the children's alternatives. */
module Shuffles {

  /** The concatenation of a list of lists (the `res += ...` accumulations). */
  function Concat<T>(xss: seq<seq<T>>): seq<T> {
    if xss == [] then [] else xss[0] + Concat(xss[1..])
  }

  lemma {:induction false} ConcatMember<T>(xss: seq<seq<T>>, x: T)
    ensures x in Concat(xss) <==> exists i :: 0 <= i < |xss| && x in xss[i]
  {
    if xss != [] {
      ConcatMember(xss[1..], x);
      if exists i :: 0 <= i < |xss| && x in xss[i] {
        var i :| 0 <= i < |xss| && x in xss[i];
        if i > 0 {
          assert x in xss[1..][i - 1];
        }
      }
      if x in Concat(xss[1..]) {
        var i :| 0 <= i < |xss[1..]| && x in xss[1..][i];
        assert x in xss[i + 1];
      }
    }
  }

  /** Every list of the same length m: the concatenation has n * m elements. */
  lemma {:induction false} ConcatUniform<T>(xss: seq<seq<T>>, m: nat)
    requires forall i :: 0 <= i < |xss| ==> |xss[i]| == m
    ensures |Concat(xss)| == |xss| * m
  {
    if xss != [] {
      ConcatUniform(xss[1..], m);
      assert |Concat(xss)| == m + (|xss| - 1) * m;
    }
  }

  /** The binomial coefficient, by Pascal's rule. */
  function Binom(n: nat, k: nat): nat {
    if k == 0 then 1 else if n == 0 then 0 else Binom(n - 1, k - 1) + Binom(n - 1, k)
  }

  /** itertools.combinations(range(lo, n), k): the k-element subsets of lo..n-1 as increasing
      lists, in lexicographic order. */
  function Combinations(lo: nat, n: nat, k: nat): seq<seq<nat>>
    decreases n - lo
  {
    if k == 0 then [[]]
    else if lo >= n then []
    else
      var with := Combinations(lo + 1, n, k - 1);
      seq(|with|, i requires 0 <= i < |with| => [lo] + with[i]) + Combinations(lo + 1, n, k)
  }

  /** There are exactly C(n - lo, k) combinations. */
  lemma {:induction false} CombinationsCount(lo: nat, n: nat, k: nat)
    requires lo <= n
    ensures |Combinations(lo, n, k)| == Binom(n - lo, k)
    decreases n - lo
  {
    if k > 0 && lo < n {
      CombinationsCount(lo + 1, n, k - 1);
      CombinationsCount(lo + 1, n, k);
    }
  }

  /** Strictly increasing positions. */
  predicate Increasing(c: seq<nat>) {
    forall i, j :: 0 <= i < j < |c| ==> c[i] < c[j]
  }

  /** A combination of size k over lo..n-1 as an increasing list of positions in range. */
  predicate CombinationOf(c: seq<nat>, lo: nat, n: nat, k: nat) {
    |c| == k && Increasing(c) && forall j :: 0 <= j < |c| ==> lo <= c[j] < n
  }

  /** Every combination has k strictly increasing positions in lo..n-1. */
  lemma {:induction false} CombinationsShape(lo: nat, n: nat, k: nat)
    ensures forall c :: c in Combinations(lo, n, k) ==> CombinationOf(c, lo, n, k)
    decreases n - lo
  {
    if k > 0 && lo < n {
      CombinationsShape(lo + 1, n, k - 1);
      CombinationsShape(lo + 1, n, k);
      var with := Combinations(lo + 1, n, k - 1);
      forall i | 0 <= i < |with|
        ensures CombinationOf([lo] + with[i], lo, n, k)
      {
        assert with[i] in with;
      }
    }
  }

  /** The precondition of `assign`: the insertion positions are strictly increasing and lie in
      lo..hi-1. */
  predicate Placement<T>(ins: seq<(nat, T)>, lo: nat, hi: nat) {
    && (forall j :: 0 <= j < |ins| ==> lo <= ins[j].0 < hi)
    && (forall j, k :: 0 <= j < k < |ins| ==> ins[j].0 < ins[k].0)
  }

  /** Strictly increasing positions in lo..hi-1 are at most hi - lo many. */
  lemma {:induction false} PlacementBound<T>(ins: seq<(nat, T)>, lo: nat, hi: nat)
    requires Placement(ins, lo, hi)
    ensures ins != [] ==> lo + |ins| <= hi
    decreases |ins|
  {
    if ins != [] {
      assert Placement(ins[1..], ins[0].0 + 1, hi) by {
        forall j | 0 <= j < |ins[1..]|
          ensures ins[0].0 + 1 <= ins[1..][j].0
        {
          assert ins[1..][j] == ins[j + 1];
        }
      }
      PlacementBound(ins[1..], ins[0].0 + 1, hi);
      assert lo <= ins[0].0 && |ins[1..]| == |ins| - 1;
    }
  }

  /** The list `assign` builds, slot by slot from position i: a slot named by the next insertion
      takes its element, any other slot takes the next element of `fill`. */
  function Assigned<T>(fill: seq<T>, ins: seq<(nat, T)>, i: nat): seq<T>
    requires Placement(ins, i, i + |ins| + |fill|)
    decreases |ins| + |fill|
  {
    if ins == [] && fill == [] then []
    else if ins != [] && ins[0].0 == i then [ins[0].1] + Assigned(fill, ins[1..], i + 1)
    else
      PlacementBound(ins, i + 1, i + |ins| + |fill|);
      [fill[0]] + Assigned(fill[1..], ins, i + 1)
  }

  lemma {:induction false} AssignedInsert<T>(fill: seq<T>, ins: seq<(nat, T)>, i: nat)
    requires Placement(ins, i, i + |ins| + |fill|)
    requires ins != [] && ins[0].0 == i
    ensures Placement(ins[1..], i + 1, i + 1 + |ins[1..]| + |fill|)
    ensures Assigned(fill, ins, i) == [ins[0].1] + Assigned(fill, ins[1..], i + 1)
  {
  }

  lemma {:induction false} AssignedFill<T>(fill: seq<T>, ins: seq<(nat, T)>, i: nat)
    requires Placement(ins, i, i + |ins| + |fill|)
    requires !(ins != [] && ins[0].0 == i) && (ins != [] || fill != [])
    ensures fill != [] && Placement(ins, i + 1, i + 1 + |ins| + |fill[1..]|)
    ensures Assigned(fill, ins, i) == [fill[0]] + Assigned(fill[1..], ins, i + 1)
  {
    PlacementBound(ins, i + 1, i + |ins| + |fill|);
  }

  lemma {:induction false} Regroup<T>(l: seq<T>, x: T, rest: seq<T>)
    ensures l + ([x] + rest) == (l + [x]) + rest
  {
  }

  /** execution.py `assign`: fill the |ins| + |fill| slots, consuming both lists. */
  method Assign<T>(fill: seq<T>, ins: seq<(nat, T)>) returns (l: seq<T>)
    requires Placement(ins, 0, |ins| + |fill|)
    ensures l == Assigned(fill, ins, 0)
  {
    var n := |ins| + |fill|;
    var f, s := fill, ins;
    l := [];
    var i: nat := 0;
    while i < n
      invariant i + |s| + |f| == n
      invariant Placement(s, i, n)
      invariant l + Assigned(f, s, i) == Assigned(fill, ins, 0)
      decreases n - i
    {
      if |s| > 0 && s[0].0 == i {
        AssignedInsert(f, s, i);
        Regroup(l, s[0].1, Assigned(f, s[1..], i + 1));
        l := l + [s[0].1];
        s := s[1..];
      } else {
        AssignedFill(f, s, i);
        Regroup(l, f[0], Assigned(f[1..], s, i + 1));
        l := l + [f[0]];
        f := f[1..];
      }
      i := i + 1;
    }
  }

  /** The elements carried by an insertion list. */
  function Values<T>(ins: seq<(nat, T)>): (r: seq<T>)
    ensures |r| == |ins|
  {
    seq(|ins|, j requires 0 <= j < |ins| => ins[j].1)
  }

  /** r interleaves a and b: it is made of all of a and all of b, each in its own order. */
  predicate Interleaves<T(==)>(r: seq<T>, a: seq<T>, b: seq<T>)
    decreases |r|
  {
    if r == [] then a == [] && b == []
    else
      || (a != [] && r[0] == a[0] && Interleaves(r[1..], a[1..], b))
      || (b != [] && r[0] == b[0] && Interleaves(r[1..], a, b[1..]))
  }

  /** a occurs in r as an order-preserving subsequence. */
  predicate Subseq<T(==)>(a: seq<T>, r: seq<T>)
    decreases |r|
  {
    if a == [] then true
    else if r == [] then false
    else (a[0] == r[0] && Subseq(a[1..], r[1..])) || Subseq(a, r[1..])
  }

  lemma {:induction false} SubseqRefl<T>(a: seq<T>)
    ensures Subseq(a, a)
    decreases |a|
  {
    if a != [] {
      SubseqRefl(a[1..]);
    }
  }

  lemma {:induction false} SubseqTrans<T>(a: seq<T>, b: seq<T>, c: seq<T>)
    requires Subseq(a, b) && Subseq(b, c)
    ensures Subseq(a, c)
    decreases |c|
  {
    if a != [] && c != [] {
      if Subseq(b, c[1..]) {
        SubseqTrans(a, b, c[1..]);
      } else if a[0] == b[0] && Subseq(a[1..], b[1..]) {
        SubseqTrans(a[1..], b[1..], c[1..]);
      } else {
        SubseqTrans(a, b[1..], c[1..]);
      }
    }
  }

  /** An interleaving keeps both lists as subsequences and has their joint length. */
  lemma {:induction false} InterleavesSubseq<T>(r: seq<T>, a: seq<T>, b: seq<T>)
    requires Interleaves(r, a, b)
    ensures Subseq(a, r) && Subseq(b, r) && |r| == |a| + |b|
    decreases |r|
  {
    if r != [] {
      if a != [] && r[0] == a[0] && Interleaves(r[1..], a[1..], b) {
        InterleavesSubseq(r[1..], a[1..], b);
      } else {
        InterleavesSubseq(r[1..], a, b[1..]);
      }
    }
  }

  /** Appending x to an interleaving and to one of its two lists keeps it an interleaving. */
  lemma {:induction false} InterleavesSnoc<T>(r: seq<T>, a: seq<T>, b: seq<T>, x: T)
    requires Interleaves(r, a, b)
    ensures Interleaves(r + [x], a + [x], b) && Interleaves(r + [x], a, b + [x])
    decreases |r|
  {
    if r == [] {
      assert r + [x] == [x] && a + [x] == [x] && b + [x] == [x];
      assert Interleaves([x][1..], [x][1..], b);
      assert Interleaves([x][1..], a, [x][1..]);
    } else {
      assert (r + [x])[0] == r[0] && (r + [x])[1..] == r[1..] + [x];
      if a != [] && r[0] == a[0] && Interleaves(r[1..], a[1..], b) {
        InterleavesSnoc(r[1..], a[1..], b, x);
        assert (a + [x])[0] == a[0] && (a + [x])[1..] == a[1..] + [x];
      } else {
        InterleavesSnoc(r[1..], a, b[1..], x);
        assert (b + [x])[0] == b[0] && (b + [x])[1..] == b[1..] + [x];
      }
    }
  }

  /** `assign` interleaves the inserted elements with the fill-up list. */
  lemma {:induction false} AssignedInterleaves<T>(fill: seq<T>, ins: seq<(nat, T)>, i: nat)
    requires Placement(ins, i, i + |ins| + |fill|)
    ensures Interleaves(Assigned(fill, ins, i), Values(ins), fill)
    decreases |ins| + |fill|
  {
    if ins != [] && ins[0].0 == i {
      AssignedInsert(fill, ins, i);
      AssignedInterleaves(fill, ins[1..], i + 1);
      assert Values(ins[1..]) == Values(ins)[1..];
    } else if ins != [] || fill != [] {
      AssignedFill(fill, ins, i);
      AssignedInterleaves(fill[1..], ins, i + 1);
    }
  }

  /** `assign` puts every inserted element at its recorded position. */
  lemma {:induction false} AssignedPlaces<T>(fill: seq<T>, ins: seq<(nat, T)>, i: nat)
    requires Placement(ins, i, i + |ins| + |fill|)
    ensures |Assigned(fill, ins, i)| == |ins| + |fill|
    ensures forall j :: 0 <= j < |ins| ==> Assigned(fill, ins, i)[ins[j].0 - i] == ins[j].1
    decreases |ins| + |fill|
  {
    if ins != [] && ins[0].0 == i {
      AssignedInsert(fill, ins, i);
      AssignedPlaces(fill, ins[1..], i + 1);
      var r := Assigned(fill, ins, i);
      forall j | 0 <= j < |ins|
        ensures r[ins[j].0 - i] == ins[j].1
      {
        if j > 0 {
          assert ins[1..][j - 1] == ins[j];
        }
      }
    } else if ins != [] || fill != [] {
      AssignedFill(fill, ins, i);
      AssignedPlaces(fill[1..], ins, i + 1);
      var r := Assigned(fill, ins, i);
      forall j | 0 <= j < |ins|
        ensures r[ins[j].0 - i] == ins[j].1
      {
        assert r[ins[j].0 - i] == Assigned(fill[1..], ins, i + 1)[ins[j].0 - (i + 1)];
      }
    }
  }

  /** The elements of r at the slots that are not insertion positions, in order. */
  function Unplaced<T>(r: seq<T>, positions: set<nat>, i: nat): seq<T>
    decreases |r|
  {
    if r == [] then []
    else (if i in positions then [] else [r[0]]) + Unplaced(r[1..], positions, i + 1)
  }

  function Positions<T>(ins: seq<(nat, T)>): set<nat> {
    set j | 0 <= j < |ins| :: ins[j].0
  }

  /** The slots `assign` does not insert into hold the fill-up list in its order. */
  lemma {:induction false} AssignedFillOrder<T>(fill: seq<T>, ins: seq<(nat, T)>, i: nat)
    requires Placement(ins, i, i + |ins| + |fill|)
    ensures Unplaced(Assigned(fill, ins, i), Positions(ins), i) == fill
    decreases |ins| + |fill|
  {
    if ins != [] && ins[0].0 == i {
      AssignedInsert(fill, ins, i);
      AssignedFillOrder(fill, ins[1..], i + 1);
      UnplacedIgnoresBelow(Assigned(fill, ins[1..], i + 1), Positions(ins), Positions(ins[1..]), i + 1);
      assert i in Positions(ins);
    } else if ins != [] || fill != [] {
      AssignedFill(fill, ins, i);
      AssignedFillOrder(fill[1..], ins, i + 1);
      assert i !in Positions(ins);
    }
  }

  /** Only the positions from i on matter to Unplaced. */
  lemma {:induction false} UnplacedIgnoresBelow<T>(r: seq<T>, p: set<nat>, q: set<nat>, i: nat)
    requires forall x :: x >= i ==> (x in p <==> x in q)
    ensures Unplaced(r, p, i) == Unplaced(r, q, i)
    decreases |r|
  {
    if r != [] {
      UnplacedIgnoresBelow(r[1..], p, q, i + 1);
    }
  }

  /** Pairs positions with elements (zip). */
  function Zip<T>(c: seq<nat>, xs: seq<T>): (r: seq<(nat, T)>)
    requires |c| == |xs|
    ensures |r| == |c|
  {
    seq(|c|, j requires 0 <= j < |c| => (c[j], xs[j]))
  }

  lemma {:induction false} ZipPlacement<T>(c: seq<nat>, xs: seq<T>, n: nat)
    requires CombinationOf(c, 0, n, |xs|)
    ensures Placement(Zip(c, xs), 0, n) && Values(Zip(c, xs)) == xs
  {
  }

  /** The shuffles of two paths: one per choice of positions for p0, p1 filling the rest. */
  function Shuffles2<T>(p0: seq<T>, p1: seq<T>): seq<seq<T>> {
    var n := |p0| + |p1|;
    var combs := Combinations(0, n, |p0|);
    CombinationsShape(0, n, |p0|);
    seq(|combs|, i requires 0 <= i < |combs| =>
      assert combs[i] in combs;
      ZipPlacement(combs[i], p0, n);
      Assigned(p1, Zip(combs[i], p0), 0))
  }

  /** There are C(|p0|+|p1|, |p0|) shuffles of two paths, each an interleaving of both. */
  lemma {:induction false} Shuffles2Spec<T>(p0: seq<T>, p1: seq<T>)
    ensures |Shuffles2(p0, p1)| == Binom(|p0| + |p1|, |p0|)
    ensures forall r :: r in Shuffles2(p0, p1) ==> Interleaves(r, p0, p1)
  {
    var n := |p0| + |p1|;
    var combs := Combinations(0, n, |p0|);
    CombinationsCount(0, n, |p0|);
    CombinationsShape(0, n, |p0|);
    var s := Shuffles2(p0, p1);
    forall i | 0 <= i < |s|
      ensures Interleaves(s[i], p0, p1)
    {
      assert combs[i] in combs;
      ZipPlacement(combs[i], p0, n);
      AssignedInterleaves(p1, Zip(combs[i], p0), 0);
    }
  }

  /** The total length of a list of paths. */
  function TotalLength<T>(paths: seq<seq<T>>): nat {
    if paths == [] then 0 else |paths[0]| + TotalLength(paths[1..])
  }

  /** all_order_preserving_shuffles: shuffle the first two paths, then shuffle each result with
      the remaining paths. */
  function AllOrderPreservingShuffles<T>(paths: seq<seq<T>>): seq<seq<T>>
    requires |paths| >= 2
    decreases |paths|
  {
    var inter := Shuffles2(paths[0], paths[1]);
    if |paths| == 2 then inter
    else Concat(seq(|inter|, i requires 0 <= i < |inter| => AllOrderPreservingShuffles([inter[i]] + paths[2..])))
  }

  lemma {:induction false} TotalLengthSplit<T>(paths: seq<seq<T>>)
    requires |paths| >= 2
    ensures TotalLength(paths) == |paths[0]| + |paths[1]| + TotalLength(paths[2..])
  {
    assert paths[1..][1..] == paths[2..];
  }

  /** Every shuffle of several paths keeps each of them as an order-preserving subsequence and
      is exactly as long as all of them together. */
  lemma {:induction false} AllShufflesContain<T>(paths: seq<seq<T>>, r: seq<T>)
    requires |paths| >= 2 && r in AllOrderPreservingShuffles(paths)
    ensures |r| == TotalLength(paths)
    ensures forall k :: 0 <= k < |paths| ==> Subseq(paths[k], r)
    decreases |paths|
  {
    TotalLengthSplit(paths);
    var inter := Shuffles2(paths[0], paths[1]);
    Shuffles2Spec(paths[0], paths[1]);
    if |paths| == 2 {
      InterleavesSubseq(r, paths[0], paths[1]);
    } else {
      var parts := seq(|inter|, i requires 0 <= i < |inter| => AllOrderPreservingShuffles([inter[i]] + paths[2..]));
      ConcatMember(parts, r);
      var i :| 0 <= i < |parts| && r in parts[i];
      assert inter[i] in inter;
      InterleavesSubseq(inter[i], paths[0], paths[1]);
      AllShufflesContainStep(paths, inter[i], r);
    }
  }

  /** The recursive case: r is a shuffle of [mid] + paths[2..] and mid interleaves the first two. */
  lemma {:induction false} AllShufflesContainStep<T>(paths: seq<seq<T>>, mid: seq<T>, r: seq<T>)
    requires |paths| > 2 && r in AllOrderPreservingShuffles([mid] + paths[2..])
    requires Subseq(paths[0], mid) && Subseq(paths[1], mid) && |mid| == |paths[0]| + |paths[1]|
    requires TotalLength(paths) == |paths[0]| + |paths[1]| + TotalLength(paths[2..])
    ensures |r| == TotalLength(paths)
    ensures forall k :: 0 <= k < |paths| ==> Subseq(paths[k], r)
    decreases |paths|, 0
  {
    var rest := [mid] + paths[2..];
    AllShufflesContain(rest, r);
    assert rest[1..] == paths[2..];
    assert rest[0] == mid;
    forall k | 0 <= k < |paths|
      ensures Subseq(paths[k], r)
    {
      if k < 2 {
        SubseqTrans(paths[k], mid, r);
      } else {
        assert paths[k] == rest[k - 1];
      }
    }
  }

  /** A path-like element drawn from each component lies in the product list. */
  predicate Pick<T(==)>(t: seq<T>, xs: seq<seq<T>>) {
    |t| == |xs| && forall k :: 0 <= k < |t| ==> t[k] in xs[k]
  }

  /** itertools.product, first factor varying slowest. */
  function Product<T>(xs: seq<seq<T>>): seq<seq<T>>
    decreases |xs|
  {
    if xs == [] then [[]]
    else
      var rest := Product(xs[1..]);
      Concat(seq(|xs[0]|, i requires 0 <= i < |xs[0]| =>
        seq(|rest|, j requires 0 <= j < |rest| => [xs[0][i]] + rest[j])))
  }

  /** The product size is the product of the component sizes. */
  function SizeProduct<T>(xs: seq<seq<T>>): nat {
    if xs == [] then 1 else |xs[0]| * SizeProduct(xs[1..])
  }

  lemma {:induction false} ProductCount<T>(xs: seq<seq<T>>)
    ensures |Product(xs)| == SizeProduct(xs)
    decreases |xs|
  {
    if xs != [] {
      var rest := Product(xs[1..]);
      ProductCount(xs[1..]);
      var parts := seq(|xs[0]|, i requires 0 <= i < |xs[0]| =>
        seq(|rest|, j requires 0 <= j < |rest| => [xs[0][i]] + rest[j]));
      ConcatUniform(parts, |rest|);
    }
  }

  /** A tuple is in the product exactly when it picks one element of every component. */
  lemma {:induction false} ProductMember<T>(xs: seq<seq<T>>, t: seq<T>)
    ensures t in Product(xs) <==> Pick(t, xs)
    decreases |xs|
  {
    if xs == [] {
    } else {
      var rest := Product(xs[1..]);
      var parts := seq(|xs[0]|, i requires 0 <= i < |xs[0]| =>
        seq(|rest|, j requires 0 <= j < |rest| => [xs[0][i]] + rest[j]));
      ConcatMember(parts, t);
      if t in Product(xs) {
        var i :| 0 <= i < |parts| && t in parts[i];
        var j :| 0 <= j < |rest| && t == [xs[0][i]] + rest[j];
        ProductMember(xs[1..], rest[j]);
        assert t[1..] == rest[j];
        forall k | 0 <= k < |t|
          ensures t[k] in xs[k]
        {
          if k > 0 {
            assert t[k] == rest[j][k - 1];
          }
        }
      }
      if Pick(t, xs) {
        ProductMember(xs[1..], t[1..]);
        assert Pick(t[1..], xs[1..]) by {
          forall k | 0 <= k < |t[1..]|
            ensures t[1..][k] in xs[1..][k]
          {
            assert t[k + 1] in xs[k + 1];
          }
        }
        var j :| 0 <= j < |rest| && rest[j] == t[1..];
        var i :| 0 <= i < |xs[0]| && xs[0][i] == t[0];
        assert t == [xs[0][i]] + rest[j];
        assert parts[i][j] == t;
      }
    }
  }
}
