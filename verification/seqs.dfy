/** Sequence combinators shared by the list-building parts of the pipeline. */
module Seqs {
  /** The lists `f` makes of the elements of `xs`, laid end to end. */
  function FlatMap<A, B>(xs: seq<A>, f: A -> seq<B>): seq<B> {
    if |xs| == 0 then [] else f(xs[0]) + FlatMap(xs[1..], f)
  }

  lemma {:induction false} FlatMapAppend<A, B>(a: seq<A>, b: seq<A>, f: A -> seq<B>)
    ensures FlatMap(a + b, f) == FlatMap(a, f) + FlatMap(b, f)
    decreases |a|
  {
    if |a| > 0 {
      assert (a + b)[0] == a[0];
      assert (a + b)[1..] == a[1..] + b;
      FlatMapAppend(a[1..], b, f);
    } else {
      assert a + b == b;
    }
  }

  /** The laid-out list is the groups before `i`, then group `i`, then the groups after it. */
  lemma FlatMapAt<A, B>(xs: seq<A>, i: nat, f: A -> seq<B>)
    requires i < |xs|
    ensures FlatMap(xs, f) == FlatMap(xs[..i], f) + f(xs[i]) + FlatMap(xs[i + 1..], f)
  {
    var pre, rest := xs[..i], xs[i..];
    assert xs == pre + rest;
    FlatMapAppend(pre, rest, f);
    assert FlatMap(rest, f) == f(xs[i]) + FlatMap(xs[i + 1..], f) by {
      assert rest[0] == xs[i] && rest[1..] == xs[i + 1..];
    }
  }

  /** Group `i` starts right after the groups before it. */
  lemma FlatMapLayout<A, B>(xs: seq<A>, i: nat, f: A -> seq<B>)
    requires i < |xs|
    ensures var o := |FlatMap(xs[..i], f)|;
      && o + |f(xs[i])| <= |FlatMap(xs, f)|
      && FlatMap(xs, f)[o..o + |f(xs[i])|] == f(xs[i])
  {
    FlatMapAt(xs, i, f);
  }

  /** Every entry of the laid-out list comes from the group of one element. */
  lemma {:induction false} FlatMapMembers<A, B>(xs: seq<A>, f: A -> seq<B>, y: B)
    requires y in FlatMap(xs, f)
    ensures exists i | 0 <= i < |xs| :: y in f(xs[i])
    decreases |xs|
  {
    if y !in f(xs[0]) {
      FlatMapMembers(xs[1..], f, y);
      var i :| 0 <= i < |xs[1..]| && y in f(xs[1..][i]);
      assert xs[1..][i] == xs[i + 1];
    }
  }

  /** A slice of a slice is a slice of the original. */
  lemma SliceOfSlice<T>(s: seq<T>, a: nat, b: nat, q: nat, n: nat)
    requires a <= b <= |s| && q + n <= b - a
    ensures s[a..b][q..q + n] == s[a + q..a + q + n]
  {
    var u := s[a..b];
    var v := u[q..q + n];
    var w := s[a + q..a + q + n];
    forall k | 0 <= k < n ensures v[k] == w[k] {
      assert v[k] == u[q + k] == s[a + q + k] == w[k];
    }
  }

  /** How `[x] + ys` reads: `x` first, then `ys` shifted by one. */
  lemma ConsShape<T>(x: T, ys: seq<T>)
    ensures |[x] + ys| == 1 + |ys| && ([x] + ys)[0] == x
    ensures forall k | 0 <= k < |ys| :: ([x] + ys)[1 + k] == ys[k]
  {
  }

  /** How the part of `a + b` around the seam reads. */
  lemma AppendSeam<T>(a: seq<T>, b: seq<T>, l: nat)
    requires l <= |b|
    ensures (a + b)[|a|..|a| + l] == b[..l]
    ensures l < |b| ==> (a + b)[|a| + l] == b[l]
    ensures |a| > 0 ==> (a + b)[|a| - 1] == a[|a| - 1]
  {
    assert (a + b)[|a|..] == b;
    SliceOfSlice(a + b, |a|, |a + b|, 0, l);
  }

  /** Every entry of the group of an element is in the laid-out list. */
  lemma FlatMapIntro<A, B>(xs: seq<A>, f: A -> seq<B>, i: nat, y: B)
    requires i < |xs| && y in f(xs[i])
    ensures y in FlatMap(xs, f)
  {
    FlatMapAt(xs, i, f);
  }

  /** The lists `f` makes of each element of `xs` and its position counted from `base`, laid end to end. */
  function FlatMapIndexed<A, B>(xs: seq<A>, base: nat, f: (A, nat) -> seq<B>): seq<B>
    decreases |xs|
  {
    if |xs| == 0 then [] else f(xs[0], base) + FlatMapIndexed(xs[1..], base + 1, f)
  }

  /**
    When every entry `f` makes records the position it was made for, the laid-out
    list holds exactly the entries of the group of the position they record.
   */
  lemma {:induction false} FlatMapIndexedMembers<A, B>(xs: seq<A>, base: nat, f: (A, nat) -> seq<B>, key: B -> int, y: B)
    requires forall x, j, z | z in f(x, j) :: key(z) == j
    ensures y in FlatMapIndexed(xs, base, f) <==> base <= key(y) < base + |xs| && y in f(xs[key(y) - base], key(y) as nat)
    decreases |xs|
  {
    if |xs| > 0 {
      FlatMapIndexedMembers(xs[1..], base + 1, f, key, y);
      if base < key(y) < base + |xs| {
        assert xs[1..][key(y) - (base + 1)] == xs[key(y) - base];
      }
    }
  }

  /** An entry of the laid-out list comes from the group made for some position. */
  lemma {:induction false} FlatMapIndexedElim<A, B>(xs: seq<A>, base: nat, f: (A, nat) -> seq<B>, y: B) returns (i: nat)
    requires y in FlatMapIndexed(xs, base, f)
    ensures base <= i < base + |xs| && y in f(xs[i - base], i)
    decreases |xs|
  {
    if y in f(xs[0], base) {
      i := base;
    } else {
      i := FlatMapIndexedElim(xs[1..], base + 1, f, y);
      assert xs[1..][i - (base + 1)] == xs[i - base];
    }
  }

  /** An entry of the group made for position `i` is in the laid-out list. */
  lemma {:induction false} FlatMapIndexedIntro<A, B>(xs: seq<A>, base: nat, f: (A, nat) -> seq<B>, i: nat, y: B)
    requires base <= i < base + |xs| && y in f(xs[i - base], i)
    ensures y in FlatMapIndexed(xs, base, f)
    decreases |xs|
  {
    if i > base {
      assert xs[1..][i - (base + 1)] == xs[i - base];
      FlatMapIndexedIntro(xs[1..], base + 1, f, i, y);
    }
  }

  /** When every element records the position it was made for, it is in the list exactly when that position yields it. */
  lemma FlatMapIndexedKeyed<A, B>(xs: seq<A>, base: nat, f: (A, nat) -> seq<B>, key: B -> int, y: B)
    requires forall x, j, z | z in f(x, j) :: key(z) == j
    ensures y in FlatMapIndexed(xs, base, f) <==> base <= key(y) < base + |xs| && y in f(xs[key(y) - base], key(y) as nat)
  {
    if y in FlatMapIndexed(xs, base, f) {
      var i := FlatMapIndexedElim(xs, base, f, y);
    } else if base <= key(y) < base + |xs| && y in f(xs[key(y) - base], key(y) as nat) {
      FlatMapIndexedIntro(xs, base, f, key(y) as nat, y);
    }
  }

  /** ... and it lists them in the order of the positions they record. */
  lemma {:induction false} FlatMapIndexedOrdered<A, B>(xs: seq<A>, base: nat, f: (A, nat) -> seq<B>, key: B -> int, a: nat, b: nat)
    requires forall x, j, z | z in f(x, j) :: key(z) == j
    requires a < b < |FlatMapIndexed(xs, base, f)|
    ensures key(FlatMapIndexed(xs, base, f)[a]) <= key(FlatMapIndexed(xs, base, f)[b])
    decreases |xs|
  {
    var head := f(xs[0], base);
    var tail := FlatMapIndexed(xs[1..], base + 1, f);
    assert FlatMapIndexed(xs, base, f) == head + tail;
    if a < |head| && |head| <= b {
      assert tail[b - |head|] in tail;
      FlatMapIndexedMembers(xs[1..], base + 1, f, key, tail[b - |head|]);
    } else if |head| <= a {
      FlatMapIndexedOrdered(xs[1..], base + 1, f, key, a - |head|, b - |head|);
    }
  }

  /** The laid-out list is the groups for the positions before `i`, then the group for `i`, then the groups after it. */
  lemma {:induction false} FlatMapIndexedAt<A, B>(xs: seq<A>, base: nat, f: (A, nat) -> seq<B>, i: nat)
    requires i < |xs|
    ensures FlatMapIndexed(xs, base, f)
      == FlatMapIndexed(xs[..i], base, f) + f(xs[i], base + i) + FlatMapIndexed(xs[i + 1..], base + i + 1, f)
    decreases i
  {
    if i == 0 {
      assert xs[..0] == [];
    } else {
      FlatMapIndexedAt(xs[1..], base + 1, f, i - 1);
      assert xs[1..][i - 1] == xs[i] && xs[1..][i..] == xs[i + 1..];
      assert xs[..i][0] == xs[0] && xs[..i][1..] == xs[1..][..i - 1];
    }
  }

  /**
    When every entry records the position it was made for and every group is ordered
    by `rank`, entries of the laid-out list that record the same position keep that order.
   */
  lemma {:induction false} FlatMapIndexedRanked<A, B>(xs: seq<A>, base: nat, f: (A, nat) -> seq<B>, key: B -> int, rank: B -> int, a: nat, b: nat)
    requires forall x, j, z | z in f(x, j) :: key(z) == j
    requires forall x, j, p, q | 0 <= p < q < |f(x, j)| :: rank(f(x, j)[p]) <= rank(f(x, j)[q])
    requires a < b < |FlatMapIndexed(xs, base, f)|
    requires key(FlatMapIndexed(xs, base, f)[a]) == key(FlatMapIndexed(xs, base, f)[b])
    ensures rank(FlatMapIndexed(xs, base, f)[a]) <= rank(FlatMapIndexed(xs, base, f)[b])
    decreases |xs|
  {
    var head := f(xs[0], base);
    var tail := FlatMapIndexed(xs[1..], base + 1, f);
    assert FlatMapIndexed(xs, base, f) == head + tail;
    if b < |head| {
      assert rank(head[a]) <= rank(head[b]);
    } else if |head| <= a {
      FlatMapIndexedRanked(xs[1..], base + 1, f, key, rank, a - |head|, b - |head|);
    } else {
      assert head[a] in head;
      assert tail[b - |head|] in tail;
      FlatMapIndexedMembers(xs[1..], base + 1, f, key, tail[b - |head|]);
      assert false;
    }
  }

  /** A subset is no larger than its superset, and only as large when the two are equal. */
  lemma {:induction false} SubsetCard<T>(a: set<T>, b: set<T>)
    requires a <= b
    ensures |a| <= |b|
    ensures |a| == |b| ==> a == b
    decreases |b|
  {
    if b != {} {
      var x :| x in b;
      SubsetCard(a - {x}, b - {x});
      if x in a {
        assert |a - {x}| == |a| - 1;
        assert a == (a - {x}) + {x} && b == (b - {x}) + {x};
      } else {
        assert a - {x} == a;
      }
    }
  }

  /** An entry is in the laid-out list exactly when it is in the group of some element. */
  lemma FlatMapMembersIff<A, B>(xs: seq<A>, f: A -> seq<B>, y: B)
    ensures y in FlatMap(xs, f) <==> exists i | 0 <= i < |xs| :: y in f(xs[i])
  {
    if y in FlatMap(xs, f) {
      FlatMapMembers(xs, f, y);
    }
    if i :| 0 <= i < |xs| && y in f(xs[i]) {
      FlatMapIntro(xs, f, i, y);
    }
  }
}
