/**
  The "keep the first entry per key" loop the matching pipeline runs twice:
  `if key not in seen: seen.add(key); out.append(x)`.
 */
module Distinct {

  /** The keys the entries of `xs` carry. */
  function Keys<T, K>(xs: seq<T>, key: T -> K): set<K> {
    set j | 0 <= j < |xs| :: key(xs[j])
  }

  /** The loop over `xs` with the keys seen so far. */
  function DedupFrom<T, K(==)>(xs: seq<T>, key: T -> K, seen: set<K>): seq<T>
    decreases |xs|
  {
    if |xs| == 0 then []
    else if key(xs[0]) in seen then DedupFrom(xs[1..], key, seen)
    else [xs[0]] + DedupFrom(xs[1..], key, seen + {key(xs[0])})
  }

  /** The loop started with nothing seen. */
  function Dedup<T, K(==)>(xs: seq<T>, key: T -> K): seq<T> {
    DedupFrom(xs, key, {})
  }

  /** Reference definition: an entry is kept when no earlier entry carries its key. */
  function KeepFirst<T, K(==)>(xs: seq<T>, key: T -> K): seq<T>
    decreases |xs|
  {
    if |xs| == 0 then []
    else
      var init := xs[..|xs| - 1];
      var last := xs[|xs| - 1];
      KeepFirst(init, key) + (if key(last) in Keys(init, key) then [] else [last])
  }

  /** Entry `i` is the first one carrying its key. */
  predicate FirstAt<T, K(==)>(xs: seq<T>, key: T -> K, i: int) {
    0 <= i < |xs| && forall j | 0 <= j < i :: key(xs[j]) != key(xs[i])
  }

  lemma KeysCons<T, K>(xs: seq<T>, key: T -> K)
    requires |xs| > 0
    ensures Keys(xs, key) == {key(xs[0])} + Keys(xs[1..], key)
  {
    forall k | k in Keys(xs, key) ensures k in {key(xs[0])} + Keys(xs[1..], key) {
      var j :| 0 <= j < |xs| && key(xs[j]) == k;
      if j > 0 {
        assert xs[1..][j - 1] == xs[j];
      }
    }
    forall k | k in Keys(xs[1..], key) ensures k in Keys(xs, key) {
      var j :| 0 <= j < |xs[1..]| && key(xs[1..][j]) == k;
      assert xs[1..][j] == xs[j + 1];
    }
  }

  lemma KeysSnoc<T, K>(xs: seq<T>, y: T, key: T -> K)
    ensures Keys(xs + [y], key) == Keys(xs, key) + {key(y)}
  {
    var ys := xs + [y];
    forall k | k in Keys(ys, key) ensures k in Keys(xs, key) + {key(y)} {
      var j :| 0 <= j < |ys| && key(ys[j]) == k;
      if j < |xs| {
        assert ys[j] == xs[j];
      }
    }
    forall k | k in Keys(xs, key) ensures k in Keys(ys, key) {
      var j :| 0 <= j < |xs| && key(xs[j]) == k;
      assert ys[j] == xs[j];
    }
    assert ys[|xs|] == y;
  }

  /** Appending one entry to the input appends it to the output exactly when its key is new. */
  lemma {:induction false} DedupFromSnoc<T, K>(xs: seq<T>, y: T, key: T -> K, seen: set<K>)
    ensures DedupFrom(xs + [y], key, seen)
      == DedupFrom(xs, key, seen) + (if key(y) in seen + Keys(xs, key) then [] else [y])
    decreases |xs|
  {
    var ys := xs + [y];
    if |xs| == 0 {
      assert ys == [y];
      assert Keys(xs, key) == {};
    } else {
      assert ys[0] == xs[0] && ys[1..] == xs[1..] + [y];
      KeysCons(xs, key);
      var k0 := key(xs[0]);
      if k0 in seen {
        DedupFromSnoc(xs[1..], y, key, seen);
      } else {
        DedupFromSnoc(xs[1..], y, key, seen + {k0});
      }
    }
  }

  /** The loop keeps exactly the entries the reference definition keeps, in the same order. */
  lemma {:induction false} DedupIsKeepFirst<T, K>(xs: seq<T>, key: T -> K)
    ensures Dedup(xs, key) == KeepFirst(xs, key)
    decreases |xs|
  {
    if |xs| > 0 {
      var init := xs[..|xs| - 1];
      var last := xs[|xs| - 1];
      assert xs == init + [last];
      DedupFromSnoc(init, last, key, {});
      DedupIsKeepFirst(init, key);
    }
  }

  /** The reference definition keeps an entry exactly when it is the first of its key. */
  lemma {:induction false} KeepFirstMembers<T, K>(xs: seq<T>, key: T -> K, x: T)
    ensures x in KeepFirst(xs, key) <==> exists i | FirstAt(xs, key, i) :: xs[i] == x
    decreases |xs|
  {
    if |xs| > 0 {
      var n := |xs| - 1;
      var init := xs[..n];
      var last := xs[n];
      KeepFirstMembers(init, key, x);
      if x in KeepFirst(xs, key) {
        if x in KeepFirst(init, key) {
          var i :| FirstAt(init, key, i) && init[i] == x;
          assert FirstAt(xs, key, i);
        } else {
          assert x == last && key(last) !in Keys(init, key);
          forall j | 0 <= j < n ensures key(xs[j]) != key(xs[n]) {
            assert key(init[j]) in Keys(init, key);
          }
          assert FirstAt(xs, key, n);
        }
      }
      if exists i | FirstAt(xs, key, i) :: xs[i] == x {
        var i :| FirstAt(xs, key, i) && xs[i] == x;
        if i < n {
          assert FirstAt(init, key, i) && init[i] == x;
        } else {
          assert key(last) !in Keys(init, key);
        }
      }
    }
  }

  /** No two kept entries carry the same key. */
  lemma {:induction false} KeepFirstDistinct<T, K>(xs: seq<T>, key: T -> K, a: nat, b: nat)
    requires a < b < |KeepFirst(xs, key)|
    ensures key(KeepFirst(xs, key)[a]) != key(KeepFirst(xs, key)[b])
    decreases |xs|
  {
    var n := |xs| - 1;
    var init := xs[..n];
    var last := xs[n];
    var front := KeepFirst(init, key);
    var r := KeepFirst(xs, key);
    assert r == front + (if key(last) in Keys(init, key) then [] else [last]);
    if b < |front| {
      KeepFirstDistinct(init, key, a, b);
    } else {
      assert r[b] == last && key(last) !in Keys(init, key);
      KeepFirstMembers(init, key, front[a]);
      var i :| FirstAt(init, key, i) && init[i] == front[a];
      assert key(init[i]) in Keys(init, key);
    }
  }

  /** The kept entries carry every key of the input. */
  lemma {:induction false} KeepFirstKeys<T, K>(xs: seq<T>, key: T -> K)
    ensures Keys(KeepFirst(xs, key), key) == Keys(xs, key)
    decreases |xs|
  {
    if |xs| > 0 {
      var n := |xs| - 1;
      var init := xs[..n];
      var last := xs[n];
      assert xs == init + [last];
      KeepFirstKeys(init, key);
      KeysSnoc(init, last, key);
      if key(last) !in Keys(init, key) {
        KeysSnoc(KeepFirst(init, key), last, key);
      } else {
        assert xs[..n] == init;
        assert KeepFirst(xs, key) == KeepFirst(init, key) + [];
        assert KeepFirst(init, key) + [] == KeepFirst(init, key);
        assert Keys(xs, key) == Keys(init, key);
      }
    }
  }
}
