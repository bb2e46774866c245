/**
  Sorting items into named buckets in one pass: every bucket starts empty, and
  each item that has a bucket is appended to it.  The figure map is built this way.
 */
module Grouping {
  import opened Wrappers

  /** Every bucket an item asks for is one of `names`. */
  predicate Fits<R>(rs: seq<R>, names: seq<string>, bucket: R -> Option<string>) {
    forall i | 0 <= i < |rs| :: bucket(rs[i]).Some? ==> bucket(rs[i]).value in names
  }

  /** The buckets, all empty. */
  function Empty<E>(names: seq<string>): (m: map<string, seq<E>>)
    ensures forall n :: n in m <==> n in names
    ensures forall n | n in m :: m[n] == []
  {
    map n | n in names :: []
  }

  /** The loop over the items: `m[bucket].append(entry(item))` for each item that has a bucket. */
  function Group<R, E>(rs: seq<R>, names: seq<string>, bucket: R -> Option<string>, entry: R -> E): (m: map<string, seq<E>>)
    requires Fits(rs, names, bucket)
    ensures forall n :: n in m <==> n in names
    decreases |rs|
  {
    if |rs| == 0 then Empty(names)
    else
      var m := Group(rs[..|rs| - 1], names, bucket, entry);
      var r := rs[|rs| - 1];
      if bucket(r).Some? then m[bucket(r).value := m[bucket(r).value] + [entry(r)]] else m
  }

  /** Reference definition: the items that go to bucket `name`, in order. */
  function Members<R>(rs: seq<R>, bucket: R -> Option<string>, name: string): seq<R>
    decreases |rs|
  {
    if |rs| == 0 then []
    else (if bucket(rs[0]) == Some(name) then [rs[0]] else []) + Members(rs[1..], bucket, name)
  }

  /** The entries of a list of items. */
  function Entries<R, E>(rs: seq<R>, entry: R -> E): (es: seq<E>)
    ensures |es| == |rs| && forall k | 0 <= k < |rs| :: es[k] == entry(rs[k])
  {
    seq(|rs|, k requires 0 <= k < |rs| => entry(rs[k]))
  }

  /** The number of items that have a bucket. */
  function CountPlaced<R>(rs: seq<R>, bucket: R -> Option<string>): (n: nat)
    ensures n <= |rs|
    decreases |rs|
  {
    if |rs| == 0 then 0 else (if bucket(rs[0]).Some? then 1 else 0) + CountPlaced(rs[1..], bucket)
  }

  /** The total length of the buckets named in `names`. */
  function Total<E>(m: map<string, seq<E>>, names: seq<string>): nat
    requires forall k | 0 <= k < |names| :: names[k] in m
    decreases |names|
  {
    if |names| == 0 then 0 else |m[names[0]]| + Total(m, names[1..])
  }

  /** No name is listed twice. */
  predicate NoRepeats(names: seq<string>) {
    forall a, b | 0 <= a < b < |names| :: names[a] != names[b]
  }

  lemma {:induction false} MembersSnoc<R>(rs: seq<R>, r: R, bucket: R -> Option<string>, name: string)
    ensures Members(rs + [r], bucket, name) == Members(rs, bucket, name) + (if bucket(r) == Some(name) then [r] else [])
    decreases |rs|
  {
    if |rs| == 0 {
      assert rs + [r] == [r];
    } else {
      assert (rs + [r])[0] == rs[0] && (rs + [r])[1..] == rs[1..] + [r];
      MembersSnoc(rs[1..], r, bucket, name);
    }
  }

  lemma {:induction false} CountSnoc<R>(rs: seq<R>, r: R, bucket: R -> Option<string>)
    ensures CountPlaced(rs + [r], bucket) == CountPlaced(rs, bucket) + (if bucket(r).Some? then 1 else 0)
    decreases |rs|
  {
    if |rs| == 0 {
      assert rs + [r] == [r];
    } else {
      assert (rs + [r])[0] == rs[0] && (rs + [r])[1..] == rs[1..] + [r];
      CountSnoc(rs[1..], r, bucket);
    }
  }

  /** Appending one entry to a listed bucket adds one to the total. */
  lemma {:induction false} TotalAppend<E>(m: map<string, seq<E>>, names: seq<string>, name: string, e: E)
    requires NoRepeats(names) && name in m && forall k | 0 <= k < |names| :: names[k] in m
    ensures Total(m[name := m[name] + [e]], names) == Total(m, names) + (if name in names then 1 else 0)
    decreases |names|
  {
    if |names| > 0 {
      TotalAppend(m, names[1..], name, e);
      assert name in names <==> name == names[0] || name in names[1..];
      if name == names[0] {
        assert name !in names[1..];
      }
    }
  }

  /**
    Each bucket holds, in item order, the entries of exactly the items that ask
    for it: an item lands in at most one bucket, and one without a bucket in none.
   */
  lemma {:induction false} GroupSpec<R, E>(rs: seq<R>, names: seq<string>, bucket: R -> Option<string>, entry: R -> E, name: string)
    requires Fits(rs, names, bucket) && name in names
    ensures Group(rs, names, bucket, entry)[name] == Entries(Members(rs, bucket, name), entry)
    decreases |rs|
  {
    if |rs| > 0 {
      var init := rs[..|rs| - 1];
      var r := rs[|rs| - 1];
      assert rs == init + [r];
      GroupSpec(init, names, bucket, entry, name);
      MembersSnoc(init, r, bucket, name);
    }
  }

  /** The buckets together hold one entry per item that has a bucket. */
  lemma {:induction false} GroupCount<R, E>(rs: seq<R>, names: seq<string>, bucket: R -> Option<string>, entry: R -> E)
    requires Fits(rs, names, bucket) && NoRepeats(names)
    ensures Total(Group(rs, names, bucket, entry), names) == CountPlaced(rs, bucket)
    decreases |rs|
  {
    var m := Group(rs, names, bucket, entry);
    if |rs| == 0 {
      EmptyTotal<E>(names, names);
    } else {
      var init := rs[..|rs| - 1];
      var r := rs[|rs| - 1];
      assert rs == init + [r];
      GroupCount(init, names, bucket, entry);
      CountSnoc(init, r, bucket);
      if bucket(r).Some? {
        TotalAppend(Group(init, names, bucket, entry), names, bucket(r).value, entry(r));
      }
    }
  }

  lemma {:induction false} EmptyTotal<E>(all: seq<string>, names: seq<string>)
    requires forall k | 0 <= k < |names| :: names[k] in all
    ensures Total(Empty<E>(all), names) == 0
    decreases |names|
  {
    if |names| > 0 {
      EmptyTotal<E>(all, names[1..]);
    }
  }
}
