/**
 * The (sum, count) algebra of process.py: `mapper`, which pivot_table applies
 * to the values of one (asset, date, time, variable) group of a chunk, and
 * `reducer`, which the final groupby applies to the column of per-chunk pairs
 * of one (asset, unixtime) group. Floats are modelled as exact reals and the
 * round(..., 5) of the reducer is left out.
 */
module Aggregation {
  import opened Wrappers

  /** A partial accumulator: the sum and number of the non-null values seen. */
  datatype Partial = Partial(sum: real, count: nat)

  const Zero: Partial := Partial(0.0, 0)

  /** Component-wise addition, the reducer's map(sum, zip(*x)). */
  function Add(p: Partial, q: Partial): Partial {
    Partial(p.sum + q.sum, p.count + q.count)
  }

  /**
   * An output cell. Null: the reducer found no pair (it returns None); NaN: the
   * pairs add up to count 0, and numpy's 0.0 / 0 gives nan; Mean: sum / count.
   */
  datatype Cell = Null | NaN | Mean(value: real)

  /** The division of the reducer, y[0] / y[1]. */
  function Quotient(p: Partial): (c: Cell)
    ensures c.NaN? <==> p.count == 0
    ensures c.Mean? ==> c.value * (p.count as real) == p.sum
    ensures c.Mean? <==> p.count > 0
  {
    if p.count == 0 then NaN else Mean(p.sum / p.count as real)
  }

  // ---------------------------------------------------------------------------
  // mapper
  // ---------------------------------------------------------------------------

  /** The non-null values, in order (Series.dropna). */
  function Present(xs: seq<Option<real>>): seq<real> {
    if xs == [] then []
    else
      var init := Present(xs[..|xs| - 1]);
      match xs[|xs| - 1]
      case None => init
      case Some(v) => init + [v]
  }

  function Sum(xs: seq<real>): real {
    if xs == [] then 0.0 else Sum(xs[..|xs| - 1]) + xs[|xs| - 1]
  }

  /** The pair that one value contributes: nothing when it is null. */
  function Single(x: Option<real>): Partial {
    match x
    case None => Zero
    case Some(v) => Partial(v, 1)
  }

  /**
   * mapper(x) = (x.sum(), x.count()), the values of one group folded one at a
   * time; MapperSkipsNulls states what the fold computes.
   */
  function Mapper(xs: seq<Option<real>>): Partial {
    if xs == [] then Zero else Add(Mapper(xs[..|xs| - 1]), Single(xs[|xs| - 1]))
  }

  /**
   * pandas skips NaN in both sum() and count(): the mapper yields the sum and
   * the number of the non-null values only.
   */
  lemma {:induction false} MapperSkipsNulls(xs: seq<Option<real>>)
    ensures Mapper(xs) == Partial(Sum(Present(xs)), |Present(xs)|)
  {
    if xs != [] {
      var init := xs[..|xs| - 1];
      MapperSkipsNulls(init);
      var last := xs[|xs| - 1];
      if last.Some? {
        var p := Present(xs);
        assert p == Present(init) + [last.value];
        assert p[..|p| - 1] == Present(init);
      }
    }
  }

  lemma {:induction false} MapperConcat(xs: seq<Option<real>>, ys: seq<Option<real>>)
    ensures Mapper(xs + ys) == Add(Mapper(xs), Mapper(ys))
  {
    if ys == [] {
      assert xs + ys == xs;
    } else {
      var init := ys[..|ys| - 1];
      var zs := xs + ys;
      assert zs[..|zs| - 1] == xs + init;
      assert zs[|zs| - 1] == ys[|ys| - 1];
      MapperConcat(xs, init);
      assert Mapper(zs) == Add(Mapper(xs + init), Single(ys[|ys| - 1]));
    }
  }

  /** A null reading changes neither the sum nor the count, wherever it stands. */
  lemma NullChangesNothing(xs: seq<Option<real>>, ys: seq<Option<real>>)
    ensures Mapper(xs + [None] + ys) == Mapper(xs + ys)
  {
    var a := xs + [None];
    assert a[..|a| - 1] == xs && a[|a| - 1] == None;
    assert Mapper(a) == Mapper(xs);
    MapperConcat(a, ys);
    MapperConcat(xs, ys);
  }

  // ---------------------------------------------------------------------------
  // reducer
  // ---------------------------------------------------------------------------

  /** The pairs of the non-missing entries, in order (x.dropna()). */
  function DropMissing(x: seq<Option<Partial>>): seq<Partial> {
    if x == [] then []
    else
      var init := DropMissing(x[..|x| - 1]);
      match x[|x| - 1]
      case None => init
      case Some(p) => init + [p]
  }

  /** The pairs of a column without missing entries (zip(*x) succeeds). */
  function Values(x: seq<Option<Partial>>): seq<Partial>
    requires forall i | 0 <= i < |x| :: x[i].Some?
  {
    seq(|x|, i requires 0 <= i < |x| => x[i].value)
  }

  /** The component-wise sum of a list of pairs. */
  function Total(ps: seq<Partial>): Partial {
    if ps == [] then Zero else Add(Total(ps[..|ps| - 1]), ps[|ps| - 1])
  }

  predicate AnyPresent(x: seq<Option<Partial>>) {
    exists i | 0 <= i < |x| :: x[i].Some?
  }

  /**
   * reducer(x): when no entry is missing, the try branch divides the summed
   * pairs; a missing entry (NaN) makes zip raise TypeError, and the except
   * branch sums the non-missing pairs if there are any, or falls off the end
   * and returns None. A group handed to the reducer is never empty.
   */
  function Reducer(x: seq<Option<Partial>>): (c: Cell)
    requires x != []
    ensures c.Null? <==> !AnyPresent(x)
  {
    if forall i | 0 <= i < |x| :: x[i].Some? then
      assert x[0].Some?;
      Quotient(Total(Values(x)))
    else if AnyPresent(x) then
      Quotient(Total(DropMissing(x)))
    else
      Null
  }

  /** Appending one entry to a column: what it adds to the dropna and to the check for any pair. */
  lemma AppendEntry(e: seq<Option<Partial>>, x: Option<Partial>)
    ensures DropMissing(e + [x]) == if x.Some? then DropMissing(e) + [x.value] else DropMissing(e)
    ensures Total(DropMissing(e + [x])) == if x.Some? then Add(Total(DropMissing(e)), x.value) else Total(DropMissing(e))
    ensures AnyPresent(e + [x]) <==> AnyPresent(e) || x.Some?
  {
    var f := e + [x];
    assert f[..|f| - 1] == e;
    if x.Some? {
      var d := DropMissing(f);
      assert d[..|d| - 1] == DropMissing(e);
    }
    if AnyPresent(e) {
      var j :| 0 <= j < |e| && e[j].Some?;
      assert f[j] == e[j];
    }
    if AnyPresent(f) {
      var j :| 0 <= j < |f| && f[j].Some?;
      if j < |e| {
        assert e[j] == f[j];
      }
    }
  }

  lemma {:induction false} ValuesAreDropMissing(x: seq<Option<Partial>>)
    requires forall i | 0 <= i < |x| :: x[i].Some?
    ensures Values(x) == DropMissing(x)
  {
    if x != [] {
      var init := x[..|x| - 1];
      ValuesAreDropMissing(init);
      assert Values(x) == Values(init) + [x[|x| - 1].value];
    }
  }

  /**
   * Both branches of the reducer compute the same thing: the quotient of the
   * total of the non-missing pairs, or Null when every entry is missing.
   */
  lemma ReducerDropsMissing(x: seq<Option<Partial>>)
    requires x != []
    ensures Reducer(x) == if AnyPresent(x) then Quotient(Total(DropMissing(x))) else Null
  {
    if forall i | 0 <= i < |x| :: x[i].Some? {
      ValuesAreDropMissing(x);
      assert x[0].Some?;
    }
  }

  // ---------------------------------------------------------------------------
  // Accumulator maps
  // ---------------------------------------------------------------------------

  function Get<K>(m: map<K, Partial>, k: K): Partial {
    if k in m then m[k] else Zero
  }

  /** Two accumulators added key by key; a key missing from one counts as (0, 0). */
  function Merge<K>(a: map<K, Partial>, b: map<K, Partial>): map<K, Partial> {
    map k | k in a.Keys + b.Keys :: Add(Get(a, k), Get(b, k))
  }

  lemma MergeKeys<K>(a: map<K, Partial>, b: map<K, Partial>)
    ensures Merge(a, b).Keys == a.Keys + b.Keys
  {
  }

  /** The accumulators of a list of chunks merged in order. */
  function MergeAll<K>(ps: seq<map<K, Partial>>): map<K, Partial> {
    if ps == [] then map[] else Merge(MergeAll(ps[..|ps| - 1]), ps[|ps| - 1])
  }

  /** Merging does not depend on which accumulator comes first. */
  lemma MergeCommutes<K>(a: map<K, Partial>, b: map<K, Partial>)
    ensures Merge(a, b) == Merge(b, a)
  {
    var m, n := Merge(a, b), Merge(b, a);
    assert m.Keys == n.Keys;
    forall k | k in m ensures m[k] == n[k] {
    }
  }

  /** Merging does not depend on how the accumulators are grouped. */
  lemma MergeAssociates<K>(a: map<K, Partial>, b: map<K, Partial>, c: map<K, Partial>)
    ensures Merge(Merge(a, b), c) == Merge(a, Merge(b, c))
  {
    var m, n := Merge(Merge(a, b), c), Merge(a, Merge(b, c));
    assert m.Keys == n.Keys == a.Keys + b.Keys + c.Keys;
    forall k | k in m ensures m[k] == n[k] {
      AssociatesAt(a, b, c, k);
    }
  }

  lemma AssociatesAt<K>(a: map<K, Partial>, b: map<K, Partial>, c: map<K, Partial>, k: K)
    ensures Get(Merge(Merge(a, b), c), k) == Get(Merge(a, Merge(b, c)), k)
  {
    GetMerge(Merge(a, b), c, k);
    GetMerge(a, b, k);
    GetMerge(a, Merge(b, c), k);
    GetMerge(b, c, k);
    AddAssociates(Get(a, k), Get(b, k), Get(c, k));
  }

  lemma AddAssociates(p: Partial, q: Partial, r: Partial)
    ensures Add(Add(p, q), r) == Add(p, Add(q, r))
  {
  }

  /** A merged pair is the sum of the two pairs, a missing one counting as (0, 0). */
  lemma GetMerge<K>(a: map<K, Partial>, b: map<K, Partial>, k: K)
    ensures Get(Merge(a, b), k) == Add(Get(a, k), Get(b, k))
  {
  }
}
