/** A JavaScript record used as a counter, updated with the get-or-create
    increment `m[k] = (m[k] || 0) + 1`. The keys keep their insertion order, as
    `Object.keys` and `Object.entries` report them for non-numeric keys. */
module Tally {
  import opened Common

  datatype Tally = Tally(keys: seq<string>, counts: map<string, nat>)

  /** Every key was created by an increment, so its count is at least one, and
      the key list holds each key of the record once. */
  predicate Valid(t: Tally) {
    && NoDup(t.keys)
    && (forall k :: k in t.keys ==> k in t.counts)
    && (forall k :: k in t.counts ==> k in t.keys && t.counts[k] >= 1)
  }

  /** The empty record `{}`. */
  function Empty(): (t: Tally)
    ensures Valid(t) && t.keys == []
  {
    Tally([], map[])
  }

  /** `m[k] || 0`. */
  function Count(t: Tally, k: string): nat {
    if k in t.counts then t.counts[k] else 0
  }

  /** `m[k] = (m[k] || 0) + 1`: a missing key is created, at the end of the key order. */
  function Bump(t: Tally, k: string): (r: Tally)
    requires Valid(t)
    ensures Valid(r)
    ensures Count(r, k) == Count(t, k) + 1
    ensures forall j :: j != k ==> Count(r, j) == Count(t, j)
    ensures r.keys == if k in t.counts then t.keys else t.keys + [k]
  {
    if k in t.counts then Tally(t.keys, t.counts[k := t.counts[k] + 1])
    else Tally(t.keys + [k], t.counts[k := 1])
  }

  /** A key is present exactly when its count is positive. */
  lemma PresentIffCounted(t: Tally, k: string)
    requires Valid(t)
    ensures k in t.keys <==> Count(t, k) > 0
  {
  }

  /** The sum of the counts over a list of keys. */
  function SumOver(keys: seq<string>, t: Tally): nat {
    if keys == [] then 0 else SumOver(keys[..|keys| - 1], t) + Count(t, keys[|keys| - 1])
  }

  /** The sum of all the values of the record. */
  function Total(t: Tally): nat {
    SumOver(t.keys, t)
  }

  lemma {:induction false} SumOverUnchanged(keys: seq<string>, t: Tally, u: Tally)
    requires forall k :: k in keys ==> Count(t, k) == Count(u, k)
    ensures SumOver(keys, t) == SumOver(keys, u)
  {
    if keys != [] {
      SumOverUnchanged(keys[..|keys| - 1], t, u);
    }
  }

  lemma {:induction false} SumOverBumped(keys: seq<string>, t: Tally, k: string)
    requires Valid(t) && NoDup(keys) && k in keys
    ensures SumOver(keys, Bump(t, k)) == SumOver(keys, t) + 1
  {
    var init, last := keys[..|keys| - 1], keys[|keys| - 1];
    if last == k {
      assert k !in init;
      SumOverUnchanged(init, Bump(t, k), t);
    } else {
      SumOverBumped(init, t, k);
    }
  }

  /** Each increment adds exactly one to the sum of the record's values. */
  lemma {:induction false} BumpTotal(t: Tally, k: string)
    requires Valid(t)
    ensures Total(Bump(t, k)) == Total(t) + 1
  {
    var r := Bump(t, k);
    if k in t.counts {
      SumOverBumped(t.keys, t, k);
    } else {
      assert r.keys[..|r.keys| - 1] == t.keys;
      SumOverUnchanged(t.keys, r, t);
    }
  }

  /** Increments the count of every key of ks, in order. */
  function BumpAll(t: Tally, ks: seq<string>): (r: Tally)
    requires Valid(t)
    ensures Valid(r)
  {
    if ks == [] then t else Bump(BumpAll(t, ks[..|ks| - 1]), ks[|ks| - 1])
  }

  lemma BumpAllSnoc(t: Tally, ks: seq<string>, j: nat)
    requires Valid(t) && j < |ks|
    ensures BumpAll(t, ks[..j + 1]) == Bump(BumpAll(t, ks[..j]), ks[j])
  {
    PrefixSnoc(ks, j);
  }

  /** A key's count grows by the number of times it is listed. */
  lemma {:induction false} BumpAllCount(t: Tally, ks: seq<string>, k: string)
    requires Valid(t)
    ensures Count(BumpAll(t, ks), k) == Count(t, k) + multiset(ks)[k]
  {
    if ks != [] {
      var init := ks[..|ks| - 1];
      BumpAllCount(t, init, k);
      SplitLast(ks);
    }
  }

  /** The sum of the counts grows by the number of keys listed. */
  lemma {:induction false} BumpAllTotal(t: Tally, ks: seq<string>)
    requires Valid(t)
    ensures Total(BumpAll(t, ks)) == Total(t) + |ks|
  {
    if ks != [] {
      BumpAllTotal(t, ks[..|ks| - 1]);
      BumpTotal(BumpAll(t, ks[..|ks| - 1]), ks[|ks| - 1]);
    }
  }

  /** Incrementing for two lists is incrementing for the first, then the second. */
  lemma {:induction false} BumpAllAppend(t: Tally, xs: seq<string>, ys: seq<string>)
    requires Valid(t)
    ensures BumpAll(t, xs + ys) == BumpAll(BumpAll(t, xs), ys)
  {
    if ys == [] {
      assert xs + ys == xs;
    } else {
      BumpAllAppend(t, xs, ys[..|ys| - 1]);
      AppendInit(xs, ys);
    }
  }
}
