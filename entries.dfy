/**
 * JavaScript plain objects as the checks see them: their own (key, value) pairs in
 * the order `Object.entries` enumerates them. Keeping the order is what lets the
 * model say which failure a fail-fast loop over an object reports.
 */
module Entries {
  import opened Wrappers

  type Entries<V> = seq<(string, V)>

  /** `k in obj` */
  predicate HasKey<V>(es: Entries<V>, k: string) {
    exists i :: 0 <= i < |es| && es[i].0 == k
  }

  /** `obj[k]`, with `None` for `undefined` */
  function Lookup<V>(es: Entries<V>, k: string): (r: Option<V>)
    ensures r.Some? <==> HasKey(es, k)
    ensures r.Some? ==> exists i :: 0 <= i < |es| && es[i] == (k, r.value)
  {
    if es == [] then None
    else if es[0].0 == k then Some(es[0].1)
    else
      var r := Lookup(es[1..], k);
      if r.Some? then
        ghost var i :| 0 <= i < |es| - 1 && es[1..][i] == (k, r.value);
        assert es[i + 1] == (k, r.value);
        r
      else
        assert forall i :: 1 <= i < |es| ==> es[i] == es[1..][i - 1];
        r
  }

  /** Every item of `vs`, paired with the key `k`. */
  function Tagged<V>(k: string, vs: seq<V>): (r: seq<(string, V)>)
    ensures |r| == |vs|
    ensures forall j :: 0 <= j < |vs| ==> r[j] == (k, vs[j])
  {
    seq(|vs|, j requires 0 <= j < |vs| => (k, vs[j]))
  }

  /**
   * The (outer key, inner item) pairs of a two-level table, in the order two nested
   * `for` loops over the outer object's entries and then each inner collection visit them.
   */
  function Flatten<V>(t: Entries<seq<V>>): seq<(string, V)>
  {
    if t == [] then [] else Tagged(t[0].0, t[0].1) + Flatten(t[1..])
  }

  /** How many pairs the nested loops visit before reaching the `i`-th outer entry. */
  function Offset<V>(t: Entries<seq<V>>, i: nat): nat
    requires i <= |t|
  {
    if i == 0 then 0 else |t[0].1| + Offset(t[1..], i - 1)
  }

  lemma {:induction false} OffsetStep<V>(t: Entries<seq<V>>, i: nat)
    requires i < |t|
    ensures Offset(t, i + 1) == Offset(t, i) + |t[i].1|
  {
    if i > 0 {
      OffsetStep(t[1..], i - 1);
      assert t[1..][i - 1] == t[i];
    }
  }

  /** Past the last outer entry, every pair has been visited. */
  lemma {:induction false} OffsetEnd<V>(t: Entries<seq<V>>)
    ensures Offset(t, |t|) == |Flatten(t)|
  {
    if t != [] {
      OffsetEnd(t[1..]);
    }
  }

  /** Where the `j`-th item of the `i`-th outer entry sits among the visited pairs. */
  lemma {:induction false} FlattenAt<V>(t: Entries<seq<V>>, i: nat, j: nat)
    requires i < |t| && j < |t[i].1|
    ensures Offset(t, i) + j < |Flatten(t)|
    ensures Flatten(t)[Offset(t, i) + j] == (t[i].0, t[i].1[j])
  {
    var head := Tagged(t[0].0, t[0].1);
    assert Flatten(t) == head + Flatten(t[1..]);
    if i > 0 {
      FlattenAt(t[1..], i - 1, j);
      assert t[1..][i - 1] == t[i];
      assert Flatten(t)[Offset(t, i) + j] == Flatten(t[1..])[Offset(t[1..], i - 1) + j];
    }
  }

  /**
   * A property holds of every visited pair exactly when it holds of every item of
   * every inner collection, paired with its outer key.
   */
  lemma {:induction false} FlattenAll<V>(t: Entries<seq<V>>, good: ((string, V)) -> bool)
    ensures (forall k :: 0 <= k < |Flatten(t)| ==> good(Flatten(t)[k]))
        <==> (forall i, j :: 0 <= i < |t| && 0 <= j < |t[i].1| ==> good((t[i].0, t[i].1[j])))
  {
    if t != [] {
      FlattenAll(t[1..], good);
      var head, rest := Tagged(t[0].0, t[0].1), Flatten(t[1..]);
      var f := Flatten(t);
      assert f == head + rest;
      if forall k :: 0 <= k < |f| ==> good(f[k]) {
        forall k | 0 <= k < |rest| ensures good(rest[k]) {
          assert f[|head| + k] == rest[k];
        }
        forall i, j | 0 <= i < |t| && 0 <= j < |t[i].1|
          ensures good((t[i].0, t[i].1[j]))
        {
          if i == 0 {
            assert f[j] == (t[0].0, t[0].1[j]);
          } else {
            assert t[1..][i - 1] == t[i];
          }
        }
      }
      if forall i, j :: 0 <= i < |t| && 0 <= j < |t[i].1| ==> good((t[i].0, t[i].1[j])) {
        forall i, j | 0 <= i < |t[1..]| && 0 <= j < |t[1..][i].1|
          ensures good((t[1..][i].0, t[1..][i].1[j]))
        {
          assert t[1..][i] == t[i + 1];
        }
        FlattenAll(t[1..], good);
        assert forall k :: 0 <= k < |rest| ==> good(rest[k]);
        forall k | 0 <= k < |f| ensures good(f[k]) {
          if k < |head| {
            assert f[k] == (t[0].0, t[0].1[k]);
          } else {
            assert f[k] == rest[k - |head|];
          }
        }
      }
    }
  }
}
