/** Building a Python dict by inserting one item after another: an item
    that yields no key is skipped, and a later item overwrites an earlier
    one with the same key. The scripts do this four times (the airports
    dict, the timezones dict, the override lookup and the review's
    ICAO-keyed view). */
module Keyed {
  import opened Wrappers

  /** `f(x)` yields the key `k`. */
  predicate YieldsKey<K(==), V>(r: Option<(K, V)>, k: K) {
    r.Some? && r.value.0 == k
  }

  /** The dict built from `xs`, each item contributing `f(item)` if any. */
  function LastWins<T, K(==), V>(xs: seq<T>, f: T -> Option<(K, V)>): map<K, V> {
    if xs == [] then map[]
    else
      var m := LastWins(xs[..|xs| - 1], f);
      match f(xs[|xs| - 1])
      case None => m
      case Some(kv) => m[kv.0 := kv.1]
  }

  /** A key is present exactly when some item yields it. */
  lemma {:induction false} LastWinsKeys<T, K, V>(xs: seq<T>, f: T -> Option<(K, V)>, k: K)
    ensures k in LastWins(xs, f) <==> exists i :: 0 <= i < |xs| && YieldsKey(f(xs[i]), k)
  {
    if xs != [] {
      var init := xs[..|xs| - 1];
      LastWinsKeys(init, f, k);
      if exists i :: 0 <= i < |xs| && YieldsKey(f(xs[i]), k) {
        var i :| 0 <= i < |xs| && YieldsKey(f(xs[i]), k);
        if i < |init| { assert init[i] == xs[i]; }
      }
      if exists i :: 0 <= i < |init| && YieldsKey(f(init[i]), k) {
        var i :| 0 <= i < |init| && YieldsKey(f(init[i]), k);
        assert xs[i] == init[i];
      }
    }
  }

  /** The value under a key is the one the LAST item with that key yields. */
  lemma {:induction false} LastWinsValue<T, K, V>(xs: seq<T>, f: T -> Option<(K, V)>, k: K)
    requires k in LastWins(xs, f)
    ensures exists j :: 0 <= j < |xs| && f(xs[j]) == Some((k, LastWins(xs, f)[k]))
                        && forall i :: j < i < |xs| ==> !YieldsKey(f(xs[i]), k)
  {
    var init := xs[..|xs| - 1];
    var last := |xs| - 1;
    if YieldsKey(f(xs[last]), k) {
      assert f(xs[last]) == Some((k, LastWins(xs, f)[k]));
    } else {
      LastWinsValue(init, f, k);
      var j :| 0 <= j < |init| && f(init[j]) == Some((k, LastWins(init, f)[k]))
                && forall i :: j < i < |init| ==> !YieldsKey(f(init[i]), k);
      assert xs[j] == init[j];
      forall i | j < i < |xs| ensures !YieldsKey(f(xs[i]), k) {
        if i < last { assert xs[i] == init[i]; }
      }
    }
  }

  /** One more item: the dict of a longer prefix is the shorter prefix's
      dict with that item's key, if any, inserted. */
  lemma LastWinsStep<T, K, V>(xs: seq<T>, i: int, f: T -> Option<(K, V)>)
    requires 0 <= i < |xs|
    ensures f(xs[i]).None? ==> LastWins(xs[..i + 1], f) == LastWins(xs[..i], f)
    ensures f(xs[i]).Some? ==>
      LastWins(xs[..i + 1], f) == LastWins(xs[..i], f)[f(xs[i]).value.0 := f(xs[i]).value.1]
  {
    assert xs[..i + 1][..i] == xs[..i];
  }
}
