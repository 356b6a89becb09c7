/** The insertion-ordered mapping that a Python `dict` is, as a sequence of
    key/value entries. A real dict never holds a key twice (`DistinctKeys`);
    writing an existing key keeps its position, writing a new key appends it,
    and deleting a key closes the gap. Keys are attribute names, so strings. */
module OrderedDict {
  import opened Wrappers

  type Entries<V> = seq<(string, V)>

  /** The keys of `es`, in iteration order. */
  function KeysOf<V>(es: Entries<V>): (ks: seq<string>)
    ensures |ks| == |es|
    ensures forall i :: 0 <= i < |es| ==> ks[i] == es[i].0
  {
    seq(|es|, i requires 0 <= i < |es| => es[i].0)
  }

  predicate NoDuplicates(ks: seq<string>) {
    forall i, j :: 0 <= i < j < |ks| ==> ks[i] != ks[j]
  }

  predicate DistinctKeys<V>(es: Entries<V>) {
    NoDuplicates(KeysOf(es))
  }

  /** The value of the first entry whose key is `k`, as `dict.get` finds it. */
  function Lookup<V>(es: Entries<V>, k: string): (r: Option<V>)
    ensures r.None? <==> k !in KeysOf(es)
    ensures r.Some? ==> (k, r.value) in es
  {
    if es == [] then None
    else if es[0].0 == k then Some(es[0].1)
    else
      assert KeysOf(es) == [es[0].0] + KeysOf(es[1..]);
      Lookup(es[1..], k)
  }

  lemma KeysOfCons<V>(e: (string, V), es: Entries<V>)
    ensures KeysOf([e] + es) == [e.0] + KeysOf(es)
  {
  }

  lemma NoDuplicatesCons(x: string, ks: seq<string>)
    ensures NoDuplicates([x] + ks) <==> x !in ks && NoDuplicates(ks)
  {
    var xs := [x] + ks;
    if x !in ks && NoDuplicates(ks) {
      forall i, j | 0 <= i < j < |xs| ensures xs[i] != xs[j] {
        if i > 0 { assert xs[i] == ks[i - 1] && xs[j] == ks[j - 1]; }
        else { assert xs[j] == ks[j - 1]; }
      }
    }
    if NoDuplicates(xs) {
      forall i | 0 <= i < |ks| ensures ks[i] != x {
        assert xs[0] != xs[i + 1];
      }
      forall i, j | 0 <= i < j < |ks| ensures ks[i] != ks[j] {
        assert xs[i + 1] != xs[j + 1];
      }
    }
  }

  /** With distinct keys, the value `Lookup` finds is the one at the key's
      position. */
  lemma {:induction false} LookupAt<V>(es: Entries<V>, i: nat)
    requires DistinctKeys(es) && i < |es|
    ensures Lookup(es, es[i].0) == Some(es[i].1)
  {
    if i > 0 {
      DistinctKeysTail(es);
      assert KeysOf(es)[0] != KeysOf(es)[i];
      assert es[1..][i - 1] == es[i];
      LookupAt(es[1..], i - 1);
    }
  }

  /** The entries after the first of a dict form a dict without its key. */
  lemma DistinctKeysTail<V>(es: Entries<V>)
    requires DistinctKeys(es) && es != []
    ensures DistinctKeys(es[1..]) && es[0].0 !in KeysOf(es[1..])
  {
    var ks, ts := KeysOf(es), KeysOf(es[1..]);
    forall i, j | 0 <= i < j < |ts| ensures ts[i] != ts[j] {
      assert ts[i] == ks[i + 1] && ts[j] == ks[j + 1];
    }
    forall i | 0 <= i < |ts| ensures ts[i] != es[0].0 {
      assert ts[i] == ks[i + 1] && es[0].0 == ks[0];
    }
  }

  /** `ks` with every occurrence of `k` taken out, the rest in order. */
  function Without(ks: seq<string>, k: string): (r: seq<string>)
    ensures forall x :: x in r <==> x in ks && x != k
    ensures NoDuplicates(ks) ==> NoDuplicates(r)
  {
    if ks == [] then []
    else
      NoDuplicatesCons(ks[0], ks[1..]);
      assert ks == [ks[0]] + ks[1..];
      if ks[0] == k then Without(ks[1..], k)
      else
        NoDuplicatesCons(ks[0], Without(ks[1..], k));
        [ks[0]] + Without(ks[1..], k)
  }

  /** `d[k] = v`: an existing key keeps its place and takes the new value,
      a new key goes to the end. */
  function Store<V>(es: Entries<V>, k: string, v: V): (r: Entries<V>)
    ensures KeysOf(r) == if k in KeysOf(es) then KeysOf(es) else KeysOf(es) + [k]
  {
    if es == [] then [(k, v)]
    else if es[0].0 == k then [(k, v)] + es[1..]
    else
      KeysOfCons(es[0], es[1..]);
      assert es == [es[0]] + es[1..];
      var rest := Store(es[1..], k, v);
      KeysOfCons(es[0], rest);
      [es[0]] + rest
  }

  /** `del d[k]`: the entry goes, the others keep their order and values. */
  function Remove<V>(es: Entries<V>, k: string): (r: Entries<V>)
    ensures KeysOf(r) == Without(KeysOf(es), k)
  {
    if es == [] then []
    else
      KeysOfCons(es[0], es[1..]);
      assert es == [es[0]] + es[1..];
      var rest := Remove(es[1..], k);
      if es[0].0 == k then rest
      else
        KeysOfCons(es[0], rest);
        [es[0]] + rest
  }

  /** After a store the key reads back the stored value and every other key
      reads as before. */
  lemma {:induction false} StoreLookup<V>(es: Entries<V>, k: string, v: V, j: string)
    ensures Lookup(Store(es, k, v), k) == Some(v)
    ensures j != k ==> Lookup(Store(es, k, v), j) == Lookup(es, j)
  {
    if es != [] && es[0].0 != k {
      assert Store(es, k, v)[1..] == Store(es[1..], k, v);
      StoreLookup(es[1..], k, v, j);
    }
  }

  /** A store keeps the keys of a dict distinct. */
  lemma StoreDistinct<V>(es: Entries<V>, k: string, v: V)
    requires DistinctKeys(es)
    ensures DistinctKeys(Store(es, k, v))
  {
    if k !in KeysOf(es) { NoDuplicatesAppend(KeysOf(es), k); }
  }

  /** After a removal the key is gone and every other key reads as before. */
  lemma {:induction false} RemoveLookup<V>(es: Entries<V>, k: string, j: string)
    ensures Lookup(Remove(es, k), k) == None
    ensures j != k ==> Lookup(Remove(es, k), j) == Lookup(es, j)
  {
    if es != [] {
      RemoveLookup(es[1..], k, j);
      if es[0].0 != k {
        assert Remove(es, k)[1..] == Remove(es[1..], k);
      }
    }
  }

  /** `dict(pairs)`: the pairs are written in order, so a repeated key keeps
      its first position and its last value. */
  function FromPairs<V>(pairs: seq<(string, V)>): (r: Entries<V>)
    ensures DistinctKeys(r)
    ensures forall k :: k in KeysOf(r) <==> k in KeysOf(pairs)
  {
    if pairs == [] then []
    else
      var last := pairs[|pairs| - 1];
      assert KeysOf(pairs) == KeysOf(pairs[..|pairs| - 1]) + [last.0];
      Store(FromPairs(pairs[..|pairs| - 1]), last.0, last.1)
  }

  /** The value the last pair for `k` carries, read from the end. */
  function LastFor<V>(pairs: seq<(string, V)>, k: string): (r: Option<V>)
    ensures r.None? <==> k !in KeysOf(pairs)
  {
    if pairs == [] then None
    else
      var n := |pairs| - 1;
      assert KeysOf(pairs) == KeysOf(pairs[..n]) + [pairs[n].0];
      if pairs[n].0 == k then Some(pairs[n].1) else LastFor(pairs[..n], k)
  }

  /** The keys of `ks` in the order they first appear, each once. */
  function FirstOccurrences(ks: seq<string>): (r: seq<string>)
    ensures forall x :: x in r <==> x in ks
  {
    if ks == [] then [] else [ks[0]] + Without(FirstOccurrences(ks[1..]), ks[0])
  }

  lemma {:induction false} WithoutSnoc(ks: seq<string>, x: string, k: string)
    ensures Without(ks + [x], k) == if x == k then Without(ks, k) else Without(ks, k) + [x]
  {
    if ks != [] {
      assert (ks + [x])[1..] == ks[1..] + [x];
      WithoutSnoc(ks[1..], x, k);
    }
  }

  lemma {:induction false} FirstOccurrencesSnoc(ks: seq<string>, x: string)
    ensures FirstOccurrences(ks + [x]) ==
              if x in ks then FirstOccurrences(ks) else FirstOccurrences(ks) + [x]
  {
    if ks != [] {
      assert (ks + [x])[1..] == ks[1..] + [x];
      assert x in ks <==> x == ks[0] || x in ks[1..] by { assert ks == [ks[0]] + ks[1..]; }
      FirstOccurrencesSnoc(ks[1..], x);
      if x in ks[1..] {
      } else {
        WithoutSnoc(FirstOccurrences(ks[1..]), x, ks[0]);
      }
    }
  }

  /** `dict(pairs)` holds each key of `pairs` once, in order of first
      appearance, with the value of its last pair. */
  lemma {:induction false} FromPairsSpec<V>(pairs: seq<(string, V)>, k: string)
    ensures KeysOf(FromPairs(pairs)) == FirstOccurrences(KeysOf(pairs))
    ensures Lookup(FromPairs(pairs), k) == LastFor(pairs, k)
  {
    if pairs != [] {
      var n := |pairs| - 1;
      var init := pairs[..n];
      assert KeysOf(pairs) == KeysOf(init) + [pairs[n].0];
      FromPairsSpec(init, k);
      FirstOccurrencesSnoc(KeysOf(init), pairs[n].0);
      StoreLookup(FromPairs(init), pairs[n].0, pairs[n].1, k);
    }
  }

  /** Copying a real dict, `dict(d)`, gives back the same entries in the same
      order. */
  lemma {:induction false} FromPairsOfDict<V>(es: Entries<V>)
    requires DistinctKeys(es)
    ensures FromPairs(es) == es
  {
    if es != [] {
      var n := |es| - 1;
      var init := es[..n];
      assert es == init + [es[n]];
      assert DistinctKeys(init) by {
        forall i, j | 0 <= i < j < |init| ensures init[i].0 != init[j].0 {
          assert KeysOf(es)[i] != KeysOf(es)[j];
        }
      }
      FromPairsOfDict(init);
      assert es[n].0 !in KeysOf(init) by {
        forall i | 0 <= i < n ensures KeysOf(init)[i] != es[n].0 {
          assert KeysOf(es)[i] != KeysOf(es)[n];
        }
      }
      StoreAppends(init, es[n].0, es[n].1);
    }
  }

  /** Storing a key that is not there appends it. */
  lemma {:induction false} StoreAppends<V>(es: Entries<V>, k: string, v: V)
    requires k !in KeysOf(es)
    ensures Store(es, k, v) == es + [(k, v)]
  {
    if es != [] {
      KeysOfCons(es[0], es[1..]);
      assert es == [es[0]] + es[1..];
      StoreAppends(es[1..], k, v);
    }
  }

  /** Storing a key that is there overwrites its entry in place. */
  lemma {:induction false} StoreAt<V>(es: Entries<V>, i: nat, v: V)
    requires DistinctKeys(es) && i < |es|
    ensures Store(es, es[i].0, v) == es[i := (es[i].0, v)]
  {
    if i > 0 {
      var k := es[i].0;
      assert es[0].0 != k by { assert KeysOf(es)[0] != KeysOf(es)[i]; }
      assert Store(es, k, v) == [es[0]] + Store(es[1..], k, v);
      assert DistinctKeys(es[1..]) by { DistinctKeysTail(es); }
      assert es[1..][i - 1] == es[i];
      StoreAt(es[1..], i - 1, v);
      UpdateCons(es, i, (k, v));
    } else {
      UpdateCons(es, 0, (es[0].0, v));
    }
  }

  lemma UpdateCons<T>(s: seq<T>, i: nat, x: T)
    requires i < |s|
    ensures s[i := x] == if i == 0 then [x] + s[1..] else [s[0]] + s[1..][i - 1 := x]
  {
    var u := s[i := x];
    assert u[1..] == if i == 0 then s[1..] else s[1..][i - 1 := x];
    assert u == [u[0]] + u[1..];
  }

  /** Taking out a key that is not there changes nothing. */
  lemma {:induction false} WithoutAbsent(ks: seq<string>, k: string)
    requires k !in ks
    ensures Without(ks, k) == ks
  {
    if ks != [] {
      assert ks == [ks[0]] + ks[1..];
      WithoutAbsent(ks[1..], k);
    }
  }

  lemma NoDuplicatesAppend(ks: seq<string>, k: string)
    requires NoDuplicates(ks) && k !in ks
    ensures NoDuplicates(ks + [k])
  {
  }

  /** Removing a key that is not there changes nothing: `del` raises before
      touching the dict. */
  lemma {:induction false} RemoveAbsent<V>(es: Entries<V>, k: string)
    requires k !in KeysOf(es)
    ensures Remove(es, k) == es
  {
    if es != [] {
      KeysOfCons(es[0], es[1..]);
      assert es == [es[0]] + es[1..];
      RemoveAbsent(es[1..], k);
    }
  }

  /** Every entry of a store is an old entry or the one written. */
  lemma {:induction false} StoreFrom<V>(es: Entries<V>, k: string, v: V, e: (string, V))
    requires e in Store(es, k, v)
    ensures e in es || e == (k, v)
  {
    if es != [] && es[0].0 != k {
      if e != es[0] {
        assert e in Store(es[1..], k, v);
        StoreFrom(es[1..], k, v, e);
      }
    } else if es != [] && e != (k, v) {
      assert e in es[1..];
    }
  }

  /** Every entry of `dict(pairs)` is one of the pairs. */
  lemma {:induction false} FromPairsFrom<V>(pairs: seq<(string, V)>, e: (string, V))
    requires e in FromPairs(pairs)
    ensures e in pairs
  {
    var n := |pairs| - 1;
    StoreFrom(FromPairs(pairs[..n]), pairs[n].0, pairs[n].1, e);
    if e != pairs[n] {
      FromPairsFrom(pairs[..n], e);
    }
  }
}
