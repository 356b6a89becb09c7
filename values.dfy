/** The Python values a dictdot holds, told apart by their exact type, and the
    conversion `_nest` (dictdot/__init__.py:60-66) that turns every plain
    `dict` into a dictdot and every `list` or `tuple` into a fresh `list`. */
module Values {
  import opened Wrappers
  import opened OrderedDict

  /** A value as `_nest` sees it. `PlainDict` is an object whose type is
      exactly `dict`, `DotDict` one whose type is `dictdot`; both carry their
      entries in iteration order. Numbers, strings and every other object are
      opaque scalars. */
  datatype Value =
    | PyNone
    | Scalar(token: string)
    | PlainDict(entries: Entries<Value>)
    | DotDict(entries: Entries<Value>)
    | PyList(items: seq<Value>)
    | PyTuple(items: seq<Value>)

  /** Every dict inside `v`, plain or dictdot, holds each key once, as Python
      dicts do. */
  predicate WellFormed(v: Value) {
    match v
    case PlainDict(es) => DistinctKeys(es) && forall i :: 0 <= i < |es| ==> WellFormed(es[i].1)
    case DotDict(es) => DistinctKeys(es) && forall i :: 0 <= i < |es| ==> WellFormed(es[i].1)
    case PyList(xs) => forall i :: 0 <= i < |xs| ==> WellFormed(xs[i])
    case PyTuple(xs) => forall i :: 0 <= i < |xs| ==> WellFormed(xs[i])
    case _ => true
  }

  /** No plain `dict` and no `tuple` can be reached from `v` through dictdots
      and lists: the shape construction aims for. */
  predicate Converted(v: Value) {
    match v
    case PlainDict(_) => false
    case PyTuple(_) => false
    case DotDict(es) => forall i :: 0 <= i < |es| ==> Converted(es[i].1)
    case PyList(xs) => forall i :: 0 <= i < |xs| ==> Converted(xs[i])
    case _ => true
  }

  /** Every dictdot that `v` already contains, found through plain dicts,
      lists and tuples, is itself converted. `_nest` does not look inside an
      existing dictdot, so this is what it needs to reach `Converted`. */
  predicate Convertible(v: Value) {
    match v
    case PlainDict(es) => forall i :: 0 <= i < |es| ==> Convertible(es[i].1)
    case DotDict(_) => Converted(v)
    case PyList(xs) => forall i :: 0 <= i < |xs| ==> Convertible(xs[i])
    case PyTuple(xs) => forall i :: 0 <= i < |xs| ==> Convertible(xs[i])
    case _ => true
  }

  /** `_nest(value)`: an exact `dict` becomes a new dictdot whose constructor
      nests each of its values in place; an exact `list` or `tuple` becomes a
      new list of nested elements; anything else, an existing dictdot
      included, comes back as it is. */
  function Nest(v: Value): (r: Value)
    ensures Converted(r) <==> Convertible(v)
    ensures WellFormed(v) ==> WellFormed(r)
  {
    match v
    case PlainDict(es) =>
      var es' := seq(|es|, i requires 0 <= i < |es| => (es[i].0, Nest(es[i].1)));
      assert KeysOf(es') == KeysOf(es);
      DotDict(es')
    case PyList(xs) =>
      var ys := seq(|xs|, i requires 0 <= i < |xs| => Nest(xs[i]));
      assert forall i :: 0 <= i < |xs| ==> (Converted(ys[i]) <==> Convertible(xs[i]));
      PyList(ys)
    case PyTuple(xs) =>
      var ys := seq(|xs|, i requires 0 <= i < |xs| => Nest(xs[i]));
      assert forall i :: 0 <= i < |xs| ==> (Converted(ys[i]) <==> Convertible(xs[i]));
      PyList(ys)
    case _ => v
  }

  /** The values `Nest` returns unchanged: anything but an exact dict or
      tuple, and lists only when their elements are such values too. A
      dictdot is fixed whatever it holds. */
  predicate Fixed(v: Value) {
    match v
    case PlainDict(_) => false
    case PyTuple(_) => false
    case PyList(xs) => forall i :: 0 <= i < |xs| ==> Fixed(xs[i])
    case _ => true
  }

  /** `Nest(v)` is `v` exactly when `v` is fixed: an existing dictdot,
      `None` and scalars pass through, and a list comes back equal when each
      element does. */
  lemma {:induction false} NestUnchangedIffFixed(v: Value)
    ensures Nest(v) == v <==> Fixed(v)
  {
    match v
    case PyList(xs) =>
      var ys := Nest(v).items;
      forall i | 0 <= i < |xs| ensures ys[i] == xs[i] <==> Fixed(xs[i]) {
        NestUnchangedIffFixed(xs[i]);
      }
      if Fixed(v) { assert ys == xs; }
      else {
        var i :| 0 <= i < |xs| && !Fixed(xs[i]);
        assert ys[i] != xs[i];
      }
    case PlainDict(_) =>
    case PyTuple(_) =>
    case _ =>
  }

  /** What `Nest` returns is a fixed value. */
  lemma {:induction false} NestIsFixed(v: Value)
    ensures Fixed(Nest(v))
  {
    match v
    case PyList(xs) =>
      forall i | 0 <= i < |xs| ensures Fixed(Nest(v).items[i]) { NestIsFixed(xs[i]); }
    case PyTuple(xs) =>
      forall i | 0 <= i < |xs| ensures Fixed(Nest(v).items[i]) { NestIsFixed(xs[i]); }
    case _ =>
  }

  /** Nesting twice is nesting once. */
  lemma NestIdempotent(v: Value)
    ensures Nest(Nest(v)) == Nest(v)
  {
    NestIsFixed(v);
    NestUnchangedIffFixed(Nest(v));
  }

  /** A converted value is fixed, so nesting it again changes nothing. */
  lemma {:induction false} ConvertedIsFixed(v: Value)
    requires Converted(v)
    ensures Fixed(v)
  {
    match v
    case PyList(xs) =>
      forall i | 0 <= i < |xs| ensures Fixed(xs[i]) { ConvertedIsFixed(xs[i]); }
    case _ =>
  }

  /** `_nest` on a list or a tuple gives a list of the same length whose
      element i is the nested element i. */
  lemma NestSequence(v: Value)
    requires v.PyList? || v.PyTuple?
    ensures Nest(v).PyList? && |Nest(v).items| == |v.items|
    ensures forall i :: 0 <= i < |v.items| ==> Nest(v).items[i] == Nest(v.items[i])
  {
  }

  /** Each entry with its value nested: what the dictdot constructor leaves
      behind for the dict it built. This is the comprehension of the
      `PlainDict` branch of `Nest`, which `NestPlainDict` ties to it. */
  function NestEntries(es: Entries<Value>): (r: Entries<Value>)
    ensures KeysOf(r) == KeysOf(es)
  {
    seq(|es|, i requires 0 <= i < |es| => (es[i].0, Nest(es[i].1)))
  }

  /** A plain dict nests into the dictdot holding its entries nested. */
  lemma NestPlainDict(es: Entries<Value>)
    ensures Nest(PlainDict(es)) == DotDict(NestEntries(es))
  {
  }

  /** Every key of the nested entries reads back the nested value. */
  lemma {:induction false} NestEntriesLookup(es: Entries<Value>, k: string)
    ensures Lookup(NestEntries(es), k) ==
              match Lookup(es, k)
              case Some(v) => Some(Nest(v))
              case None => None
  {
    if es != [] {
      assert NestEntries(es)[1..] == NestEntries(es[1..]);
      NestEntriesLookup(es[1..], k);
    }
  }

  /** Nesting entries twice is nesting them once. */
  lemma NestEntriesIdempotent(es: Entries<Value>)
    ensures NestEntries(NestEntries(es)) == NestEntries(es)
  {
    forall i | 0 <= i < |es| ensures Nest(Nest(es[i].1)) == Nest(es[i].1) {
      NestIdempotent(es[i].1);
    }
  }

  /** Nesting leaves entries as they are exactly when every value is fixed,
      which converted values are. */
  lemma NestEntriesUnchangedIff(es: Entries<Value>)
    ensures NestEntries(es) == es <==> forall i :: 0 <= i < |es| ==> Fixed(es[i].1)
  {
    forall i | 0 <= i < |es| ensures Nest(es[i].1) == es[i].1 <==> Fixed(es[i].1) {
      NestUnchangedIffFixed(es[i].1);
    }
    if NestEntries(es) == es {
      forall i | 0 <= i < |es| ensures Fixed(es[i].1) {
        assert NestEntries(es)[i] == es[i];
      }
    }
  }

  /** Every value of nested entries is fixed, so nesting them again, as
      `copy` does, changes nothing. */
  lemma NestEntriesFixed(es: Entries<Value>)
    ensures forall i :: 0 <= i < |es| ==> Fixed(NestEntries(es)[i].1)
  {
    forall i | 0 <= i < |es| ensures Fixed(NestEntries(es)[i].1) {
      NestIsFixed(es[i].1);
    }
  }

  /** A tuple stored raw, as an attribute write leaves it, comes back from
      nesting as a list, so the nested entries differ from the stored ones. */
  lemma NestEntriesTurnsTupleIntoList(es: Entries<Value>, i: nat)
    requires i < |es| && es[i].1.PyTuple?
    ensures NestEntries(es)[i].1.PyList?
    ensures NestEntries(es) != es
  {
    assert NestEntries(es)[i] != es[i];
  }

  /** `_nest` leaves an existing dictdot alone even when a plain dict was
      stored in it by a later write, so under any key of a plain dict being
      nested that dictdot, and the plain dict in it, survive. */
  lemma StaleDictDotSurvives(es: Entries<Value>, k: string)
    requires !Converted(DotDict(es))
    ensures Nest(DotDict(es)) == DotDict(es)
    ensures !Converted(Nest(PlainDict([(k, DotDict(es))])))
  {
    assert Nest(PlainDict([(k, DotDict(es))])).entries[0].1 == DotDict(es);
  }

  /** One step of nesting entries front to back: nesting entry i of a
      sequence whose first i entries are already nested. */
  lemma NestPrefixStep(es: Entries<Value>, i: nat)
    requires i < |es|
    ensures (NestEntries(es[..i]) + es[i..])[i] == es[i]
    ensures (NestEntries(es[..i]) + es[i..])[i := (es[i].0, Nest(es[i].1))] ==
            NestEntries(es[..i + 1]) + es[i + 1..]
  {
    var a := (NestEntries(es[..i]) + es[i..])[i := (es[i].0, Nest(es[i].1))];
    var b := NestEntries(es[..i + 1]) + es[i + 1..];
    assert |a| == |b|;
    forall j | 0 <= j < |a| ensures a[j] == b[j] {
      if j < i { assert a[j] == NestEntries(es[..i])[j]; }
    }
  }
}
