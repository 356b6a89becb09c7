/** The `dictdot` class of dictdot/__init__.py: a dict whose attribute read,
    write and delete are the dict's own `get`, `__setitem__` and
    `__delitem__`, and whose constructor and `copy` nest every value. */
module DictDotType {
  import opened Wrappers
  import opened OrderedDict
  import opened Values

  /** The names ordinary attribute lookup finds on a dictdot instance, in its
      class or in `dict`, before Python falls back to `__getattr__`. */
  predicate Reserved(name: string) {
    name in {
      "clear", "copy", "fromkeys", "get", "items", "keys", "pop", "popitem",
      "setdefault", "update", "values", "_nest",
      "__init__", "__new__", "__getattr__", "__setattr__", "__delattr__",
      "__getattribute__", "__getitem__", "__setitem__", "__delitem__",
      "__contains__", "__len__", "__iter__", "__reversed__", "__eq__", "__ne__",
      "__lt__", "__le__", "__gt__", "__ge__", "__or__", "__ror__", "__ior__",
      "__hash__", "__repr__", "__str__", "__format__", "__sizeof__",
      "__reduce__", "__reduce_ex__", "__dir__", "__init_subclass__",
      "__subclasshook__", "__class_getitem__", "__class__", "__dict__",
      "__doc__", "__module__", "__weakref__"
    }
  }

  /** What an attribute read yields: a member of the class (a bound method or
      other class attribute), or an item of the dict read by `dict.get`. */
  datatype Attr = Member(name: string) | Item(value: Value)

  /** The entries of a dict stored as an order of keys and a table. */
  function EntriesOf(order: seq<string>, table: map<string, Value>): (es: Entries<Value>)
    requires forall k :: k in order ==> k in table
    ensures KeysOf(es) == order
  {
    if order == [] then []
    else
      KeysOfCons((order[0], table[order[0]]), EntriesOf(order[1..], table));
      [(order[0], table[order[0]])] + EntriesOf(order[1..], table)
  }

  lemma {:induction false} EntriesOfLookup(order: seq<string>, table: map<string, Value>, k: string)
    requires forall x :: x in order ==> x in table
    ensures Lookup(EntriesOf(order, table), k) == if k in order then Some(table[k]) else None
  {
    if order != [] {
      assert order == [order[0]] + order[1..];
      EntriesOfLookup(order[1..], table, k);
    }
  }

  lemma {:induction false} EntriesOfUpdateAbsent(order: seq<string>, table: map<string, Value>, k: string, v: Value)
    requires forall x :: x in order ==> x in table
    requires k !in order
    ensures EntriesOf(order, table[k := v]) == EntriesOf(order, table)
  {
    if order != [] {
      assert order == [order[0]] + order[1..];
      EntriesOfUpdateAbsent(order[1..], table, k, v);
    }
  }

  lemma {:induction false} EntriesOfSnoc(order: seq<string>, table: map<string, Value>, k: string)
    requires forall x :: x in order ==> x in table
    requires k in table
    ensures EntriesOf(order + [k], table) == EntriesOf(order, table) + [(k, table[k])]
  {
    if order != [] {
      assert (order + [k])[1..] == order[1..] + [k];
      EntriesOfSnoc(order[1..], table, k);
    }
  }

  /** Writing a key into the table is `Store` on the entries. */
  lemma {:induction false} EntriesOfStore(order: seq<string>, table: map<string, Value>, k: string, v: Value)
    requires forall x :: x in order ==> x in table
    requires NoDuplicates(order)
    ensures var order' := if k in order then order else order + [k];
            (forall x :: x in order' ==> x in table[k := v]) &&
            EntriesOf(order', table[k := v]) == Store(EntriesOf(order, table), k, v)
  {
    if k !in order {
      EntriesOfUpdateAbsent(order, table, k, v);
      EntriesOfSnoc(order, table[k := v], k);
      StoreAppends(EntriesOf(order, table), k, v);
    } else {
      assert order == [order[0]] + order[1..];
      NoDuplicatesCons(order[0], order[1..]);
      if order[0] == k {
        EntriesOfUpdateAbsent(order[1..], table, k, v);
      } else {
        EntriesOfStore(order[1..], table, k, v);
      }
    }
  }

  /** Deleting a key from the table and the order is `Remove` on the entries. */
  lemma {:induction false} EntriesOfRemove(order: seq<string>, table: map<string, Value>, k: string)
    requires forall x :: x in order ==> x in table
    ensures forall x :: x in Without(order, k) ==> x in table - {k}
    ensures EntriesOf(Without(order, k), table - {k}) == Remove(EntriesOf(order, table), k)
  {
    if order != [] {
      assert order == [order[0]] + order[1..];
      EntriesOfRemove(order[1..], table, k);
    }
  }

  /** What `dictdot(pairs)` holds: each key of `pairs` once, in order of
      first appearance, with the nested value of its last pair. */
  lemma ConstructionSpec(pairs: seq<(string, Value)>, k: string)
    ensures KeysOf(NestEntries(FromPairs(pairs))) == FirstOccurrences(KeysOf(pairs))
    ensures Lookup(NestEntries(FromPairs(pairs)), k) ==
              match LastFor(pairs, k)
              case Some(v) => Some(Nest(v))
              case None => None
  {
    FromPairsSpec(pairs, k);
    NestEntriesLookup(FromPairs(pairs), k);
  }

  /** Built from a dict, a dictdot keeps the dict's keys in the dict's order
      and nests each value in place; this is also what `_nest` makes of a
      plain dict, through `self.__class__(value)`. */
  lemma ConstructionFromDict(es: Entries<Value>)
    requires DistinctKeys(es)
    ensures NestEntries(FromPairs(es)) == NestEntries(es)
    ensures KeysOf(NestEntries(FromPairs(es))) == KeysOf(es)
    ensures Nest(PlainDict(es)) == DotDict(NestEntries(FromPairs(es)))
  {
    FromPairsOfDict(es);
  }

  /** After construction no value reachable through the new dictdot, its
      nested dictdots and its lists is a plain dict or a tuple, provided every
      dictdot handed in was itself converted. */
  lemma ConstructionConverts(pairs: seq<(string, Value)>)
    requires forall i :: 0 <= i < |pairs| ==> Convertible(pairs[i].1)
    ensures forall i :: 0 <= i < |NestEntries(FromPairs(pairs))| ==>
              Converted(NestEntries(FromPairs(pairs))[i].1)
  {
    var es := FromPairs(pairs);
    forall i | 0 <= i < |es| ensures Converted(Nest(es[i].1)) {
      FromPairsFrom(pairs, es[i]);
    }
  }

  /** The converse, over the values that survive into the dict: every
      stored value is converted after construction exactly when every value
      `dict(pairs)` keeps was convertible. A value overwritten by a later
      pair with the same key does not matter. */
  lemma ConstructionConvertsIff(pairs: seq<(string, Value)>)
    ensures (forall i :: 0 <= i < |NestEntries(FromPairs(pairs))| ==>
               Converted(NestEntries(FromPairs(pairs))[i].1)) <==>
            (forall i :: 0 <= i < |FromPairs(pairs)| ==> Convertible(FromPairs(pairs)[i].1))
  {
    var es := FromPairs(pairs);
    forall i | 0 <= i < |es| ensures NestEntries(es)[i].1 == Nest(es[i].1) { }
  }

  class DictDot {
    /** The keys in insertion order, as a dict iterates them. */
    var order: seq<string>
    /** The value stored under each key. */
    var table: map<string, Value>

    ghost predicate Valid()
      reads this
    {
      NoDuplicates(order) && forall k :: k in table <==> k in order
    }

    /** The dict's items, in iteration order. */
    function Entries(): (es: Entries<Value>)
      reads this
      requires Valid()
      ensures DistinctKeys(es) && KeysOf(es) == order
    {
      EntriesOf(order, table)
    }

    /** `dictdot(pairs)`: the dict is built from the pairs as `dict(pairs)`
        builds it, then every key is written again with its value nested. */
    constructor (pairs: seq<(string, Value)>)
      ensures Valid()
      ensures Entries() == NestEntries(FromPairs(pairs))
    {
      order := [];
      table := map[];
      new;
      Update(pairs);
      NestValues();
    }

    /** `dict.__init__(self, pairs)` on an empty dict: the pairs are written
        one by one. */
    method Update(pairs: seq<(string, Value)>)
      requires Valid() && order == []
      modifies this
      ensures Valid()
      ensures Entries() == FromPairs(pairs)
    {
      var n := 0;
      while n < |pairs|
        invariant 0 <= n <= |pairs|
        invariant Valid()
        invariant Entries() == FromPairs(pairs[..n])
      {
        assert pairs[..n + 1][..n] == pairs[..n];
        SetItem(pairs[n].0, pairs[n].1);
        n := n + 1;
      }
      assert pairs[..n] == pairs;
    }

    /** The loop of `__init__`: `for k, v in self.items(): self[k] =
        self._nest(v)`. Each key is rewritten in place, so the order stays. */
    method NestValues()
      requires Valid()
      modifies this
      ensures Valid()
      ensures Entries() == NestEntries(old(Entries()))
    {
      ghost var es := Entries();
      var i := 0;
      while i < |order|
        invariant 0 <= i <= |order| == |es|
        invariant Valid()
        invariant Entries() == NestEntries(es[..i]) + es[i..]
      {
        var k := order[i];
        var v := table[k];
        ghost var cur := Entries();
        NestPrefixStep(es, i);
        EntriesOfLookup(order, table, k);
        LookupAt(cur, i);
        assert cur[i] == (k, v);
        StoreAt(cur, i, Nest(v));
        SetItem(k, Nest(v));
        i := i + 1;
      }
      assert es[..i] == es;
    }

    /** `d[k]`: the stored value, or `KeyError` when the key is absent. */
    function GetItem(k: string): (r: Result<Value>)
      reads this
      requires Valid()
      ensures r.Ok? <==> k in order
      ensures r.Ok? ==> Lookup(Entries(), k) == Some(r.value)
      ensures r.Err? ==> r.error == KeyError(k)
    {
      EntriesOfLookup(order, table, k);
      if k in table then Ok(table[k]) else Err(KeyError(k))
    }

    /** `dict.get(d, k)`: the stored value, or `None` when the key is absent. */
    function Get(k: string): (r: Value)
      reads this
      requires Valid()
      ensures r == Lookup(Entries(), k).GetOr(PyNone)
    {
      EntriesOfLookup(order, table, k);
      if k in table then table[k] else PyNone
    }

    /** `d.name`: a class member when ordinary lookup finds one, otherwise
        `__getattr__`, which is `dict.get`: a missing key reads as `None`
        where `d[name]` raises. */
    function GetAttr(name: string): (r: Attr)
      reads this
      requires Valid()
      ensures Reserved(name) ==> r == Member(name)
      ensures !Reserved(name) && GetItem(name).Ok? ==> r == Item(GetItem(name).value)
      ensures !Reserved(name) && GetItem(name).Err? ==> r == Item(PyNone)
    {
      if Reserved(name) then Member(name) else Item(Get(name))
    }

    /** `d[k] = v`, `dict.__setitem__`: the value is stored as given. */
    method SetItem(k: string, v: Value)
      requires Valid()
      modifies this
      ensures Valid()
      ensures Entries() == Store(old(Entries()), k, v)
    {
      EntriesOfStore(order, table, k, v);
      if k !in table {
        order := order + [k];
        NoDuplicatesAppend(old(order), k);
      }
      table := table[k := v];
    }

    /** `d.name = v`, bound to `dict.__setitem__`: exactly the key write
        `d[name] = v`, with no nesting of `v`, even for a reserved name. */
    method SetAttr(name: string, v: Value)
      requires Valid()
      modifies this
      ensures Valid()
      ensures Entries() == Store(old(Entries()), name, v)
      ensures GetItem(name) == Ok(v)
      ensures forall j :: j != name ==> GetItem(j) == old(GetItem(j))
      ensures order == if name in old(order) then old(order) else old(order) + [name]
    {
      ghost var before := Entries();
      SetItem(name, v);
      forall j | j != name ensures GetItem(j) == old(GetItem(j)) {
        StoreLookup(before, name, v, j);
      }
      StoreLookup(before, name, v, name);
    }

    /** `del d[k]`, `dict.__delitem__`: the key goes, or `KeyError` is
        raised and nothing changes. */
    method DelItem(k: string) returns (r: Outcome)
      requires Valid()
      modifies this
      ensures Valid()
      ensures r == if k in old(order) then Pass else Fail(KeyError(k))
      ensures Entries() == Remove(old(Entries()), k)
    {
      if k in table {
        ghost var before := Entries();
        var order', table' := Without(order, k), table - {k};
        EntriesOfRemove(order, table, k);
        assert EntriesOf(order', table') == Remove(before, k);
        assert forall x :: x in table' <==> x in order';
        order, table := order', table';
        r := Pass;
      } else {
        r := Fail(KeyError(k));
        RemoveAbsent(Entries(), k);
      }
    }

    /** `del d.name`, bound to `dict.__delitem__`: removes exactly the key
        `name`, leaving every other key, value and the order; an absent name
        raises `KeyError` and changes nothing. */
    method DelAttr(name: string) returns (r: Outcome)
      requires Valid()
      modifies this
      ensures Valid()
      ensures r == if name in old(order) then Pass else Fail(KeyError(name))
      ensures Entries() == Remove(old(Entries()), name)
      ensures GetItem(name) == Err(KeyError(name))
      ensures forall j :: j != name ==> GetItem(j) == old(GetItem(j))
      ensures order == Without(old(order), name)
    {
      ghost var before := Entries();
      r := DelItem(name);
      forall j | j != name ensures GetItem(j) == old(GetItem(j)) {
        RemoveLookup(before, name, j);
      }
    }

    /** `d.copy()`: a new dictdot built from a shallow plain-dict copy, so
        every value is nested again; the original is not touched. */
    method Copy() returns (d: DictDot)
      requires Valid()
      ensures fresh(d) && d.Valid()
      ensures d.Entries() == NestEntries(Entries())
      ensures d.Entries() == Entries() <==>
                forall i :: 0 <= i < |Entries()| ==> Fixed(Entries()[i].1)
    {
      FromPairsOfDict(Entries());
      NestEntriesUnchangedIff(Entries());
      d := new DictDot(Entries());
    }
  }

  /** Key and attribute access reach the same item
      (dictdot/__init__.py:11-15, tests.py:72-75). */
  method AccessUsage()
  {
    var d := new DictDot([]);
    ghost var empty := d.Entries();
    d.SetItem("a", Scalar("1"));
    StoreLookup(empty, "a", Scalar("1"), "a");
    assert d.GetAttr("a") == Item(Scalar("1"));
    d.SetAttr("b", Scalar("2"));
    assert d.GetItem("b") == Ok(Scalar("2"));
  }

  /** A missing key reads as `None` by attribute and raises by key, and an
      item named like a method leaves the method in place
      (dictdot/__init__.py:17-23, tests.py:78-102). */
  method MissingAndBuiltinUsage()
  {
    var d := new DictDot([]);
    assert d.GetItem("NA") == Err(KeyError("NA"));
    assert d.GetAttr("NA") == Item(PyNone);
    d.SetAttr("items", Scalar("foo"));
    assert d.GetAttr("items") == Member("items");
    assert d.GetItem("items") == Ok(Scalar("foo"));
  }

  /** Deleting by attribute removes the key (dictdot/__init__.py:25-27,
      tests.py:85-92). */
  method DeleteUsage()
  {
    var d := new DictDot([]);
    d.SetAttr("bar", Scalar("42"));
    var r := d.DelAttr("bar");
    assert r == Pass && "bar" !in d.order;
    assert d.GetAttr("bar") == Item(PyNone);
    assert d.GetItem("bar") == Err(KeyError("bar"));
  }

  /** A copy of a dictdot as constructed is a different object equal to it
      (tests.py:139-144). */
  method CopyUsage(pairs: seq<(string, Value)>)
  {
    var d := new DictDot(pairs);
    var d2 := d.Copy();
    NestEntriesFixed(FromPairs(pairs));
    assert d2 != d && d2.Entries() == d.Entries();
  }
}
