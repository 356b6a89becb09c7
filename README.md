# dictdot in Dafny

A model of `dictdot`, the Python `dict` subclass of `dictdot/__init__.py` whose
items can also be read, written and deleted as attributes, and whose
constructor turns every nested plain `dict` into a `dictdot` and every `list`
or `tuple` into a `list` of converted elements.

The model has three modules:

- `OrderedDict` (`ordered_dict.dfy`): the insertion-ordered mapping a Python
  dict is, as a sequence of `(key, value)` entries. `Lookup` is `dict.get`,
  `Store` is `d[k] = v`, `Remove` is `del d[k]`, `FromPairs` is
  `dict(pairs)`. The lemmas say what each does to the keys, their order and
  every other key's value.
- `Values` (`values.dfy`): a Python value as `_nest` sees it, told apart by
  exact type (`PlainDict` for `dict`, `DotDict` for `dictdot`, `PyList`,
  `PyTuple`, `PyNone`, opaque `Scalar`), and `Nest`, the conversion
  `_nest`. `Converted(v)` says that no plain dict and no tuple can be reached
  from `v` through dictdots and lists. `Convertible(v)` says that every
  dictdot already inside `v` is converted. `Fixed(v)` says that `_nest`
  returns `v` unchanged.
- `DictDotType` (`dictdot.dfy`): the class `DictDot`. It holds the key order
  (`order: seq<string>`) and the stored values (`table: map<string, Value>`).
  `Entries()` is the dict's items in iteration order. The constructor runs
  `dict.__init__` (method `Update`) and then the in-place nesting loop of
  `__init__` (method `NestValues`). It also has item and attribute
  read/write/delete and `Copy`. Four client methods (`AccessUsage`,
  `MissingAndBuiltinUsage`, `DeleteUsage`, `CopyUsage`) replay the usage in
  the class docstring and the tests against these contracts.

What the proofs establish:

- Attribute read is `dict.get`, reached only when the name is not a class
  member. Class members (`Reserved`) always win. A missing key reads as
  `None`, while `d[k]` on the same key gives `KeyError`.
- Attribute write is exactly `d[name] = v`. The value is stored unconverted.
  An existing key keeps its position, and a new key is appended. Every other
  key keeps its value.
- Attribute delete removes exactly that key and keeps the order of the rest.
  An absent key gives `KeyError` and changes nothing.
- Construction keeps each input key once, in order of first appearance, with
  the nested value of its last pair. Built from a dict, it keeps the dict's
  keys in the dict's order. It is also exactly what `_nest` makes of a plain
  dict.
- `Converted(Nest(v)) <==> Convertible(v)`. After construction, no plain
  dict or tuple is reachable if no dictdot handed in already held one. Over
  the values `dict(pairs)` keeps (a repeated key keeps only its last value),
  this is an if and only if. `_nest` does not look inside an existing
  dictdot, so a plain dict stored into one by a later attribute write
  survives (`StaleDictDotSurvives`).
- `Nest(v) == v <==> Fixed(v)`. Every result of `Nest` is fixed, so
  `Nest(Nest(v)) == Nest(v)`. A list or tuple becomes a list of the same
  length whose element i is `Nest` of element i.
- `copy()` returns a fresh dictdot whose items are the original's items
  nested again. It equals the original, item for item, exactly when every
  stored value is fixed, which is always the case right after construction.
  A tuple stored by attribute write comes back from `copy()` as a list.

Where the tests and the code disagree, the model follows the code.
tests.py:111-114 expects `d.foo = [{"bar": 2}, 2]` to nest the stored list,
but `dictdot/__init__.py:52` binds `__setattr__` to `dict.__setitem__` and
`__setitem__` is not overridden, so only the constructor and `copy` convert.

## Model

| member | source | states |
|---|---|---|
| `OrderedDict.Lookup` | dictdot/__init__.py:51 | The lookup finds nothing exactly when the key is not among the dict's keys, and what it finds is an entry of the dict |
| `OrderedDict.LookupAt` | dictdot/__init__.py:51 | In a dict with distinct keys, looking up the key at position i gives the value at position i |
| `OrderedDict.Store` | dictdot/__init__.py:52 | After `d[k] = v` the key order is unchanged when `k` was present, and is the old order followed by `k` otherwise |
| `OrderedDict.StoreLookup` | dictdot/__init__.py:52 | After `d[k] = v`, `k` reads back `v` and every other key reads as before |
| `OrderedDict.StoreDistinct` | dictdot/__init__.py:52 | A write keeps the dict's keys distinct |
| `OrderedDict.StoreAppends` | dictdot/__init__.py:52 | Writing a key that is not there appends the entry at the end |
| `OrderedDict.StoreAt` | dictdot/__init__.py:57-58 | Rewriting the key at position i replaces that entry in place, so the key keeps its position |
| `OrderedDict.Without` | dictdot/__init__.py:53 | Taking a key out of a key order leaves exactly the other keys and keeps them distinct |
| `OrderedDict.Remove` | dictdot/__init__.py:53 | After `del d[k]` the key order is the old one with `k` taken out, the rest in order |
| `OrderedDict.RemoveLookup` | dictdot/__init__.py:53 | After `del d[k]`, `k` is absent and every other key reads as before |
| `OrderedDict.RemoveAbsent` | dictdot/__init__.py:53 | Deleting an absent key leaves the entries unchanged |
| `OrderedDict.FromPairs` | dictdot/__init__.py:56 | `dict(pairs)` has distinct keys, and its keys are exactly the keys of the pairs |
| `OrderedDict.FromPairsSpec` | dictdot/__init__.py:56 | `dict(pairs)` holds each key once, in order of first appearance, with the value of its last pair |
| `OrderedDict.FromPairsFrom` | dictdot/__init__.py:56 | Every entry of `dict(pairs)` is one of the pairs |
| `OrderedDict.FromPairsOfDict` | dictdot/__init__.py:69 | Building a dict from a dict's own items, as `self.__class__(dict.copy(self))` does, gives the same entries in the same order |
| `Values.Nest` | dictdot/__init__.py:60-66 | `_nest` yields a value with no reachable plain dict or tuple exactly when every dictdot inside its argument was already converted, and it keeps dicts well formed |
| `Values.NestUnchangedIffFixed` | dictdot/__init__.py:61-66 | `_nest` returns its argument unchanged exactly when the argument is neither a plain dict nor a tuple and, if it is a list, every element is returned unchanged; an existing dictdot always comes back as is |
| `Values.NestIsFixed` | dictdot/__init__.py:60-66 | Whatever `_nest` returns, `_nest` returns unchanged |
| `Values.NestIdempotent` | dictdot/__init__.py:60-66 | `_nest(_nest(v)) == _nest(v)` |
| `Values.ConvertedIsFixed` | dictdot/__init__.py:60-66 | A value with no reachable plain dict or tuple is returned unchanged by `_nest` |
| `Values.NestSequence` | dictdot/__init__.py:63-64 | `_nest` of a list or tuple is a list of the same length whose element i is `_nest` of element i |
| `Values.NestPlainDict` | dictdot/__init__.py:61-62 | `_nest` of a plain dict is a dictdot holding its entries with nested values |
| `Values.NestEntries` | dictdot/__init__.py:57-58 | Nesting the values of a dict keeps its keys and their order |
| `Values.NestEntriesLookup` | dictdot/__init__.py:57-58 | After nesting the values, each key reads back the nested form of its old value, and an absent key stays absent |
| `Values.NestPrefixStep` | dictdot/__init__.py:57-58 | Nesting entry i, after entries before i were nested, gives the entries with the first i+1 nested |
| `Values.NestEntriesIdempotent` | dictdot/__init__.py:68-69 | Nesting a dict's values twice is nesting them once |
| `Values.NestEntriesUnchangedIff` | dictdot/__init__.py:68-69 | Nesting a dict's values leaves the entries unchanged exactly when every value is one `_nest` leaves unchanged |
| `Values.NestEntriesFixed` | dictdot/__init__.py:68-69 | Every value of a nested dict is one `_nest` leaves unchanged |
| `Values.NestEntriesTurnsTupleIntoList` | dictdot/__init__.py:63-64 | Any tuple stored in a dict comes back from nesting as a list, so the nested entries differ from the stored ones |
| `Values.StaleDictDotSurvives` | dictdot/__init__.py:61-66 | Any dictdot that still reaches a plain dict or tuple is passed through by `_nest` unchanged, and nesting a plain dict holding it under any key leaves that plain dict or tuple reachable |
| `DictDotType.ConstructionSpec` | dictdot/__init__.py:55-58 | `dictdot(pairs)` holds each key of the pairs once, in order of first appearance, with `_nest` of the value of its last pair |
| `DictDotType.ConstructionFromDict` | dictdot/__init__.py:55-58 | A dictdot built from a dict keeps the dict's keys in its order and nests each value, and is what `_nest` makes of that dict |
| `DictDotType.ConstructionConverts` | dictdot/__init__.py:55-64 | After construction no stored value reaches a plain dict or tuple, provided every dictdot handed in was converted |
| `DictDotType.ConstructionConvertsIff` | dictdot/__init__.py:55-64 | After construction every stored value is free of plain dicts and tuples exactly when every value `dict(pairs)` keeps had only converted dictdots inside |
| `DictDotType.DictDot.constructor` | dictdot/__init__.py:55-58 | The new dictdot's items are `dict(pairs)` with every value nested in place |
| `DictDotType.DictDot.Update` | dictdot/__init__.py:56 | Writing the pairs one by one into an empty dict gives `dict(pairs)` |
| `DictDotType.DictDot.NestValues` | dictdot/__init__.py:57-58 | The loop over `self.items()` replaces every value by its nested form, keeping every key's position |
| `DictDotType.DictDot.GetItem` | dictdot/__init__.py:22-23 | `d[k]` succeeds exactly when `k` is a key and then gives its value; otherwise it raises `KeyError(k)` |
| `DictDotType.DictDot.Get` | dictdot/__init__.py:51 | `dict.get` gives the stored value, or `None` when the key is absent |
| `DictDotType.DictDot.GetAttr` | dictdot/__init__.py:51 | A class member name always reads as the member; otherwise `d.name` is `d[name]` when that succeeds and `None` when it raises |
| `DictDotType.DictDot.SetItem` | dictdot/__init__.py:52 | `d[k] = v` stores `v` unconverted, keeping the key's position or appending it |
| `DictDotType.DictDot.SetAttr` | dictdot/__init__.py:52 | `d.name = v` is exactly `d[name] = v`: `d[name]` is then `v`, every other key reads as before, and the order only gains `name` at the end if it was new |
| `DictDotType.DictDot.DelItem` | dictdot/__init__.py:53 | `del d[k]` removes the entry when present, otherwise raises `KeyError(k)` and leaves the dict unchanged |
| `DictDotType.DictDot.DelAttr` | dictdot/__init__.py:53 | `del d.name` removes exactly `name`: it is then missing, every other key reads as before and the order loses only `name`; an absent name raises `KeyError` |
| `DictDotType.DictDot.Copy` | dictdot/__init__.py:68-69 | `copy()` is a fresh dictdot holding the original's items renested, equal to the original exactly when every value is one `_nest` leaves unchanged; the original is not modified |

## Left out

- `find`, `as_dict`, fuzzy lookup of `-` and `.` keys through `_`, path
  building and pickling: tests.py exercises them (tests.py:35-67,
  tests.py:117-131, tests.py:147-173, tests.py:186-199), but
  `dictdot/__init__.py` has no code for them.
- A `_convert` member (tests.py:100-102): this code's conversion helper is
  `_nest`, so `_nest` is a reserved name and `_convert` is an ordinary key.
- Nesting on attribute or item write, which tests.py:111-114 expects:
  `__setattr__` is `dict.__setitem__` (`dictdot/__init__.py:52`), which stores
  the raw value, so the model stores the raw value.
- Object identity, aliasing and self-reference (tests.py:133-136): values are
  modelled as immutable trees. A nested dictdot or list is a value, not a
  shared object. So `copy()` is modelled by its contents only, and mutating a
  list stored in a dictdot cannot be expressed.
- Python's attribute resolution (class lookup, then `__getattr__` as a
  fallback): `GetAttr` consults a fixed set of names instead (`Reserved`).
  This set is the public methods of `dict`, `_nest` and the dunder names a
  dict instance answers. The exact dunder set depends on the Python version.
- Keyword arguments and iterables other than a sequence of pairs as
  constructor arguments (tests.py:175-180): construction takes a sequence of
  `(key, value)` pairs, which is what `dict(pairs)` does with them.
- Keys that are not strings: every key is a string, because attribute access
  only produces string names.
- Scalars (numbers, strings, other objects) are opaque tokens. Python
  equality between a `dict` and a `dictdot` with equal items, and between
  dicts whose keys are in different orders, is not modelled. Equality in the
  model is equality of the item sequences.
- `setup.py`: packaging metadata and file I/O.
