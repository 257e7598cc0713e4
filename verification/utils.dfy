/** The helpers of `distributed_jobman/utils.py` the rest relies on:
    `bold` for terminal output and `hash_dicts`, which turns the arguments
    of a call into a hashable value so that calls can be memoised. */
module Utils {
  import opened Values
  import Seqs

  // ---------------------------------------------------------------------
  // bold

  const BoldOn: string := "\U{001B}[1m"
  const BoldOff: string := "\U{001B}[0m"

  /** `bold`: the text between the terminal's bold codes when the output
      is a terminal, the text unchanged otherwise. */
  function Bold(s: string, isatty: bool): (r: string)
    ensures isatty ==> |r| == |s| + 8 && r[..4] == BoldOn && r[4..|r| - 4] == s && r[|r| - 4..] == BoldOff
    ensures !isatty ==> r == s
  {
    if isatty then BoldOn + s + BoldOff else s
  }

  /** Removing the codes gives the text back. */
  lemma BoldUnwraps(s: string, isatty: bool)
    ensures var r := Bold(s, isatty);
            (if isatty then r[4..|r| - 4] else r) == s
  {
  }

  // ---------------------------------------------------------------------
  // hash_dicts

  /** A value that is neither a list nor a dict: `hash_dicts` keeps it as
      it is. */
  type Scalar = v: Value | !v.List? && !v.Dict? witness VNone

  /** The arguments a memoised call can receive: a dict (its items in the
      order the dict yields them), a list or tuple, a store handle, a
      database session, or any other value. Containers are given as
      `Mapping` or `Items`, so that `hash_dicts` descends into them. */
  datatype Arg =
    | Atom(v: Scalar)
    | Items(items: seq<Arg>)
    | Mapping(entries: seq<(string, Arg)>)
    | Handle(table: string)
    | Session

  /** What `hash_dicts` builds: nested tuples of plain values. */
  datatype Hashed = Leaf(v: Value) | Tuple(items: seq<Hashed>)

  function EntryKey(e: (string, Arg)): string {
    e.0
  }

  /** A dict's items sorted by key, each as a `(key, value)` pair. */
  function SortedItems(entries: seq<(string, Arg)>): (r: seq<(string, Arg)>)
    ensures multiset(r) == multiset(entries)
    ensures forall k :: 0 <= k < |r| ==> r[k] in entries
  {
    var r := Seqs.SortBy(entries, EntryKey);
    assert forall k :: 0 <= k < |r| ==> r[k] in entries by {
      forall k | 0 <= k < |r|
        ensures r[k] in entries
      {
        assert r[k] in multiset(r);
      }
    }
    r
  }

  /** One item of `hash_dicts`: a dict becomes the tuple of its sorted
      `(key, value)` pairs, a list or tuple the tuple of its items, a handle
      its table name and a session `None`; anything else is kept. */
  function Hash(a: Arg): (h: Hashed)
    ensures a.Handle? ==> h == Leaf(Str(a.table))
    ensures a.Session? ==> h == Leaf(VNone)
    ensures a.Atom? ==> h == Leaf(a.v)
    ensures a.Items? ==> h.Tuple? && |h.items| == |a.items|
    ensures a.Mapping? ==> h.Tuple? && |h.items| == |a.entries|
    decreases a
  {
    match a
    case Atom(v) => Leaf(v)
    case Handle(t) => Leaf(Str(t))
    case Session => Leaf(VNone)
    case Items(items) => Tuple(seq(|items|, k requires 0 <= k < |items| => Hash(items[k])))
    case Mapping(entries) =>
      var sorted := SortedItems(entries);
      Tuple(seq(|sorted|, k requires 0 <= k < |sorted| && sorted[k] in entries =>
                            Tuple([Leaf(Str(sorted[k].0)), Hash(sorted[k].1)])))
  }

  /** `hash_dicts(iterable)`: one hashed item per item, in order. */
  function HashDicts(args: seq<Arg>): (r: seq<Hashed>)
    ensures |r| == |args|
  {
    seq(|args|, k requires 0 <= k < |args| => Hash(args[k]))
  }

  /** The pair a dict item hashes to. */
  function HashedItem(e: (string, Arg)): Hashed {
    Tuple([Leaf(Str(e.0)), Hash(e.1)])
  }

  /** A hashed dict is the sequence of its hashed items in key order. */
  lemma HashedMapping(entries: seq<(string, Arg)>)
    ensures var h := Hash(Mapping(entries));
            var sorted := SortedItems(entries);
            |h.items| == |sorted| && forall k :: 0 <= k < |sorted| ==> h.items[k] == HashedItem(sorted[k])
  {
  }

  /** Every item of a dict appears in its hash ... */
  lemma HashedDictComplete(entries: seq<(string, Arg)>, k: nat)
    requires k < |entries|
    ensures HashedItem(entries[k]) in Hash(Mapping(entries)).items
  {
    var h := Hash(Mapping(entries));
    var sorted := SortedItems(entries);
    HashedMapping(entries);
    assert entries[k] in multiset(sorted);
    var j :| 0 <= j < |sorted| && sorted[j] == entries[k];
    assert h.items[j] == HashedItem(entries[k]);
  }

  /** ... nothing else does ... */
  lemma HashedDictSound(entries: seq<(string, Arg)>, k: nat)
    requires k < |Hash(Mapping(entries)).items|
    ensures exists e :: e in entries && Hash(Mapping(entries)).items[k] == HashedItem(e)
  {
    var sorted := SortedItems(entries);
    HashedMapping(entries);
    assert sorted[k] in entries;
  }

  /** ... and the items come sorted by key. */
  lemma HashedDictSorted(entries: seq<(string, Arg)>)
    ensures SortedPairs(Hash(Mapping(entries)).items)
  {
    var h := Hash(Mapping(entries));
    var sorted := SortedItems(entries);
    HashedMapping(entries);
    Seqs.SortBySorted(entries, EntryKey);
    forall i, j | 0 <= i < j < |h.items|
      ensures Seqs.StrLeq(PairKey(h.items[i]), PairKey(h.items[j]))
    {
      assert PairKey(h.items[i]) == EntryKey(sorted[i]);
      assert PairKey(h.items[j]) == EntryKey(sorted[j]);
    }
  }

  /** The key of a hashed `(key, value)` pair. */
  function PairKey(h: Hashed): string {
    if h.Tuple? && |h.items| == 2 && h.items[0].Leaf? && h.items[0].v.Str? then h.items[0].v.s else ""
  }

  predicate SortedPairs(hs: seq<Hashed>) {
    forall i, j :: 0 <= i < j < |hs| ==> Seqs.StrLeq(PairKey(hs[i]), PairKey(hs[j]))
  }

  /** The order in which a dict yields its items does not matter. */
  lemma DictOrderInsensitive(a: seq<(string, Arg)>, b: seq<(string, Arg)>)
    requires multiset(a) == multiset(b)
    requires Seqs.KeysDistinct(a, EntryKey)
    ensures Hash(Mapping(a)) == Hash(Mapping(b))
  {
    Seqs.SortByPermutation(a, b, EntryKey);
    assert SortedItems(a) == SortedItems(b);
  }

  // ---------------------------------------------------------------------
  // the memo key

  /** Python's `==` on hashed values, which is what a dict compares keys
      with: plain values by `==`, tuples item by item. */
  predicate HashedEq(a: Hashed, b: Hashed)
    decreases a
  {
    match a
    case Leaf(v) => b.Leaf? && PyEq(v, b.v)
    case Tuple(xs) => b.Tuple? && |xs| == |b.items| && forall k :: 0 <= k < |xs| ==> HashedEq(xs[k], b.items[k])
  }

  /** A value as a dict key sees it: `True == 1` and `hash(True) == hash(1)`,
      so a boolean is the number it equals. */
  function KeyValue(v: Value): (r: Value)
    ensures !v.Bool? ==> r == v
    ensures v.Bool? ==> r == Int(if v.b then 1 else 0)
    ensures Numeric(r) == Numeric(v)
  {
    if v.Bool? then Int(if v.b then 1 else 0) else v
  }

  /** Two values are equal keys exactly when Python finds them `==`. */
  lemma KeyValueEq(a: Value, b: Value)
    ensures KeyValue(a) == KeyValue(b) <==> PyEq(a, b)
  {
  }

  /** A hashed value with every boolean replaced by its number. */
  function KeyForm(h: Hashed): (r: Hashed)
    ensures h.Leaf? ==> r == Leaf(KeyValue(h.v))
    ensures h.Tuple? ==> r.Tuple? && |r.items| == |h.items|
    decreases h
  {
    match h
    case Leaf(v) => Leaf(KeyValue(v))
    case Tuple(items) => Tuple(seq(|items|, k requires 0 <= k < |items| => KeyForm(items[k])))
  }

  /** Two hashed values have the same key form exactly when Python's dict
      treats them as the same key. */
  lemma {:induction false} KeyFormEq(a: Hashed, b: Hashed)
    ensures KeyForm(a) == KeyForm(b) <==> HashedEq(a, b)
    decreases a
  {
    match a
    case Leaf(v) =>
      if b.Leaf? {
        KeyValueEq(v, b.v);
      }
    case Tuple(xs) =>
      if b.Tuple? && |xs| == |b.items| {
        forall k | 0 <= k < |xs|
          ensures KeyForm(xs[k]) == KeyForm(b.items[k]) <==> HashedEq(xs[k], b.items[k])
        {
          KeyFormEq(xs[k], b.items[k]);
        }
        if HashedEq(a, b) {
          assert KeyForm(a).items == KeyForm(b).items;
        } else if KeyForm(a) == KeyForm(b) {
          forall k | 0 <= k < |xs|
            ensures HashedEq(xs[k], b.items[k])
          {
            assert KeyForm(a).items[k] == KeyForm(b).items[k];
          }
        }
      }
  }

  /** The key a memoised call is stored under: its positional arguments
      hashed, and its keyword arguments sorted by name, then hashed, each
      in the form the cache dict compares keys in. */
  datatype Key = Key(positional: seq<Hashed>, keywords: Hashed)

  function CacheKey(args: seq<Arg>, kwargs: seq<(string, Arg)>): (k: Key)
    ensures |k.positional| == |args| && k.keywords.Tuple? && |k.keywords.items| == |kwargs|
    ensures forall i :: 0 <= i < |args| ==> k.positional[i] == KeyForm(Hash(args[i]))
    ensures k.keywords == KeyForm(Hash(Mapping(kwargs)))
  {
    var hashed := HashDicts(args);
    Key(seq(|hashed|, i requires 0 <= i < |hashed| => KeyForm(hashed[i])), KeyForm(Hash(Mapping(kwargs))))
  }

  /** Two calls share a cache entry exactly when their hashed arguments are
      `==` in Python, item by item. */
  lemma CacheKeySame(args: seq<Arg>, kwargs: seq<(string, Arg)>, args2: seq<Arg>, kwargs2: seq<(string, Arg)>)
    ensures CacheKey(args, kwargs) == CacheKey(args2, kwargs2)
            <==> |args| == |args2|
                 && (forall i :: 0 <= i < |args| ==> HashedEq(Hash(args[i]), Hash(args2[i])))
                 && HashedEq(Hash(Mapping(kwargs)), Hash(Mapping(kwargs2)))
  {
    var k, k2 := CacheKey(args, kwargs), CacheKey(args2, kwargs2);
    KeyFormEq(Hash(Mapping(kwargs)), Hash(Mapping(kwargs2)));
    if |args| == |args2| {
      forall i | 0 <= i < |args|
        ensures k.positional[i] == k2.positional[i] <==> HashedEq(Hash(args[i]), Hash(args2[i]))
      {
        KeyFormEq(Hash(args[i]), Hash(args2[i]));
      }
      if (forall i :: 0 <= i < |args| ==> HashedEq(Hash(args[i]), Hash(args2[i]))) {
        assert k.positional == k2.positional;
      }
    }
  }

  /** `f(1)` and `f(True)` are the same call to the cache. */
  lemma TrueIsOne()
    ensures CacheKey([Atom(Int(1))], []) == CacheKey([Atom(Bool(true))], [])
  {
    CacheKeySame([Atom(Int(1))], [], [Atom(Bool(true))], []);
    assert HashedEq(Hash(Atom(Int(1))), Hash(Atom(Bool(true))));
    assert HashedEq(Hash(Mapping([])), Hash(Mapping([])));
  }

  /** The key does not depend on the order the keyword arguments came in. */
  lemma CacheKeyOrder(args: seq<Arg>, kwargs: seq<(string, Arg)>, reordered: seq<(string, Arg)>)
    requires multiset(kwargs) == multiset(reordered)
    requires Seqs.KeysDistinct(kwargs, EntryKey)
    ensures CacheKey(args, kwargs) == CacheKey(args, reordered)
  {
    DictOrderInsensitive(kwargs, reordered);
  }

  /** Positional arguments hash item by item, in order. */
  lemma HashDictsItems(args: seq<Arg>, k: nat)
    requires k < |args|
    ensures HashDicts(args)[k] == Hash(args[k])
  {
  }
}
