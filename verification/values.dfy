/** The dynamically typed values the program stores and passes around: the
    rows of the job store, experiment descriptions and parsed scheduler
    output are all dictionaries from strings to such values. */
module Values {
  import opened Wrappers
  import Text

  datatype Value =
    | VNone
    | Bool(b: bool)
    | Int(i: int)
    | Str(s: string)
    | List(items: seq<Value>)
    | Dict(fields: map<string, Value>)

  /** A Python dictionary with string keys. */
  type Record = map<string, Value>

  /** Python truthiness. */
  predicate Truthy(v: Value) {
    match v
    case VNone => false
    case Bool(b) => b
    case Int(i) => i != 0
    case Str(s) => |s| > 0
    case List(items) => |items| > 0
    case Dict(fields) => |fields| > 0
  }

  /** The integer a value stands for in arithmetic: Python's `bool` is a
      subclass of `int`. */
  function Numeric(v: Value): (r: Option<int>)
    ensures r.Some? <==> v.Int? || v.Bool?
  {
    match v
    case Int(i) => Some(i)
    case Bool(b) => Some(if b then 1 else 0)
    case _ => None
  }

  /** Python's `==` on the values compared in this program: numbers by value
      (so `True == 1`), everything else structurally. */
  predicate PyEq(a: Value, b: Value) {
    if Numeric(a).Some? && Numeric(b).Some? then Numeric(a) == Numeric(b) else a == b
  }

  /** `str(v)` for scalars; containers are rendered by a placeholder. */
  function Render(v: Value): string {
    match v
    case VNone => "None"
    case Bool(b) => if b then "True" else "False"
    case Int(i) => Text.IntToString(i)
    case Str(s) => s
    case List(_) => "[...]"
    case Dict(_) => "{...}"
  }

  /** `key in v` for a string `key`: key membership in a dictionary,
      substring search in a string, element equality in a list. A number,
      a boolean or `None` cannot be searched and raises `TypeError`. */
  function In(key: string, v: Value): (r: Result<bool>)
    ensures r.Err? <==> !(v.Dict? || v.Str? || v.List?)
    ensures r.Err? ==> r.error == TypeError
    ensures v.Dict? ==> r == Ok(key in v.fields)
    ensures v.List? ==> r == Ok(exists k :: 0 <= k < |v.items| && v.items[k] == Str(key))
  {
    match v
    case Dict(fields) => Ok(key in fields)
    case Str(s) => Ok(Text.Contains(s, key))
    case List(items) => Ok(Str(key) in items)
    case _ => Err(TypeError)
  }

  /** `r[k]` on a dictionary. */
  function Get(r: Record, k: string): (v: Result<Value>)
    ensures v.Ok? <==> k in r
    ensures v.Ok? ==> v.value == r[k]
    ensures v.Err? ==> v.error == KeyError
  {
    if k in r then Ok(r[k]) else Err(KeyError)
  }

  /** `v[k]` on a value that ought to be a dictionary: any other value
      rejects a string subscript with a `TypeError`. */
  function Field(v: Value, k: string): (r: Result<Value>)
    ensures r.Ok? <==> v.Dict? && k in v.fields
    ensures r.Ok? ==> r.value == v.fields[k]
    ensures r.Err? ==> (r.error == KeyError <==> v.Dict?)
  {
    match v
    case Dict(fields) => Get(fields, k)
    case _ => Err(TypeError)
  }

  /** `r[p0][p1]...` along a path of keys, when every step exists. */
  function PathLookup(r: Record, path: seq<string>): Option<Value>
    decreases |path|
  {
    if |path| == 0 || path[0] !in r then None
    else if |path| == 1 then Some(r[path[0]])
    else match r[path[0]]
      case Dict(fields) => PathLookup(fields, path[1..])
      case _ => None
  }

  /** The value under a dotted key such as `"jobman.status"`, the way the
      store's equality filters address nested attributes. */
  function Dotted(r: Record, key: string): Option<Value> {
    PathLookup(r, Text.Split(key, "."))
  }

  // ---------------------------------------------------------------------
  // partial update of a stored row

  /** `update_simple(flatten(u))` applied to a row whose attributes are `a`:
      every leaf of `u` overwrites the attribute at the same path, nested
      dictionaries merge key by key, and everything else is kept. */
  function Merge(a: Record, u: Record): (r: Record)
    ensures r.Keys == a.Keys + u.Keys
    decreases Dict(u)
  {
    map k | k in a.Keys + u.Keys ::
      if k in u then
        match u[k]
        case Dict(fields) =>
          Dict(Merge(if k in a && a[k].Dict? then a[k].fields else map[], fields))
        case _ => u[k]
      else a[k]
  }

  /** Every leaf of `u` sits in `r` at the same path. */
  predicate Covers(r: Record, u: Record)
    decreases Dict(u)
  {
    forall k | k in u ::
      k in r &&
      match u[k]
      case Dict(fields) => r[k].Dict? && Covers(r[k].fields, fields)
      case _ => r[k] == u[k]
  }

  /** After a partial update the row holds every value the update set. */
  lemma {:induction false} MergeCovers(a: Record, u: Record)
    ensures Covers(Merge(a, u), u)
    decreases Dict(u)
  {
    var r := Merge(a, u);
    forall k | k in u && u[k].Dict?
      ensures Covers(r[k].fields, u[k].fields)
    {
      MergeCovers(if k in a && a[k].Dict? then a[k].fields else map[], u[k].fields);
    }
  }

  /** Attributes the update does not mention are left as they were. */
  lemma MergeKeeps(a: Record, u: Record, k: string)
    requires k in a && k !in u
    ensures Merge(a, u)[k] == a[k]
  {
  }

  /** A row that already holds every value of an update is unchanged by it. */
  lemma {:induction false} MergeCovered(a: Record, u: Record)
    requires Covers(a, u)
    ensures Merge(a, u) == a
    decreases Dict(u)
  {
    var r := Merge(a, u);
    forall k | k in a.Keys
      ensures r[k] == a[k]
    {
      if k in u && u[k].Dict? {
        MergeCovered(a[k].fields, u[k].fields);
      }
    }
  }

  /** Applying the same partial update twice is the same as applying it once. */
  lemma MergeIdempotent(a: Record, u: Record)
    ensures Merge(Merge(a, u), u) == Merge(a, u)
  {
    MergeCovers(a, u);
    MergeCovered(Merge(a, u), u);
  }
}
