/** The memoising decorator `Cache` of `distributed_jobman/utils.py`.

    Every decorated function gets a table of results, keyed by its hashed
    arguments, each result stamped with the time it was computed; a result
    older than the timeout is recomputed. The tables are dict objects: the
    class keeps one per function name, and each decorator instance keeps in
    `self.cache` the table of the function it decorated last. A wrapper
    reads `self.cache` of its instance at every call, so all the wrappers
    one instance made share the table of its latest function. The model
    keeps a heap of tables addressed by reference and a cell per instance.
    Times are read from a clock the caller passes in. */
module Memo {
  import opened Values
  import opened Wrappers
  import Utils

  type Ref = nat
  type Inst = nat

  /** A stored result and the time it was stored. */
  datatype Entry = Entry(value: Value, stamp: int)

  type Table = map<Utils.Key, Entry>

  /** A decorator instance `Cache(timeout)`: its timeout and `self.cache`,
      unset until it decorates a function. */
  datatype Instance = Instance(timeout: int, cache: Option<Ref>)

  /** The class-level state: the tables, which table each function name is
      bound to, each name's timeout, and the decorator instances. */
  datatype Memo = Memo(heap: map<Ref, Table>, caches: map<string, Ref>, timeouts: map<string, int>,
                       insts: map<Inst, Instance>, next: Ref, nextInst: Inst)

  /** What a decorated function holds: its name and the decorator instance
      that made it. */
  datatype Wrapper = Wrapper(name: string, inst: Inst)

  /** Every name is bound to a table of its own, every instance's table
      exists, and fresh references are fresh. */
  predicate Valid(m: Memo) {
    && m.caches.Keys == m.timeouts.Keys
    && (forall n | n in m.caches :: m.caches[n] in m.heap)
    && (forall r | r in m.heap :: r < m.next)
    && (forall n, n' | n in m.caches && n' in m.caches && n != n' :: m.caches[n] != m.caches[n'])
    && (forall i | i in m.insts :: i < m.nextInst)
    && (forall i | i in m.insts && m.insts[i].cache.Some? :: m.insts[i].cache.value in m.heap)
  }

  /** The wrapper's instance has a table to read. */
  predicate Bound(m: Memo, w: Wrapper) {
    w.inst in m.insts && m.insts[w.inst].cache.Some? && m.insts[w.inst].cache.value in m.heap
  }

  /** The table a call of the wrapper reads and writes: its instance's
      `self.cache` at the time of the call. */
  function TableOf(m: Memo, w: Wrapper): (r: Ref)
    requires Bound(m, w)
    ensures r in m.heap
  {
    m.insts[w.inst].cache.value
  }

  /** The timeout a call of the wrapper compares with: `self.timeout`. */
  function TimeoutOf(m: Memo, w: Wrapper): int
    requires w.inst in m.insts
  {
    m.insts[w.inst].timeout
  }

  /** The wrapper uses the table the class binds to its name. */
  predicate Attached(m: Memo, w: Wrapper) {
    Bound(m, w) && w.name in m.caches && m.caches[w.name] == TableOf(m, w)
  }

  function Empty(): (m: Memo)
    ensures Valid(m) && m.insts == map[]
  {
    Memo(map[], map[], map[], map[], 0, 0)
  }

  // ---------------------------------------------------------------------
  // decorating and calling

  /** `Cache(timeout)`: a new instance that has decorated nothing. */
  function NewInstance(m: Memo, timeout: int): (r: (Inst, Memo))
    requires Valid(m)
    ensures Valid(r.1) && r.0 !in m.insts && r.1.insts == m.insts[r.0 := Instance(timeout, None)]
    ensures r.1.heap == m.heap && r.1.caches == m.caches && r.1.timeouts == m.timeouts
  {
    (m.nextInst, m.(insts := m.insts[m.nextInst := Instance(timeout, None)], nextInst := m.nextInst + 1))
  }

  /** `inst(f)`: a new empty table, bound to the function's name and stored
      in the instance's `self.cache`. Every wrapper the instance made
      before now reads the new table too. */
  function Decorate(m: Memo, inst: Inst, name: string): (r: (Wrapper, Memo))
    requires Valid(m) && inst in m.insts
    ensures Valid(r.1) && r.0 == Wrapper(name, inst) && Attached(r.1, r.0)
    ensures r.1.timeouts[name] == TimeoutOf(r.1, r.0) == TimeoutOf(m, r.0)
    ensures TableOf(r.1, r.0) !in m.heap && r.1.heap[TableOf(r.1, r.0)] == map[]
    ensures forall t | t in m.heap :: t in r.1.heap && r.1.heap[t] == m.heap[t]
    ensures forall w: Wrapper | w.inst == inst :: Bound(r.1, w) && TableOf(r.1, w) == TableOf(r.1, r.0)
    ensures forall w: Wrapper | Bound(m, w) && w.inst != inst :: Bound(r.1, w) && TableOf(r.1, w) == TableOf(m, w)
    ensures forall n | n in m.caches && n != name :: n in r.1.caches && r.1.caches[n] == m.caches[n]
  {
    DecorateValid(m, inst, name);
    (Wrapper(name, inst), Decorated(m, inst, name))
  }

  /** The state after `inst` decorates `name`. */
  function Decorated(m: Memo, inst: Inst, name: string): Memo
    requires inst in m.insts
  {
    var t := m.next;
    m.(heap := m.heap[t := map[]], caches := m.caches[name := t], timeouts := m.timeouts[name := m.insts[inst].timeout],
       insts := m.insts[inst := Instance(m.insts[inst].timeout, Some(t))], next := t + 1)
  }

  lemma DecorateValid(m: Memo, inst: Inst, name: string)
    requires Valid(m) && inst in m.insts
    ensures Valid(Decorated(m, inst, name))
  {
    var m1 := Decorated(m, inst, name);
    forall a, b | a in m1.caches && b in m1.caches && a != b
      ensures m1.caches[a] != m1.caches[b]
    {
      if a != name && b != name {
        assert m1.caches[a] == m.caches[a] && m1.caches[b] == m.caches[b];
      } else if a == name {
        assert m.caches[b] in m.heap;
      } else {
        assert m.caches[a] in m.heap;
      }
    }
  }

  /** Whether the table holds a result for `key` that is not too old at
      time `now`: a result exactly `timeout` old still counts. */
  predicate Fresh(table: Table, key: Utils.Key, now: int, timeout: int) {
    key in table && !(now - table[key].stamp > timeout)
  }

  /** One call of a wrapper at time `now`. On a hit the stored result is
      returned and nothing changes; on a miss, `computed` (what the
      function returns) is stored with the time `done` at which it
      returned. */
  function Call(m: Memo, w: Wrapper, key: Utils.Key, now: int, computed: Value, done: int): (r: (Value, Memo))
    requires Bound(m, w)
    ensures r.1.heap.Keys == m.heap.Keys && forall t | t in m.heap && t != TableOf(m, w) :: r.1.heap[t] == m.heap[t]
    ensures Fresh(m.heap[TableOf(m, w)], key, now, TimeoutOf(m, w)) ==> r == (m.heap[TableOf(m, w)][key].value, m)
    ensures !Fresh(m.heap[TableOf(m, w)], key, now, TimeoutOf(m, w)) ==>
              r.0 == computed && r.1.heap[TableOf(m, w)] == m.heap[TableOf(m, w)][key := Entry(computed, done)]
    ensures r.1.caches == m.caches && r.1.timeouts == m.timeouts && r.1.insts == m.insts
    ensures r.1.next == m.next && r.1.nextInst == m.nextInst
  {
    var ref := m.insts[w.inst].cache.value;
    var table := m.heap[ref];
    if key in table && !(now - table[key].stamp > m.insts[w.inst].timeout) then (table[key].value, m)
    else (computed, m.(heap := m.heap[ref := table[key := Entry(computed, done)]]))
  }

  /** A computed result is served again, without recomputing, as long as
      it is no more than `timeout` old. */
  lemma CallRemembers(m: Memo, w: Wrapper, key: Utils.Key, now: int, computed: Value, done: int,
                      later: int, other: Value, done2: int)
    requires Bound(m, w) && !Fresh(m.heap[TableOf(m, w)], key, now, TimeoutOf(m, w))
    requires later - done <= TimeoutOf(m, w)
    ensures var (v, m1) := Call(m, w, key, now, computed, done);
            Call(m1, w, key, later, other, done2) == (v, m1)
  {
  }

  /** Calls leave every binding, and so every wrapper's attachment, as it
      was. */
  lemma CallKeepsValid(m: Memo, w: Wrapper, key: Utils.Key, now: int, computed: Value, done: int)
    requires Valid(m) && Bound(m, w)
    ensures Valid(Call(m, w, key, now, computed, done).1)
  {
  }

  /** One instance decorating `f` and then `g`: `f`'s wrapper stores its
      result in `g`'s table, where `g`'s wrapper finds it under the same
      key and returns it without calling `g`; the table bound to `f`'s
      name stays empty. */
  lemma SharedInstance(m: Memo, inst: Inst, f: string, g: string, key: Utils.Key,
                       now: int, fromF: Value, done: int, later: int, fromG: Value, done2: int)
    requires Valid(m) && inst in m.insts && f != g
    requires later - done <= m.insts[inst].timeout
    ensures var (wf, m1) := Decorate(m, inst, f);
            var (wg, m2) := Decorate(m1, inst, g);
            var (x, m3) := Call(m2, wf, key, now, fromF, done);
            x == fromF && Call(m3, wg, key, later, fromG, done2).0 == fromF
            && m3.heap[m3.caches[f]] == map[]
  {
    var (wf, m1) := Decorate(m, inst, f);
    var (wg, m2) := Decorate(m1, inst, g);
    var t := TableOf(m2, wg);
    assert TableOf(m2, wf) == t && m2.heap[t] == map[];
    assert m2.caches[f] != t && m2.heap[m2.caches[f]] == map[];
    CallRemembers(m2, wf, key, now, fromF, done, later, fromG, done2);
  }

  // ---------------------------------------------------------------------
  // collecting

  /** The entries of a table younger than `timeout` at time `now`. */
  function Young(table: Table, now: int, timeout: int): (r: Table)
    ensures forall key :: key in r <==> key in table && now - table[key].stamp < timeout
    ensures forall key | key in r :: r[key] == table[key]
  {
    map key | key in table && now - table[key].stamp < timeout :: table[key]
  }

  /** `collect` as written: for each name it builds a new table of the
      young entries and rebinds the name to it. The instances keep their
      `self.cache`. */
  function CollectAsWritten(m: Memo, names: seq<string>, now: int): (r: Memo)
    requires Valid(m) && forall k :: 0 <= k < |names| ==> names[k] in m.caches
    ensures Valid(r) && r.caches.Keys == m.caches.Keys && r.timeouts == m.timeouts && r.insts == m.insts
    ensures forall t | t in m.heap :: t in r.heap && r.heap[t] == m.heap[t]
    ensures forall n | n in m.caches && n !in names :: r.caches[n] == m.caches[n]
    ensures forall n | n in names :: r.caches[n] !in m.heap
    decreases |names|
  {
    if |names| == 0 then m
    else
      var m1 := Rebind(m, names[0], now);
      assert forall k :: 0 <= k < |names[1..]| ==> names[1..][k] == names[k + 1];
      CollectAsWritten(m1, names[1..], now)
  }

  /** One step of `collect` as written: `name` is bound to a new table
      holding the young entries of its old one. */
  function Rebind(m: Memo, n: string, now: int): (r: Memo)
    requires Valid(m) && n in m.caches
    ensures Valid(r) && r.caches.Keys == m.caches.Keys && r.timeouts == m.timeouts && r.insts == m.insts
    ensures forall t | t in m.heap :: t in r.heap && r.heap[t] == m.heap[t]
    ensures forall n' | n' in m.caches && n' != n :: r.caches[n'] == m.caches[n']
    ensures r.caches[n] !in m.heap && r.heap[r.caches[n]] == Young(m.heap[m.caches[n]], now, m.timeouts[n])
  {
    var young := Young(m.heap[m.caches[n]], now, m.timeouts[n]);
    RebindValid(m, n, young);
    m.(heap := m.heap[m.next := young], caches := m.caches[n := m.next], next := m.next + 1)
  }

  /** Binding a name to a new table keeps the state valid. */
  lemma RebindValid(m: Memo, n: string, table: Table)
    requires Valid(m) && n in m.caches
    ensures Valid(m.(heap := m.heap[m.next := table], caches := m.caches[n := m.next], next := m.next + 1))
  {
    var m1 := m.(heap := m.heap[m.next := table], caches := m.caches[n := m.next], next := m.next + 1);
    forall a, b | a in m1.caches && b in m1.caches && a != b
      ensures m1.caches[a] != m1.caches[b]
    {
      if a != n && b != n {
        assert m1.caches[a] == m.caches[a] && m1.caches[b] == m.caches[b];
      } else if a == n {
        assert m.caches[b] in m.heap;
      } else {
        assert m.caches[a] in m.heap;
      }
    }
  }

  /** The defect: collecting evicts nothing from the table a wrapper
      reads, and every wrapper attached before is detached after, so later
      results go to a table no collection ever reaches. */
  lemma CollectAsWrittenDetaches(m: Memo, names: seq<string>, now: int, w: Wrapper)
    requires Valid(m) && forall k :: 0 <= k < |names| ==> names[k] in m.caches
    requires Attached(m, w) && w.name in names
    ensures var r := CollectAsWritten(m, names, now);
            Bound(r, w) && TableOf(r, w) == TableOf(m, w) && r.heap[TableOf(m, w)] == m.heap[TableOf(m, w)]
    ensures !Attached(CollectAsWritten(m, names, now), w)
  {
  }

  /** `collect` as evidently intended: each name's own table loses the
      entries that have timed out, and every binding stays. */
  function Collect(m: Memo, names: seq<string>, now: int): (r: Memo)
    requires Valid(m) && forall k :: 0 <= k < |names| ==> names[k] in m.caches
    ensures Valid(r) && r.caches == m.caches && r.timeouts == m.timeouts && r.insts == m.insts
    ensures r.heap.Keys == m.heap.Keys
    decreases |names|
  {
    if |names| == 0 then m
    else
      var n := names[0];
      var young := Young(m.heap[m.caches[n]], now, m.timeouts[n]);
      Collect(m.(heap := m.heap[m.caches[n] := young]), names[1..], now)
  }

  /** After collecting, the table of each name collected holds exactly its
      entries younger than the name's timeout; other tables are untouched. */
  lemma {:induction false} CollectEvicts(m: Memo, names: seq<string>, now: int, n: string)
    requires Valid(m) && forall k :: 0 <= k < |names| ==> names[k] in m.caches
    requires n in m.caches
    ensures var r := Collect(m, names, now);
            r.heap[m.caches[n]] == if n in names then Young(m.heap[m.caches[n]], now, m.timeouts[n]) else m.heap[m.caches[n]]
    decreases |names|
  {
    if |names| > 0 {
      var n0 := names[0];
      var m1 := m.(heap := m.heap[m.caches[n0] := Young(m.heap[m.caches[n0]], now, m.timeouts[n0])]);
      CollectEvicts(m1, names[1..], now, n);
      if n != n0 {
        assert m.caches[n] != m.caches[n0];
      }
      if n == n0 && n in names[1..] {
        YoungTwice(m.heap[m.caches[n]], now, m.timeouts[n]);
      }
      if n in names && n != n0 {
        assert n in names[1..];
      }
    }
  }

  /** Collecting twice at the same time evicts nothing more. */
  lemma YoungTwice(table: Table, now: int, timeout: int)
    ensures Young(Young(table, now, timeout), now, timeout) == Young(table, now, timeout)
  {
  }

  /** The boundary: an entry exactly `timeout` old is still served by a
      call but is evicted by a collection at the same time. */
  lemma BoundaryAge(m: Memo, w: Wrapper, key: Utils.Key, now: int, computed: Value, done: int)
    requires Valid(m) && Attached(m, w) && m.timeouts[w.name] == TimeoutOf(m, w)
    requires key in m.heap[TableOf(m, w)] && now - m.heap[TableOf(m, w)][key].stamp == TimeoutOf(m, w)
    ensures Call(m, w, key, now, computed, done).0 == m.heap[TableOf(m, w)][key].value
    ensures key !in Collect(m, [w.name], now).heap[TableOf(m, w)]
  {
    CollectEvicts(m, [w.name], now, w.name);
  }
}
