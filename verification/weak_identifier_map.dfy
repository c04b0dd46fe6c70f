/**
  A two-way map between objects and small positive integer identifiers,
  with a counter that hands out fresh identifiers and wraps around at the
  largest value of the identifier type (a signed 32-bit int).
*/
module WeakIdentifierMap {
  import opened Wrappers

  /** The largest identifier: the maximum of a signed 32-bit int. */
  const MaxId := 0x7FFF_FFFF

  datatype IdMap<T(==)> = IdMap(objToId: map<T, int>, idToObj: map<int, T>, lastId: int)

  /**
    The map's invariant: the two maps are inverse to each other, every
    identifier lies in 1..MaxId (never 0, never negative), and the counter
    lies in 0..MaxId.
  */
  predicate Valid<T(==)>(m: IdMap<T>)
  {
    && 0 <= m.lastId <= MaxId
    && (forall o :: o in m.objToId ==>
          && 1 <= m.objToId[o] <= MaxId
          && m.objToId[o] in m.idToObj
          && m.idToObj[m.objToId[o]] == o)
    && (forall i :: i in m.idToObj ==>
          && m.idToObj[i] in m.objToId
          && m.objToId[m.idToObj[i]] == i)
  }

  /** The map before any identifier has been handed out. */
  function Empty<T(==)>(): (m: IdMap<T>)
    ensures Valid(m) && |m.objToId| == 0 && |m.idToObj| == 0
  {
    IdMap(map[], map[], 0)
  }

  /**
    Advances the counter and returns its new value. At the maximum the
    counter restarts so that the value after MaxId is 1.
  */
  function Next<T(==)>(m: IdMap<T>): (r: (int, IdMap<T>))
    requires 0 <= m.lastId <= MaxId
    ensures 1 <= r.0 <= MaxId
    ensures r.0 == m.lastId % MaxId + 1
    ensures r.1 == m.(lastId := r.0)
  {
    var last := if m.lastId == MaxId then 0 else m.lastId;
    (last + 1, m.(lastId := last + 1))
  }

  /** Below the maximum, the counter simply counts up. */
  lemma NextCountsUp<T>(m: IdMap<T>)
    requires 0 <= m.lastId < MaxId
    ensures Next(m).0 == m.lastId + 1
  {
  }

  /**
    Records `o` under `id`, unless `id` is already taken, in which case it
    fails and changes nothing.
  */
  function Put<T(==)>(m: IdMap<T>, o: T, id: int): (r: (bool, IdMap<T>))
    requires o !in m.objToId
    ensures r.0 <==> id !in m.idToObj
    ensures !r.0 ==> r.1 == m
    ensures r.0 ==> r.1 == IdMap(m.objToId[o := id], m.idToObj[id := o], m.lastId)
  {
    if id in m.idToObj then (false, m)
    else (true, IdMap(m.objToId[o := id], m.idToObj[id := o], m.lastId))
  }

  /** A successful put of an identifier in range keeps the map valid. */
  lemma PutKeepsValid<T>(m: IdMap<T>, o: T, id: int)
    requires Valid(m) && o !in m.objToId && 1 <= id <= MaxId
    ensures Valid(Put(m, o, id).1)
  {
  }

  /** The object recorded under `id`, if any. */
  function Lookup<T(==)>(m: IdMap<T>, id: int): (r: Option<T>)
    ensures r.Some? <==> id in m.idToObj
    ensures r.Some? ==> r.value == m.idToObj[id]
  {
    if id in m.idToObj then Some(m.idToObj[id]) else None
  }

  /**
    Every identifier a valid map can hold is one of 1..MaxId, so while
    fewer than MaxId are taken, some identifier in that range is free.
  */
  lemma FreeIdentifierExists<T>(m: IdMap<T>) returns (f: int)
    requires Valid(m) && |m.idToObj| < MaxId
    ensures 1 <= f <= MaxId && f !in m.idToObj
  {
    f := Spare(m.idToObj.Keys, MaxId);
  }

  /** A set of fewer than n integers, all in 1..n, leaves one of them out. */
  lemma Spare(taken: set<int>, n: nat) returns (f: int)
    requires forall i :: i in taken ==> 1 <= i <= n
    requires |taken| < n
    ensures 1 <= f <= n && f !in taken
  {
    var all := Range(n);
    assert taken <= all;
    var spare := all - taken;
    assert |spare| == |all| - |taken| by {
      assert all * taken == taken;
    }
    f :| f in spare;
  }

  /** The integers 1..n, a set of n elements. */
  function Range(n: nat): (r: set<int>)
    ensures forall i :: i in r <==> 1 <= i <= n
    ensures |r| == n
  {
    if n == 0 then {} else Range(n - 1) + {n}
  }

  /**
    The identifier of `o`: the one it already has, or else the first
    value of the counter that is not taken, recorded for `o`; the counter
    is left at that value. Every value the counter hands out before it
    (those fewer steps away, by `Distance`) was taken. The source loops for
    ever when all identifiers are taken; this model requires a free one.
  */
  method Identifier<T(==)>(m: IdMap<T>, o: T) returns (id: int, m': IdMap<T>)
    requires Valid(m)
    requires o in m.objToId || |m.idToObj| < MaxId
    ensures Valid(m')
    ensures 1 <= id <= MaxId
    ensures Lookup(m', id) == Some(o)
    ensures o in m.objToId ==> id == m.objToId[o] && m' == m
    ensures o !in m.objToId ==>
      && id !in m.idToObj
      && m'.objToId == m.objToId[o := id]
      && m'.idToObj == m.idToObj[id := o]
      && m'.lastId == id
      && (forall f :: 1 <= f <= MaxId && Distance(m.lastId, f) < Distance(m.lastId, id) ==> f in m.idToObj)
    ensures o !in m.objToId && Next(m).0 !in m.idToObj ==> id == Next(m).0
  {
    if o in m.objToId {
      return m.objToId[o], m;
    }
    ghost var free := FreeIdentifierExists(m);
    ghost var steps := 0;
    m' := m;
    var done := false;
    id := 0;
    while !done
      invariant m'.objToId == m.objToId && m'.idToObj == m.idToObj
      invariant 0 <= m'.lastId <= MaxId
      invariant steps <= Distance(m.lastId, free)
      invariant !done ==> Distance(m.lastId, m'.lastId % MaxId + 1) == steps
      invariant done ==> 1 <= id <= MaxId && id !in m.idToObj && m'.lastId == id
      invariant done ==> Distance(m.lastId, id) == steps
      invariant forall f :: 1 <= f <= MaxId && Distance(m.lastId, f) < steps ==> f in m.idToObj
      decreases !done, Distance(m.lastId, free) - steps
    {
      var (next, advanced) := Next(m');
      id := next;
      var (ok, stored) := Put(advanced, o, id);
      if ok {
        m' := advanced;
        done := true;
      } else {
        SkipTaken(m, free, id, steps);
        m' := stored;
        steps := steps + 1;
      }
    }
    m' := IdMap(m.objToId[o := id], m.idToObj[id := o], id);
    PutKeepsValid(m.(lastId := id), o, id);
  }

  /** How many steps of the counter, from `last`, until it hands out `f`. */
  function Distance(last: int, f: int): (d: nat)
    requires 0 <= last <= MaxId && 1 <= f <= MaxId
    ensures d == 0 <==> last % MaxId + 1 == f
  {
    var l := last % MaxId;
    if f - 1 >= l then f - 1 - l else f - 1 - l + MaxId
  }

  /** Different identifiers are different numbers of steps away. */
  lemma DistanceInjective(last: int, f: int, g: int)
    requires 0 <= last <= MaxId && 1 <= f <= MaxId && 1 <= g <= MaxId
    ensures Distance(last, f) == Distance(last, g) <==> f == g
  {
  }

  /**
    A taken value `id`, `steps` away, is not the free one: one more value
    is known taken, and the counter is one step further from the start.
  */
  lemma SkipTaken<T>(m: IdMap<T>, free: int, id: int, steps: nat)
    requires 0 <= m.lastId <= MaxId && 1 <= free <= MaxId && 1 <= id <= MaxId
    requires free !in m.idToObj && id in m.idToObj
    requires steps <= Distance(m.lastId, free) && Distance(m.lastId, id) == steps
    requires forall f :: 1 <= f <= MaxId && Distance(m.lastId, f) < steps ==> f in m.idToObj
    ensures steps + 1 <= Distance(m.lastId, free)
    ensures Distance(m.lastId, id % MaxId + 1) == steps + 1
    ensures forall f :: 1 <= f <= MaxId && Distance(m.lastId, f) < steps + 1 ==> f in m.idToObj
  {
    DistanceInjective(m.lastId, id, free);
    DistanceStep(m.lastId, id);
    forall f | 1 <= f <= MaxId && Distance(m.lastId, f) < steps + 1
      ensures f in m.idToObj
    {
      if Distance(m.lastId, f) == steps {
        DistanceInjective(m.lastId, f, id);
      }
    }
  }

  /** Short of a full turn, the value after `f` is one step further away. */
  lemma DistanceStep(last: int, f: int)
    requires 0 <= last <= MaxId && 1 <= f <= MaxId
    requires Distance(last, f) < MaxId - 1
    ensures Distance(last, f % MaxId + 1) == Distance(last, f) + 1
  {
  }

  /**
    Removes `o` and its identifier from both maps; every other entry is
    left as it was.
  */
  function ObjectDestroyed<T(==)>(m: IdMap<T>, o: T): (r: IdMap<T>)
    ensures r.lastId == m.lastId
    ensures o !in r.objToId
    ensures o in m.objToId ==> m.objToId[o] !in r.idToObj
    ensures r.objToId.Keys == m.objToId.Keys - {o}
    ensures forall p :: p in r.objToId ==> r.objToId[p] == m.objToId[p]
    ensures forall i :: i in r.idToObj ==> i in m.idToObj && r.idToObj[i] == m.idToObj[i]
    ensures o in m.objToId ==> r.idToObj == m.idToObj - {m.objToId[o]}
    ensures o !in m.objToId ==> r == m
  {
    if o in m.objToId then
      var id := m.objToId[o];
      IdMap(m.objToId - {o}, m.idToObj - {id}, m.lastId)
    else
      m
  }

  /** Removing an object keeps the map valid, and the other objects keep their identifiers. */
  lemma ObjectDestroyedKeepsValid<T>(m: IdMap<T>, o: T)
    requires Valid(m)
    ensures Valid(ObjectDestroyed(m, o))
    ensures forall i :: i in m.idToObj && m.idToObj[i] != o ==> Lookup(ObjectDestroyed(m, o), i) == Lookup(m, i)
  {
  }

  /** In a valid map both directions hold the same number of entries. */
  lemma {:induction false} ValidSizesAgree<T>(m: IdMap<T>)
    requires Valid(m)
    ensures |m.objToId| == |m.idToObj|
    decreases |m.objToId|
  {
    if |m.objToId| == 0 {
      NoObjectsNoIdentifiers(m);
    } else {
      var o :| o in m.objToId;
      var smaller := Shrink(m, o);
      ValidSizesAgree(smaller);
    }
  }

  lemma NoObjectsNoIdentifiers<T>(m: IdMap<T>)
    requires Valid(m) && |m.objToId| == 0
    ensures |m.idToObj| == 0
  {
    assert m.objToId.Keys == {};
    forall i | i in m.idToObj
      ensures false
    {
    }
    assert m.idToObj.Keys == {};
  }

  /** Destroying a recorded object removes exactly one entry from each direction. */
  lemma Shrink<T>(m: IdMap<T>, o: T) returns (smaller: IdMap<T>)
    requires Valid(m) && o in m.objToId
    ensures Valid(smaller)
    ensures |smaller.objToId| == |m.objToId| - 1 && |smaller.idToObj| == |m.idToObj| - 1
  {
    var id := m.objToId[o];
    ObjectDestroyedKeepsValid(m, o);
    smaller := ObjectDestroyed(m, o);
    assert smaller.objToId == m.objToId - {o};
    assert smaller.idToObj == m.idToObj - {id};
    RemoveOneSize(m.objToId, o);
    RemoveOneSize(m.idToObj, id);
  }

  lemma RemoveOneSize<K, V>(mp: map<K, V>, k: K)
    requires k in mp
    ensures |mp - {k}| == |mp| - 1
  {
    assert (mp - {k}).Keys == mp.Keys - {k};
  }
}
