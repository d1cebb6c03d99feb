/** A datastore that reports its writes to observers, filtered by key and fanned out. */
module Tees {
  import opened Common

  type Key = string
  type Value = seq<Byte>
  type Content = map<Key, Value>

  /** One operation of a batch, in the order it was added. */
  datatype BatchOp = Put(key: Key, value: Value) | Delete(key: Key)

  datatype BatchItem = BatchItem(key: Key, value: Value)

  // ---------- what the datastore and an observer make of a batch ----------

  function ApplyOp(m: Content, op: BatchOp): Content {
    match op
    case Put(k, v) => m[k := v]
    case Delete(k) => m - {k}
  }

  /** The datastore applies a committed batch in order. */
  function ApplyOps(m: Content, ops: seq<BatchOp>): Content {
    if ops == [] then m else ApplyOp(ApplyOps(m, ops[..|ops| - 1]), ops[|ops| - 1])
  }

  function PutAll(m: Content, puts: seq<BatchItem>): Content {
    if puts == [] then m
    else
      var last := puts[|puts| - 1];
      PutAll(m, puts[..|puts| - 1])[last.key := last.value]
  }

  function Keys(deletes: seq<Key>): set<Key> {
    set k | k in deletes
  }

  /** An observer replays all puts of a batch and then all deletes. */
  function Replay(m: Content, puts: seq<BatchItem>, deletes: seq<Key>): Content {
    PutAll(m, puts) - Keys(deletes)
  }

  function Puts(ops: seq<BatchOp>): seq<BatchItem> {
    if ops == [] then []
    else
      var front, op := Puts(ops[..|ops| - 1]), ops[|ops| - 1];
      if op.Put? then front + [BatchItem(op.key, op.value)] else front
  }

  function Deletes(ops: seq<BatchOp>): seq<Key> {
    if ops == [] then []
    else
      var front, op := Deletes(ops[..|ops| - 1]), ops[|ops| - 1];
      if op.Delete? then front + [op.key] else front
  }

  /** The last operation of a batch on a key. */
  function LastOn(ops: seq<BatchOp>, k: Key): Option<BatchOp> {
    if ops == [] then None
    else if ops[|ops| - 1].key == k then Some(ops[|ops| - 1])
    else LastOn(ops[..|ops| - 1], k)
  }

  /** What the datastore holds for a key after a batch depends on the last operation on it. */
  lemma {:induction false} ApplyOpsAt(m: Content, ops: seq<BatchOp>, k: Key)
    ensures var m', last := ApplyOps(m, ops), LastOn(ops, k);
            match last
            case None => (k in m' <==> k in m) && (k in m ==> m'[k] == m[k])
            case Some(Put(_, v)) => k in m' && m'[k] == v
            case Some(Delete(_)) => k !in m'
    ensures LastOn(ops, k).Some? ==> LastOn(ops, k).value.key == k
  {
    if ops != [] {
      ApplyOpsAt(m, ops[..|ops| - 1], k);
    }
  }

  lemma {:induction false} PutAllAt(m: Content, ops: seq<BatchOp>, k: Key)
    ensures var m', last := PutAll(m, Puts(ops)), LastOn(ops, k);
            && (last.None? ==> k !in Deletes(ops) && (k in m' <==> k in m) && (k in m ==> m'[k] == m[k]))
            && (last.Some? && last.value.Put? ==> k in m' && m'[k] == last.value.value)
            && (last.Some? && last.value.Delete? ==> k in Deletes(ops))
  {
    if ops != [] {
      PutAllAt(m, ops[..|ops| - 1], k);
      var op := ops[|ops| - 1];
      if op.Put? {
        assert Puts(ops)[..|Puts(ops)| - 1] == Puts(ops[..|ops| - 1]);
      }
    }
  }

  /** A key deleted by the batch and put again after that. */
  predicate PutAfterDelete(ops: seq<BatchOp>, k: Key) {
    k in Deletes(ops) && LastOn(ops, k).Some? && LastOn(ops, k).value.Put?
  }

  /** An observer that saw the batch holds what the datastore holds exactly when no key was put again after a delete. */
  lemma ReplayMatchesIff(m: Content, ops: seq<BatchOp>)
    ensures Replay(m, Puts(ops), Deletes(ops)) == ApplyOps(m, ops) <==> forall k :: !PutAfterDelete(ops, k)
  {
    var r, s := Replay(m, Puts(ops), Deletes(ops)), ApplyOps(m, ops);
    forall k
      ensures PutAfterDelete(ops, k) ==> k in s && k !in r
      ensures !PutAfterDelete(ops, k) ==> (k in r <==> k in s) && (k in r ==> r[k] == s[k])
    {
      ApplyOpsAt(m, ops, k);
      PutAllAt(m, ops, k);
    }
    if forall k :: !PutAfterDelete(ops, k) {
      assert forall k :: k in r <==> k in s;
      assert r == s;
    }
  }

  // ---------- filtering ----------

  type Pattern = Key -> bool

  function Restrict(m: Content, pattern: Pattern): Content {
    map k | k in m && pattern(k) :: m[k]
  }

  function FilterPuts(puts: seq<BatchItem>, pattern: Pattern): seq<BatchItem> {
    if puts == [] then []
    else
      var front, p := FilterPuts(puts[..|puts| - 1], pattern), puts[|puts| - 1];
      if pattern(p.key) then front + [p] else front
  }

  function FilterKeys(keys: seq<Key>, pattern: Pattern): (fs: seq<Key>)
    ensures forall k :: k in fs <==> k in keys && pattern(k)
  {
    if keys == [] then []
    else
      var front, k := FilterKeys(keys[..|keys| - 1], pattern), keys[|keys| - 1];
      assert keys == keys[..|keys| - 1] + [k];
      if pattern(k) then front + [k] else front
  }

  /** Filtering goes item by item and keeps the order. */
  lemma {:induction false} FilterPutsConcat(puts: seq<BatchItem>, more: seq<BatchItem>, pattern: Pattern)
    ensures FilterPuts(puts + more, pattern) == FilterPuts(puts, pattern) + FilterPuts(more, pattern)
    decreases |more|
  {
    if more == [] {
      assert puts + more == puts;
    } else {
      var front := more[..|more| - 1];
      assert (puts + more)[..|puts + more| - 1] == puts + front;
      FilterPutsConcat(puts, front, pattern);
    }
  }

  lemma {:induction false} FilterKeysConcat(keys: seq<Key>, more: seq<Key>, pattern: Pattern)
    ensures FilterKeys(keys + more, pattern) == FilterKeys(keys, pattern) + FilterKeys(more, pattern)
    decreases |more|
  {
    if more == [] {
      assert keys + more == keys;
    } else {
      var front := more[..|more| - 1];
      assert (keys + more)[..|keys + more| - 1] == keys + front;
      FilterKeysConcat(keys, front, pattern);
    }
  }

  lemma FilterOne(p: BatchItem, k: Key, pattern: Pattern)
    ensures FilterPuts([p], pattern) == if pattern(p.key) then [p] else []
    ensures FilterKeys([k], pattern) == if pattern(k) then [k] else []
  {
    assert [p][..0] == [] && [k][..0] == [];
    assert FilterPuts([], pattern) + [p] == [p] && FilterKeys([], pattern) + [k] == [k];
  }

  lemma RestrictPut(m: Content, k: Key, v: Value, pattern: Pattern)
    ensures Restrict(m[k := v], pattern) == if pattern(k) then Restrict(m, pattern)[k := v] else Restrict(m, pattern)
  {
  }

  lemma {:induction false} RestrictPutAll(m: Content, puts: seq<BatchItem>, pattern: Pattern)
    ensures Restrict(PutAll(m, puts), pattern) == PutAll(Restrict(m, pattern), FilterPuts(puts, pattern))
  {
    if puts != [] {
      var front, p := puts[..|puts| - 1], puts[|puts| - 1];
      RestrictPutAll(m, front, pattern);
      RestrictPut(PutAll(m, front), p.key, p.value, pattern);
      if pattern(p.key) {
        assert FilterPuts(puts, pattern)[..|FilterPuts(puts, pattern)| - 1] == FilterPuts(front, pattern);
      }
    }
  }

  /** Filtering a batch and replaying it on the restriction is replaying it and restricting. */
  lemma RestrictReplay(m: Content, puts: seq<BatchItem>, deletes: seq<Key>, pattern: Pattern)
    ensures Restrict(Replay(m, puts, deletes), pattern)
            == Replay(Restrict(m, pattern), FilterPuts(puts, pattern), FilterKeys(deletes, pattern))
  {
    RestrictPutAll(m, puts, pattern);
    var a, b := PutAll(m, puts), PutAll(Restrict(m, pattern), FilterPuts(puts, pattern));
    assert b == Restrict(a, pattern);
  }

  /** What an observer behind a filter holds after a batch is its part of the store exactly when no matching key was put again after a delete. */
  lemma FilteredReplayMatchesIff(m: Content, ops: seq<BatchOp>, pattern: Pattern)
    ensures Restrict(Replay(m, Puts(ops), Deletes(ops)), pattern) == Restrict(ApplyOps(m, ops), pattern) <==>
            forall k :: pattern(k) ==> !PutAfterDelete(ops, k)
  {
    var r, s := Replay(m, Puts(ops), Deletes(ops)), ApplyOps(m, ops);
    forall k
      ensures PutAfterDelete(ops, k) ==> k in s && k !in r
      ensures !PutAfterDelete(ops, k) ==> (k in r <==> k in s) && (k in r ==> r[k] == s[k])
    {
      ApplyOpsAt(m, ops, k);
      PutAllAt(m, ops, k);
    }
    if forall k :: pattern(k) ==> !PutAfterDelete(ops, k) {
      assert Restrict(r, pattern) == Restrict(s, pattern);
    } else {
      var k :| pattern(k) && PutAfterDelete(ops, k);
      assert k in Restrict(s, pattern) && k !in Restrict(r, pattern);
    }
  }

  // ---------- observers ----------

  /** An observer that keeps what it was told, replaying puts before deletes as every tee of the repository does. */
  class MirrorTee {
    var m: Content

    constructor (m: Content)
      ensures this.m == m
    {
      this.m := m;
    }

    method OnPut(key: Key, value: Value)
      modifies this
      ensures m == old(m)[key := value]
    {
      m := m[key := value];
    }

    method OnDelete(key: Key)
      modifies this
      ensures m == old(m) - {key}
    {
      m := m - {key};
    }

    method OnBatch(puts: seq<BatchItem>, deletes: seq<Key>)
      modifies this
      ensures m == Replay(old(m), puts, deletes)
    {
      for i := 0 to |puts|
        invariant m == PutAll(old(m), puts[..i])
      {
        assert puts[..i + 1][..i] == puts[..i];
        OnPut(puts[i].key, puts[i].value);
      }
      assert puts[..|puts|] == puts;
      ghost var full := m;
      for i := 0 to |deletes|
        invariant m == full - Keys(deletes[..i])
      {
        assert deletes[..i + 1] == deletes[..i] + [deletes[i]];
        OnDelete(deletes[i]);
      }
      assert deletes[..|deletes|] == deletes;
    }
  }

  class FilterTee {
    const inner: MirrorTee
    const pattern: Pattern

    constructor (inner: MirrorTee, pattern: Pattern)
      ensures this.inner == inner && this.pattern == pattern
    {
      this.inner, this.pattern := inner, pattern;
    }

    method OnPut(key: Key, value: Value)
      modifies inner
      ensures inner.m == if pattern(key) then old(inner.m)[key := value] else old(inner.m)
    {
      if pattern(key) {
        inner.OnPut(key, value);
      }
    }

    method OnDelete(key: Key)
      modifies inner
      ensures inner.m == if pattern(key) then old(inner.m) - {key} else old(inner.m)
    {
      if pattern(key) {
        inner.OnDelete(key);
      }
    }

    method OnBatch(puts: seq<BatchItem>, deletes: seq<Key>)
      modifies inner
      ensures inner.m == Replay(old(inner.m), FilterPuts(puts, pattern), FilterKeys(deletes, pattern))
    {
      var filteredPuts: seq<BatchItem> := [];
      for i := 0 to |puts|
        invariant filteredPuts == FilterPuts(puts[..i], pattern) && unchanged(inner)
      {
        assert puts[..i + 1][..i] == puts[..i];
        if pattern(puts[i].key) {
          filteredPuts := filteredPuts + [puts[i]];
        }
      }
      var filteredDeletes: seq<Key> := [];
      for i := 0 to |deletes|
        invariant filteredDeletes == FilterKeys(deletes[..i], pattern) && unchanged(inner)
      {
        assert deletes[..i + 1][..i] == deletes[..i];
        if pattern(deletes[i]) {
          filteredDeletes := filteredDeletes + [deletes[i]];
        }
      }
      assert puts[..|puts|] == puts && deletes[..|deletes|] == deletes;
      if |filteredPuts| > 0 || |filteredDeletes| > 0 {
        inner.OnBatch(filteredPuts, filteredDeletes);
      }
    }
  }

  /** A change to what observers mirror, as a whole multi tee is told of it. */
  datatype Change = PutOne(key: Key, value: Value) | DeleteOne(key: Key) | Batched(puts: seq<BatchItem>, deletes: seq<Key>)

  function Changed(m: Content, c: Change): Content {
    match c
    case PutOne(k, v) => m[k := v]
    case DeleteOne(k) => m - {k}
    case Batched(puts, deletes) => Replay(m, puts, deletes)
  }

  class MultiTee {
    var tees: set<FilterTee>

    ghost function Inners(): set<object>
      reads this, tees
    {
      set t | t in tees :: t.inner
    }

    /** No two members share their observer. */
    ghost predicate Valid()
      reads this, tees
    {
      forall t, u :: t in tees && u in tees && t.inner == u.inner ==> t == u
    }

    /** Each member holds the part of m that its pattern lets through. */
    ghost predicate Mirrors(m: Content)
      reads this, tees, Inners()
    {
      forall t :: t in tees ==> t.inner.m == Restrict(m, t.pattern)
    }

    constructor ()
      ensures Valid() && tees == {}
    {
      tees := {};
    }

    /** Tells every member, in any order; OnPut, OnDelete and OnBatch differ only in what is told. */
    method Tell(change: Change, ghost m: Content)
      requires Valid() && Mirrors(m)
      modifies Inners()
      ensures Mirrors(Changed(m, change))
    {
      var todo := tees;
      while todo != {}
        invariant todo <= tees
        invariant forall t :: t in todo ==> t.inner.m == Restrict(m, t.pattern)
        invariant forall t :: t in tees && t !in todo ==> t.inner.m == Restrict(Changed(m, change), t.pattern)
      {
        var t :| t in todo;
        match change {
          case PutOne(k, v) => t.OnPut(k, v);
          case DeleteOne(k) => t.OnDelete(k);
          case Batched(puts, deletes) =>
            RestrictReplay(m, puts, deletes, t.pattern);
            t.OnBatch(puts, deletes);
        }
        assert t.inner.m == Restrict(Changed(m, change), t.pattern);
        todo := todo - {t};
      }
    }
  }

  // ---------- the teed datastore ----------

  /** A datastore whose operations succeed or fail as ok says; a failed one leaves it unchanged. */
  class DSTee {
    var store: Content
    const tee: MultiTee

    ghost predicate Valid()
      reads this, tee, tee.tees, tee.Inners()
    {
      tee.Valid() && tee.Mirrors(store)
    }

    constructor (tee: MultiTee, store: Content)
      requires tee.Valid() && tee.Mirrors(store)
      ensures Valid() && this.store == store && this.tee == tee
    {
      this.store, this.tee := store, tee;
    }

    method Put(key: Key, value: Value, ok: bool) returns (done: bool)
      requires Valid()
      modifies this`store, tee.Inners()
      ensures Valid() && done == ok
      ensures store == if ok then old(store)[key := value] else old(store)
    {
      if !ok {
        return false;
      }
      ghost var before := store;
      store := store[key := value];
      tee.Tell(PutOne(key, value), before);
      done := true;
    }

    method Delete(key: Key, ok: bool) returns (done: bool)
      requires Valid()
      modifies this`store, tee.Inners()
      ensures Valid() && done == ok
      ensures store == if ok then old(store) - {key} else old(store)
    {
      if !ok {
        return false;
      }
      ghost var before := store;
      store := store - {key};
      tee.Tell(DeleteOne(key), before);
      done := true;
    }
  }

  class DSTeeBatch {
    const ds: DSTee
    var ops: seq<BatchOp>        // held by the wrapped batch
    var puts: seq<BatchItem>     // held by the tee batch
    var deletes: seq<Key>

    /** The tee batch remembers what the wrapped batch was given. */
    ghost predicate Synced()
      reads this
    {
      puts == Puts(ops) && deletes == Deletes(ops)
    }

    constructor (ds: DSTee)
      ensures Synced() && ops == [] && this.ds == ds
    {
      this.ds, ops, puts, deletes := ds, [], [], [];
    }

    method Put(key: Key, value: Value, ok: bool) returns (done: bool)
      modifies this
      ensures done == ok && ops == if ok then old(ops) + [BatchOp.Put(key, value)] else old(ops)
      ensures old(Synced()) ==> Synced()
    {
      if !ok {
        return false;
      }
      assert (ops + [BatchOp.Put(key, value)])[..|ops|] == ops;
      ops := ops + [BatchOp.Put(key, value)];
      puts := puts + [BatchItem(key, value)];
      done := true;
    }

    method Delete(key: Key, ok: bool) returns (done: bool)
      modifies this
      ensures done == ok && ops == if ok then old(ops) + [BatchOp.Delete(key)] else old(ops)
      ensures old(Synced()) ==> Synced()
    {
      if !ok {
        return false;
      }
      assert (ops + [BatchOp.Delete(key)])[..|ops|] == ops;
      ops := ops + [BatchOp.Delete(key)];
      deletes := deletes + [key];
      done := true;
    }

    /**
     A commit that succeeds leaves every observer with its part of a replay of the tee
     batch; in step with the store exactly when that replay is what the store applied.
     */
    method Commit(ok: bool) returns (done: bool)
      requires ds.Valid()
      modifies ds`store, ds.tee.Inners()
      ensures done == ok
      ensures !ok ==> ds.Valid() && ds.store == old(ds.store)
      ensures ok ==> ds.store == ApplyOps(old(ds.store), ops)
      ensures ok ==> ds.tee.Valid() && ds.tee.Mirrors(Replay(old(ds.store), puts, deletes))
      ensures ok && Synced() ==>
                (ds.Valid() <==> forall t, k :: t in ds.tee.tees && t.pattern(k) ==> !PutAfterDelete(ops, k))
    {
      if !ok {
        return false;
      }
      ghost var before := ds.store;
      ds.store := ApplyOps(ds.store, ops);
      ds.tee.Tell(Batched(puts, deletes), before);
      forall t | t in ds.tee.tees
        ensures Restrict(Replay(before, Puts(ops), Deletes(ops)), t.pattern) == Restrict(ApplyOps(before, ops), t.pattern) <==>
                forall k :: t.pattern(k) ==> !PutAfterDelete(ops, k)
      {
        FilteredReplayMatchesIff(before, ops, t.pattern);
      }
      done := true;
    }

    /** Reset forgets the tee's lists only: the wrapped batch keeps its operations. */
    method Reset()
      modifies this
      ensures puts == [] && deletes == [] && ops == old(ops)
      ensures Synced() <==> ops == []
    {
      puts, deletes := [], [];
      NothingRemembered(ops);
    }
  }

  lemma NothingRemembered(ops: seq<BatchOp>)
    ensures Puts(ops) == [] && Deletes(ops) == [] <==> ops == []
  {
  }
}
