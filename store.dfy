/** The ordered key-value engine underneath the adapter (LevelDB behind cgo),
    reduced to its interface: a strictly sorted sequence of key/value entries,
    point lookup, an atomic batch of puts and deletes applied in order, and
    the cursor's seek. */
module OrderedStore {
  import opened Base

  type Entries = seq<(string, Bytes)>

  /** Keys strictly increase, so each key occurs at most once. */
  ghost predicate Sorted(es: Entries)
  {
    forall i, j :: 0 <= i < j < |es| ==> Less(es[i].0, es[j].0)
  }

  /** Every key of `es` is above `x`. */
  ghost predicate Above(es: Entries, x: string)
  {
    forall i :: 0 <= i < |es| ==> Less(x, es[i].0)
  }

  /** The engine's point read: the value stored under `k`, or nil. */
  function Lookup(es: Entries, k: string): (r: Option<Bytes>)
    ensures r.Some? ==> exists i :: 0 <= i < |es| && es[i] == (k, r.value)
  {
    if es == [] then None
    else if es[0].0 == k then Some(es[0].1)
    else Lookup(es[1..], k)
  }

  /** A key that no entry carries reads as nil. */
  lemma {:induction false} LookupMissing(es: Entries, k: string)
    requires forall i :: 0 <= i < |es| ==> es[i].0 != k
    ensures Lookup(es, k) == None
  {
    if es != [] {
      LookupMissing(es[1..], k);
    }
  }

  /** The binding's point read as written: every non-ok status of the
      engine's Get, NotFound included, becomes an error, so a missing key
      comes back as an error and never as nil. */
  function BindingGet(es: Entries, k: string): (r: Result<Option<Bytes>>)
    ensures r.Err? <==> Lookup(es, k).None?
    ensures r.Ok? ==> r.value.Some? && r.value == Lookup(es, k)
  {
    match Lookup(es, k)
    case None => Err(NotFound)
    case Some(v) => Ok(Some(v))
  }

  /** As written, the binding never reports a missing key as nil: reading a
      key that no entry carries fails, where the point read gives nil. */
  lemma BindingGetMissing(es: Entries, k: string)
    requires forall i :: 0 <= i < |es| ==> es[i].0 != k
    ensures BindingGet(es, k) == Err(NotFound) && Lookup(es, k) == None
  {
    LookupMissing(es, k);
  }

  lemma {:induction false} LookupAbove(es: Entries, x: string)
    requires Above(es, x)
    ensures Lookup(es, x) == None
  {
    if es != [] {
      LessIrreflexive(x);
      LookupAbove(es[1..], x);
    }
  }

  /** One operation of a write batch. */
  datatype Op = Put(key: string, value: Bytes) | Delete(key: string)

  function Insert(es: Entries, k: string, v: Bytes): Entries
  {
    if es == [] then [(k, v)]
    else if es[0].0 == k then [(k, v)] + es[1..]
    else if Less(k, es[0].0) then [(k, v)] + es
    else [es[0]] + Insert(es[1..], k, v)
  }

  function Remove(es: Entries, k: string): Entries
  {
    if es == [] then []
    else if es[0].0 == k then es[1..]
    else [es[0]] + Remove(es[1..], k)
  }

  lemma {:induction false} InsertAbove(es: Entries, k: string, v: Bytes, x: string)
    requires Above(es, x) && Less(x, k)
    ensures Above(Insert(es, k, v), x)
  {
    if es != [] && es[0].0 != k && !Less(k, es[0].0) {
      InsertAbove(es[1..], k, v, x);
    }
  }

  lemma {:induction false} RemoveAbove(es: Entries, k: string, x: string)
    requires Above(es, x)
    ensures Above(Remove(es, k), x)
  {
    if es != [] && es[0].0 != k {
      RemoveAbove(es[1..], k, x);
    }
  }

  lemma SortedHead(es: Entries)
    requires Sorted(es) && es != []
    ensures Above(es[1..], es[0].0) && Sorted(es[1..])
  {
  }

  lemma {:induction false} SortedCons(e: (string, Bytes), es: Entries)
    requires Above(es, e.0) && Sorted(es)
    ensures Sorted([e] + es)
  {
    var s := [e] + es;
    forall i, j | 0 <= i < j < |s| ensures Less(s[i].0, s[j].0) {
      if i > 0 {
        assert s[i] == es[i - 1] && s[j] == es[j - 1];
      } else {
        assert s[j] == es[j - 1];
      }
    }
  }

  /** A put replaces the value under its key, and only there. */
  lemma {:induction false} InsertSpec(es: Entries, k: string, v: Bytes)
    requires Sorted(es)
    ensures Sorted(Insert(es, k, v))
    ensures forall j :: Lookup(Insert(es, k, v), j) == if j == k then Some(v) else Lookup(es, j)
  {
    if es == [] {
    } else if es[0].0 == k {
      SortedHead(es);
      SortedCons((k, v), es[1..]);
      forall j | j != k ensures Lookup(Insert(es, k, v), j) == Lookup(es, j) {
        assert Insert(es, k, v)[1..] == es[1..];
      }
    } else if Less(k, es[0].0) {
      SortedHead(es);
      forall i | 0 <= i < |es| ensures Less(k, es[i].0) {
        if i > 0 { LessTransitive(k, es[0].0, es[i].0); }
      }
      SortedCons((k, v), es);
      forall j ensures Lookup(Insert(es, k, v), j) == if j == k then Some(v) else Lookup(es, j) {
        assert Insert(es, k, v)[1..] == es;
      }
    } else {
      SortedHead(es);
      InsertSpec(es[1..], k, v);
      LessTotal(k, es[0].0);
      InsertAbove(es[1..], k, v, es[0].0);
      SortedCons(es[0], Insert(es[1..], k, v));
      forall j ensures Lookup(Insert(es, k, v), j) == if j == k then Some(v) else Lookup(es, j) {
        assert Insert(es, k, v)[1..] == Insert(es[1..], k, v);
      }
    }
  }

  /** A delete removes its key, and only it. */
  lemma {:induction false} RemoveSpec(es: Entries, k: string)
    requires Sorted(es)
    ensures Sorted(Remove(es, k))
    ensures forall j :: Lookup(Remove(es, k), j) == if j == k then None else Lookup(es, j)
  {
    if es == [] {
    } else if es[0].0 == k {
      SortedHead(es);
      LookupAbove(es[1..], k);
    } else {
      SortedHead(es);
      RemoveSpec(es[1..], k);
      RemoveAbove(es[1..], k, es[0].0);
      SortedCons(es[0], Remove(es[1..], k));
      forall j ensures Lookup(Remove(es, k), j) == if j == k then None else Lookup(es, j) {
        assert Remove(es, k)[1..] == Remove(es[1..], k);
      }
    }
  }

  function ApplyOp(es: Entries, op: Op): Entries
  {
    match op
    case Put(k, v) => Insert(es, k, v)
    case Delete(k) => Remove(es, k)
  }

  /** The engine's atomic batch write: the operations take effect in order. */
  function Write(es: Entries, ops: seq<Op>): Entries
  {
    if ops == [] then es else ApplyOp(Write(es, ops[..|ops| - 1]), ops[|ops| - 1])
  }

  /** What the last operation on `k` in `ops` leaves there: None when no
      operation names `k`, Some(None) for a delete, Some(Some(v)) for a put. */
  function Effect(ops: seq<Op>, k: string): Option<Option<Bytes>>
  {
    if ops == [] then None
    else
      var last := ops[|ops| - 1];
      if last.key == k then Some(if last.Put? then Some(last.value) else None)
      else Effect(ops[..|ops| - 1], k)
  }

  lemma EffectAppend(ops: seq<Op>, op: Op, k: string)
    ensures Effect(ops + [op], k) ==
      if op.key == k then Some(if op.Put? then Some(op.value) else None) else Effect(ops, k)
  {
    assert (ops + [op])[..|ops|] == ops;
  }

  lemma {:induction false} EffectUntouched(ops: seq<Op>, k: string)
    requires forall i :: 0 <= i < |ops| ==> ops[i].key != k
    ensures Effect(ops, k) == None
  {
    if ops != [] {
      EffectUntouched(ops[..|ops| - 1], k);
    }
  }

  /** A batch write keeps the store sorted; afterwards each key holds what the
      batch's last operation on it left, and every other key is unchanged. */
  lemma {:induction false} WriteSpec(es: Entries, ops: seq<Op>, k: string)
    requires Sorted(es)
    ensures Sorted(Write(es, ops))
    ensures Lookup(Write(es, ops), k) ==
      match Effect(ops, k)
      case None => Lookup(es, k)
      case Some(v) => v
  {
    if ops != [] {
      var init := ops[..|ops| - 1];
      WriteSpec(es, init, k);
      match ops[|ops| - 1]
      case Put(key, v) => InsertSpec(Write(es, init), key, v);
      case Delete(key) => RemoveSpec(Write(es, init), key);
    }
  }

  /** The cursor's seek: the index of the first entry whose key is at least `k`. */
  function Seek(es: Entries, k: string): (i: nat)
    ensures i <= |es|
    ensures forall j :: 0 <= j < i ==> Less(es[j].0, k)
    ensures i < |es| ==> !Less(es[i].0, k)
  {
    if es == [] || !Less(es[0].0, k) then 0 else 1 + Seek(es[1..], k)
  }

  /** In a sorted store, everything from the seek position on is at least `k`. */
  lemma SeekSorted(es: Entries, k: string)
    requires Sorted(es)
    ensures forall j :: Seek(es, k) <= j < |es| ==> !Less(es[j].0, k)
  {
    var i := Seek(es, k);
    forall j | i < j < |es| ensures !Less(es[j].0, k) {
      if Less(es[j].0, k) {
        LessTransitive(es[i].0, es[j].0, k);
      }
    }
  }
}
