/** The versioned state database over the ordered store: point reads, batched
    reads, namespace-bounded range scans, atomic batch application with the
    save point, and the provider that caches one database per channel id. */
module FabricAdapter {
  import opened Base
  import opened OrderedStore
  import opened Encoding
  import opened CompositeKeyCodec

  /** The reserved store key of the save point. */
  const SavePointKey: string := "savepoint"

  /** The save-point key holds no NUL, so it is never a composite key and
      never parses as one: range scans skip it. */
  lemma SavePointKeyIsNotComposite()
    ensures Decompose(SavePointKey).Err?
    ensures forall ns, key :: ConstructCompositeKey(ns, key) != SavePointKey
  {
    assert Sep !in SavePointKey by {
      forall i | 0 <= i < |SavePointKey| ensures SavePointKey[i] != Sep {
      }
    }
    CountSepZero(SavePointKey);
  }

  // ---------------------------------------------------------------------------
  // What ApplyUpdates commits

  /** Namespaces and keys free of NUL: their composite keys are distinct and
      parse back, so the batch's outcome does not depend on map order. */
  predicate WellFormedBatch(batch: UpdateBatch)
  {
    forall ns :: ns in batch.updates ==>
      Sep !in ns && forall key :: key in batch.updates[ns] ==> Sep !in key
  }

  /** Store key `k` is the composite key of an entry of `batch`. */
  predicate Named(batch: UpdateBatch, k: string)
  {
    exists ns, key :: ns in batch.updates && key in batch.updates[ns] && ConstructCompositeKey(ns, key) == k
  }

  /** What a batch entry leaves under its key: nothing for a nil value (a
      delete), the encoded value otherwise. */
  function StoredForm(vv: VersionedValue): Option<Bytes>
  {
    if vv.value.None? then None else EncodeValue(Some(vv))
  }

  /** The batch operation staged for store key `k` once the namespaces in
      `doneNs`, and the keys `curKeys` of namespace `curNs`, have been staged. */
  function Staged(batch: UpdateBatch, doneNs: set<string>, curNs: string, curKeys: set<string>, k: string): Option<Option<Bytes>>
  {
    match Decompose(k)
    case Err(_) => None
    case Ok((ns, key)) =>
      if ns in batch.updates && key in batch.updates[ns] && (ns in doneNs || (ns == curNs && key in curKeys))
      then Some(StoredForm(batch.updates[ns][key]))
      else None
  }

  /** The value under store key `k` after `batch` and save point `h` have been
      committed over store contents `s`. */
  function Committed(s: Entries, batch: UpdateBatch, h: Option<Height>, k: string): Option<Bytes>
  {
    if k == SavePointKey && h.Some? then EncodeHeight(h)
    else
      match Staged(batch, batch.updates.Keys, "", {}, k)
      case None => Lookup(s, k)
      case Some(v) => v
  }

  /** Each batch entry is committed under its composite key: a nil value is
      absent afterwards, any other value is stored encoded and reads back with
      its payload, metadata and version. */
  lemma CommittedEntry(s: Entries, batch: UpdateBatch, h: Option<Height>, ns: string, key: string)
    requires ns in batch.updates && key in batch.updates[ns]
    requires Sep !in ns && Sep !in key
    ensures var vv := batch.updates[ns][key];
      && (vv.value.None? ==> Committed(s, batch, h, ConstructCompositeKey(ns, key)) == None)
      && (vv.value.Some? ==> Committed(s, batch, h, ConstructCompositeKey(ns, key)) == EncodeValue(Some(vv)))
      && DecodeValue(Committed(s, batch, h, ConstructCompositeKey(ns, key)))
         == Ok(if vv.value.None? then None else Some(Normalized(vv)))
  {
    SavePointKeyIsNotComposite();
    ValueRoundTrip(Some(batch.updates[ns][key]));
  }

  /** Store keys that no batch entry names, other than the save point, keep
      their value. */
  lemma CommittedElsewhere(s: Entries, batch: UpdateBatch, h: Option<Height>, k: string)
    requires k != SavePointKey
    requires forall ns, key :: ns in batch.updates && key in batch.updates[ns] ==> ConstructCompositeKey(ns, key) != k
    ensures Committed(s, batch, h, k) == Lookup(s, k)
  {
    match Decompose(k)
    case Err(_) =>
    case Ok((ns, key)) =>
      assert k == ConstructCompositeKey(ns, key);
  }

  /** The save point after a commit: the new height, or the old record when
      the height is nil. */
  lemma CommittedSavePoint(s: Entries, batch: UpdateBatch, h: Option<Height>)
    ensures DecodeHeight(Committed(s, batch, h, SavePointKey))
         == if h.Some? then Ok(h) else DecodeHeight(Lookup(s, SavePointKey))
  {
    SavePointKeyIsNotComposite();
    HeightRoundTrip(h);
  }

  // ---------------------------------------------------------------------------
  // Range scans

  /** The scan of namespace `ns` bounded by `endKey` (empty: unbounded) hands
      out the entry stored under `k`. */
  predicate Admits(ns: string, endKey: string, k: string)
  {
    Decompose(k).Ok? && Decompose(k).value.0 == ns && (endKey == [] || Less(Decompose(k).value.1, endKey))
  }

  /** `k` is the composite key of an entry of `ns` with key in [startKey, endKey). */
  predicate InScan(ns: string, startKey: string, endKey: string, k: string)
  {
    Admits(ns, endKey, k) && !Less(Decompose(k).value.1, startKey)
  }

  /** The keys of the parseable entries of `es`, in order. */
  ghost function ScanKeys(es: Entries): seq<string>
  {
    if es == [] then []
    else
      var init := ScanKeys(es[..|es| - 1]);
      var d := Decompose(es[|es| - 1].0);
      if d.Ok? then init + [d.value.1] else init
  }

  /** Extending a stretch by one entry adds that entry's key if it parses. */
  lemma ScanKeysSnoc(es: Entries, lo: nat, hi: nat)
    requires lo <= hi < |es|
    ensures ScanKeys(es[lo..hi + 1]) == ScanKeys(es[lo..hi])
      + (if Decompose(es[hi].0).Ok? then [Decompose(es[hi].0).value.1] else [])
  {
    assert es[lo..hi + 1][..hi - lo] == es[lo..hi];
  }

  /** Entries that do not parse add nothing to the scan. */
  lemma {:induction false} ScanKeysSkip(es: Entries, lo: nat, mid: nat, hi: nat)
    requires lo <= mid <= hi <= |es|
    requires forall j :: mid <= j < hi ==> Decompose(es[j].0).Err?
    ensures ScanKeys(es[lo..hi]) == ScanKeys(es[lo..mid])
  {
    if mid < hi {
      ScanKeysSkip(es, lo, mid, hi - 1);
      ScanKeysSnoc(es, lo, hi - 1);
    }
  }

  lemma {:induction false} ScanKeysContains(es: Entries, j: nat)
    requires j < |es| && Decompose(es[j].0).Ok?
    ensures Decompose(es[j].0).value.1 in ScanKeys(es)
  {
    if j < |es| - 1 {
      ScanKeysContains(es[..|es| - 1], j);
    }
  }

  /** Each key of the scan of a stretch holding only entries of `ns` (and
      unparseable ones) is the key of one of its entries. */
  lemma {:induction false} ScanKeysOrigin(es: Entries, ns: string, endKey: string)
    requires forall j :: 0 <= j < |es| ==> Decompose(es[j].0).Err? || Admits(ns, endKey, es[j].0)
    ensures forall i :: 0 <= i < |ScanKeys(es)| ==>
      exists j :: 0 <= j < |es| && Decompose(es[j].0) == Ok((ns, ScanKeys(es)[i]))
  {
    if es != [] {
      var n := |es| - 1;
      var init := es[..n];
      ScanKeysOrigin(init, ns, endKey);
      var d := Decompose(es[n].0);
      var sk := ScanKeys(es);
      assert sk == ScanKeys(init) + (if d.Ok? then [d.value.1] else []);
      forall i | 0 <= i < |sk| ensures exists j :: 0 <= j < |es| && Decompose(es[j].0) == Ok((ns, sk[i])) {
        if i < |ScanKeys(init)| {
          var j :| 0 <= j < |init| && Decompose(init[j].0) == Ok((ns, ScanKeys(init)[i]));
          assert es[j] == init[j];
        } else {
          assert Decompose(es[n].0) == Ok((ns, sk[i]));
        }
      }
      assert forall i :: 0 <= i < |ScanKeys(es)| ==>
        exists j :: 0 <= j < |es| && Decompose(es[j].0) == Ok((ns, ScanKeys(es)[i]));
    } else {
      assert ScanKeys(es) == [];
    }
  }

  /** The scan of a sorted stretch of entries of `ns` hands out keys in
      strictly ascending order. */
  lemma {:induction false} ScanKeysAscending(es: Entries, ns: string, endKey: string)
    requires Sorted(es)
    requires forall j :: 0 <= j < |es| ==> Decompose(es[j].0).Err? || Admits(ns, endKey, es[j].0)
    ensures forall i, j :: 0 <= i < j < |ScanKeys(es)| ==> Less(ScanKeys(es)[i], ScanKeys(es)[j])
  {
    if es != [] {
      var n := |es| - 1;
      var init := es[..n];
      ScanKeysAscending(init, ns, endKey);
      var d := Decompose(es[n].0);
      if d.Ok? {
        var key := d.value.1;
        ScanKeysOrigin(init, ns, endKey);
        var sk := ScanKeys(es);
        assert sk == ScanKeys(init) + [key];
        forall i | 0 <= i < |sk| - 1 ensures Less(sk[i], key) {
          var j :| 0 <= j < |init| && Decompose(init[j].0) == Ok((ns, ScanKeys(init)[i]));
          assert Less(es[j].0, es[n].0);
          SameNamespaceOrder(ns, sk[i], key);
        }
      }
    }
  }

  /** What a scan hands out from a sorted stretch that starts at the seek
      position and holds only parseable entries of `ns` below `endKey` (and
      unparseable ones): keys at least `startKey`, below `endKey`, strictly
      ascending, each the key of an entry of `ns` in the stretch. */
  lemma ScanKeysInRange(es: Entries, ns: string, startKey: string, endKey: string)
    requires Sorted(es)
    requires forall j :: 0 <= j < |es| ==> !Less(es[j].0, ConstructCompositeKey(ns, startKey))
    requires forall j :: 0 <= j < |es| ==> Decompose(es[j].0).Err? || Admits(ns, endKey, es[j].0)
    ensures forall i :: 0 <= i < |ScanKeys(es)| ==>
      !Less(ScanKeys(es)[i], startKey) && (endKey != [] ==> Less(ScanKeys(es)[i], endKey))
    ensures forall i, j :: 0 <= i < j < |ScanKeys(es)| ==> Less(ScanKeys(es)[i], ScanKeys(es)[j])
    ensures forall i :: 0 <= i < |ScanKeys(es)| ==>
      exists j :: 0 <= j < |es| && Decompose(es[j].0) == Ok((ns, ScanKeys(es)[i]))
  {
    ScanKeysOrigin(es, ns, endKey);
    ScanKeysAscending(es, ns, endKey);
    var sk := ScanKeys(es);
    forall i | 0 <= i < |sk| ensures !Less(sk[i], startKey) && (endKey != [] ==> Less(sk[i], endKey)) {
      var j :| 0 <= j < |es| && Decompose(es[j].0) == Ok((ns, sk[i]));
      assert es[j].0 == ConstructCompositeKey(ns, sk[i]);
      SameNamespaceOrder(ns, sk[i], startKey);
    }
  }

  /** Where the scan stops is final: once a sorted store, read from the seek
      position, reaches a parseable entry of another namespace, or one of `ns`
      at or past `endKey`, no entry from there on belongs to the scan. */
  lemma ScanStopIsFinal(es: Entries, p: nat, ns: string, startKey: string, endKey: string)
    requires Sorted(es) && p < |es|
    requires !Less(es[p].0, ConstructCompositeKey(ns, startKey))
    requires Decompose(es[p].0).Ok? && !Admits(ns, endKey, es[p].0)
    ensures forall j :: p <= j < |es| ==> !InScan(ns, startKey, endKey, es[j].0)
  {
    var (ns', k') := Decompose(es[p].0).value;
    assert es[p].0 == ConstructCompositeKey(ns', k');
    forall j | p < j < |es| && InScan(ns, startKey, endKey, es[j].0) ensures false {
      var k := Decompose(es[j].0).value.1;
      assert es[j].0 == ConstructCompositeKey(ns, k);
      assert Less(es[p].0, es[j].0);
      CompositeOrder(ns', k', ns, k);
      if ns' == ns {
        // es[p] is at or past endKey, so es[j] is too
        SameNamespaceOrder(ns, k', k);
        if Less(k, endKey) {
          LessTransitive(k', k, endKey);
        }
      } else {
        // es[p] belongs to a later namespace than ns, and es[j] comes after it
        if es[p].0 == ConstructCompositeKey(ns, startKey) {
          PrefixUnique(ns, startKey, ns', k');
        }
        LessTotal(ConstructCompositeKey(ns, startKey), es[p].0);
        CompositeOrder(ns, startKey, ns', k');
        LessAsymmetric(ns, ns');
      }
    }
  }

  /** The write batch ApplyUpdates fills: for every entry of every namespace,
      in map order, a delete of its composite key when the value is nil and a
      put of the encoded value otherwise. Every key it names is the composite
      key of a batch entry, and for a well-formed batch each key ends up with the operation
      its batch entry calls for. */
  method FillWriteBatch(batch: UpdateBatch) returns (ops: seq<Op>)
    ensures forall i :: 0 <= i < |ops| ==> Named(batch, ops[i].key)
    ensures WellFormedBatch(batch) ==>
      forall k :: Effect(ops, k) == Staged(batch, batch.updates.Keys, "", {}, k)
  {
    ops := [];
    var pending := batch.updates.Keys;
    while pending != {}
      invariant pending <= batch.updates.Keys
      invariant forall i :: 0 <= i < |ops| ==> Named(batch, ops[i].key)
      invariant WellFormedBatch(batch) ==>
        forall k :: Effect(ops, k) == Staged(batch, batch.updates.Keys - pending, "", {}, k)
      decreases |pending|
    {
      var ns :| ns in pending;
      ghost var doneNs := batch.updates.Keys - pending;
      ops := FillNamespace(batch, doneNs, ns, ops);
      pending := pending - {ns};
      assert batch.updates.Keys - pending == doneNs + {ns};
    }
    assert batch.updates.Keys - pending == batch.updates.Keys;
  }

  /** The inner loop of FillWriteBatch: the operations for every entry of
      namespace `ns`, in map order, appended to `ops`. With the namespaces
      `doneNs` staged before, afterwards `ns` is staged as well. */
  method FillNamespace(batch: UpdateBatch, ghost doneNs: set<string>, ns: string, ops: seq<Op>) returns (ops': seq<Op>)
    requires ns in batch.updates
    requires forall i :: 0 <= i < |ops| ==> Named(batch, ops[i].key)
    requires WellFormedBatch(batch) ==> forall k :: Effect(ops, k) == Staged(batch, doneNs, "", {}, k)
    ensures forall i :: 0 <= i < |ops'| ==> Named(batch, ops'[i].key)
    ensures WellFormedBatch(batch) ==> forall k :: Effect(ops', k) == Staged(batch, doneNs + {ns}, "", {}, k)
  {
    ops' := ops;
    var nsUpdates := batch.updates[ns];
    var keys := nsUpdates.Keys;
    StageNamespaceStart(batch, doneNs, ns, ops);
    while keys != {}
      invariant keys <= nsUpdates.Keys
      invariant forall i :: 0 <= i < |ops'| ==> Named(batch, ops'[i].key)
      invariant WellFormedBatch(batch) ==>
        forall k :: Effect(ops', k) == Staged(batch, doneNs, ns, nsUpdates.Keys - keys, k)
      decreases |keys|
    {
      var key :| key in keys;
      var compositeKey := ConstructCompositeKey(ns, key);
      var versionedValue := nsUpdates[key];
      var op;
      if versionedValue.value.None? {
        op := Delete(compositeKey);
      } else {
        var encodedValue := EncodeValue(Some(versionedValue));
        op := Put(compositeKey, encodedValue.value);
      }
      StageStep(batch, doneNs, ns, nsUpdates.Keys - keys, key, ops', op);
      NamedStep(batch, ns, key, ops', op);
      ops' := ops' + [op];
      keys := keys - {key};
    }
    assert nsUpdates.Keys - keys == nsUpdates.Keys;
    StageNamespaceDone(batch, doneNs, ns, ops');
  }

  // ---------------------------------------------------------------------------
  // The per-channel database

  class FabricDB {
    const dbName: string
    /** The engine handle: the store's contents while open, None once closed. */
    var db: Option<Entries>

    ghost predicate Valid()
      reads this
    {
      db.Some? ==> Sorted(db.value)
    }

    /** Wraps a freshly opened engine handle. */
    constructor (dbName: string, contents: Entries)
      requires Sorted(contents)
      ensures Valid() && this.dbName == dbName && db == Some(contents)
    {
      this.dbName := dbName;
      db := Some(contents);
    }

    /** GetState: a missing key is absent without error; a stored encoding of
        `vv` reads back as `vv` with its version made explicit; the only error
        is a record that does not decode. */
    function GetState(namespace: string, key: string): (r: Result<Option<VersionedValue>>)
      reads this
      requires db.Some?
      ensures Lookup(db.value, ConstructCompositeKey(namespace, key)).None? ==> r == Ok(None)
      ensures forall vv :: (Lookup(db.value, ConstructCompositeKey(namespace, key)) == EncodeValue(Some(vv))
        ==> r == Ok(Some(Normalized(vv))))
      ensures r.Ok? && r.value.Some? ==> r.value.value.version.Some?
      ensures r.Err? ==> r.error == MalformedValue && Lookup(db.value, ConstructCompositeKey(namespace, key)).Some?
      ensures r.Err? <==> (Lookup(db.value, ConstructCompositeKey(namespace, key)).Some?
        && DecodeValue(Lookup(db.value, ConstructCompositeKey(namespace, key))).Err?)
    {
      ValueRoundTripAll();
      var value := Lookup(db.value, ConstructCompositeKey(namespace, key));
      if value.None? then Ok(None) else DecodeValue(value)
    }

    /** GetVersion: absent exactly when the key is absent; otherwise the
        stored version, (0, 0) for a value written without one. */
    function GetVersion(namespace: string, key: string): (r: Result<Option<Height>>)
      reads this
      requires db.Some?
      ensures r == Ok(None) <==> Lookup(db.value, ConstructCompositeKey(namespace, key)).None?
      ensures forall vv :: (Lookup(db.value, ConstructCompositeKey(namespace, key)) == EncodeValue(Some(vv))
        ==> r == Ok(Some(VersionOrZero(vv.version))))
      ensures r.Err? <==> GetState(namespace, key).Err?
    {
      match GetState(namespace, key)
      case Err(e) => Err(e)
      case Ok(None) => Ok(None)
      case Ok(Some(vv)) => Ok(vv.version)
    }

    /** GetStateMultipleKeys: one result per key, in the order of `keys`, each
        what GetState returns for it; the first failing read aborts the call. */
    method GetStateMultipleKeys(namespace: string, keys: seq<string>) returns (r: Result<seq<Option<VersionedValue>>>)
      requires db.Some?
      ensures r.Ok? <==> forall i :: 0 <= i < |keys| ==> GetState(namespace, keys[i]).Ok?
      ensures r.Ok? ==> |r.value| == |keys|
      ensures r.Ok? ==> forall i :: 0 <= i < |keys| ==> r.value[i] == GetState(namespace, keys[i]).value
      ensures r.Err? ==> exists i :: (0 <= i < |keys| && GetState(namespace, keys[i]) == Err(r.error)
        && forall j :: 0 <= j < i ==> GetState(namespace, keys[j]).Ok?)
    {
      var results: seq<Option<VersionedValue>> := [];
      for i := 0 to |keys|
        invariant |results| == i
        invariant forall j :: 0 <= j < i ==> GetState(namespace, keys[j]).Ok?
        invariant forall j :: 0 <= j < i ==> results[j] == GetState(namespace, keys[j]).value
      {
        var value := GetState(namespace, keys[i]);
        if value.Err? {
          return Err(value.error);
        }
        results := results + [value.value];
      }
      return Ok(results);
    }

    /** GetStateRangeScanIterator: a cursor over the store, sought to the
        composite key of (namespace, startKey). */
    method GetStateRangeScanIterator(namespace: string, startKey: string, endKey: string) returns (it: FabricIterator)
      requires Valid() && db.Some?
      ensures fresh(it) && it.Valid() && !it.closed && it.Yielded == []
      ensures it.snapshot == db.value && it.namespace == namespace
      ensures it.startKey == startKey && it.endKey == endKey
      ensures it.pos == Seek(db.value, ConstructCompositeKey(namespace, startKey))
    {
      it := new FabricIterator(db.value, namespace, startKey, endKey);
    }

    /** ApplyUpdates: stages a delete for every nil value and a put of the
        encoded value for every other entry, then the save point when the
        height is non-nil, and hands the whole batch to the engine at once.
        A failed write leaves the store as it was. */
    method ApplyUpdates(batch: UpdateBatch, height: Option<Height>, writeFails: bool) returns (r: Result<()>)
      requires Valid() && db.Some?
      modifies this
      ensures Valid() && db.Some?
      ensures r.Err? <==> writeFails
      ensures writeFails ==> db == old(db)
      ensures !writeFails && height.Some? ==> GetLatestSavePoint() == Ok(height)
      ensures !writeFails && height.None? ==> Lookup(db.value, SavePointKey) == Lookup(old(db).value, SavePointKey)
      ensures !writeFails ==> forall k :: k != SavePointKey && !Named(batch, k) ==> Lookup(db.value, k) == Lookup(old(db).value, k)
      ensures !writeFails && WellFormedBatch(batch) ==>
        forall k :: Lookup(db.value, k) == Committed(old(db).value, batch, height, k)
      ensures !writeFails && WellFormedBatch(batch) ==>
        forall ns, key :: ns in batch.updates && key in batch.updates[ns] ==>
          GetState(ns, key) == Ok(if batch.updates[ns][key].value.None? then None else Some(Normalized(batch.updates[ns][key])))
    {
      var ops := FillWriteBatch(batch);
      ghost var entryOps := ops;
      if height.Some? {
        var savePointValue := EncodeHeight(height);
        ops := ops + [Put(SavePointKey, savePointValue.value)];
      }
      if writeFails {
        return Err(WriteFailed);
      }
      var contents := db.value;
      CommitSpec(contents, batch, height, entryOps, ops);
      db := Some(Write(contents, ops));
      HeightRoundTrip(height);
      if WellFormedBatch(batch) {
        CommittedReadBack(contents, batch, height);
      }
      return Ok(());
    }

    /** After a commit, every entry of a well-formed batch reads back through
        GetState: absent for a delete, the normalized value otherwise. */
    lemma CommittedReadBack(s: Entries, batch: UpdateBatch, h: Option<Height>)
      requires db.Some? && WellFormedBatch(batch)
      requires forall k :: Lookup(db.value, k) == Committed(s, batch, h, k)
      ensures forall ns, key :: ns in batch.updates && key in batch.updates[ns] ==>
        GetState(ns, key) == Ok(if batch.updates[ns][key].value.None? then None else Some(Normalized(batch.updates[ns][key])))
    {
      forall ns, key | ns in batch.updates && key in batch.updates[ns]
        ensures GetState(ns, key) == Ok(if batch.updates[ns][key].value.None? then None else Some(Normalized(batch.updates[ns][key])))
      {
        CommittedEntry(s, batch, h, ns, key);
        var vv := batch.updates[ns][key];
        var compositeKey := ConstructCompositeKey(ns, key);
        assert Lookup(db.value, compositeKey) == Committed(s, batch, h, compositeKey);
        if vv.value.Some? {
          assert Lookup(db.value, compositeKey) == EncodeValue(Some(vv));
        }
      }
    }

    /** GetLatestSavePoint: absent on a store without a save point; a stored
        encoding of `h` reads back as `h`; a record of the wrong length is an
        error. */
    function GetLatestSavePoint(): (r: Result<Option<Height>>)
      reads this
      requires db.Some?
      ensures Lookup(db.value, SavePointKey).None? ==> r == Ok(None)
      ensures forall h :: Lookup(db.value, SavePointKey) == EncodeHeight(Some(h)) ==> r == Ok(Some(h))
      ensures r.Err? <==> Lookup(db.value, SavePointKey).Some? && |Lookup(db.value, SavePointKey).value| != 16
    {
      var value := Lookup(db.value, SavePointKey);
      if value.None? then Ok(None) else DecodeHeight(value)
    }

    /** Close: releases the engine handle; closing twice is harmless. */
    method Close()
      modifies this
      ensures db.None?
    {
      if db.Some? {
        db := None;
      }
    }
  }

  /** Every versioned value reads back from its encoding. */
  lemma ValueRoundTripAll()
    ensures forall vv :: DecodeValue(EncodeValue(Some(vv))) == Ok(Some(Normalized(vv)))
  {
    forall vv ensures DecodeValue(EncodeValue(Some(vv))) == Ok(Some(Normalized(vv))) {
      ValueRoundTrip(Some(vv));
    }
  }

  /** One key after the engine's write of the staged entries followed by the
      save point. */
  lemma WriteWithSavePoint(s: Entries, h: Option<Height>, entryOps: seq<Op>, ops: seq<Op>, k: string)
    requires Sorted(s)
    requires ops == if h.Some? then entryOps + [Put(SavePointKey, EncodeHeight(h).value)] else entryOps
    ensures Sorted(Write(s, ops))
    ensures Lookup(Write(s, ops), k) ==
      if k == SavePointKey && h.Some? then EncodeHeight(h)
      else match Effect(entryOps, k) case None => Lookup(s, k) case Some(v) => v
  {
    WriteSpec(s, ops, k);
    if h.Some? {
      EffectAppend(entryOps, Put(SavePointKey, EncodeHeight(h).value), k);
    }
  }

  /** The engine's write of the staged entries followed by the save point
      keeps the store sorted, stores the new save point (or keeps the old one),
      and for a well-formed batch leaves exactly the committed contents. */
  lemma CommitSpec(s: Entries, batch: UpdateBatch, h: Option<Height>, entryOps: seq<Op>, ops: seq<Op>)
    requires Sorted(s)
    requires ops == if h.Some? then entryOps + [Put(SavePointKey, EncodeHeight(h).value)] else entryOps
    requires forall i :: 0 <= i < |entryOps| ==> Named(batch, entryOps[i].key)
    requires WellFormedBatch(batch) ==>
      forall k :: Effect(entryOps, k) == Staged(batch, batch.updates.Keys, "", {}, k)
    ensures Sorted(Write(s, ops))
    ensures Lookup(Write(s, ops), SavePointKey) == if h.Some? then EncodeHeight(h) else Lookup(s, SavePointKey)
    ensures forall k :: k != SavePointKey && !Named(batch, k) ==> Lookup(Write(s, ops), k) == Lookup(s, k)
    ensures WellFormedBatch(batch) ==> forall k :: Lookup(Write(s, ops), k) == Committed(s, batch, h, k)
  {
    SavePointKeyIsNotComposite();
    EffectUntouched(entryOps, SavePointKey);
    WriteWithSavePoint(s, h, entryOps, ops, SavePointKey);
    forall k | k != SavePointKey && !Named(batch, k) ensures Lookup(Write(s, ops), k) == Lookup(s, k) {
      EffectUntouched(entryOps, k);
      WriteWithSavePoint(s, h, entryOps, ops, k);
    }
    if WellFormedBatch(batch) {
      forall k ensures Lookup(Write(s, ops), k) == Committed(s, batch, h, k) {
        WriteWithSavePoint(s, h, entryOps, ops, k);
      }
    }
  }

  /** Staging one more entry keeps every staged key the composite key of a batch entry. */
  lemma NamedStep(batch: UpdateBatch, ns: string, key: string, ops: seq<Op>, op: Op)
    requires ns in batch.updates && key in batch.updates[ns]
    requires op.key == ConstructCompositeKey(ns, key)
    requires forall i :: 0 <= i < |ops| ==> Named(batch, ops[i].key)
    ensures forall i :: 0 <= i < |ops + [op]| ==> Named(batch, (ops + [op])[i].key)
  {
    assert Named(batch, op.key);
  }

  /** Staging one more entry of the current namespace. */
  lemma StageStep(batch: UpdateBatch, doneNs: set<string>, ns: string, curKeys: set<string>, key: string, ops: seq<Op>, op: Op)
    requires ns in batch.updates && key in batch.updates[ns]
    requires op.key == ConstructCompositeKey(ns, key)
    requires op == if batch.updates[ns][key].value.None? then Delete(op.key) else Put(op.key, EncodeValue(Some(batch.updates[ns][key])).value)
    requires WellFormedBatch(batch) ==> forall k :: Effect(ops, k) == Staged(batch, doneNs, ns, curKeys, k)
    ensures WellFormedBatch(batch) ==> forall k :: Effect(ops + [op], k) == Staged(batch, doneNs, ns, curKeys + {key}, k)
  {
    if WellFormedBatch(batch) {
      forall k ensures Effect(ops + [op], k) == Staged(batch, doneNs, ns, curKeys + {key}, k) {
        EffectAppend(ops, op, k);
        if k != op.key {
          match Decompose(k)
          case Err(_) =>
          case Ok((ns', key')) =>
            assert k == ConstructCompositeKey(ns', key');
        }
      }
    }
  }

  /** Starting a namespace: none of its keys staged yet. */
  lemma StageNamespaceStart(batch: UpdateBatch, doneNs: set<string>, ns: string, ops: seq<Op>)
    requires WellFormedBatch(batch) ==> forall k :: Effect(ops, k) == Staged(batch, doneNs, "", {}, k)
    ensures WellFormedBatch(batch) ==> forall k :: Effect(ops, k) == Staged(batch, doneNs, ns, {}, k)
  {
  }

  /** Finishing a namespace: all its keys staged. */
  lemma StageNamespaceDone(batch: UpdateBatch, doneNs: set<string>, ns: string, ops: seq<Op>)
    requires ns in batch.updates
    requires WellFormedBatch(batch) ==> forall k :: Effect(ops, k) == Staged(batch, doneNs, ns, batch.updates[ns].Keys, k)
    ensures WellFormedBatch(batch) ==> forall k :: Effect(ops, k) == Staged(batch, doneNs + {ns}, "", {}, k)
  {
  }

  // ---------------------------------------------------------------------------
  // The range-scan iterator

  /** The scan is over at cursor position `p`: past the end, or on a
      parseable entry the scan does not admit. */
  predicate StoppedAt(es: Entries, ns: string, endKey: string, p: nat)
  {
    p >= |es| || (Decompose(es[p].0).Ok? && !Admits(ns, endKey, es[p].0))
  }

  /** What one call of Next does to a cursor at `pos` over `es`, for the
      scan of namespace `ns` bounded by `endKey`, ending at `next` with result
      `r`:
      - the cursor never moves back;
      - a scan that is over stays over: the result is absent and the cursor stays;
      - an absent result means the scan is over;
      - a handed-out entry lies past the old position, is an entry the scan
        admits (namespace `ns`, key below a non-empty `endKey`), is stored
        under the composite key of the key handed out, and carries the
        decoded record; the cursor is just past it;
      - an error comes from an entry the scan admits whose record does not
        decode, and the cursor stays on it;
      - every entry passed over without being handed out has a key that does
        not parse. */
  predicate Step(es: Entries, ns: string, endKey: string, pos: nat, next: nat, r: Result<Option<VersionedKV>>)
  {
    && pos <= next <= |es|
    && (StoppedAt(es, ns, endKey, pos) ==> r == Ok(None) && next == pos)
    && (r == Ok(None) ==> StoppedAt(es, ns, endKey, next))
    && (r.Ok? && r.value.Some? ==>
      && pos < next && Admits(ns, endKey, es[next - 1].0)
      && r.value.value.compositeKey == CompositeKey(ns, Decompose(es[next - 1].0).value.1)
      && DecodeValue(Some(es[next - 1].1)) == Ok(Some(r.value.value.versionedValue)))
    && (r.Err? ==>
      && next < |es| && Admits(ns, endKey, es[next].0)
      && DecodeValue(Some(es[next].1)) == Err(r.error))
    && (forall j :: pos <= j < next && !(r.Ok? && r.value.Some? && j == next - 1) ==> Decompose(es[j].0).Err?)
  }

  /** The keys handed out after a step: one more exactly when the step hands
      out an entry. */
  function Handed(yielded: seq<string>, r: Result<Option<VersionedKV>>): seq<string>
  {
    if r.Ok? && r.value.Some? then yielded + [r.value.value.compositeKey.key] else yielded
  }

  /** One call of Next on a cursor at `pos` over `es`: the cursor passes
      entries whose key does not parse; on an entry of another namespace, or
      at or past a non-empty `endKey`, the scan ends and the cursor stays; an
      entry whose record does not decode is an error and the cursor stays; any
      other entry is handed out with its decoded value and the cursor moves
      past it. */
  method ScanNext(es: Entries, ns: string, endKey: string, pos: nat) returns (next: nat, r: Result<Option<VersionedKV>>)
    requires pos <= |es|
    ensures Step(es, ns, endKey, pos, next, r)
  {
    next := pos;
    while next < |es|
      invariant pos <= next <= |es|
      invariant forall j :: pos <= j < next ==> Decompose(es[j].0).Err?
      decreases |es| - next
    {
      var (key, value) := es[next];
      var parsed := ParseCompositeKey(key);
      if parsed.Err? {
        next := next + 1;
        continue;
      }
      var (namespace, actualKey) := parsed.value;
      if namespace != ns {
        return next, Ok(None);  // end of the namespace
      }
      if endKey != "" && !Less(actualKey, endKey) {
        return next, Ok(None);  // end of the range
      }
      var versionedValue := DecodeValue(Some(value));
      if versionedValue.Err? {
        return next, Err(versionedValue.error);
      }
      var kv := VersionedKV(CompositeKey(namespace, actualKey), versionedValue.value.value);
      return next + 1, Ok(Some(kv));
    }
    return next, Ok(None);
  }

  /** A step keeps the cursor state of the scan, and an entry it hands out
      has a key at least `startKey` and below a non-empty `endKey`. */
  lemma StepKeepsScan(es: Entries, ns: string, startKey: string, endKey: string, first: nat, pos: nat, yielded: seq<string>,
                      next: nat, r: Result<Option<VersionedKV>>)
    requires ScanInvariant(es, ns, startKey, endKey, first, pos, yielded)
    requires Step(es, ns, endKey, pos, next, r)
    ensures ScanInvariant(es, ns, startKey, endKey, first, next, Handed(yielded, r))
    ensures r.Ok? && r.value.Some? ==>
      && !Less(r.value.value.compositeKey.key, startKey)
      && (endKey != [] ==> Less(r.value.value.compositeKey.key, endKey))
  {
    if r.Ok? && r.value.Some? {
      ScanSkip(es, ns, startKey, endKey, first, pos, next - 1, yielded);
      ScanYield(es, ns, startKey, endKey, first, next - 1, yielded);
    } else {
      ScanSkip(es, ns, startKey, endKey, first, pos, next, yielded);
    }
  }

  /** The cursor state of a scan of `es`: sought to the composite start key at
      `first`, now at `pos`, having passed only unparseable entries and
      entries the scan admits, and having handed out the keys `yielded`. */
  ghost predicate ScanInvariant(es: Entries, ns: string, startKey: string, endKey: string, first: nat, pos: nat, yielded: seq<string>)
  {
    && Sorted(es)
    && first == Seek(es, ConstructCompositeKey(ns, startKey))
    && first <= pos <= |es|
    && (forall j :: first <= j < pos ==> Decompose(es[j].0).Err? || Admits(ns, endKey, es[j].0))
    && yielded == ScanKeys(es[first..pos])
  }

  /** Passing unparseable entries keeps the cursor state. */
  lemma ScanSkip(es: Entries, ns: string, startKey: string, endKey: string, first: nat, pos: nat, p: nat, yielded: seq<string>)
    requires ScanInvariant(es, ns, startKey, endKey, first, pos, yielded)
    requires pos <= p <= |es| && forall j :: pos <= j < p ==> Decompose(es[j].0).Err?
    ensures ScanInvariant(es, ns, startKey, endKey, first, p, yielded)
  {
    ScanKeysSkip(es, first, pos, p);
  }

  /** Handing out an admitted entry keeps the cursor state; its key is at
      least startKey. */
  lemma ScanYield(es: Entries, ns: string, startKey: string, endKey: string, first: nat, p: nat, yielded: seq<string>)
    requires ScanInvariant(es, ns, startKey, endKey, first, p, yielded)
    requires p < |es| && Admits(ns, endKey, es[p].0)
    ensures !Less(Decompose(es[p].0).value.1, startKey)
    ensures es[p].0 == ConstructCompositeKey(ns, Decompose(es[p].0).value.1)
    ensures ScanInvariant(es, ns, startKey, endKey, first, p + 1, yielded + [Decompose(es[p].0).value.1])
  {
    var key := Decompose(es[p].0).value.1;
    assert es[p].0 == ConstructCompositeKey(ns, key);
    SeekSorted(es, ConstructCompositeKey(ns, startKey));
    SameNamespaceOrder(ns, key, startKey);
    ScanKeysSnoc(es, first, p);
  }

  class FabricIterator {
    /** The entries the engine cursor walks, in key order. */
    const snapshot: Entries
    const namespace: string
    const startKey: string
    const endKey: string
    /** The cursor: the index of the entry it is on; |snapshot| when it is not valid. */
    var pos: nat
    /** Close has released the cursor. */
    var closed: bool
    /** Where the seek put the cursor. */
    ghost const first: nat
    /** The keys handed out so far. */
    ghost var Yielded: seq<string>

    ghost predicate Valid()
      reads this
    {
      ScanInvariant(snapshot, namespace, startKey, endKey, first, pos, Yielded)
    }

    /** The scan is over: the cursor is past the end, or on a parseable entry
        the scan does not admit. */
    ghost predicate Stopped()
      reads this
    {
      StoppedAt(snapshot, namespace, endKey, pos)
    }

    /** A new cursor, sought to the composite key of (namespace, startKey). */
    constructor (snapshot: Entries, namespace: string, startKey: string, endKey: string)
      requires Sorted(snapshot)
      ensures Valid() && !closed && Yielded == []
      ensures this.snapshot == snapshot && this.namespace == namespace
      ensures this.startKey == startKey && this.endKey == endKey
      ensures pos == Seek(snapshot, ConstructCompositeKey(namespace, startKey))
    {
      this.snapshot := snapshot;
      this.namespace := namespace;
      this.startKey := startKey;
      this.endKey := endKey;
      var compositeStartKey := ConstructCompositeKey(namespace, startKey);
      var start := Seek(snapshot, compositeStartKey);
      pos := start;
      first := start;
      closed := false;
      Yielded := [];
    }

    /** Next: skips entries whose key does not parse, ends (for good) at an
        entry of another namespace or at endKey, and otherwise hands out the
        entry and advances. */
    method Next() returns (r: Result<Option<VersionedKV>>)
      requires Valid() && !closed
      modifies this`pos, this`Yielded
      ensures Valid()
      ensures Step(snapshot, namespace, endKey, old(pos), pos, r)
      ensures Yielded == Handed(old(Yielded), r)
      ensures r.Ok? && r.value.Some? ==>
        && !Less(r.value.value.compositeKey.key, startKey)
        && (endKey != [] ==> Less(r.value.value.compositeKey.key, endKey))
    {
      var next;
      next, r := ScanNext(snapshot, namespace, endKey, pos);
      StepKeepsScan(snapshot, namespace, startKey, endKey, first, pos, Yielded, next, r);
      pos, Yielded := next, Handed(Yielded, r);
    }

    /** The keys handed out so far are strictly ascending, at least startKey,
        and below endKey when it is non-empty. */
    lemma YieldedInOrder()
      requires Valid()
      ensures forall i, j :: 0 <= i < j < |Yielded| ==> Less(Yielded[i], Yielded[j])
      ensures forall i :: 0 <= i < |Yielded| ==>
        !Less(Yielded[i], startKey) && (endKey != [] ==> Less(Yielded[i], endKey))
    {
      var seekKey := ConstructCompositeKey(namespace, startKey);
      SeekSorted(snapshot, seekKey);
      var es := snapshot[first..pos];
      assert forall j :: 0 <= j < |es| ==> es[j] == snapshot[first + j];
      ScanKeysInRange(es, namespace, startKey, endKey);
    }

    /** Once the scan has stopped, it has handed out the key of every entry
        of the namespace in [startKey, endKey), and no other cursor position
        holds one. */
    lemma StoppedIsComplete()
      requires Valid() && Stopped()
      ensures forall j :: 0 <= j < |snapshot| && InScan(namespace, startKey, endKey, snapshot[j].0) ==>
        first <= j < pos && Decompose(snapshot[j].0).value.1 in Yielded
    {
      var seekKey := ConstructCompositeKey(namespace, startKey);
      SeekSorted(snapshot, seekKey);
      if pos < |snapshot| {
        ScanStopIsFinal(snapshot, pos, namespace, startKey, endKey);
      }
      forall j | 0 <= j < |snapshot| && InScan(namespace, startKey, endKey, snapshot[j].0)
        ensures first <= j < pos && Decompose(snapshot[j].0).value.1 in Yielded
      {
        var k := Decompose(snapshot[j].0).value.1;
        assert snapshot[j].0 == ConstructCompositeKey(namespace, k);
        if j < first {
          SameNamespaceOrder(namespace, k, startKey);
        }
        var es := snapshot[first..pos];
        assert es[j - first] == snapshot[j];
        ScanKeysContains(es, j - first);
      }
    }

    /** Close: releases the cursor; closing twice is harmless. */
    method Close()
      requires Valid()
      modifies this`closed
      ensures Valid() && closed
    {
      if !closed {
        closed := true;
      }
    }
  }

  class FabricDBProvider {
    const dbPath: string
    /** The cache: channel id -> its open database. */
    var dbs: map<string, FabricDB>

    /** At most one instance per id, and no instance under two ids. */
    ghost predicate Valid()
      reads this
    {
      forall a, b :: a in dbs && b in dbs && a != b ==> dbs[a] != dbs[b]
    }

    constructor (dbPath: string)
      ensures Valid() && this.dbPath == dbPath && dbs == map[]
    {
      this.dbPath := dbPath;
      dbs := map[];
    }

    /** GetDBHandle: the cached instance when `id` has one; otherwise the
        engine opens the store (`openResult`: its contents, None when opening
        fails) and exactly one new entry caches it. */
    method GetDBHandle(id: string, openResult: Option<Entries>) returns (r: Result<FabricDB>)
      requires Valid()
      requires openResult.Some? ==> Sorted(openResult.value)
      modifies this
      ensures Valid()
      ensures id in old(dbs) ==> r == Ok(old(dbs)[id]) && dbs == old(dbs)
      ensures id !in old(dbs) && openResult.None? ==> r == Err(OpenFailed) && dbs == old(dbs)
      ensures id !in old(dbs) && openResult.Some? ==>
        && r.Ok? && fresh(r.value) && dbs == old(dbs)[id := r.value]
        && r.value.Valid() && r.value.dbName == id && r.value.db == openResult
    {
      if id in dbs {
        return Ok(dbs[id]);
      }
      if openResult.None? {
        return Err(OpenFailed);
      }
      var fabricDB := new FabricDB(id, openResult.value);
      dbs := dbs[id := fabricDB];
      return Ok(fabricDB);
    }

    /** Close: closes every cached database and empties the cache. */
    method Close()
      requires Valid()
      modifies this, dbs.Values
      ensures Valid() && dbs == map[]
      ensures forall id :: id in old(dbs) ==> old(dbs)[id].db.None?
    {
      var remaining := dbs.Keys;
      while remaining != {}
        invariant dbs == old(dbs) && remaining <= dbs.Keys
        invariant forall id :: id in dbs && id !in remaining ==> dbs[id].db.None?
        decreases |remaining|
      {
        var id :| id in remaining;
        dbs[id].Close();
        remaining := remaining - {id};
      }
      dbs := map[];
    }

    /** Drop: closes and evicts the database cached for `id`, if any; every
        other entry, and its database, is left as it was. */
    method Drop(id: string)
      requires Valid()
      modifies this, if id in dbs then {dbs[id]} else {}
      ensures Valid() && dbs == old(dbs) - {id}
      ensures id in old(dbs) ==> old(dbs)[id].db.None?
      ensures forall other :: other in dbs ==> unchanged(dbs[other])
    {
      if id in dbs {
        dbs[id].Close();
        dbs := dbs - {id};
      }
    }
  }
}
