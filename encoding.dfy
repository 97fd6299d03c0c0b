/** The record types of the adapter and their byte encodings: the save-point
    height as a fixed 16-byte big-endian pair, and a versioned value as a
    serialised wrapper record. */
module Encoding {
  import opened Base

  /** A version: block number, then transaction number. */
  datatype Height = Height(blockNum: uint64, txNum: uint64)

  /** The order on versions: block number first, then transaction number. */
  predicate HeightLess(a: Height, b: Height)
  {
    a.blockNum < b.blockNum || (a.blockNum == b.blockNum && a.txNum < b.txNum)
  }

  /** A state value. `value == None` (a nil slice) marks a delete inside an
      update batch; `version == None` is a nil `*Height`. */
  datatype VersionedValue = VersionedValue(value: Option<Bytes>, metadata: Option<Bytes>, version: Option<Height>)

  datatype CompositeKey = CompositeKey(namespace: string, key: string)

  datatype VersionedKV = VersionedKV(compositeKey: CompositeKey, versionedValue: VersionedValue)

  /** namespace -> key -> value. The map values are non-nil pointers in every
      call the adapter can serve (a nil entry makes ApplyUpdates panic). */
  datatype UpdateBatch = UpdateBatch(containsPostOrderWrites: bool, updates: map<string, map<string, VersionedValue>>)

  /** The flat record that is serialised for a stored value. */
  datatype ValueWrapper = ValueWrapper(value: Option<Bytes>, metadata: Option<Bytes>, blockNum: uint64, txNum: uint64)

  // ---------------------------------------------------------------------------
  // Fixed-width big-endian integers

  function Pow256(n: nat): (r: nat)
    ensures r > 0
  {
    if n == 0 then 1 else 256 * Pow256(n - 1)
  }

  lemma Pow256Eight()
    ensures Pow256(8) == UINT64_LIMIT
  {
  }

  lemma MulMonotone(a: int, b: int, p: nat)
    requires a <= b
    ensures a * p <= b * p
  {
  }

  lemma DivMod(x: int, p: int)
    requires p > 0
    ensures (x / p) * p + x % p == x
  {
  }

  /** Splitting `x` into a leading digit of base `p` and the rest is unique. */
  lemma DivModUnique(q: int, r: int, p: int)
    requires p > 0 && 0 <= r < p
    ensures (q * p + r) / p == q && (q * p + r) % p == r
  {
    var x := q * p + r;
    var q', r' := x / p, x % p;
    assert q' * p + r' == q * p + r;
    assert (q' - q) * p == r - r';
    if q' - q >= 1 {
      MulMonotone(1, q' - q, p);
    } else if q' - q <= -1 {
      MulMonotone(q' - q, -1, p);
    }
  }

  /** `binary.BigEndian.PutUint64` for `n` bytes: most significant byte first. */
  function BigEndian(x: nat, n: nat): (r: Bytes)
    requires x < Pow256(n)
    ensures |r| == n
  {
    if n == 0 then []
    else
      var p := Pow256(n - 1);
      assert x / p < 256 by {
        if x / p >= 256 { MulMonotone(256, x / p, p); }
      }
      [x / p] + BigEndian(x % p, n - 1)
  }

  /** `binary.BigEndian.Uint64`: the number the bytes spell, most significant first. */
  function FromBigEndian(bs: Bytes): (r: nat)
    ensures r < Pow256(|bs|)
  {
    if bs == [] then 0
    else
      var p := Pow256(|bs| - 1);
      var rest := FromBigEndian(bs[1..]);
      assert bs[0] * p + rest < Pow256(|bs|) by { MulMonotone(bs[0], 255, p); }
      bs[0] * p + rest
  }

  /** The leading byte of a big-endian number weighs 256 to the number of bytes after it. */
  lemma FromBigEndianCons(d: byte, rest: Bytes)
    ensures FromBigEndian([d] + rest) == d * Pow256(|rest|) + FromBigEndian(rest)
  {
    assert ([d] + rest)[1..] == rest;
  }

  /** The leading byte of a big-endian encoding is the quotient by 256 to
      the number of remaining bytes, and the rest encodes the remainder. */
  lemma BigEndianSplit(x: nat, n: nat) returns (q: byte, r: nat)
    requires 0 < n && x < Pow256(n)
    ensures r < Pow256(n - 1) && x == q * Pow256(n - 1) + r
    ensures BigEndian(x, n) == [q] + BigEndian(r, n - 1)
  {
    var p := Pow256(n - 1);
    q, r := BigEndian(x, n)[0], x % p;
    DivMod(x, p);
  }

  lemma {:induction false} FromBigEndianOfBigEndian(x: nat, n: nat)
    requires x < Pow256(n)
    ensures FromBigEndian(BigEndian(x, n)) == x
    decreases n
  {
    if n > 0 {
      var q, r := BigEndianSplit(x, n);
      FromBigEndianOfBigEndian(r, n - 1);
      FromBigEndianCons(q, BigEndian(r, n - 1));
    }
  }

  lemma {:induction false} BigEndianOfFromBigEndian(bs: Bytes)
    ensures BigEndian(FromBigEndian(bs), |bs|) == bs
  {
    if bs != [] {
      var p := Pow256(|bs| - 1);
      DivModUnique(bs[0], FromBigEndian(bs[1..]), p);
      BigEndianOfFromBigEndian(bs[1..]);
    }
  }

  /** Lexicographic order on byte strings (`bytes.Compare(a, b) < 0`). */
  predicate BytesLess(a: Bytes, b: Bytes)
  {
    |b| > 0 && (|a| == 0 || a[0] < b[0] || (a[0] == b[0] && BytesLess(a[1..], b[1..])))
  }

  /** Byte strings compare by their first byte, then the rest. */
  lemma BytesLessCons(c: byte, a: Bytes, d: byte, b: Bytes)
    ensures BytesLess([c] + a, [d] + b) <==> c < d || (c == d && BytesLess(a, b))
  {
    assert ([c] + a)[1..] == a && ([d] + b)[1..] == b;
  }

  /** Numbers compare as their leading digit, then the rest. */
  lemma LeadingDigitOrder(qx: nat, rx: nat, qy: nat, ry: nat, p: nat)
    requires rx < p && ry < p
    ensures qx * p + rx < qy * p + ry <==> qx < qy || (qx == qy && rx < ry)
  {
    if qx < qy {
      MulMonotone(qx + 1, qy, p);
    } else if qy < qx {
      MulMonotone(qy + 1, qx, p);
    }
  }

  /** Comparing two equal-width big-endian encodings bytewise compares the numbers. */
  lemma {:induction false} BigEndianOrder(x: nat, y: nat, n: nat)
    requires x < Pow256(n) && y < Pow256(n)
    ensures BytesLess(BigEndian(x, n), BigEndian(y, n)) <==> x < y
    decreases n
  {
    if n > 0 {
      var qx, rx := BigEndianSplit(x, n);
      var qy, ry := BigEndianSplit(y, n);
      BytesLessCons(qx, BigEndian(rx, n - 1), qy, BigEndian(ry, n - 1));
      BigEndianOrder(rx, ry, n - 1);
      LeadingDigitOrder(qx, rx, qy, ry, Pow256(n - 1));
    }
  }

  lemma {:induction false} BytesLessConcat(a1: Bytes, a2: Bytes, b1: Bytes, b2: Bytes)
    requires |a1| == |b1|
    ensures BytesLess(a1 + a2, b1 + b2) <==> BytesLess(a1, b1) || (a1 == b1 && BytesLess(a2, b2))
  {
    if |a1| > 0 {
      assert (a1 + a2)[1..] == a1[1..] + a2 && (b1 + b2)[1..] == b1[1..] + b2;
      BytesLessConcat(a1[1..], a2, b1[1..], b2);
      if a1[0] == b1[0] && a1[1..] == b1[1..] {
        assert a1 == [a1[0]] + a1[1..] && b1 == [b1[0]] + b1[1..];
      }
    } else {
      assert a1 + a2 == a2 && b1 + b2 == b2;
    }
  }

  // ---------------------------------------------------------------------------
  // Save-point height

  /** encodeHeight: nil stays nil; otherwise 16 bytes, the block number
      big-endian in bytes 0..8 and the transaction number in bytes 8..16. */
  function EncodeHeight(h: Option<Height>): (r: Option<Bytes>)
    ensures r.None? <==> h.None?
    ensures h.Some? ==> |r.value| == 16
    ensures h.Some? ==> FromBigEndian(r.value[..8]) == h.value.blockNum
    ensures h.Some? ==> FromBigEndian(r.value[8..]) == h.value.txNum
  {
    match h
    case None => None
    case Some(height) =>
      Pow256Eight();
      var data := BigEndian(height.blockNum, 8) + BigEndian(height.txNum, 8);
      assert data[..8] == BigEndian(height.blockNum, 8) && data[8..] == BigEndian(height.txNum, 8);
      FromBigEndianOfBigEndian(height.blockNum, 8);
      FromBigEndianOfBigEndian(height.txNum, 8);
      Some(data)
  }

  /** decodeHeight: nil decodes to nil without error, any other length than 16
      is an error, and 16 bytes decode to the height whose encoding they are. */
  function DecodeHeight(data: Option<Bytes>): (r: Result<Option<Height>>)
    ensures data.None? ==> r == Ok(None)
    ensures r.Err? <==> data.Some? && |data.value| != 16
    ensures data.Some? && r.Ok? ==> r.value.Some? && EncodeHeight(r.value) == data
  {
    match data
    case None => Ok(None)
    case Some(bs) =>
      if |bs| != 16 then Err(InvalidHeightDataLength)
      else
        Pow256Eight();
        var h := Height(FromBigEndian(bs[..8]), FromBigEndian(bs[8..]));
        BigEndianOfFromBigEndian(bs[..8]);
        BigEndianOfFromBigEndian(bs[8..]);
        assert bs == bs[..8] + bs[8..];
        Ok(Some(h))
  }

  /** Every height, nil included, survives the save-point encoding. */
  lemma HeightRoundTrip(h: Option<Height>)
    ensures DecodeHeight(EncodeHeight(h)) == Ok(h)
  {
  }

  /** Save-point encodings sort bytewise exactly as the heights they encode. */
  lemma EncodeHeightOrder(a: Height, b: Height)
    ensures BytesLess(EncodeHeight(Some(a)).value, EncodeHeight(Some(b)).value) <==> HeightLess(a, b)
  {
    Pow256Eight();
    var ea, eb := EncodeHeight(Some(a)).value, EncodeHeight(Some(b)).value;
    assert ea == BigEndian(a.blockNum, 8) + BigEndian(a.txNum, 8);
    assert eb == BigEndian(b.blockNum, 8) + BigEndian(b.txNum, 8);
    BytesLessConcat(BigEndian(a.blockNum, 8), BigEndian(a.txNum, 8), BigEndian(b.blockNum, 8), BigEndian(b.txNum, 8));
    BigEndianOrder(a.blockNum, b.blockNum, 8);
    BigEndianOrder(a.txNum, b.txNum, 8);
    FromBigEndianOfBigEndian(a.blockNum, 8);
    FromBigEndianOfBigEndian(b.blockNum, 8);
  }

  // ---------------------------------------------------------------------------
  // Stand-in for encoding/json on ValueWrapper.
  //
  // The adapter relies on json.Marshal / json.Unmarshal only through three
  // facts: Unmarshal inverts Marshal, nil and empty byte slices stay apart,
  // and malformed input (the empty record, for one) is rejected. The format
  // below has those three properties: a byte-slice field is 0 for nil, or 1
  // followed by each byte escaped as (1, b) and a closing 0; the numbers are
  // 8 bytes big-endian each.

  function Escaped(bs: Bytes): Bytes
  {
    if bs == [] then [] else [1, bs[0]] + Escaped(bs[1..])
  }

  function MarshalField(f: Option<Bytes>): Bytes
  {
    match f
    case None => [0]
    case Some(bs) => [1] + Escaped(bs) + [0]
  }

  function Marshal(w: ValueWrapper): (r: Bytes)
  {
    Pow256Eight();
    MarshalField(w.value) + MarshalField(w.metadata) + BigEndian(w.blockNum, 8) + BigEndian(w.txNum, 8)
  }

  /** Reads escaped bytes up to the closing 0; returns them and the rest. */
  function Unescape(data: Bytes): Result<(Bytes, Bytes)>
  {
    if |data| == 0 then Err(MalformedValue)
    else if data[0] == 0 then Ok(([], data[1..]))
    else if data[0] == 1 && |data| >= 2 then
      match Unescape(data[2..])
      case Err(e) => Err(e)
      case Ok((bs, rest)) => Ok(([data[1]] + bs, rest))
    else Err(MalformedValue)
  }

  function ReadField(data: Bytes): Result<(Option<Bytes>, Bytes)>
  {
    if |data| == 0 then Err(MalformedValue)
    else if data[0] == 0 then Ok((None, data[1..]))
    else if data[0] == 1 then
      match Unescape(data[1..])
      case Err(e) => Err(e)
      case Ok((bs, rest)) => Ok((Some(bs), rest))
    else Err(MalformedValue)
  }

  function Unmarshal(data: Bytes): (r: Result<ValueWrapper>)
    ensures data == [] ==> r.Err?
  {
    match ReadField(data)
    case Err(e) => Err(e)
    case Ok((value, rest)) =>
      match ReadField(rest)
      case Err(e) => Err(e)
      case Ok((metadata, nums)) =>
        if |nums| != 16 then Err(MalformedValue)
        else
          Pow256Eight();
          Ok(ValueWrapper(value, metadata, FromBigEndian(nums[..8]), FromBigEndian(nums[8..])))
  }

  lemma {:induction false} UnescapeEscaped(bs: Bytes, rest: Bytes)
    ensures Unescape(Escaped(bs) + [0] + rest) == Ok((bs, rest))
  {
    var data := Escaped(bs) + [0] + rest;
    if bs == [] {
      assert data == [0] + rest;
    } else {
      assert data == [1, bs[0]] + (Escaped(bs[1..]) + [0] + rest);
      assert data[2..] == Escaped(bs[1..]) + [0] + rest;
      UnescapeEscaped(bs[1..], rest);
      assert [bs[0]] + bs[1..] == bs;
    }
  }

  lemma ReadFieldMarshal(f: Option<Bytes>, rest: Bytes)
    ensures ReadField(MarshalField(f) + rest) == Ok((f, rest))
  {
    var data := MarshalField(f) + rest;
    match f
    case None =>
      assert data[1..] == rest;
    case Some(bs) =>
      assert data[1..] == Escaped(bs) + [0] + rest;
      UnescapeEscaped(bs, rest);
  }

  /** The serialiser is invertible, hence injective. */
  lemma UnmarshalMarshal(w: ValueWrapper)
    ensures Unmarshal(Marshal(w)) == Ok(w)
  {
    Pow256Eight();
    var nums := BigEndian(w.blockNum, 8) + BigEndian(w.txNum, 8);
    var tail := MarshalField(w.metadata) + nums;
    assert Marshal(w) == MarshalField(w.value) + tail;
    ReadFieldMarshal(w.value, tail);
    ReadFieldMarshal(w.metadata, nums);
    assert nums[..8] == BigEndian(w.blockNum, 8) && nums[8..] == BigEndian(w.txNum, 8);
    FromBigEndianOfBigEndian(w.blockNum, 8);
    FromBigEndianOfBigEndian(w.txNum, 8);
  }

  // ---------------------------------------------------------------------------
  // Versioned values

  /** The version a value is stored with: its own, or (0, 0) for a nil version. */
  function VersionOrZero(v: Option<Height>): Height
  {
    if v.Some? then v.value else Height(0, 0)
  }

  /** What reading back a stored value yields: the same payload and metadata,
      with the version made explicit. */
  function Normalized(vv: VersionedValue): VersionedValue
  {
    VersionedValue(vv.value, vv.metadata, Some(VersionOrZero(vv.version)))
  }

  /** encodeValue: nil stays nil; otherwise the wrapper record is serialised. */
  function EncodeValue(vv: Option<VersionedValue>): (r: Option<Bytes>)
    ensures r.None? <==> vv.None?
    ensures r.Some? ==> |r.value| > 0
  {
    match vv
    case None => None
    case Some(v) =>
      var h := VersionOrZero(v.version);
      Some(Marshal(ValueWrapper(v.value, v.metadata, h.blockNum, h.txNum)))
  }

  /** decodeValue: nil stays nil without error, a malformed record is an error,
      and a decoded value always carries a non-nil version. */
  function DecodeValue(data: Option<Bytes>): (r: Result<Option<VersionedValue>>)
    ensures data.None? ==> r == Ok(None)
    ensures data.Some? && r.Ok? ==> r.value.Some? && r.value.value.version.Some?
    ensures data == Some([]) ==> r.Err?
  {
    match data
    case None => Ok(None)
    case Some(bs) =>
      match Unmarshal(bs)
      case Err(_) => Err(MalformedValue)
      case Ok(w) => Ok(Some(VersionedValue(w.value, w.metadata, Some(Height(w.blockNum, w.txNum)))))
  }

  /** decodeValue inverts encodeValue up to the version: payload, metadata,
      block and transaction number come back; a nil version comes back as (0, 0). */
  lemma ValueRoundTrip(vv: Option<VersionedValue>)
    ensures DecodeValue(EncodeValue(vv)) == Ok(if vv.None? then None else Some(Normalized(vv.value)))
  {
    if vv.Some? {
      var h := VersionOrZero(vv.value.version);
      UnmarshalMarshal(ValueWrapper(vv.value.value, vv.value.metadata, h.blockNum, h.txNum));
    }
  }

  /** Two values that encode alike read back alike. */
  lemma EncodeValueInjective(a: VersionedValue, b: VersionedValue)
    requires EncodeValue(Some(a)) == EncodeValue(Some(b))
    ensures Normalized(a) == Normalized(b)
  {
    ValueRoundTrip(Some(a));
    ValueRoundTrip(Some(b));
  }
}
