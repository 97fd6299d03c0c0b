/** Value types shared by the adapter model: optional values, error results,
    Go's byte and uint64, and the ordering on keys. */
module Base {

  /** A Go pointer or slice that may be nil. */
  datatype Option<+T> = None | Some(value: T)

  /** The adapter's error kinds. */
  datatype Error =
    | InvalidCompositeKeyFormat   // parseCompositeKey: not exactly one NUL
    | InvalidHeightDataLength     // decodeHeight: length other than 16
    | MalformedValue              // json.Unmarshal rejected a stored record
    | OpenFailed                  // the engine could not open a database
    | WriteFailed                 // the engine rejected an atomic batch write
    | NotFound                    // the engine's status for a missing key, passed on by the binding

  /** A Go `(T, error)` pair where exactly one half is meaningful. */
  datatype Result<+T> = Ok(value: T) | Err(error: Error)

  type byte = x: int | 0 <= x < 256
  type Bytes = seq<byte>

  const UINT64_LIMIT: int := 0x1_0000_0000_0000_0000
  type uint64 = x: int | 0 <= x < UINT64_LIMIT

  /** Lexicographic order on keys. Dafny characters are Unicode scalar values,
      whose code-point order is the byte order of their UTF-8 encoding, so this
      is the order of LevelDB's bytewise comparator and of Go's `<` on strings. */
  predicate Less(a: string, b: string)
  {
    |b| > 0 && (|a| == 0 || a[0] < b[0] || (a[0] == b[0] && Less(a[1..], b[1..])))
  }

  lemma {:induction false} LessIrreflexive(a: string)
    ensures !Less(a, a)
  {
    if |a| > 0 {
      LessIrreflexive(a[1..]);
    }
  }

  lemma {:induction false} LessTransitive(a: string, b: string, c: string)
    requires Less(a, b) && Less(b, c)
    ensures Less(a, c)
  {
    if |a| > 0 && a[0] == b[0] && b[0] == c[0] {
      LessTransitive(a[1..], b[1..], c[1..]);
    }
  }

  lemma {:induction false} LessTotal(a: string, b: string)
    ensures a == b || Less(a, b) || Less(b, a)
  {
    if |a| > 0 && |b| > 0 && a[0] == b[0] {
      LessTotal(a[1..], b[1..]);
      if a[1..] == b[1..] {
        assert a == [a[0]] + a[1..] && b == [b[0]] + b[1..];
      }
    }
  }

  lemma LessAsymmetric(a: string, b: string)
    requires Less(a, b)
    ensures !Less(b, a)
  {
    if Less(b, a) {
      LessTransitive(a, b, a);
      LessIrreflexive(a);
    }
  }

  /** A shared prefix does not change the comparison. */
  lemma {:induction false} LessCommonPrefix(p: string, a: string, b: string)
    ensures Less(p + a, p + b) <==> Less(a, b)
  {
    if |p| > 0 {
      assert (p + a)[1..] == p[1..] + a;
      assert (p + b)[1..] == p[1..] + b;
      LessCommonPrefix(p[1..], a, b);
    } else {
      assert p + a == a && p + b == b;
    }
  }
}
