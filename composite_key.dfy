/** The composite key: one flat store key `namespace NUL key`, and its parser,
    which splits on every NUL and accepts exactly two fields. */
module CompositeKeyCodec {
  import opened Base

  const Sep: char := '\0'

  /** Number of separators in `s`. */
  function CountSep(s: string): nat
  {
    if s == [] then 0 else CountSep(s[..|s| - 1]) + (if s[|s| - 1] == Sep then 1 else 0)
  }

  /** The `parts` that parseCompositeKey collects: the text between
      consecutive separators, in order. There is always at least one part. */
  function Fields(s: string): (r: seq<string>)
    ensures |r| >= 1
  {
    if s == [] then [""]
    else
      var init := Fields(s[..|s| - 1]);
      var c := s[|s| - 1];
      if c == Sep then init + [""]
      else init[..|init| - 1] + [init[|init| - 1] + [c]]
  }

  /** The separator-joined text of `parts` (the inverse of Fields). */
  function Join(parts: seq<string>): string
    requires |parts| >= 1
  {
    if |parts| == 1 then parts[0]
    else Join(parts[..|parts| - 1]) + [Sep] + parts[|parts| - 1]
  }

  lemma {:induction false} FieldsCount(s: string)
    ensures |Fields(s)| == CountSep(s) + 1
  {
    if s != [] {
      FieldsCount(s[..|s| - 1]);
    }
  }

  lemma {:induction false} FieldsHaveNoSep(s: string)
    ensures forall i :: 0 <= i < |Fields(s)| ==> Sep !in Fields(s)[i]
  {
    if s != [] {
      FieldsHaveNoSep(s[..|s| - 1]);
    }
  }

  lemma JoinExtendLast(parts: seq<string>, c: char)
    requires |parts| >= 1
    ensures Join(parts[..|parts| - 1] + [parts[|parts| - 1] + [c]]) == Join(parts) + [c]
  {
    var n := |parts|;
    var q := parts[..n - 1] + [parts[n - 1] + [c]];
    if n > 1 {
      assert q[..n - 1] == parts[..n - 1];
    }
  }

  /** Joining the parts with separators gives back the text. */
  lemma {:induction false} JoinFields(s: string)
    ensures Join(Fields(s)) == s
  {
    if s != [] {
      var init := s[..|s| - 1];
      var c := s[|s| - 1];
      JoinFields(init);
      var f := Fields(init);
      if c == Sep {
        assert (f + [""])[..|f|] == f;
      } else {
        JoinExtendLast(f, c);
      }
      assert init + [c] == s;
    }
  }

  /** Appending one character that is not a separator extends the last part. */
  lemma FieldsSnoc(s: string, c: char)
    requires c != Sep
    ensures var f := Fields(s); Fields(s + [c]) == f[..|f| - 1] + [f[|f| - 1] + [c]]
  {
    assert (s + [c])[..|s|] == s;
  }

  /** Appending separator-free text extends the last part only. */
  lemma {:induction false} FieldsAppendNoSep(x: string, b: string)
    requires Sep !in b
    ensures var f := Fields(x); Fields(x + b) == f[..|f| - 1] + [f[|f| - 1] + b]
    decreases |b|
  {
    var f := Fields(x);
    var n := |f| - 1;
    if b == [] {
      assert x + b == x && f[n] + b == f[n];
      assert f[..n] + [f[n]] == f;
    } else {
      var b', c := b[..|b| - 1], b[|b| - 1];
      FieldsAppendNoSep(x, b');
      var g := f[..n] + [f[n] + b'];
      assert b == b' + [c];
      assert x + b == (x + b') + [c];
      FieldsSnoc(x + b', c);
      assert g[..n] == f[..n];
      assert (f[n] + b') + [c] == f[n] + b;
    }
  }

  lemma FieldsOfJoined(a: string, b: string)
    requires Sep !in a && Sep !in b
    ensures Fields(a + [Sep] + b) == [a, b]
  {
    FieldsAppendNoSep([], a);
    assert [] + a == a && "" + a == a;
    assert Fields(a) == [a];
    assert (a + [Sep])[..|a|] == a;
    assert Fields(a + [Sep]) == [a, ""];
    FieldsAppendNoSep(a + [Sep], b);
    assert "" + b == b;
  }

  /** The meaning of parseCompositeKey: it succeeds exactly when the text holds
      one separator, and then returns the text before and after it. */
  function Decompose(s: string): (r: Result<(string, string)>)
    ensures r.Ok? <==> CountSep(s) == 1
    ensures r.Err? ==> r.error == InvalidCompositeKeyFormat
    ensures r.Ok? ==> s == r.value.0 + [Sep] + r.value.1
    ensures r.Ok? ==> Sep !in r.value.0 && Sep !in r.value.1
  {
    FieldsCount(s);
    FieldsHaveNoSep(s);
    JoinFields(s);
    var parts := Fields(s);
    if |parts| != 2 then Err(InvalidCompositeKeyFormat)
    else
      assert parts[..1] == [parts[0]];
      Ok((parts[0], parts[1]))
  }

  /** constructCompositeKey: the namespace, one NUL, the key. Parsing gives the
      pair back exactly when neither part contains a NUL. */
  function ConstructCompositeKey(namespace: string, key: string): (r: string)
    ensures Decompose(r) == Ok((namespace, key)) <==> Sep !in namespace && Sep !in key
    ensures Sep in r
  {
    var r := namespace + [Sep] + key;
    assert r[|namespace|] == Sep;
    if Sep !in namespace && Sep !in key then
      FieldsOfJoined(namespace, key);
      r
    else
      r
  }

  /** parseCompositeKey, walking the text character by character. */
  method ParseCompositeKey(compositeKey: string) returns (r: Result<(string, string)>)
    ensures r == Decompose(compositeKey)
  {
    var parts: seq<string> := [];
    var current: string := "";
    for i := 0 to |compositeKey|
      invariant parts + [current] == Fields(compositeKey[..i])
    {
      var c := compositeKey[i];
      assert compositeKey[..i + 1][..i] == compositeKey[..i];
      if c == Sep {
        parts := parts + [current];
        current := "";
      } else {
        assert (parts + [current])[..|parts|] == parts;
        current := current + [c];
      }
    }
    parts := parts + [current];
    assert compositeKey[..|compositeKey|] == compositeKey;
    if |parts| != 2 {
      return Err(InvalidCompositeKeyFormat);
    }
    return Ok((parts[0], parts[1]));
  }

  lemma {:induction false} CountSepZero(s: string)
    requires Sep !in s
    ensures CountSep(s) == 0
  {
    if s != [] {
      assert s[..|s| - 1] + [s[|s| - 1]] == s;
      CountSepZero(s[..|s| - 1]);
    }
  }

  /** Composite keys sort by namespace first, then by key, whenever the
      namespaces are free of NUL: NUL sorts below every other character. */
  lemma {:induction false} CompositeOrder(n1: string, k1: string, n2: string, k2: string)
    requires Sep !in n1 && Sep !in n2
    ensures Less(ConstructCompositeKey(n1, k1), ConstructCompositeKey(n2, k2))
        <==> Less(n1, n2) || (n1 == n2 && Less(k1, k2))
  {
    var a, b := ConstructCompositeKey(n1, k1), ConstructCompositeKey(n2, k2);
    if n1 == [] && n2 == [] {
      LessCommonPrefix([Sep], k1, k2);
      assert a == [Sep] + k1 && b == [Sep] + k2;
    } else if n1 == [] {
      assert a[0] == Sep && b[0] == n2[0] != Sep;
    } else if n2 == [] {
      assert a[0] == n1[0] != Sep && b[0] == Sep;
    } else {
      assert a[1..] == ConstructCompositeKey(n1[1..], k1);
      assert b[1..] == ConstructCompositeKey(n2[1..], k2);
      CompositeOrder(n1[1..], k1, n2[1..], k2);
      if n1[0] == n2[0] && n1[1..] == n2[1..] {
        assert n1 == [n1[0]] + n1[1..] && n2 == [n2[0]] + n2[1..];
      }
    }
  }

  /** The namespace is the text before the first separator. */
  lemma PrefixUnique(n1: string, k1: string, n2: string, k2: string)
    requires Sep !in n1 && Sep !in n2
    requires ConstructCompositeKey(n1, k1) == ConstructCompositeKey(n2, k2)
    ensures n1 == n2
  {
    var c := ConstructCompositeKey(n1, k1);
    assert forall i :: 0 <= i < |n1| ==> c[i] == n1[i];
    assert forall i :: 0 <= i < |n2| ==> c[i] == n2[i];
    assert c[|n1|] == Sep && c[|n2|] == Sep;
    assert |n1| == |n2|;
    assert n1 == c[..|n1|] == n2;
  }

  /** Within one namespace, composite keys sort as their keys. */
  lemma SameNamespaceOrder(ns: string, k1: string, k2: string)
    ensures Less(ConstructCompositeKey(ns, k1), ConstructCompositeKey(ns, k2)) <==> Less(k1, k2)
  {
    LessCommonPrefix(ns + [Sep], k1, k2);
    assert ConstructCompositeKey(ns, k1) == (ns + [Sep]) + k1;
    assert ConstructCompositeKey(ns, k2) == (ns + [Sep]) + k2;
  }
}
