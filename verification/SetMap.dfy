/** The ordered map of parameter sets (`BTreeMap<SetKey, Vec<u8>>`): a list sorted by key,
    and the map it stands for. */
module SetMap {
  import opened Bytes

  /** A set's id, or its bytes when no id parses; ids sort before bytes. */
  datatype SetId = Id(n: byte) | Raw(bytes: seq<byte>)

  datatype SetKey = SetKey(nalType: byte, id: SetId)

  datatype Entry = Entry(key: SetKey, bytes: seq<byte>)

  predicate LexLess(a: seq<byte>, b: seq<byte>) {
    if a == [] then b != []
    else b != [] && (a[0] < b[0] || (a[0] == b[0] && LexLess(a[1..], b[1..])))
  }

  predicate IdLess(a: SetId, b: SetId) {
    match (a, b)
    case (Id(m), Id(n)) => m < n
    case (Id(_), Raw(_)) => true
    case (Raw(_), Id(_)) => false
    case (Raw(s), Raw(t)) => LexLess(s, t)
  }

  predicate KeyLess(a: SetKey, b: SetKey) {
    a.nalType < b.nalType || (a.nalType == b.nalType && IdLess(a.id, b.id))
  }

  lemma {:induction false} LexTransitive(a: seq<byte>, b: seq<byte>, c: seq<byte>)
    requires LexLess(a, b) && LexLess(b, c)
    ensures LexLess(a, c)
  {
    if a != [] && a[0] == b[0] == c[0] { LexTransitive(a[1..], b[1..], c[1..]); }
  }

  lemma {:induction false} LexTotal(a: seq<byte>, b: seq<byte>)
    ensures a == b || LexLess(a, b) || LexLess(b, a)
    ensures LexLess(a, b) ==> a != b && !LexLess(b, a)
  {
    if a != [] && b != [] {
      LexTotal(a[1..], b[1..]);
      if a[0] == b[0] && a[1..] == b[1..] {
        assert a == [a[0]] + a[1..] && b == [b[0]] + b[1..];
      }
    }
  }

  lemma KeyTransitive(a: SetKey, b: SetKey, c: SetKey)
    requires KeyLess(a, b) && KeyLess(b, c)
    ensures KeyLess(a, c)
  {
    if a.id.Raw? && b.id.Raw? && c.id.Raw? && LexLess(a.id.bytes, b.id.bytes) && LexLess(b.id.bytes, c.id.bytes) {
      LexTransitive(a.id.bytes, b.id.bytes, c.id.bytes);
    }
  }

  lemma KeyTotal(a: SetKey, b: SetKey)
    ensures a == b || KeyLess(a, b) || KeyLess(b, a)
    ensures KeyLess(a, b) ==> a != b && !KeyLess(b, a)
  {
    if a.id.Raw? && b.id.Raw? { LexTotal(a.id.bytes, b.id.bytes); }
  }

  /** `k` is below every key of `m`. */
  ghost predicate Below(k: SetKey, m: seq<Entry>) {
    forall e | e in m :: KeyLess(k, e.key)
  }

  ghost predicate Sorted(m: seq<Entry>) {
    m == [] || (Below(m[0].key, m[1..]) && Sorted(m[1..]))
  }

  function ToMap(m: seq<Entry>): (r: map<SetKey, seq<byte>>)
  {
    if m == [] then map[] else ToMap(m[1..])[m[0].key := m[0].bytes]
  }

  function Insert(m: seq<Entry>, k: SetKey, v: seq<byte>): (r: seq<Entry>)
  {
    if m == [] || KeyLess(k, m[0].key) then [Entry(k, v)] + m
    else if k == m[0].key then [Entry(k, v)] + m[1..]
    else [m[0]] + Insert(m[1..], k, v)
  }

  /** The entries whose key is not among `own` (`retain`). */
  function Retain(m: seq<Entry>, own: set<SetKey>): (r: seq<Entry>)
  {
    if m == [] then []
    else if m[0].key in own then Retain(m[1..], own)
    else [m[0]] + Retain(m[1..], own)
  }

  lemma BelowLess(j: SetKey, k: SetKey, m: seq<Entry>)
    requires KeyLess(j, k) && Below(k, m)
    ensures Below(j, m)
  {
    forall e | e in m ensures KeyLess(j, e.key) { KeyTransitive(j, k, e.key); }
  }

  lemma {:induction false} InsertMembers(m: seq<Entry>, k: SetKey, v: seq<byte>)
    ensures forall e | e in Insert(m, k, v) :: e == Entry(k, v) || e in m
  {
    if m != [] { InsertMembers(m[1..], k, v); }
  }

  lemma {:induction false} InsertSorted(m: seq<Entry>, k: SetKey, v: seq<byte>)
    requires Sorted(m)
    ensures Sorted(Insert(m, k, v))
  {
    if m != [] {
      KeyTotal(k, m[0].key);
      var r := Insert(m, k, v);
      if KeyLess(k, m[0].key) {
        BelowLess(k, m[0].key, m[1..]);
        assert r[1..] == m && Below(k, m);
      } else if k == m[0].key {
        assert r[1..] == m[1..];
      } else {
        InsertSorted(m[1..], k, v);
        InsertMembers(m[1..], k, v);
        assert r[1..] == Insert(m[1..], k, v);
      }
    }
  }

  lemma {:induction false} InsertMap(m: seq<Entry>, k: SetKey, v: seq<byte>)
    requires Sorted(m)
    ensures ToMap(Insert(m, k, v)) == ToMap(m)[k := v]
  {
    if m != [] {
      KeyTotal(k, m[0].key);
      var r := Insert(m, k, v);
      if KeyLess(k, m[0].key) {
        assert r[1..] == m;
      } else if k == m[0].key {
        assert r[1..] == m[1..];
      } else {
        InsertMap(m[1..], k, v);
        assert r[1..] == Insert(m[1..], k, v);
      }
    } else {
      assert Insert(m, k, v)[1..] == [];
    }
  }

  lemma {:induction false} RetainMembers(m: seq<Entry>, own: set<SetKey>)
    ensures forall e :: e in Retain(m, own) <==> e in m && e.key !in own
  {
    if m != [] {
      RetainMembers(m[1..], own);
      assert forall e :: e in m <==> e == m[0] || e in m[1..];
    }
  }

  lemma {:induction false} RetainSorted(m: seq<Entry>, own: set<SetKey>)
    requires Sorted(m)
    ensures Sorted(Retain(m, own))
  {
    if m != [] {
      RetainSorted(m[1..], own);
      RetainMembers(m[1..], own);
      if m[0].key !in own { assert Retain(m, own)[1..] == Retain(m[1..], own); }
    }
  }

  lemma {:induction false} ToMapKeys(m: seq<Entry>)
    ensures forall k :: k in ToMap(m) <==> exists e :: e in m && e.key == k
  {
    if m != [] {
      ToMapKeys(m[1..]);
      assert forall e :: e in m <==> e == m[0] || e in m[1..];
    }
  }

  lemma {:induction false} RetainMap(m: seq<Entry>, own: set<SetKey>)
    requires Sorted(m)
    ensures ToMap(Retain(m, own)) == ToMap(m) - own
  {
    if m != [] {
      RetainMap(m[1..], own);
      if m[0].key !in own { assert Retain(m, own)[1..] == Retain(m[1..], own); }
    }
  }
}
