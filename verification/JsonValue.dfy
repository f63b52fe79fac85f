/**
 JSON values as the library stores them.  Arrays and objects share one
 representation: a map sorted by key, an index for arrays and a name for
 objects, here the sequence of its entries in iteration order.
 */
module JsonValue {
  import opened Wrappers
  import opened Bytes
  import opened JsonNumbers

  /** CZString: an array index or a member name. */
  datatype Key = Index(i: nat) | Name(s: bytes)

  datatype Entry = Entry(key: Key, value: Value)

  datatype Value =
    | NullV
    | IntV(i: int)
    | UIntV(u: nat)
    | RealV(r: real)
    | StringV(s: bytes)
    | BoolV(b: bool)
    | ArrayV(entries: seq<Entry>)
    | ObjectV(entries: seq<Entry>)

  // ---------- keys ----------

  /** memcmp over the common length, then the lengths. */
  predicate BytesLess(a: bytes, b: bytes) {
    if b == [] then false
    else if a == [] then true
    else if a[0] != b[0] then a[0] < b[0]
    else BytesLess(a[1..], b[1..])
  }

  /** Keys of one container are of one kind. */
  predicate KeyLess(k: Key, l: Key) {
    match (k, l)
    case (Index(i), Index(j)) => i < j
    case (Name(s), Name(t)) => BytesLess(s, t)
    case (Index(_), Name(_)) => true
    case (Name(_), Index(_)) => false
  }

  lemma {:induction false} BytesTrichotomy(a: bytes, b: bytes)
    ensures BytesLess(a, b) ==> !BytesLess(b, a) && a != b
    ensures BytesLess(a, b) || BytesLess(b, a) || a == b
  {
    if a != [] && b != [] && a[0] == b[0] {
      BytesTrichotomy(a[1..], b[1..]);
      assert a == [a[0]] + a[1..] && b == [b[0]] + b[1..];
    }
  }

  lemma {:induction false} BytesTransitive(a: bytes, b: bytes, c: bytes)
    requires BytesLess(a, b) && BytesLess(b, c)
    ensures BytesLess(a, c)
  {
    if a != [] && a[0] == b[0] == c[0] {
      BytesTransitive(a[1..], b[1..], c[1..]);
    }
  }

  lemma KeyTrichotomy(k: Key, l: Key)
    ensures KeyLess(k, l) ==> !KeyLess(l, k) && k != l
    ensures KeyLess(k, l) || KeyLess(l, k) || k == l
  {
    if k.Name? && l.Name? { BytesTrichotomy(k.s, l.s); }
  }

  lemma KeyTransitive(k: Key, l: Key, m: Key)
    requires KeyLess(k, l) && KeyLess(l, m)
    ensures KeyLess(k, m)
  {
    if k.Name? && l.Name? && m.Name? { BytesTransitive(k.s, l.s, m.s); }
  }

  /** The strings agree up to position k, and there the first one ends or has the smaller byte. */
  predicate FirstDiffer(a: bytes, b: bytes, k: nat) {
    && k <= |a| && k < |b| && a[..k] == b[..k] && (k < |a| ==> a[k] < b[k])
  }

  /** memcmp and lengths: the first difference decides, and a beginning comes before the whole. */
  lemma {:induction false} BytesLessMeans(a: bytes, b: bytes)
    ensures BytesLess(a, b) <==> exists k: nat :: FirstDiffer(a, b, k)
  {
    if BytesLess(a, b) {
      var k := DifferenceOf(a, b);
    }
    forall k: nat | FirstDiffer(a, b, k) ensures BytesLess(a, b) { DifferenceDecides(a, b, k); }
  }

  lemma {:induction false} DifferenceOf(a: bytes, b: bytes) returns (k: nat)
    requires BytesLess(a, b)
    ensures FirstDiffer(a, b, k)
  {
    if a == [] || a[0] != b[0] {
      k := 0;
    } else {
      var j := DifferenceOf(a[1..], b[1..]);
      k := j + 1;
      assert a[..k] == [a[0]] + a[1..][..j] && b[..k] == [b[0]] + b[1..][..j];
    }
  }

  lemma {:induction false} DifferenceDecides(a: bytes, b: bytes, k: nat)
    requires FirstDiffer(a, b, k)
    ensures BytesLess(a, b)
  {
    if k > 0 {
      assert a[0] == a[..k][0] == b[..k][0] == b[0];
      assert a[1..][..k - 1] == a[..k][1..] && b[1..][..k - 1] == b[..k][1..];
      DifferenceDecides(a[1..], b[1..], k - 1);
    }
  }

  /** Indices are in the order of their numbers, names in the order of their first difference. */
  lemma KeyLessMeans(k: Key, l: Key)
    requires k.Index? == l.Index?
    ensures KeyLess(k, l) <==>
              if k.Index? then k.i < l.i else exists d: nat :: FirstDiffer(k.s, l.s, d)
  {
    if k.Name? && l.Name? { BytesLessMeans(k.s, l.s); }
  }

  // ---------- the sorted map ----------

  predicate Sorted(es: seq<Entry>) {
    forall i, j | 0 <= i < j < |es| :: KeyLess(es[i].key, es[j].key)
  }

  /** find: the value under a key. */
  function Find(es: seq<Entry>, key: Key): Option<Value> {
    if es == [] then None
    else if es[0].key == key then Some(es[0].value)
    else Find(es[1..], key)
  }

  /** The const subscript operators: a missing entry reads as null. */
  function Get(es: seq<Entry>, key: Key): Value {
    if Find(es, key).Some? then Find(es, key).value else NullV
  }

  /** Assignment through the non-const subscript operators: overwrite, or insert at the lower bound. */
  function Put(es: seq<Entry>, key: Key, value: Value): (r: seq<Entry>)
    ensures r != []
  {
    if es == [] || KeyLess(key, es[0].key) then [Entry(key, value)] + es
    else if es[0].key == key then [Entry(key, value)] + es[1..]
    else [es[0]] + Put(es[1..], key, value)
  }

  /** erase by key. */
  function Erase(es: seq<Entry>, key: Key): seq<Entry> {
    if es == [] then []
    else if es[0].key == key then es[1..]
    else [es[0]] + Erase(es[1..], key)
  }

  /** Number of elements of an array: its highest index plus one. */
  function Size(es: seq<Entry>): nat {
    if es == [] || !es[|es| - 1].key.Index? then 0 else es[|es| - 1].key.i + 1
  }

  /** The array as a plain sequence, holes reading as null. */
  function Dense(es: seq<Entry>): (s: seq<Value>)
    ensures |s| == Size(es)
  {
    seq(Size(es), i requires i >= 0 => Get(es, Index(i)))
  }

  /** Writing a key beyond all others appends. */
  lemma {:induction false} PutAtEnd(es: seq<Entry>, key: Key, value: Value)
    requires forall e | e in es :: KeyLess(e.key, key)
    ensures Put(es, key, value) == es + [Entry(key, value)]
  {
    if es != [] {
      assert es[0] in es;
      KeyTrichotomy(es[0].key, key);
      PutAtEnd(es[1..], key, value);
    }
  }

  /** Storing keeps the map sorted and adds no entry but its own. */
  lemma {:induction false} PutSorted(es: seq<Entry>, key: Key, value: Value)
    requires Sorted(es)
    ensures Sorted(Put(es, key, value))
    ensures forall e | e in Put(es, key, value) :: e == Entry(key, value) || e in es
  {
    if es != [] {
      KeyTrichotomy(key, es[0].key);
      if KeyLess(key, es[0].key) {
        forall j | 1 <= j < |es| ensures KeyLess(key, es[j].key) { KeyTransitive(key, es[0].key, es[j].key); }
      } else if es[0].key != key {
        PutSorted(es[1..], key, value);
        assert forall e | e in es[1..] :: KeyLess(es[0].key, e.key);
        assert forall e | e in Put(es[1..], key, value) :: KeyLess(es[0].key, e.key);
      }
    }
  }

  // ---------- nesting ----------

  function Max(a: nat, b: nat): nat {
    if a >= b then a else b
  }

  /** Nesting depth; a scalar or an empty container counts one. */
  function Depth(v: Value): (d: nat)
    ensures d >= 1
    decreases v
  {
    match v
    case ArrayV(es) => 1 + EntriesDepth(es)
    case ObjectV(es) => 1 + EntriesDepth(es)
    case _ => 1
  }

  function EntriesDepth(es: seq<Entry>): nat
    decreases es
  {
    if es == [] then 0 else Max(EntryDepth(es[0]), EntriesDepth(es[1..]))
  }

  function EntryDepth(e: Entry): nat
    decreases e
  {
    Depth(e.value)
  }

  lemma {:induction false} DepthOfEntry(es: seq<Entry>, i: nat)
    requires i < |es|
    ensures Depth(es[i].value) <= EntriesDepth(es)
    decreases es
  {
    if i > 0 {
      DepthOfEntry(es[1..], i - 1);
    }
  }

  lemma {:induction false} FindDepth(es: seq<Entry>, key: Key)
    ensures Find(es, key).Some? ==> Depth(Find(es, key).value) <= EntriesDepth(es)
  {
    if es != [] && es[0].key != key {
      FindDepth(es[1..], key);
    }
  }

  /** An element of an array, null holes included, is nested less deeply than the array. */
  lemma DenseDepth(es: seq<Entry>, i: nat)
    requires i < Size(es)
    ensures Depth(Dense(es)[i]) < Depth(ArrayV(es))
  {
    FindDepth(es, Index(i));
    DepthOfEntry(es, 0);
  }

  // ---------- well-formed values ----------

  predicate Container(v: Value) {
    v.ArrayV? || v.ObjectV?
  }

  /** Sorted containers with keys of the right kind, and integers of 64 bits. */
  predicate Valid(v: Value)
    decreases v
  {
    match v
    case IntV(i) => -MAX_LARGEST_INT - 1 <= i <= MAX_LARGEST_INT
    case UIntV(u) => u <= MAX_LARGEST_UINT
    case ArrayV(es) => Sorted(es) && forall i | 0 <= i < |es| :: es[i].key.Index? && Valid(es[i].value)
    case ObjectV(es) => Sorted(es) && forall i | 0 <= i < |es| :: es[i].key.Name? && Valid(es[i].value)
    case _ => true
  }

  /** The members of a valid object are valid, and nested less deeply than the object. */
  lemma MemberValid(es: seq<Entry>, i: nat)
    requires Valid(ObjectV(es)) && i < |es|
    ensures es[i].key.Name? && Valid(es[i].value) && Depth(es[i].value) < Depth(ObjectV(es))
  {
    DepthOfEntry(es, i);
  }

  lemma {:induction false} FindIsEntry(es: seq<Entry>, key: Key)
    ensures Find(es, key).Some? ==> exists i | 0 <= i < |es| :: es[i] == Entry(key, Find(es, key).value)
  {
    if es != [] {
      if es[0].key == key {
        assert es[0] == Entry(key, Find(es, key).value);
      } else {
        FindIsEntry(es[1..], key);
        if Find(es[1..], key).Some? {
          var i :| 0 <= i < |es[1..]| && es[1..][i] == Entry(key, Find(es, key).value);
          assert es[i + 1] == Entry(key, Find(es, key).value);
        }
      }
    }
  }

  /** The elements of a valid array are valid, holes included. */
  lemma DenseValid(es: seq<Entry>, i: nat)
    requires Valid(ArrayV(es)) && i < Size(es)
    ensures Valid(Dense(es)[i])
  {
    FindIsEntry(es, Index(i));
  }

  /** In a sorted map every entry is the one found under its key. */
  lemma {:induction false} FindSorted(es: seq<Entry>, i: nat)
    requires Sorted(es) && i < |es|
    ensures Find(es, es[i].key) == Some(es[i].value)
  {
    if i > 0 {
      KeyTrichotomy(es[0].key, es[i].key);
      FindSorted(es[1..], i - 1);
    }
  }

  /** Every entry of a valid array is one of its elements. */
  lemma EntryIsDense(es: seq<Entry>, i: nat)
    requires Valid(ArrayV(es)) && i < |es|
    ensures es[i].key.i < Size(es) && Dense(es)[es[i].key.i] == es[i].value
  {
    FindSorted(es, i);
    assert i < |es| - 1 ==> KeyLess(es[i].key, es[|es| - 1].key);
  }

  lemma {:induction false} DeepestEntry(es: seq<Entry>) returns (i: nat)
    requires es != []
    ensures i < |es| && Depth(es[i].value) == EntriesDepth(es)
  {
    if |es| == 1 || EntriesDepth(es[1..]) <= Depth(es[0].value) {
      return 0;
    }
    i := DeepestEntry(es[1..]);
    i := i + 1;
  }
}
