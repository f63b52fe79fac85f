/** The comparison operators of JSON values, NaN apart. */
module ValueOrder {
  import opened Bytes
  import opened JsonValue

  /** The numeric value of a value's type. */
  function Rank(v: Value): nat {
    match v
    case NullV => 0
    case IntV(_) => 1
    case UIntV(_) => 2
    case RealV(_) => 3
    case StringV(_) => 4
    case BoolV(_) => 5
    case ArrayV(_) => 6
    case ObjectV(_) => 7
  }

  /** operator<: by type, then by content; containers by size before content. */
  predicate Less(a: Value, b: Value)
    decreases Depth(a) + Depth(b), 0, 0
  {
    if Rank(a) != Rank(b) then Rank(a) < Rank(b)
    else
      match a
      case NullV => false
      case IntV(i) => i < b.i
      case UIntV(u) => u < b.u
      case RealV(r) => r < b.r
      case StringV(s) => BytesLess(s, b.s)
      case BoolV(x) => !x && b.b
      case ArrayV(es) => if |es| != |b.entries| then |es| < |b.entries| else EntriesLess(es, b.entries)
      case ObjectV(es) => if |es| != |b.entries| then |es| < |b.entries| else EntriesLess(es, b.entries)
  }

  /** The lexicographic comparison of two maps. */
  predicate EntriesLess(es: seq<Entry>, fs: seq<Entry>)
    decreases EntriesDepth(es) + EntriesDepth(fs), 2, |es|
  {
    if fs == [] then false
    else if es == [] then true
    else EntryLess(es[0], fs[0]) || (!EntryLess(fs[0], es[0]) && EntriesLess(es[1..], fs[1..]))
  }

  /** The comparison of pairs. */
  predicate EntryLess(e: Entry, f: Entry)
    decreases EntryDepth(e) + EntryDepth(f), 1, 0
  {
    KeyLess(e.key, f.key) || (!KeyLess(f.key, e.key) && Less(e.value, f.value))
  }

  /** operator==, with its own comparison of sizes, keys and values. */
  predicate Equal(a: Value, b: Value)
    decreases Depth(a) + Depth(b), 0, 0
  {
    if Rank(a) != Rank(b) then false
    else
      match a
      case NullV => true
      case IntV(i) => i == b.i
      case UIntV(u) => u == b.u
      case RealV(r) => r == b.r
      case StringV(s) => |s| == |b.s| && forall i | 0 <= i < |s| :: s[i] == b.s[i]
      case BoolV(x) => x == b.b
      case ArrayV(es) => |es| == |b.entries| && EntriesEqual(es, b.entries)
      case ObjectV(es) => |es| == |b.entries| && EntriesEqual(es, b.entries)
  }

  predicate EntriesEqual(es: seq<Entry>, fs: seq<Entry>)
    requires |es| == |fs|
    decreases EntriesDepth(es) + EntriesDepth(fs), 2, |es|
  {
    es == [] || (EntryEqual(es[0], fs[0]) && EntriesEqual(es[1..], fs[1..]))
  }

  predicate EntryEqual(e: Entry, f: Entry)
    decreases EntryDepth(e) + EntryDepth(f), 1, 0
  {
    e.key == f.key && Equal(e.value, f.value)
  }

  /** compare. */
  function Compare(a: Value, b: Value): int {
    if Less(a, b) then -1 else if Less(b, a) then 1 else 0
  }

  // ---------- any two values compare in exactly one way ----------

  lemma {:induction false} Trichotomy(a: Value, b: Value)
    ensures Less(a, b) ==> !Less(b, a) && a != b
    ensures Less(a, b) || Less(b, a) || a == b
    decreases Depth(a) + Depth(b), 0, 0
  {
    if Rank(a) == Rank(b) {
      match a
      case StringV(s) => BytesTrichotomy(s, b.s);
      case ArrayV(es) => if |es| == |b.entries| { EntriesTrichotomy(es, b.entries); }
      case ObjectV(es) => if |es| == |b.entries| { EntriesTrichotomy(es, b.entries); }
      case _ =>
    }
  }

  lemma {:induction false} EntriesTrichotomy(es: seq<Entry>, fs: seq<Entry>)
    ensures EntriesLess(es, fs) ==> !EntriesLess(fs, es) && es != fs
    ensures EntriesLess(es, fs) || EntriesLess(fs, es) || es == fs
    decreases EntriesDepth(es) + EntriesDepth(fs), 2, |es|
  {
    if es != [] && fs != [] {
      EntryTrichotomy(es[0], fs[0]);
      EntriesTrichotomy(es[1..], fs[1..]);
      assert es == [es[0]] + es[1..] && fs == [fs[0]] + fs[1..];
    }
  }

  lemma {:induction false} EntryTrichotomy(e: Entry, f: Entry)
    ensures EntryLess(e, f) ==> !EntryLess(f, e) && e != f
    ensures EntryLess(e, f) || EntryLess(f, e) || e == f
    decreases EntryDepth(e) + EntryDepth(f), 1, 0
  {
    KeyTrichotomy(e.key, f.key);
    Trichotomy(e.value, f.value);
  }

  // ---------- the order is transitive ----------

  lemma {:induction false} Transitive(a: Value, b: Value, c: Value)
    requires Less(a, b) && Less(b, c)
    ensures Less(a, c)
    decreases Depth(a) + Depth(b) + Depth(c), 0, 0
  {
    if Rank(a) == Rank(b) == Rank(c) {
      match a
      case StringV(s) => BytesTransitive(s, b.s, c.s);
      case ArrayV(es) => if |es| == |b.entries| == |c.entries| { EntriesTransitive(es, b.entries, c.entries); }
      case ObjectV(es) => if |es| == |b.entries| == |c.entries| { EntriesTransitive(es, b.entries, c.entries); }
      case _ =>
    }
  }

  lemma {:induction false} EntriesTransitive(es: seq<Entry>, fs: seq<Entry>, gs: seq<Entry>)
    requires EntriesLess(es, fs) && EntriesLess(fs, gs)
    ensures EntriesLess(es, gs)
    decreases EntriesDepth(es) + EntriesDepth(fs) + EntriesDepth(gs), 2, |es|
  {
    if es != [] {
      EntryTrichotomy(es[0], fs[0]);
      EntryTrichotomy(fs[0], gs[0]);
      if EntryLess(es[0], fs[0]) && EntryLess(fs[0], gs[0]) {
        EntryTransitive(es[0], fs[0], gs[0]);
      } else if es[0] == fs[0] == gs[0] {
        EntriesTransitive(es[1..], fs[1..], gs[1..]);
      }
    }
  }

  lemma {:induction false} EntryTransitive(e: Entry, f: Entry, g: Entry)
    requires EntryLess(e, f) && EntryLess(f, g)
    ensures EntryLess(e, g)
    decreases EntryDepth(e) + EntryDepth(f) + EntryDepth(g), 1, 0
  {
    KeyTrichotomy(e.key, f.key);
    KeyTrichotomy(f.key, g.key);
    KeyTrichotomy(e.key, g.key);
    if KeyLess(e.key, f.key) && KeyLess(f.key, g.key) {
      KeyTransitive(e.key, f.key, g.key);
    } else if e.key == f.key == g.key {
      Transitive(e.value, f.value, g.value);
    }
  }

  // ---------- which way the order goes ----------

  /** Values of different types are in the order null, integers, unsigned integers, reals, strings, booleans, arrays, objects. */
  lemma TypesAscend(a: Value, b: Value)
    ensures a.NullV? && !b.NullV? ==> Less(a, b)
    ensures a.IntV? && (b.UIntV? || b.RealV?) ==> Less(a, b)
    ensures a.UIntV? && b.RealV? ==> Less(a, b)
    ensures (a.IntV? || a.UIntV? || a.RealV?) && (b.StringV? || b.BoolV? || b.ArrayV? || b.ObjectV?) ==> Less(a, b)
    ensures a.StringV? && (b.BoolV? || b.ArrayV? || b.ObjectV?) ==> Less(a, b)
    ensures a.BoolV? && (b.ArrayV? || b.ObjectV?) ==> Less(a, b)
    ensures a.ArrayV? && b.ObjectV? ==> Less(a, b)
  {
  }

  /** Numbers of one type are in their own order, and false comes before true. */
  lemma ScalarsAscend(i: int, j: int, u: nat, w: nat, r: real, q: real)
    ensures Less(IntV(i), IntV(j)) <==> i < j
    ensures Less(UIntV(u), UIntV(w)) <==> u < w
    ensures Less(RealV(r), RealV(q)) <==> r < q
    ensures Less(BoolV(false), BoolV(true)) && !Less(BoolV(true), BoolV(false)) && !Less(NullV, NullV)
  {
  }

  /** Strings are in the order of their first difference; a beginning comes before the whole. */
  lemma StringsAscend(s: bytes, t: bytes)
    ensures Less(StringV(s), StringV(t)) <==> exists k: nat :: FirstDiffer(s, t, k)
  {
    BytesLessMeans(s, t);
  }

  /** In particular behind a common beginning. */
  lemma StringsBehindPrefix(p: bytes, c: byte, x: bytes, d: byte, y: bytes)
    ensures Less(StringV(p), StringV(p + [c] + x))
    ensures c < d ==> Less(StringV(p + [c] + x), StringV(p + [d] + y))
  {
    var s, t := p + [c] + x, p + [d] + y;
    assert p[..|p|] == s[..|p|] == t[..|p|] == p && s[|p|] == c && t[|p|] == d;
    DifferenceDecides(p, s, |p|);
    if c < d { DifferenceDecides(s, t, |p|); }
  }

  /** Containers are in the order of their sizes. */
  lemma SizesAscend(es: seq<Entry>, fs: seq<Entry>)
    requires |es| < |fs|
    ensures Less(ArrayV(es), ArrayV(fs)) && Less(ObjectV(es), ObjectV(fs))
  {
  }

  /** Of equally many entries the first that differ decide: by their keys, then by their values. */
  lemma {:induction false} FirstDifferenceDecides(es: seq<Entry>, fs: seq<Entry>, k: nat)
    requires k < |es| == |fs| && es[..k] == fs[..k] && es[k] != fs[k]
    ensures EntriesLess(es, fs)
            <==> KeyLess(es[k].key, fs[k].key) || (es[k].key == fs[k].key && Less(es[k].value, fs[k].value))
    decreases k
  {
    EntryTrichotomy(es[0], fs[0]);
    if k == 0 {
      KeyTrichotomy(es[0].key, fs[0].key);
      if KeyLess(fs[0].key, es[0].key) || !EntryLess(es[0], fs[0]) {
        EntryTrichotomy(fs[0], es[0]);
      }
    } else {
      assert es[0] == es[..k][0] == fs[..k][0] == fs[0];
      assert es[1..][..k - 1] == es[..k][1..] && fs[1..][..k - 1] == fs[..k][1..];
      FirstDifferenceDecides(es[1..], fs[1..], k - 1);
    }
  }

  /** A greater value in one place makes a greater container. */
  lemma GreaterInside(es: seq<Entry>, k: nat, w: Value)
    requires k < |es| && Less(es[k].value, w)
    ensures var fs := es[k := Entry(es[k].key, w)];
            Less(ArrayV(es), ArrayV(fs)) && Less(ObjectV(es), ObjectV(fs))
  {
    var fs := es[k := Entry(es[k].key, w)];
    Trichotomy(es[k].value, w);
    assert es[..k] == fs[..k];
    FirstDifferenceDecides(es, fs, k);
  }

  // ---------- equality ----------

  /** operator== is equality of the trees. */
  lemma {:induction false} EqualIsIdentity(a: Value, b: Value)
    ensures Equal(a, b) <==> a == b
    decreases Depth(a) + Depth(b), 0, 0
  {
    if Rank(a) == Rank(b) {
      match a
      case StringV(s) => assert Equal(a, b) ==> s == b.s;
      case ArrayV(es) => if |es| == |b.entries| { EntriesEqualIsIdentity(es, b.entries); }
      case ObjectV(es) => if |es| == |b.entries| { EntriesEqualIsIdentity(es, b.entries); }
      case _ =>
    }
  }

  lemma {:induction false} EntriesEqualIsIdentity(es: seq<Entry>, fs: seq<Entry>)
    requires |es| == |fs|
    ensures EntriesEqual(es, fs) <==> es == fs
    decreases EntriesDepth(es) + EntriesDepth(fs), 2, |es|
  {
    if es != [] {
      EntryEqualIsIdentity(es[0], fs[0]);
      EntriesEqualIsIdentity(es[1..], fs[1..]);
      assert es == [es[0]] + es[1..] && fs == [fs[0]] + fs[1..];
    }
  }

  lemma {:induction false} EntryEqualIsIdentity(e: Entry, f: Entry)
    ensures EntryEqual(e, f) <==> e == f
    decreases EntryDepth(e) + EntryDepth(f), 1, 0
  {
    EqualIsIdentity(e.value, f.value);
  }

  /** compare agrees with both operators, and turning it around turns its sign. */
  lemma CompareAgrees(a: Value, b: Value)
    ensures Compare(a, b) == 0 <==> Equal(a, b)
    ensures Compare(a, b) < 0 <==> Less(a, b)
    ensures Compare(a, b) == -Compare(b, a)
  {
    Trichotomy(a, b);
    EqualIsIdentity(a, b);
  }
}
