/**
 Arrays are kept as sparse maps from indices to values.  What the array
 operations do to the plain sequence such a map stands for.
 */
module SparseArrays {
  import opened Wrappers
  import opened JsonValue

  // ---------- maps by their lookups ----------

  /** The entries of an array. */
  predicate Indexed(es: seq<Entry>) {
    Sorted(es) && forall i | 0 <= i < |es| :: es[i].key.Index?
  }

  predicate Present(es: seq<Entry>, i: nat) {
    Find(es, Index(i)).Some?
  }

  /** No element is missing. */
  ghost predicate HoleFree(es: seq<Entry>) {
    forall i: nat | i < Size(es) :: Present(es, i)
  }

  lemma {:induction false} FindPut(es: seq<Entry>, key: Key, value: Value, other: Key)
    requires Sorted(es)
    ensures Find(Put(es, key, value), other) == if other == key then Some(value) else Find(es, other)
  {
    if es != [] {
      KeyTrichotomy(key, es[0].key);
      if !KeyLess(key, es[0].key) && es[0].key != key {
        FindPut(es[1..], key, value, other);
      }
    }
  }

  lemma {:induction false} FindAbove(es: seq<Entry>, key: Key)
    requires forall e | e in es :: KeyLess(key, e.key)
    ensures Find(es, key).None?
  {
    if es != [] {
      assert es[0] in es;
      KeyTrichotomy(key, es[0].key);
      FindAbove(es[1..], key);
    }
  }

  lemma {:induction false} FindErase(es: seq<Entry>, key: Key, other: Key)
    requires Sorted(es)
    ensures Find(Erase(es, key), other) == if other == key then None else Find(es, other)
  {
    if es != [] {
      if es[0].key == key {
        assert forall e | e in es[1..] :: KeyLess(key, e.key);
        FindAbove(es[1..], key);
      } else {
        FindErase(es[1..], key, other);
      }
    }
  }

  lemma {:induction false} EraseSorted(es: seq<Entry>, key: Key)
    requires Sorted(es)
    ensures Sorted(Erase(es, key)) && forall e | e in Erase(es, key) :: e in es
  {
    if es != [] && es[0].key != key {
      EraseSorted(es[1..], key);
      assert forall e | e in es[1..] :: KeyLess(es[0].key, e.key);
      assert forall e | e in Erase(es[1..], key) :: KeyLess(es[0].key, e.key);
    }
  }

  lemma PutIndexed(es: seq<Entry>, i: nat, value: Value)
    requires Indexed(es)
    ensures Indexed(Put(es, Index(i), value))
  {
    PutSorted(es, Index(i), value);
    var es' := Put(es, Index(i), value);
    forall j | 0 <= j < |es'| ensures es'[j].key.Index? { assert es'[j] in es'; }
  }

  lemma EraseIndexed(es: seq<Entry>, i: nat)
    requires Indexed(es)
    ensures Indexed(Erase(es, Index(i)))
  {
    EraseSorted(es, Index(i));
    var es' := Erase(es, Index(i));
    forall j | 0 <= j < |es'| ensures es'[j].key.Index? { assert es'[j] in es'; }
  }

  lemma PresentBelowSize(es: seq<Entry>, i: nat)
    requires Indexed(es) && Present(es, i)
    ensures i < Size(es)
  {
    FindIsEntry(es, Index(i));
    var k :| 0 <= k < |es| && es[k] == Entry(Index(i), Find(es, Index(i)).value);
    assert k < |es| - 1 ==> KeyLess(es[k].key, es[|es| - 1].key);
  }

  lemma LastPresent(es: seq<Entry>)
    requires Indexed(es) && Size(es) > 0
    ensures Present(es, Size(es) - 1)
  {
    FindSorted(es, |es| - 1);
  }

  /** The size is the least upper bound of the indices present. */
  lemma SizeIs(es: seq<Entry>, n: nat)
    requires Indexed(es)
    requires forall i: nat | Present(es, i) :: i < n
    requires n > 0 ==> Present(es, n - 1)
    ensures Size(es) == n
  {
    if n > 0 { PresentBelowSize(es, n - 1); }
    if Size(es) > 0 { LastPresent(es); }
  }

  // ---------- the plain sequence ----------

  /** The sequence, with nulls added up to a length. */
  function Padded(s: seq<Value>, n: nat): (r: seq<Value>)
    ensures |r| == Max(|s|, n)
    ensures forall i | 0 <= i < |r| :: r[i] == if i < |s| then s[i] else NullV
  {
    if |s| >= n then s else s + seq(n - |s|, i => NullV)
  }

  lemma DenseAt(es: seq<Entry>, i: nat)
    requires Indexed(es)
    ensures Get(es, Index(i)) == if i < Size(es) then Dense(es)[i] else NullV
  {
    if Present(es, i) { PresentBelowSize(es, i); }
  }

  /** What is found after storing at an index. */
  lemma PutLookups(es: seq<Entry>, i: nat, value: Value)
    requires Indexed(es)
    ensures Indexed(Put(es, Index(i), value))
    ensures forall j: nat :: Find(Put(es, Index(i), value), Index(j)) == if j == i then Some(value) else Find(es, Index(j))
  {
    PutIndexed(es, i, value);
    forall j: nat
      ensures Find(Put(es, Index(i), value), Index(j)) == if j == i then Some(value) else Find(es, Index(j))
    {
      FindPut(es, Index(i), value, Index(j));
    }
  }

  /** What is found after erasing an index. */
  lemma EraseLookups(es: seq<Entry>, i: nat)
    requires Indexed(es)
    ensures Indexed(Erase(es, Index(i)))
    ensures forall j: nat :: Find(Erase(es, Index(i)), Index(j)) == if j == i then None else Find(es, Index(j))
  {
    EraseIndexed(es, i);
    forall j: nat
      ensures Find(Erase(es, Index(i)), Index(j)) == if j == i then None else Find(es, Index(j))
    {
      FindErase(es, Index(i), Index(j));
    }
  }

  /** A map that has besides another one's entries an entry at i is as long as that or reaches i. */
  lemma PutSize(es: seq<Entry>, es': seq<Entry>, i: nat)
    requires Indexed(es) && Indexed(es') && forall j: nat :: Present(es', j) <==> j == i || Present(es, j)
    ensures Size(es') == Max(Size(es), i + 1)
  {
    var n := Max(Size(es), i + 1);
    forall j: nat | Present(es', j) ensures j < n { if j != i { PresentBelowSize(es, j); } }
    if Size(es) > 0 { LastPresent(es); }
    SizeIs(es', n);
  }

  /** Storing at an index. */
  lemma DensePut(es: seq<Entry>, i: nat, value: Value)
    requires Indexed(es)
    ensures Indexed(Put(es, Index(i), value))
    ensures Dense(Put(es, Index(i), value)) == Padded(Dense(es), i + 1)[i := value]
  {
    PutLookups(es, i, value);
    PutSize(es, Put(es, Index(i), value), i);
    forall j | 0 <= j < Max(Size(es), i + 1)
      ensures Dense(Put(es, Index(i), value))[j] == Padded(Dense(es), i + 1)[i := value][j]
    {
      DenseAt(es, j);
    }
  }

  /** The elements from an index up to another moved left by one. */
  ghost function Shifted(s: seq<Value>, index: nat, i: nat): (r: seq<Value>)
    requires index <= i < |s|
    ensures |r| == |s| && forall j | 0 <= j < |s| :: r[j] == if index <= j < i then s[j + 1] else s[j]
  {
    seq(|s|, j requires 0 <= j < |s| => if index <= j < i then s[j + 1] else s[j])
  }

  lemma ShiftedNext(s: seq<Value>, index: nat, i: nat)
    requires index <= i && i + 1 < |s|
    ensures Shifted(s, index, i)[i := Shifted(s, index, i)[i + 1]] == Shifted(s, index, i + 1)
  {
  }

  lemma ShiftedAll(s: seq<Value>, index: nat)
    requires index < |s|
    ensures Shifted(s, index, |s| - 1)[..|s| - 1] == s[..index] + s[index + 1..]
  {
  }

  /** All entries from an index on erased: what is left of the sequence, and when it is still that long. */
  ghost predicate CutOff(was: seq<Entry>, es: seq<Entry>, n: nat)
    requires n <= Size(was)
  {
    && Indexed(es) && Size(es) <= n
    && Padded(Dense(es), n) == Dense(was)[..n]
    && (Size(es) == n <==> n == 0 || Present(was, n - 1))
    && (forall i: nat :: Present(es, i) <==> i < n && Present(was, i))
    && (HoleFree(was) ==> HoleFree(es))
  }

  lemma CutSize(was: seq<Entry>, es: seq<Entry>, n: nat)
    requires Indexed(was) && Indexed(es) && n <= Size(was)
    requires forall i: nat :: Present(es, i) <==> i < n && Present(was, i)
    ensures Size(es) <= n && (Size(es) == n <==> n == 0 || Present(was, n - 1)) && (HoleFree(was) ==> HoleFree(es))
  {
    if Size(es) > 0 { LastPresent(es); }
    if n > 0 && Present(was, n - 1) { SizeIs(es, n); }
    if HoleFree(was) {
      forall i: nat | i < Size(es) ensures Present(es, i) { assert Present(was, i); }
    }
  }

  lemma Shrunk(was: seq<Entry>, es: seq<Entry>, n: nat)
    requires Indexed(was) && Indexed(es) && n <= Size(was)
    requires forall i: nat :: Find(es, Index(i)) == if n <= i < Size(was) then None else Find(was, Index(i))
    ensures CutOff(was, es, n)
  {
    forall i: nat ensures Present(es, i) <==> i < n && Present(was, i) {
      if Present(was, i) { PresentBelowSize(was, i); }
    }
    CutSize(was, es, n);
    forall i | 0 <= i < n ensures Padded(Dense(es), n)[i] == Dense(was)[i] {
      DenseAt(es, i);
    }
  }

  // ---------- the operations ----------

  class SparseArray {
    var entries: seq<Entry>

    ghost predicate Valid()
      reads this
    {
      Indexed(entries)
    }

    /** The sequence the array stands for. */
    ghost function Items(): seq<Value>
      reads this
    {
      Dense(entries)
    }

    constructor ()
      ensures Valid() && Items() == [] && entries == [] && HoleFree(entries)
    {
      entries := [];
    }

    /** The subscript operator as a reference: a missing element is created as null. */
    method Subscript(index: nat) returns (value: Value)
      requires Valid()
      modifies this
      ensures Valid() && value == Get(old(entries), Index(index))
      ensures Items() == Padded(old(Items()), index + 1)
      ensures forall i: nat :: Present(entries, i) <==> i == index || Present(old(entries), i)
    {
      var found := Find(entries, Index(index));
      if found.Some? {
        PresentBelowSize(entries, index);
        return found.value;
      }
      DensePut(entries, index, NullV);
      PutLookups(entries, index, NullV);
      DenseAt(entries, index);
      entries := Put(entries, Index(index), NullV);
      return NullV;
    }

    /** Assignment through the subscript operator. */
    method Assign(index: nat, value: Value)
      requires Valid()
      modifies this
      ensures Valid() && Items() == Padded(old(Items()), index + 1)[index := value]
      ensures forall i: nat :: Present(entries, i) <==> i == index || Present(old(entries), i)
    {
      DensePut(entries, index, value);
      PutLookups(entries, index, value);
      entries := Put(entries, Index(index), value);
    }

    method Append(value: Value)
      requires Valid()
      modifies this
      ensures Valid() && Items() == old(Items()) + [value] && (HoleFree(old(entries)) ==> HoleFree(entries))
    {
      Assign(Size(entries), value);
    }

    /** resize; false where its closing assertion fails. */
    method Resize(newSize: nat) returns (ok: bool)
      requires Valid()
      modifies this
      ensures Valid() && (ok <==> |Items()| == newSize)
      ensures newSize >= |old(Items())| ==> ok && Items() == Padded(old(Items()), newSize)
      ensures newSize < |old(Items())| ==>
                && Padded(Items(), newSize) == old(Items())[..newSize]
                && (ok <==> newSize == 0 || Present(old(entries), newSize - 1))
      ensures newSize <= |old(Items())| ==> CutOff(old(entries), entries, newSize)
    {
      var oldSize := Size(entries);
      if newSize == 0 {
        entries := [];
        return true;
      } else if newSize > oldSize {
        var _ := Subscript(newSize - 1);
        return true;
      }
      LastPresent(entries);
      EraseFrom(newSize);
      return Size(entries) == newSize;
    }

    /** The erasing loop of resize. */
    method EraseFrom(newSize: nat)
      requires Valid() && newSize <= |Items()|
      modifies this
      ensures Valid() && CutOff(old(entries), entries, newSize)
    {
      ghost var was := entries;
      for index := newSize to Size(entries)
        invariant Valid()
        invariant forall i: nat :: Find(entries, Index(i)) == if newSize <= i < index then None else Find(was, Index(i))
      {
        EraseLookups(entries, index);
        entries := Erase(entries, Index(index));
      }
      Shrunk(was, entries, newSize);
    }

    /** One turn of the loop of removeIndex; reading the next element creates it if it is missing. */
    method MoveLeft(i: nat)
      requires Valid() && i + 1 < |Items()|
      modifies this
      ensures Valid() && Items() == old(Items())[i := old(Items())[i + 1]]
      ensures forall j: nat :: Present(entries, j) <==> j == i || j == i + 1 || Present(old(entries), j)
    {
      DenseAt(entries, i + 1);
      var next := Subscript(i + 1);
      Assign(i, next);
    }

    /** The end of removeIndex. */
    method EraseLast()
      requires Valid() && Items() != []
      modifies this
      ensures Valid() && CutOff(old(entries), entries, |old(Items())| - 1)
    {
      ghost var was := entries;
      var last := Size(entries) - 1;
      EraseLookups(entries, last);
      entries := Erase(entries, Index(last));
      Shrunk(was, entries, last);
    }

    /** removeIndex; None where nothing is removed. */
    method RemoveIndex(index: nat) returns (removed: Option<Value>)
      requires Valid()
      modifies this
      ensures Valid() && removed == Find(old(entries), Index(index))
      ensures removed.None? ==> entries == old(entries)
      ensures removed.Some? ==> index < |old(Items())|
      ensures removed.Some? && index < |old(Items())| - 1 ==> Items() == old(Items())[..index] + old(Items())[index + 1..]
      ensures removed.Some? && index == |old(Items())| - 1 ==>
                && Padded(Items(), index) == old(Items())[..index]
                && (Items() == old(Items())[..index] <==> index == 0 || Present(old(entries), index - 1))
      ensures removed.Some? && index == |old(Items())| - 1 ==> CutOff(old(entries), entries, index)
      ensures HoleFree(old(entries)) ==> HoleFree(entries)
    {
      removed := Find(entries, Index(index));
      if removed.None? {
        return;
      }
      PresentBelowSize(entries, index);
      var oldSize := Size(entries);
      ghost var was := Items();
      assert Items() == Shifted(was, index, index);
      for i := index to oldSize - 1
        invariant Valid() && Items() == Shifted(was, index, i)
        invariant forall j: nat :: Present(entries, j) <==> Present(old(entries), j) || index <= j <= i
      {
        ShiftedNext(was, index, i);
        MoveLeft(i);
      }
      ShiftedAll(was, index);
      EraseLast();
    }
  }

  /** The elements 0 and 5 of an array of six. */
  method SixWithHoles(v: Value) returns (a: SparseArray)
    ensures fresh(a) && a.Valid() && |a.Items()| == 6
    ensures forall i: nat :: Present(a.entries, i) <==> i == 0 || i == 5
  {
    a := new SparseArray();
    a.Assign(0, v);
    a.Assign(5, v);
  }

  /** With the middle elements missing, shrinking to three fails its assertion, and removing the last one leaves one. */
  method HolesShow(v: Value) returns (ok: bool, shrunk: SparseArray, cut: SparseArray)
    ensures !ok && shrunk.Valid() && |shrunk.Items()| == 1
    ensures cut.Valid() && |cut.Items()| == 1
  {
    shrunk := SixWithHoles(v);
    ok := shrunk.Resize(3);
    SizeIs(shrunk.entries, 1);
    cut := SixWithHoles(v);
    var removed := cut.RemoveIndex(5);
    SizeIs(cut.entries, 1);
  }
}
