/**
 * Two runs of a fresh SnapshotList, written as client code: what an open
 * snapshot sees while elements are added, and what happens to an element
 * that is collected while a snapshot is open.
 */
module SnapshotTraces {
  import opened Lang
  import opened WeakRefs
  import opened SnapshotLists

  /** A new registry; add(a); add(b); open a snapshot, which merges a and b in this order. */
  method OpenOnTwo<T(==)>(a: T, b: T) returns (reg: SnapshotList<T>, s: Snapshot<T>)
    requires a != b
    ensures fresh(reg) && fresh(reg.list) && reg.Valid() && s.Valid()
    ensures s.origin == reg && s.list == reg && !s.hasNull && reg.snapshots == 1
    ensures reg.toBeAdded == [] && Values(reg.list.elems) == [Some(a), Some(b)]
    ensures forall m :: 0 <= m < |reg.list.elems| ==> fresh(reg.list.elems[m])
  {
    reg := new SnapshotList<T>();
    var o := reg.Add(Some(a));
    o := reg.Add(Some(b));
    s := reg.GetSnapshot();
    FreshAllNew({}, [a, b]);
    assert Contained<T>([]) == {};
  }

  /** s.get(0), s.get(1), s.get(2) on an open snapshot. */
  method ReadThree<T(==)>(s: Snapshot<T>) returns (rs: seq<Result<Option<T>>>)
    requires s.Valid() && s.list != null
    modifies s`hasNull
    ensures s.Valid()
    ensures |rs| == 3
    ensures forall i :: 0 <= i < 3 ==>
              rs[i] == if i < |s.view| then Ok(s.view[i].referent) else Throw(IndexOutOfBounds)
    ensures s.hasNull == (old(s.hasNull) || exists i :: 0 <= i < 3 && i < |s.view| && s.view[i].referent.None?)
  {
    var r0 := s.Get(0);
    var r1 := s.Get(1);
    var r2 := s.Get(2);
    rs := [r0, r1, r2];
  }

  /**
   * add(a); add(b); open s1, which has size 2; add(c): s1 still has size 2
   * and shows a, b and nothing at position 2.
   */
  method AddWhileOpen<T(==)>(a: T, b: T, c: T)
    returns (reg: SnapshotList<T>, s1: Snapshot<T>, size1: Result<int>, size1Later: Result<int>,
             seen1: seq<Result<Option<T>>>)
    requires a != b
    ensures fresh(reg) && fresh(reg.list) && reg.Valid() && s1.Valid()
    ensures s1.origin == reg && s1.list == reg && !s1.hasNull && reg.snapshots == 1
    ensures reg.toBeAdded == [c] && Values(reg.list.elems) == [Some(a), Some(b)]
    ensures size1 == Ok(2) && size1Later == Ok(2)
    ensures seen1 == [Ok(Some(a)), Ok(Some(b)), Throw(IndexOutOfBounds)]
  {
    reg, s1 := OpenOnTwo(a, b);
    size1 := s1.Size();
    var o := reg.Add(Some(c));
    size1Later := s1.Size();
    ValuesAt(reg.list.elems);
    assert s1.view == reg.list.elems;
    seen1 := ReadThree(s1);
  }

  /** Closing the only snapshot after add(c) merges c behind a and b. */
  method CloseAfterAdd<T(==)>(reg: SnapshotList<T>, s1: Snapshot<T>, a: T, b: T, c: T)
    requires reg.Valid() && s1.Valid() && a != b && b != c && a != c
    requires s1.origin == reg && s1.list == reg && !s1.hasNull && reg.snapshots == 1
    requires reg.toBeAdded == [c] && Values(reg.list.elems) == [Some(a), Some(b)]
    modifies s1`list, reg, reg.list
    ensures reg.Valid() && reg.snapshots == 0 && reg.toBeAdded == []
    ensures Values(reg.list.elems) == [Some(a), Some(b), Some(c)]
  {
    ghost var before, v1 := reg.list.elems, Values(reg.list.elems);
    s1.Close();
    assert IsMerge(before, v1, [c], false, reg.list.elems, Values(reg.list.elems));
    FreshAllNew(Contained(v1), [c]);
  }

  /** With nothing open or pending, a new snapshot shows the list as it is. */
  method OpenAndRead<T(==)>(reg: SnapshotList<T>, vs: seq<Option<T>>)
    returns (size: Result<int>, seen: seq<Result<Option<T>>>)
    requires reg.Valid() && reg.snapshots == 0 && reg.toBeAdded == [] && Values(reg.list.elems) == vs
    modifies reg, reg.list
    ensures size == Ok(|vs|) && |seen| == 3
    ensures forall i :: 0 <= i < 3 ==> seen[i] == if i < |vs| then Ok(vs[i]) else Throw(IndexOutOfBounds)
  {
    ghost var before := reg.list.elems;
    var s := reg.GetSnapshot();
    EmptyMergeNoChange(before, vs, reg.list.elems, Values(reg.list.elems));
    size := s.Size();
    ValuesAt(reg.list.elems);
    assert s.view == reg.list.elems;
    seen := ReadThree(s);
  }

  /**
   * add(a); add(b); open s1; add(c); close s1; open s2: s1 never showed c,
   * and s2 shows a, b, c in insertion order.
   */
  method InsertionOrder<T(==)>(a: T, b: T, c: T)
    returns (size1: Result<int>, size1Later: Result<int>, seen1: seq<Result<Option<T>>>,
             size2: Result<int>, seen2: seq<Result<Option<T>>>)
    requires a != b && b != c && a != c
    ensures size1 == Ok(2) && size1Later == Ok(2) && size2 == Ok(3)
    ensures seen1 == [Ok(Some(a)), Ok(Some(b)), Throw(IndexOutOfBounds)]
    ensures seen2 == [Ok(Some(a)), Ok(Some(b)), Ok(Some(c))]
  {
    var reg, s1;
    reg, s1, size1, size1Later, seen1 := AddWhileOpen(a, b, c);
    CloseAfterAdd(reg, s1, a, b, c);
    size2, seen2 := OpenAndRead(reg, [Some(a), Some(b), Some(c)]);
  }

  /**
   * add(x); open s1; the collector clears x's reference; s1.get(0) yields
   * null; closing s1, the last snapshot, compacts the list to nothing; a new
   * snapshot s2 has size 0.
   */
  method CollectedWhileOpen<T(==)>(x: T) returns (got: Result<Option<T>>, size2: Result<int>)
    ensures got == Ok(None) && size2 == Ok(0)
  {
    var reg := new SnapshotList<T>();
    var o := reg.Add(Some(x));
    assert reg.toBeAdded == [x] && reg.snapshots == 0 && Values(reg.list.elems) == [];
    var s1 := reg.GetSnapshot();
    assert Contained<T>([]) == {};
    FreshAllNew({}, [x]);
    assert |reg.list.elems| == 1;
    var ref := reg.list.elems[0];
    ref.Clear();
    got := s1.Get(0);
    ghost var before := reg.list.elems;
    assert before == [ref] && Values(before) == [None];
    assert reg.toBeAdded == [] && s1.list == reg && reg.snapshots == 1 && s1.hasNull;
    s1.Close();
    assert reg.snapshots == 0;
    assert IsMerge(before, [None], [], true, reg.list.elems, Values(reg.list.elems));
    assert reg.list.elems == [];
    var s2 := reg.GetSnapshot();
    size2 := s2.Size();
  }
}
