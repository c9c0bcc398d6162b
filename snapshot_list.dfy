/**
 * jkanvas.util.SnapshotList: a registry that can always be added to but is
 * read only through snapshots. The stable list holds weak references and is
 * shared, not copied, by every open snapshot; it is changed only by a merge,
 * which runs when the number of open snapshots is (or drops to) zero.
 *
 * The single monitor of the source makes every operation one atomic step
 * here. The ghost set `open` records which snapshots are open, and each open
 * snapshot records in its ghost `view` the list it was opened on; Valid()
 * says that the counter counts them and that the list still is that view.
 */
module SnapshotLists {
  import opened Lang
  import opened WeakRefs

  class SnapshotList<T(==)> {
    /** All registered objects, as weak references. */
    const list: RefList<T>
    /** The elements added since the last merge. */
    var toBeAdded: seq<T>
    /** The number of active snapshots. */
    var snapshots: int
    /** The snapshots that are open on this list. */
    ghost var open: set<Snapshot<T>>

    /** While there are snapshots, the list is the one each of them was opened on. */
    ghost predicate Valid()
      reads this, list, open`list, open`view
    {
      && snapshots == |open|
      && forall s :: s in open ==> s.list == this && s.content == list && s.view == list.elems
    }

    constructor ()
      ensures Valid() && fresh(list)
      ensures list.elems == [] && toBeAdded == [] && snapshots == 0 && open == {}
    {
      list := new RefList();
      toBeAdded := [];
      snapshots := 0;
      open := {};
    }

    /** Adds an element; it becomes visible at the next merge. */
    method Add(elem: Option<T>) returns (o: Outcome)
      requires Valid()
      modifies this`toBeAdded
      ensures Valid()
      ensures elem.None? ==> o == Thrown(NullPointer) && toBeAdded == old(toBeAdded)
      ensures elem.Some? ==> o == Done && toBeAdded == old(toBeAdded) + [elem.value]
    {
      if elem.None? {
        return Thrown(NullPointer);
      }
      toBeAdded := toBeAdded + [elem.value];
      o := Done;
    }

    /**
     * The merge: with gc, first drops every reference whose referent has been
     * collected; then appends a new reference for each pending element not
     * equal to a current referent or to an element appended before it, and
     * empties the pending list.
     */
    method AddAll(gc: bool)
      modifies this`toBeAdded, list
      ensures IsMerge(old(list.elems), old(Values(list.elems)), old(toBeAdded), gc, list.elems, Values(list.elems))
      ensures toBeAdded == []
      ensures forall m :: |Retained(old(Values(list.elems)), gc)| <= m < |list.elems| ==> fresh(list.elems[m])
      ensures DistinctLive(old(Values(list.elems))) ==> DistinctLive(Values(list.elems))
    {
      ghost var before, vals, pending := list.elems, Values(list.elems), toBeAdded;
      if gc {
        ValuesAt(before);
        Compact(vals);
        assert Values(before) == vals;
        KeptValues(before, vals);
        KeptLength(before, vals, vals);
      }
      ghost var base, kept := list.elems, Values(list.elems);
      assert |base| == |Retained(vals, gc)|;
      Merge();
      CompactThenMerge(before, vals, pending, gc, base, kept, list.elems, Values(list.elems));
      if DistinctLive(vals) {
        MergeDistinct(before, vals, pending, gc, list.elems, Values(list.elems));
      }
    }

    /**
     * The second half of addAll: appends a new reference for each pending
     * element that is neither a current referent nor appended already.
     */
    method Merge()
      modifies this`toBeAdded, list
      ensures IsMerge(old(list.elems), old(Values(list.elems)), old(toBeAdded), false, list.elems, Values(list.elems))
      ensures toBeAdded == []
      ensures forall m :: |old(list.elems)| <= m < |list.elems| ==> fresh(list.elems[m])
    {
      ghost var base, kept, pending := list.elems, Values(list.elems), toBeAdded;
      if toBeAdded == [] {
        assert kept + Somes(Fresh(Contained(kept), [])) == kept;
        return;
      }
      var contained := ContainedValues();
      ghost var ext := AppendFresh(contained);
      ghost var vext := Values(ext);
      toBeAdded := [];
      assert Values(ext) == vext;
      ValuesConcat(base, ext);
      assert Values(base) == kept;
      assert list.elems[..|base|] == base;
    }

    /** The first half of addAll(true): a left-compaction of the list in place. */
    method Compact(ghost vals: seq<Option<T>>)
      requires |vals| == |list.elems|
      requires forall j :: 0 <= j < |vals| ==> list.elems[j].referent == vals[j]
      modifies list
      ensures list.elems == Kept(old(list.elems), vals)
    {
      ghost var before := list.elems;
      var i, k := 0, 0;
      while k < |list.elems|
        invariant 0 <= i <= k <= |list.elems| == |before|
        invariant list.elems[..i] == Kept(before[..k], vals[..k])
        invariant list.elems[k..] == before[k..]
      {
        var ref := list.elems[k];
        assert ref == before[k] && list.elems[k + 1..] == before[k + 1..];
        assert before[..k + 1][..k] == before[..k];
        assert vals[..k + 1][..k] == vals[..k];
        var t := ref.Get();
        assert t == vals[k];
        if t.None? {
          k := k + 1;
          continue;
        }
        ghost var prev := list.elems;
        if k > i {
          list.elems := list.elems[i := ref];
        }
        assert list.elems[..i] == prev[..i] && list.elems[k + 1..] == prev[k + 1..];
        assert list.elems[..i + 1] == list.elems[..i] + [ref];
        i := i + 1;
        k := k + 1;
      }
      assert before[..k] == before && vals[..k] == vals;
      while k > i
        invariant i <= k == |list.elems|
        invariant list.elems[..i] == Kept(before, vals)
      {
        k := k - 1;
        ghost var prev := list.elems;
        list.elems := list.elems[..k] + list.elems[k + 1..];
        assert list.elems == prev[..k];
      }
      assert list.elems == list.elems[..i];
    }

    /** The set addAll checks against: every current referent of the list, null included. */
    method ContainedValues() returns (contained: set<Option<T>>)
      ensures contained == Contained(Values(list.elems))
    {
      contained := {};
      for j := 0 to |list.elems|
        invariant forall v :: v in contained <==> exists i :: 0 <= i < j && list.elems[i].referent == v
      {
        var v := list.elems[j].Get();
        contained := contained + {v};
      }
      ValuesAt(list.elems);
      forall v | v in Values(list.elems)
        ensures v in contained
      {
        var i :| 0 <= i < |list.elems| && Values(list.elems)[i] == v;
      }
    }

    /**
     * The second half of addAll: appends a new reference for each pending
     * element that is not contained yet, and returns them as ext.
     */
    method AppendFresh(contained: set<Option<T>>) returns (ghost ext: seq<WeakRef<T>>)
      modifies list
      ensures list.elems == old(list.elems) + ext
      ensures Values(ext) == Somes(Fresh(contained, toBeAdded))
      ensures forall m :: 0 <= m < |ext| ==> fresh(ext[m])
    {
      ghost var base := list.elems;
      var seen := contained;
      ghost var added: seq<T> := [];
      ext := [];
      for n := 0 to |toBeAdded|
        invariant list.elems == base + ext && |ext| == |added|
        invariant forall m :: 0 <= m < |ext| ==> fresh(ext[m]) && ext[m].referent == Some(added[m])
        invariant added + Fresh(seen, toBeAdded[n..]) == Fresh(contained, toBeAdded)
      {
        var x := toBeAdded[n];
        FreshStep(contained, toBeAdded, n, seen, added);
        if Some(x) in seen {
          continue;
        }
        var r := new WeakRef(x);
        list.elems := list.elems + [r];
        ext := ext + [r];
        seen := seen + {Some(x)};
        added := added + [x];
      }
      assert toBeAdded[|toBeAdded|..] == [];
      ValuesOf(ext, Somes(added));
    }

    /** Opens a snapshot: merges first (without compaction) when none is open. */
    method StartSnapshot(ghost s: Snapshot<T>)
      requires Valid() && s !in open && s.list == this && s.content == list
      modifies this, list, s`view
      ensures Valid()
      ensures open == old(open) + {s} && snapshots == old(snapshots) + 1 && s.view == list.elems
      ensures old(snapshots) <= 0 ==>
                && IsMerge(old(list.elems), old(Values(list.elems)), old(toBeAdded), false, list.elems, Values(list.elems))
                && toBeAdded == []
                && forall m :: |old(list.elems)| <= m < |list.elems| ==> fresh(list.elems[m])
      ensures old(snapshots) > 0 ==> list.elems == old(list.elems) && toBeAdded == old(toBeAdded)
      ensures DistinctLive(old(Values(list.elems))) ==> DistinctLive(Values(list.elems))
    {
      if snapshots <= 0 {
        AddAll(false);
      }
      snapshots := snapshots + 1;
      open := open + {s};
      s.view := list.elems;
    }

    /**
     * Closes a snapshot: when it was the last one, merges, compacting exactly
     * when gc (the closing snapshot's own hasNull) is set.
     */
    method EndSnapshot(gc: bool, ghost s: Snapshot<T>)
      requires Valid() && s in open
      modifies this, list
      ensures Valid()
      ensures open == old(open) - {s} && snapshots == old(snapshots) - 1
      ensures snapshots > 0 ==> list.elems == old(list.elems) && toBeAdded == old(toBeAdded)
      ensures snapshots <= 0 ==>
                && IsMerge(old(list.elems), old(Values(list.elems)), old(toBeAdded), gc, list.elems, Values(list.elems))
                && toBeAdded == []
                && forall m :: |Retained(old(Values(list.elems)), gc)| <= m < |list.elems| ==> fresh(list.elems[m])
      ensures DistinctLive(old(Values(list.elems))) ==> DistinctLive(Values(list.elems))
    {
      snapshots := snapshots - 1;
      open := open - {s};
      if snapshots > 0 {
        return;
      }
      AddAll(gc);
    }

    /** Creates a snapshot over the list itself. */
    method GetSnapshot() returns (s: Snapshot<T>)
      requires Valid()
      modifies this, list
      ensures Valid() && fresh(s) && s.Valid()
      ensures s.origin == this && s.list == this && s.content == list && !s.hasNull
      ensures open == old(open) + {s} && snapshots == old(snapshots) + 1 && s.view == list.elems
      ensures old(snapshots) <= 0 ==>
                && IsMerge(old(list.elems), old(Values(list.elems)), old(toBeAdded), false, list.elems, Values(list.elems))
                && toBeAdded == []
                && forall m :: |old(list.elems)| <= m < |list.elems| ==> fresh(list.elems[m])
      ensures old(snapshots) > 0 ==> list.elems == old(list.elems) && toBeAdded == old(toBeAdded)
      ensures DistinctLive(old(Values(list.elems))) ==> DistinctLive(Values(list.elems))
    {
      s := new Snapshot(this, list);
    }

    /** The number of currently open snapshots. */
    function ActiveSnapshots(): (r: int)
      reads this, list, open`list, open`view
      requires Valid()
      ensures r == |open|
    {
      snapshots
    }
  }

  /**
   * A snapshot: the list it was opened on, readable until it is closed.
   * `list` is the registry while open and null once closed; `origin` keeps,
   * as ghost, which registry it came from.
   */
  class Snapshot<T(==)> {
    /** The list: the registry's own list object, not a copy. */
    const content: RefList<T>
    /** The snapshot list, or null once closed. */
    var list: SnapshotList?<T>
    /** Whether some read saw a collected reference. */
    var hasNull: bool
    ghost const origin: SnapshotList<T>
    /** The list as it was when this snapshot was opened. */
    ghost var view: seq<WeakRef<T>>

    ghost predicate Valid()
      reads this, origin, origin.list, origin.open`list, origin.open`view
    {
      && origin.Valid()
      && content == origin.list
      && (list != null ==> this in origin.open)
    }

    constructor (list: SnapshotList<T>, content: RefList<T>)
      requires list.Valid() && content == list.list
      modifies list, list.list
      ensures Valid() && origin == list && this.list == list && this.content == content && !hasNull
      ensures list.open == old(list.open) + {this} && list.snapshots == old(list.snapshots) + 1
      ensures view == list.list.elems
      ensures old(list.snapshots) <= 0 ==>
                && IsMerge(old(list.list.elems), old(Values(list.list.elems)), old(list.toBeAdded), false,
                           list.list.elems, Values(list.list.elems))
                && list.toBeAdded == []
                && forall m :: |old(list.list.elems)| <= m < |list.list.elems| ==> fresh(list.list.elems[m])
      ensures old(list.snapshots) > 0 ==>
                list.list.elems == old(list.list.elems) && list.toBeAdded == old(list.toBeAdded)
      ensures DistinctLive(old(Values(list.list.elems))) ==> DistinctLive(Values(list.list.elems))
    {
      this.list := list;
      this.content := content;
      origin := list;
      hasNull := false;
      view := [];
      new;
      list.StartSnapshot(this);
    }

    /** Fails with IllegalStateException exactly when the snapshot is closed. */
    function EnsureOpen(): (o: Outcome)
      reads this
      ensures o == Done <==> list != null
      ensures o != Done ==> o == Thrown(IllegalState)
    {
      if list == null then Thrown(IllegalState) else Done
    }

    /**
     * The element at index, or null if it has been collected, which is
     * remembered in hasNull.
     */
    method Get(index: int) returns (r: Result<Option<T>>)
      requires Valid()
      modifies this`hasNull
      ensures Valid()
      ensures list == null ==> r == Throw(IllegalState) && hasNull == old(hasNull)
      ensures list != null && !(0 <= index < |view|) ==> r == Throw(IndexOutOfBounds) && hasNull == old(hasNull)
      ensures list != null && 0 <= index < |view| ==>
                r == Ok(view[index].referent) && hasNull == (old(hasNull) || view[index].referent.None?)
    {
      var o := EnsureOpen();
      if o.Thrown? {
        return Throw(o.exn);
      }
      if !(0 <= index < |content.elems|) {
        return Throw(IndexOutOfBounds);
      }
      var res := content.elems[index].Get();
      if res.None? {
        hasNull := true;
      }
      r := Ok(res);
    }

    /** The size of the list, which is the size it had when the snapshot was opened. */
    method Size() returns (r: Result<int>)
      requires Valid()
      ensures list == null ==> r == Throw(IllegalState)
      ensures list != null ==> r == Ok(|view|)
    {
      var o := EnsureOpen();
      if o.Thrown? {
        return Throw(o.exn);
      }
      r := Ok(|content.elems|);
    }

    /** An iterator over the list, from its first entry. */
    method Iterator() returns (r: Result<SnapshotIterator<T>>)
      requires Valid()
      ensures list == null ==> r == Throw(IllegalState)
      ensures list != null ==> r.Ok? && fresh(r.value) && r.value.Valid()
      ensures list != null ==> r.value.snapshot == this && r.value.content == content && r.value.pos == 0
    {
      var o := EnsureOpen();
      if o.Thrown? {
        return Throw(o.exn);
      }
      var it := new SnapshotIterator(this, content);
      r := Ok(it);
    }

    /** Closes the snapshot; closing it again does nothing. */
    method Close()
      requires Valid()
      modifies this`list, origin, origin.list
      ensures Valid() && list == null
      ensures old(list) == null ==> unchanged(origin, origin.list)
      ensures old(list) != null ==>
                origin.open == old(origin.open) - {this} && origin.snapshots == old(origin.snapshots) - 1
      ensures old(list) != null && origin.snapshots > 0 ==>
                origin.list.elems == old(origin.list.elems) && origin.toBeAdded == old(origin.toBeAdded)
      ensures old(list) != null && origin.snapshots <= 0 ==>
                IsMerge(old(origin.list.elems), old(Values(origin.list.elems)), old(origin.toBeAdded), old(hasNull),
                        origin.list.elems, Values(origin.list.elems))
                && origin.toBeAdded == []
                && forall m :: |Retained(old(Values(origin.list.elems)), old(hasNull))| <= m < |origin.list.elems| ==>
                     fresh(origin.list.elems[m])
      ensures DistinctLive(old(Values(origin.list.elems))) ==> DistinctLive(Values(origin.list.elems))
    {
      if list == null {
        return;
      }
      list.EndSnapshot(hasNull, this);
      list := null;
    }
  }

  /**
   * The iterator a snapshot hands out. Only Snapshot.iterator checks that the
   * snapshot is open; HasNext and Next read the shared list as it is.
   */
  class SnapshotIterator<T(==)> {
    const snapshot: Snapshot<T>
    const content: RefList<T>
    var pos: nat

    ghost predicate Valid()
      reads this, snapshot, snapshot.origin, snapshot.origin.list, snapshot.origin.open`list, snapshot.origin.open`view
    {
      snapshot.Valid() && content == snapshot.content
    }

    constructor (snapshot: Snapshot<T>, content: RefList<T>)
      requires snapshot.Valid() && content == snapshot.content
      ensures Valid() && this.snapshot == snapshot && this.content == content && pos == 0
    {
      this.snapshot := snapshot;
      this.content := content;
      pos := 0;
    }

    /** Whether there is a next entry; while the snapshot is open, within its view. */
    function HasNext(): (b: bool)
      reads this, content, snapshot, snapshot.origin, snapshot.origin.list, snapshot.origin.open`list, snapshot.origin.open`view
      requires Valid()
      ensures snapshot.list != null ==> (b <==> pos < |snapshot.view|)
    {
      pos < |content.elems|
    }

    /** The next entry, or null if it has been collected, which the snapshot remembers. */
    method Next() returns (r: Result<Option<T>>)
      requires Valid()
      modifies this`pos, snapshot`hasNull
      ensures Valid()
      ensures old(pos) >= |content.elems| ==>
                r == Throw(NoSuchElement) && pos == old(pos) && snapshot.hasNull == old(snapshot.hasNull)
      ensures old(pos) < |content.elems| ==>
                && pos == old(pos) + 1
                && r == Ok(content.elems[old(pos)].referent)
                && snapshot.hasNull == (old(snapshot.hasNull) || content.elems[old(pos)].referent.None?)
      ensures snapshot.list != null ==> content.elems == snapshot.view
    {
      if !HasNext() {
        return Throw(NoSuchElement);
      }
      var res := content.elems[pos].Get();
      pos := pos + 1;
      if res.None? {
        snapshot.hasNull := true;
      }
      r := Ok(res);
    }
  }
}
