/**
 * Weak references and the two list transformations of SnapshotList.addAll:
 * compaction (dropping the references whose referent has been collected) and
 * the deduplicating merge of the pending elements.
 *
 * Values reads the current referent of each reference; everything else here
 * is a function of plain sequences: a list of references together with the
 * sequence of their referents. SnapshotLists.SnapshotList.AddAll is proved to
 * perform exactly IsMerge, and the lemmas below say what IsMerge means.
 */
module WeakRefs {
  import opened Lang

  /**
   * java.lang.ref.WeakReference<T>. The referent starts out set and can only
   * ever be cleared, by the garbage collector and never by the registry.
   */
  class WeakRef<T> {
    var referent: Option<T>

    constructor (x: T)
      ensures referent == Some(x)
    {
      referent := Some(x);
    }

    /** WeakReference.get: the referent, or null once it has been collected. */
    method Get() returns (r: Option<T>)
      ensures r == referent
    {
      r := referent;
    }

    /**
     * The environment step: the collector clears this reference because its
     * referent became unreachable. It may happen between any two operations.
     */
    method Clear()
      modifies this
      ensures referent == None
    {
      referent := None;
    }
  }

  /** The java.util.ArrayList<WeakReference<T>> the registry owns and its snapshots share. */
  class RefList<T> {
    var elems: seq<WeakRef<T>>

    constructor ()
      ensures elems == []
    {
      elems := [];
    }
  }

  /** The current referents of refs, position by position (None where collected). */
  function Values<T>(refs: seq<WeakRef<T>>): (vs: seq<Option<T>>)
    reads refs
    ensures |vs| == |refs|
  {
    if refs == [] then [] else Values(refs[..|refs| - 1]) + [refs[|refs| - 1].referent]
  }

  /** Position i of Values is the current referent of the i-th reference. */
  lemma {:induction false} ValuesAt<T>(refs: seq<WeakRef<T>>)
    ensures forall i :: 0 <= i < |refs| ==> Values(refs)[i] == refs[i].referent
  {
    if refs != [] {
      ValuesAt(refs[..|refs| - 1]);
    }
  }

  /** Values is determined by the referents, position by position. */
  lemma ValuesOf<T>(refs: seq<WeakRef<T>>, vs: seq<Option<T>>)
    requires |refs| == |vs|
    requires forall i :: 0 <= i < |refs| ==> refs[i].referent == vs[i]
    ensures Values(refs) == vs
  {
    ValuesAt(refs);
  }

  /** Values distributes over concatenation. */
  lemma {:induction false} ValuesConcat<T>(xs: seq<WeakRef<T>>, ys: seq<WeakRef<T>>)
    ensures Values(xs + ys) == Values(xs) + Values(ys)
  {
    ValuesAt(xs);
    ValuesAt(ys);
    ValuesOf(xs + ys, Values(xs) + Values(ys));
  }

  /** The elements of xs, each as a non-null reference. */
  function Somes<T>(xs: seq<T>): (r: seq<Option<T>>)
    ensures |r| == |xs|
    ensures forall i :: 0 <= i < |xs| ==> r[i] == Some(xs[i])
  {
    if xs == [] then [] else [Some(xs[0])] + Somes(xs[1..])
  }

  /**
   * The set addAll builds before merging: every referent in the list, with
   * null standing for the collected ones.
   */
  function Contained<T(==)>(vals: seq<Option<T>>): set<Option<T>>
  {
    set v | v in vals
  }

  /**
   * Compaction: the entries of xs at the positions where vals is live, in
   * order. Kept(refs, vals) is the compacted list of references when vals are
   * their referents, and Kept(vals, vals) the referents that remain.
   */
  function Kept<R, T>(xs: seq<R>, vals: seq<Option<T>>): seq<R>
    requires |xs| == |vals|
  {
    if xs == [] then []
    else
      Kept(xs[..|xs| - 1], vals[..|vals| - 1]) + (if vals[|vals| - 1].Some? then [xs[|xs| - 1]] else [])
  }

  /**
   * The elements a merge appends, in order: each pending element that is not
   * in contained and has not been appended earlier in the same merge.
   */
  function Fresh<T(==)>(contained: set<Option<T>>, pending: seq<T>): seq<T>
    decreases |pending|
  {
    if pending == [] then []
    else if Some(pending[0]) in contained then Fresh(contained, pending[1..])
    else [pending[0]] + Fresh(contained + {Some(pending[0])}, pending[1..])
  }

  /** No two positions hold the same live value (collected entries may repeat). */
  ghost predicate DistinctLive<T>(vs: seq<Option<T>>)
  {
    forall i, j :: 0 <= i < j < |vs| && vs[i].Some? ==> vs[i] != vs[j]
  }

  /**
   * What SnapshotList.addAll(gc) does, with vals the referents of before and
   * vals' those of after: optionally compact, then keep every remaining
   * reference where it is and append one new reference per Fresh element,
   * whose referent is that element.
   */
  ghost predicate IsMerge<R, T>(before: seq<R>, vals: seq<Option<T>>, pending: seq<T>, gc: bool,
                                after: seq<R>, vals': seq<Option<T>>)
  {
    && |before| == |vals|
    && |after| == |vals'|
    && var base := if gc then Kept(before, vals) else before;
       var kept := if gc then Kept(vals, vals) else vals;
       && |base| <= |after|
       && after[..|base|] == base
       && vals' == kept + Somes(Fresh(Contained(kept), pending))
  }

  /** The referents that survive the optional compaction of a merge, in order. */
  function Retained<T>(vals: seq<Option<T>>, gc: bool): seq<Option<T>>
  {
    if gc then Kept(vals, vals) else vals
  }

  /**
   * The collector clearing any references keeps live values distinct: each
   * position keeps its value or becomes null.
   */
  lemma CollectKeepsDistinct<T>(vs: seq<Option<T>>, ws: seq<Option<T>>)
    requires |ws| == |vs|
    requires forall j :: 0 <= j < |vs| ==> ws[j] == vs[j] || ws[j].None?
    requires DistinctLive(vs)
    ensures DistinctLive(ws)
  {
  }

  /** A compaction followed by a merge without compaction is a compacting merge. */
  lemma CompactThenMerge<R, T>(before: seq<R>, vals: seq<Option<T>>, pending: seq<T>, gc: bool,
                               base: seq<R>, kept: seq<Option<T>>, after: seq<R>, vals': seq<Option<T>>)
    requires |before| == |vals|
    requires base == (if gc then Kept(before, vals) else before)
    requires kept == (if gc then Kept(vals, vals) else vals)
    requires IsMerge(base, kept, pending, false, after, vals')
    ensures IsMerge(before, vals, pending, gc, after, vals')
  {
  }

  // ---------------------------------------------------------------------------
  // Compaction

  /** Compaction keeps as many entries of xs as of their values. */
  lemma {:induction false} KeptLength<R, S, T>(xs: seq<R>, ys: seq<S>, vals: seq<Option<T>>)
    requires |xs| == |vals| && |ys| == |vals|
    ensures |Kept(xs, vals)| == |Kept(ys, vals)| <= |vals|
  {
    if xs != [] {
      KeptLength(xs[..|xs| - 1], ys[..|ys| - 1], vals[..|vals| - 1]);
    }
  }

  /** Compaction distributes over concatenation, so it keeps the relative order of what it keeps. */
  lemma {:induction false} KeptConcat<R, T>(xs: seq<R>, vs: seq<Option<T>>, ys: seq<R>, ws: seq<Option<T>>)
    requires |xs| == |vs| && |ys| == |ws|
    ensures Kept(xs + ys, vs + ws) == Kept(xs, vs) + Kept(ys, ws)
  {
    if ys == [] {
      assert xs + ys == xs && vs + ws == vs;
    } else {
      var ys', ws' := ys[..|ys| - 1], ws[..|ws| - 1];
      assert (xs + ys)[..|xs + ys| - 1] == xs + ys';
      assert (vs + ws)[..|vs + ws| - 1] == vs + ws';
      KeptConcat(xs, vs, ys', ws');
    }
  }

  /** Compaction keeps exactly the entries at live positions: each of them, and nothing else. */
  lemma {:induction false} KeptMembers<R, T>(xs: seq<R>, vals: seq<Option<T>>)
    requires |xs| == |vals|
    ensures forall i :: 0 <= i < |xs| && vals[i].Some? ==> xs[i] in Kept(xs, vals)
    ensures forall x :: x in Kept(xs, vals) ==> exists i :: 0 <= i < |xs| && xs[i] == x && vals[i].Some?
  {
    if xs != [] {
      var n := |xs| - 1;
      var xs', vals' := xs[..n], vals[..n];
      KeptMembers(xs', vals');
      var k' := Kept(xs', vals');
      assert Kept(xs, vals) == k' + (if vals[n].Some? then [xs[n]] else []);
      forall x | x in Kept(xs, vals)
        ensures exists i :: 0 <= i < |xs| && xs[i] == x && vals[i].Some?
      {
        if x in k' {
          var i :| 0 <= i < |xs'| && xs'[i] == x && vals'[i].Some?;
          assert xs[i] == x && vals[i].Some?;
        } else {
          assert xs[n] == x && vals[n].Some?;
        }
      }
      forall i | 0 <= i < |xs| && vals[i].Some?
        ensures xs[i] in Kept(xs, vals)
      {
        if i < n {
          assert xs'[i] == xs[i] && vals'[i].Some?;
        }
      }
    }
  }

  /** A list with no collected entry is left as it is by compaction. */
  lemma {:induction false} KeptAllLive<R, T>(xs: seq<R>, vals: seq<Option<T>>)
    requires |xs| == |vals|
    requires forall i :: 0 <= i < |vals| ==> vals[i].Some?
    ensures Kept(xs, vals) == xs
  {
    if xs != [] {
      var n := |xs| - 1;
      var xs', vals' := xs[..n], vals[..n];
      assert forall i :: 0 <= i < |vals'| ==> vals'[i] == vals[i];
      KeptAllLive(xs', vals');
      assert vals[n].Some?;
      assert Kept(xs, vals) == xs' + [xs[n]];
      assert xs == xs' + [xs[n]];
    }
  }

  /** A list with a collected entry shrinks under compaction. */
  lemma {:induction false} KeptShrinks<R, T>(xs: seq<R>, vals: seq<Option<T>>, i: nat)
    requires |xs| == |vals| && i < |vals| && vals[i].None?
    ensures |Kept(xs, vals)| < |xs|
  {
    var n := |xs| - 1;
    var xs', vals' := xs[..n], vals[..n];
    KeptLength(xs', xs', vals');
    if i < n {
      assert vals'[i].None?;
      KeptShrinks(xs', vals', i);
    }
  }

  /** What remains after compaction is live, and each remaining value was in the list. */
  lemma KeptValuesLive<T>(vals: seq<Option<T>>)
    ensures forall v :: v in Kept(vals, vals) ==> v.Some? && v in vals
  {
    KeptMembers(vals, vals);
  }

  /** The referents of the compacted references are the compacted referents. */
  lemma {:induction false} KeptValues<T>(refs: seq<WeakRef<T>>, vals: seq<Option<T>>)
    requires vals == Values(refs)
    ensures Values(Kept(refs, vals)) == Kept(vals, vals)
  {
    if refs != [] {
      var n := |refs| - 1;
      assert Values(refs[..n]) == vals[..n];
      KeptValues(refs[..n], vals[..n]);
      assert vals[n] == refs[n].referent;
      var k := Kept(refs[..n], vals[..n]);
      if vals[n].Some? {
        assert Kept(refs, vals) == k + [refs[n]];
        assert (k + [refs[n]])[..|k|] == k;
        assert Kept(vals, vals) == Kept(vals[..n], vals[..n]) + [vals[n]];
      } else {
        assert Kept(refs, vals) == k;
        assert Kept(vals, vals) == Kept(vals[..n], vals[..n]);
      }
    }
  }

  /** Compaction never creates two equal live values. */
  lemma {:induction false} KeptDistinct<T>(vals: seq<Option<T>>)
    requires DistinctLive(vals)
    ensures DistinctLive(Kept(vals, vals))
  {
    if vals != [] {
      var n := |vals| - 1;
      var init := vals[..n];
      assert DistinctLive(init);
      KeptDistinct(init);
      if vals[n].Some? {
        var ks := Kept(init, init);
        KeptValuesLive(init);
        forall i | 0 <= i < |ks|
          ensures ks[i] != vals[n]
        {
          assert ks[i] in init;
          var k :| 0 <= k < n && init[k] == ks[i];
          assert vals[k] == ks[i];
        }
      }
    }
  }

  // ---------------------------------------------------------------------------
  // Deduplicating merge

  /** An element is appended iff it is pending and not already contained. */
  lemma {:induction false} FreshMembers<T>(contained: set<Option<T>>, pending: seq<T>)
    ensures forall x :: x in Fresh(contained, pending) <==> x in pending && Some(x) !in contained
    decreases |pending|
  {
    if pending != [] {
      var x0 := pending[0];
      FreshMembers(contained, pending[1..]);
      FreshMembers(contained + {Some(x0)}, pending[1..]);
      assert pending == [x0] + pending[1..];
    }
  }

  /** One step of the merge loop: the next pending element is skipped or appended. */
  lemma FreshStep<T>(contained: set<Option<T>>, pending: seq<T>, n: nat, seen: set<Option<T>>, added: seq<T>)
    requires n < |pending|
    requires added + Fresh(seen, pending[n..]) == Fresh(contained, pending)
    ensures Some(pending[n]) in seen ==> added + Fresh(seen, pending[n + 1..]) == Fresh(contained, pending)
    ensures Some(pending[n]) !in seen ==>
              (added + [pending[n]]) + Fresh(seen + {Some(pending[n])}, pending[n + 1..]) == Fresh(contained, pending)
  {
    assert pending[n..][0] == pending[n] && pending[n..][1..] == pending[n + 1..];
  }

  /** Pending elements that are pairwise distinct and not contained are all appended, in order. */
  lemma {:induction false} FreshAllNew<T>(contained: set<Option<T>>, pending: seq<T>)
    requires forall i :: 0 <= i < |pending| ==> Some(pending[i]) !in contained
    requires forall i, j :: 0 <= i < j < |pending| ==> pending[i] != pending[j]
    ensures Fresh(contained, pending) == pending
    decreases |pending|
  {
    if pending != [] {
      var c' := contained + {Some(pending[0])};
      forall i | 0 <= i < |pending[1..]|
        ensures Some(pending[1..][i]) !in c'
      {
        assert pending[1..][i] == pending[i + 1];
      }
      FreshAllNew(c', pending[1..]);
    }
  }

  /** The appended elements are pairwise distinct and distinct from every contained value. */
  lemma {:induction false} FreshDistinct<T>(contained: set<Option<T>>, pending: seq<T>)
    ensures forall i :: 0 <= i < |Fresh(contained, pending)| ==> Some(Fresh(contained, pending)[i]) !in contained
    ensures forall i, j :: 0 <= i < j < |Fresh(contained, pending)| ==> Fresh(contained, pending)[i] != Fresh(contained, pending)[j]
    decreases |pending|
  {
    FreshMembers(contained, pending);
    if pending != [] && Some(pending[0]) in contained {
      FreshDistinct(contained, pending[1..]);
    } else if pending != [] {
      var x0 := pending[0];
      var c' := contained + {Some(x0)};
      FreshDistinct(c', pending[1..]);
      FreshMembers(c', pending[1..]);
      var f := Fresh(contained, pending);
      assert f == [x0] + Fresh(c', pending[1..]);
      forall i, j | 0 <= i < j < |f|
        ensures f[i] != f[j]
      {
        if i == 0 {
          assert f[j] in Fresh(c', pending[1..]);
        }
      }
    }
  }

  /**
   * Appending one more pending element appends it to the merge result exactly
   * when it is neither contained nor pending already: the merge takes the
   * pending elements in order and keeps the first occurrence of each.
   */
  lemma {:induction false} FreshSnoc<T>(contained: set<Option<T>>, pending: seq<T>, x: T)
    ensures Fresh(contained, pending + [x])
         == Fresh(contained, pending) + (if Some(x) in contained || x in pending then [] else [x])
    decreases |pending|
  {
    if pending == [] {
      assert pending + [x] == [x];
      assert [x][1..] == [];
    } else {
      var y := pending[0];
      assert (pending + [x])[0] == y;
      assert (pending + [x])[1..] == pending[1..] + [x];
      assert x in pending <==> x == y || x in pending[1..];
      if Some(y) in contained {
        FreshSnoc(contained, pending[1..], x);
      } else {
        FreshSnoc(contained + {Some(y)}, pending[1..], x);
      }
    }
  }

  /** Appending the Fresh elements keeps live values distinct, whatever is pending. */
  lemma AppendFreshDistinct<T>(vs: seq<Option<T>>, pending: seq<T>)
    requires DistinctLive(vs)
    ensures DistinctLive(vs + Somes(Fresh(Contained(vs), pending)))
  {
    var c := Contained(vs);
    var f := Fresh(c, pending);
    FreshDistinct(c, pending);
    var all := vs + Somes(f);
    forall i, j | 0 <= i < j < |all| && all[i].Some?
      ensures all[i] != all[j]
    {
      if j >= |vs| {
        assert all[j] == Some(f[j - |vs|]);
        if i < |vs| {
          assert all[i] in c;
        }
      }
    }
  }

  // ---------------------------------------------------------------------------
  // The merge as a whole

  /** With nothing pending and no compaction a merge leaves the list as it is. */
  lemma EmptyMergeNoChange<R, T>(before: seq<R>, vals: seq<Option<T>>, after: seq<R>, vals': seq<Option<T>>)
    requires IsMerge(before, vals, [], false, after, vals')
    ensures after == before && vals' == vals
  {
  }

  /**
   * Without compaction a merge removes and moves nothing; with compaction the
   * first entries are exactly the live ones, in their order; in both cases the
   * rest of the list is one entry per Fresh element, holding that element.
   */
  lemma MergeKeepsEntries<R, T>(before: seq<R>, vals: seq<Option<T>>, pending: seq<T>, gc: bool,
                                after: seq<R>, vals': seq<Option<T>>)
    requires IsMerge(before, vals, pending, gc, after, vals')
    ensures !gc ==> |before| <= |after| && after[..|before|] == before && vals'[..|vals|] == vals
    ensures gc ==> var k := |Kept(vals, vals)|;
              && after[..k] == Kept(before, vals)
              && forall x :: x in after[..k] <==> exists i :: 0 <= i < |before| && before[i] == x && vals[i].Some?
    ensures var kept := if gc then Kept(vals, vals) else vals;
            vals'[|kept|..] == Somes(Fresh(Contained(kept), pending))
  {
    KeptLength(before, vals, vals);
    KeptMembers(before, vals);
    var kept := if gc then Kept(vals, vals) else vals;
    assert (kept + Somes(Fresh(Contained(kept), pending)))[|kept|..] == Somes(Fresh(Contained(kept), pending));
  }

  /** A merge never produces two entries with the same live value, given there were none. */
  lemma MergeDistinct<R, T>(before: seq<R>, vals: seq<Option<T>>, pending: seq<T>, gc: bool,
                            after: seq<R>, vals': seq<Option<T>>)
    requires IsMerge(before, vals, pending, gc, after, vals')
    requires DistinctLive(vals)
    ensures DistinctLive(vals')
  {
    var kept := if gc then Kept(vals, vals) else vals;
    if gc {
      KeptDistinct(vals);
    }
    AppendFreshDistinct(kept, pending);
  }

  /** After a compacting merge no entry is collected. */
  lemma CompactingMergeAllLive<R, T>(before: seq<R>, vals: seq<Option<T>>, pending: seq<T>,
                                     after: seq<R>, vals': seq<Option<T>>)
    requires IsMerge(before, vals, pending, true, after, vals')
    ensures forall i :: 0 <= i < |vals'| ==> vals'[i].Some?
  {
    KeptValuesLive(vals);
    var kept := Kept(vals, vals);
    forall i | 0 <= i < |vals'|
      ensures vals'[i].Some?
    {
      if i < |kept| {
        assert vals'[i] == kept[i];
        assert kept[i] in kept;
      }
    }
  }
}
