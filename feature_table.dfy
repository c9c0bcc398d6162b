/**
 * jkanvas.table.FeatureTable: a table whose columns are features. Building
 * it checks that the features agree on their number of rows and records
 * whether all of their tables cache.
 *
 * The row count is accumulated with -1 meaning "none seen yet", so a feature
 * reporting a negative row count before the first non-negative one is
 * skipped rather than compared. FirstCounted, Consistent and RowCount state
 * that exactly; NonNegativeRows gives the plain reading for the usual case.
 */
module FeatureTables {
  import opened Lang

  /** What the table asks of a feature: its row count and whether its table caches. */
  datatype Feature = Feature(rows: int, tableCaching: bool)

  /** The position of the first feature with a non-negative row count, or |fs| if there is none. */
  function FirstCounted(fs: seq<Feature>): (k: nat)
    ensures k <= |fs|
    ensures forall i :: 0 <= i < k ==> fs[i].rows < 0
    ensures k < |fs| ==> fs[k].rows >= 0
  {
    if fs == [] then 0 else if fs[0].rows >= 0 then 0 else 1 + FirstCounted(fs[1..])
  }

  /** Every feature from the first counted one on has the row count of that one. */
  ghost predicate Consistent(fs: seq<Feature>)
  {
    var k := FirstCounted(fs);
    forall i :: k < i < |fs| ==> fs[i].rows == fs[k].rows
  }

  /** The row count of the table: that of the first counted feature, or 0 if there is none. */
  function RowCount(fs: seq<Feature>): int
  {
    var k := FirstCounted(fs);
    if k < |fs| then fs[k].rows else 0
  }

  /** Whether the table of every feature caches (true for no features). */
  ghost predicate AllCaching(fs: seq<Feature>)
  {
    forall i :: 0 <= i < |fs| ==> fs[i].tableCaching
  }

  /**
   * The accumulator of the constructor's loop after the features fs: the row
   * count so far (-1 for none yet), or the exception that ended the loop.
   */
  function Scan(fs: seq<Feature>): Result<int>
  {
    if fs == [] then Ok(-1)
    else
      match Scan(fs[..|fs| - 1])
      case Throw(e) => Throw(e)
      case Ok(rows) =>
        var l := fs[|fs| - 1].rows;
        if rows < 0 then Ok(l)
        else if rows != l then Throw(IllegalArgument)
        else Ok(rows)
  }

  /** FirstCounted is the first position with a non-negative row count. */
  lemma FirstCountedUnique(fs: seq<Feature>, k: nat)
    requires k <= |fs|
    requires forall i :: 0 <= i < k ==> fs[i].rows < 0
    requires k < |fs| ==> fs[k].rows >= 0
    ensures FirstCounted(fs) == k
  {
  }

  /** How FirstCounted moves when one more feature is appended. */
  lemma {:induction false} FirstCountedSnoc(fs: seq<Feature>)
    requires fs != []
    ensures var n := |fs| - 1; var k := FirstCounted(fs[..n]);
            && (k < n ==> FirstCounted(fs) == k)
            && (k == n && fs[n].rows >= 0 ==> FirstCounted(fs) == n)
            && (k == n && fs[n].rows < 0 ==> FirstCounted(fs) == n + 1)
  {
    var n := |fs| - 1;
    var init := fs[..n];
    var k := FirstCounted(init);
    forall i | 0 <= i < k
      ensures fs[i].rows < 0
    {
      assert init[i] == fs[i];
    }
    if k < n {
      assert init[k] == fs[k];
      FirstCountedUnique(fs, k);
    } else if fs[n].rows >= 0 {
      FirstCountedUnique(fs, n);
    } else {
      FirstCountedUnique(fs, n + 1);
    }
  }

  /** Appending a feature keeps consistency iff it agrees with the first counted one, if any. */
  lemma {:induction false} ConsistentSnoc(fs: seq<Feature>)
    requires fs != []
    ensures var n := |fs| - 1; var k := FirstCounted(fs[..n]);
            Consistent(fs) <==> Consistent(fs[..n]) && (k < n ==> fs[n].rows == fs[k].rows)
  {
    var n := |fs| - 1;
    var init := fs[..n];
    assert forall i :: 0 <= i < n ==> init[i] == fs[i];
    FirstCountedSnoc(fs);
  }

  /**
   * The loop accepts the features iff they are Consistent, and then ends
   * with the first counted row count, or a negative value when there is none.
   */
  lemma {:induction false} ScanMeaning(fs: seq<Feature>)
    ensures Scan(fs).Ok? <==> Consistent(fs)
    ensures Scan(fs).Ok? ==> (Scan(fs).value >= 0 <==> FirstCounted(fs) < |fs|)
    ensures Scan(fs).Ok? && FirstCounted(fs) < |fs| ==> Scan(fs).value == fs[FirstCounted(fs)].rows
    ensures Scan(fs).Throw? ==> Scan(fs) == Throw(IllegalArgument)
  {
    if fs != [] {
      var n := |fs| - 1;
      var init := fs[..n];
      ScanMeaning(init);
      FirstCountedSnoc(fs);
      ConsistentSnoc(fs);
      var k := FirstCounted(init);
      if k < n {
        assert init[k] == fs[k];
      }
    }
  }

  /** Once the loop has thrown, it stays thrown whatever follows. */
  lemma {:induction false} ScanThrowStays(fs: seq<Feature>, r: nat)
    requires r <= |fs| && Scan(fs[..r]).Throw?
    ensures Scan(fs).Throw?
    decreases |fs| - r
  {
    if r < |fs| {
      assert fs[..r + 1][..r] == fs[..r];
      ScanThrowStays(fs, r + 1);
    } else {
      assert fs[..r] == fs;
    }
  }

  /** With no negative row counts: consistent means all equal, and the row count is the first one's. */
  lemma NonNegativeRows(fs: seq<Feature>)
    requires forall i :: 0 <= i < |fs| ==> fs[i].rows >= 0
    ensures Consistent(fs) <==> forall i :: 0 <= i < |fs| ==> fs[i].rows == fs[0].rows
    ensures RowCount(fs) == if fs == [] then 0 else fs[0].rows
  {
    if fs != [] {
      FirstCountedUnique(fs, 0);
    }
  }

  class FeatureTable {
    /** The features: a copy of the array given, owned by the table. */
    const features: array<Feature>
    /** The number of rows. */
    const rows: int
    /** Whether all tables are caching. */
    const caching: bool

    ghost predicate Valid()
      reads features
    {
      && Consistent(features[..])
      && rows == RowCount(features[..])
      && (caching <==> AllCaching(features[..]))
    }

    constructor (features: array<Feature>, rows: int, caching: bool)
      ensures this.features == features && this.rows == rows && this.caching == caching
    {
      this.features := features;
      this.rows := rows;
      this.caching := caching;
    }

    /**
     * The constructor FeatureTable(Feature[]): rejects a null array and an
     * inconsistent one, and otherwise builds a table over a copy of it.
     */
    static method Create(features: array?<Feature>) returns (r: Result<FeatureTable>)
      ensures features == null ==> r == Throw(NullPointer)
      ensures features != null ==> (r.Ok? <==> Consistent(features[..]))
      ensures features != null && !r.Ok? ==> r == Throw(IllegalArgument)
      ensures r.Ok? ==> && fresh(r.value) && fresh(r.value.features) && r.value.Valid()
                        && r.value.features[..] == features[..]
    {
      if features == null {
        return Throw(NullPointer);
      }
      var caching := true;
      var rows := -1;
      for i := 0 to features.Length
        invariant Scan(features[..i]) == Ok(rows)
        invariant caching <==> AllCaching(features[..i])
      {
        var feature := features[i];
        assert features[..i + 1][..i] == features[..i];
        caching := feature.tableCaching && caching;
        var l := feature.rows;
        if rows < 0 {
          rows := l;
        } else if rows != l {
          ScanThrowStays(features[..], i + 1);
          ScanMeaning(features[..]);
          return Throw(IllegalArgument);
        }
      }
      assert features[..features.Length] == features[..];
      ScanMeaning(features[..]);
      var copy := new Feature[features.Length];
      for i := 0 to features.Length
        invariant copy[..i] == features[..i]
      {
        copy[i] := features[i];
      }
      assert copy[..] == features[..];
      var t := new FeatureTable(copy, if rows >= 0 then rows else 0, caching);
      r := Ok(t);
    }

    /** The number of rows: that of the first counted feature, never negative. */
    function Rows(): (n: int)
      reads this, features
      requires Valid()
      ensures n == RowCount(features[..]) && n >= 0
    {
      rows
    }

    /** The number of columns: one per feature. */
    function Cols(): (n: int)
      reads this
      ensures n == features.Length
    {
      features.Length
    }

    /** Whether the table of every feature caches. */
    function IsCaching(): (b: bool)
      reads this, features
      requires Valid()
      ensures b <==> AllCaching(features[..])
    {
      caching
    }

    /** The table itself when caching; otherwise what DataTable.cached builds, which is not modelled (None). */
    function Cached(): (t: Option<FeatureTable>)
      reads this, features
      requires Valid()
      ensures AllCaching(features[..]) ==> t == Some(this)
      ensures !AllCaching(features[..]) ==> t == None
    {
      if caching then Some(this) else None
    }
  }
}
