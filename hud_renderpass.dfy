/**
 * jkanvas.painter.HUDRenderpassAdapter: a HUD render pass that is shown or
 * hidden by messages. Messages are addressed by ids; the pass stores its own
 * ids padded with one space on either side, so that an id is recognised as a
 * whole space-delimited token.
 */
module HudRenderpass {
  import opened Lang

  /** t occurs in s starting at position i. */
  predicate OccursAt(s: string, t: string, i: int)
  {
    0 <= i <= |s| - |t| && s[i..i + |t|] == t
  }

  /** String.contains: t occurs in s as a contiguous substring. */
  predicate Contains(s: string, t: string)
  {
    exists i :: 0 <= i <= |s| - |t| && OccursAt(s, t, i)
  }

  /** The stored form of an id list: padded with a space on either side. */
  function Padded(s: string): (r: string)
    ensures |r| == |s| + 2 && r[0] == ' ' && r[|r| - 1] == ' ' && r[1..|r| - 1] == s
  {
    " " + s + " "
  }

  /** The test processMessage(String[], String) applies to each requested id. */
  predicate Matches(stored: string, id: string)
  {
    Contains(stored, id) && Contains(stored, Padded(id))
  }

  /** A substring of a substring is a substring. */
  lemma ContainsTransitive(s: string, t: string, u: string)
    requires Contains(s, t) && Contains(t, u)
    ensures Contains(s, u)
  {
    var i :| 0 <= i <= |s| - |t| && OccursAt(s, t, i);
    var j :| 0 <= j <= |t| - |u| && OccursAt(t, u, j);
    forall m | 0 <= m < |u|
      ensures s[i + j + m] == u[m]
    {
      assert u[m] == t[j..j + |u|][m] == t[j + m];
      assert t[j + m] == s[i..i + |t|][j + m] == s[i + j + m];
    }
    assert s[i + j..i + j + |u|] == u;
    assert OccursAt(s, u, i + j);
  }

  /**
   * The first half of the test is implied by the second: an id matches
   * exactly when it occurs in the stored ids surrounded by spaces.
   */
  lemma MatchesIffToken(stored: string, id: string)
    ensures Matches(stored, id) <==> Contains(stored, Padded(id))
  {
    if Contains(stored, Padded(id)) {
      assert OccursAt(Padded(id), id, 1);
      ContainsTransitive(stored, Padded(id), id);
    }
  }

  /** The initial ids "" match no id at all, not even the empty one. */
  lemma NothingMatchesInitially(id: string)
    ensures !Matches("", id)
  {
    assert forall i :: !OccursAt("", Padded(id), i);
  }

  /** After setIds(s), the id s itself matches. */
  lemma OwnIdMatches(s: string)
    ensures Matches(Padded(s), s)
  {
    var p := Padded(s);
    assert OccursAt(p, p, 0);
    assert OccursAt(p, s, 1);
  }

  /** Whether some id of the array matches. */
  predicate AnyMatches(stored: string, idList: seq<string>)
  {
    exists k :: 0 <= k < |idList| && Matches(stored, idList[k])
  }

  /** The visibility after the default handler has seen msg. */
  function AfterMessage(msg: string, visible: bool): bool
  {
    if msg == "visible:true" then true
    else if msg == "visible:false" then false
    else if msg == "visible:toggle" then !visible
    else visible
  }

  /** Toggling twice restores the visibility. */
  lemma ToggleTwice(v: bool)
    ensures AfterMessage("visible:toggle", AfterMessage("visible:toggle", v)) == v
  {
  }

  /** visible:true and visible:false set the visibility whatever it was, so repeating them changes nothing. */
  lemma SetMessagesIdempotent(msg: string, v: bool)
    requires msg == "visible:true" || msg == "visible:false"
    ensures AfterMessage(msg, AfterMessage(msg, v)) == AfterMessage(msg, v)
    ensures AfterMessage(msg, v) == AfterMessage(msg, !v)
  {
  }

  class HUDRenderpassAdapter {
    /** Whether this render pass is visible. */
    var visible: bool
    /** The ids associated with this render pass, as stored (padded), or "" before setIds. */
    var ids: string

    /** The stored ids are the initial "" or an id list padded with spaces. */
    ghost predicate Valid()
      reads this
    {
      ids == "" || (|ids| >= 2 && ids == Padded(ids[1..|ids| - 1]))
    }

    constructor ()
      ensures Valid() && visible && ids == ""
    {
      visible := true;
      ids := "";
    }

    method SetVisible(isVisible: bool)
      modifies this`visible
      ensures IsVisible() == isVisible
    {
      visible := isVisible;
    }

    /** Whether the pass is visible: the flag setVisible and the messages write. */
    function IsVisible(): (b: bool)
      reads this
      ensures b <==> visible
    {
      visible
    }

    /** Stores the ids padded with spaces; a null argument is rejected and changes nothing. */
    method SetIds(s: Option<string>) returns (o: Outcome)
      requires Valid()
      modifies this`ids
      ensures Valid()
      ensures s.None? ==> o == Thrown(NullPointer) && ids == old(ids)
      ensures s.Some? ==> o == Done && GetIds() == Padded(s.value) && |GetIds()| == |s.value| + 2
    {
      if s.None? {
        return Thrown(NullPointer);
      }
      ids := " " + s.value + " ";
      o := Done;
    }

    /**
     * The stored ids: the initial "" or the padded form of what setIds was
     * given, under which that id matches.
     */
    function GetIds(): (r: string)
      reads this
      requires Valid()
      ensures r == "" || (|r| >= 2 && r[0] == ' ' && r[|r| - 1] == ' ' && Matches(r, r[1..|r| - 1]))
    {
      if ids != "" then OwnIdMatches(ids[1..|ids| - 1]); ids else ids
    }

    /**
     * The default single-message handler: visible:true, visible:false and
     * visible:toggle set, clear and flip the visibility; any other message is
     * ignored.
     */
    method ProcessMessage(msg: string)
      modifies this`visible
      ensures msg == "visible:true" ==> visible
      ensures msg == "visible:false" ==> !visible
      ensures msg == "visible:toggle" ==> visible == !old(visible)
      ensures msg != "visible:true" && msg != "visible:false" && msg != "visible:toggle" ==> visible == old(visible)
      ensures visible == AfterMessage(msg, old(visible))
    {
      if msg == "visible:true" {
        SetVisible(true);
      } else if msg == "visible:false" {
        SetVisible(false);
      } else if msg == "visible:toggle" {
        SetVisible(!IsVisible());
      }
    }

    /**
     * Hands msg to the single-message handler once, at the first id of the
     * array that matches, and not at all if none does.
     */
    method ProcessMessageFor(idList: seq<string>, msg: string)
      modifies this`visible
      ensures AnyMatches(ids, idList) ==> visible == AfterMessage(msg, old(visible))
      ensures !AnyMatches(ids, idList) ==> visible == old(visible)
    {
      for k := 0 to |idList|
        invariant visible == old(visible)
        invariant forall j :: 0 <= j < k ==> !Matches(ids, idList[j])
      {
        if Contains(ids, idList[k]) && Contains(ids, " " + idList[k] + " ") {
          ProcessMessage(msg);
          return;
        }
      }
    }
  }

  /** Before any setIds, a message is dispatched to no id list whatsoever. */
  method NoDispatchBeforeSetIds(idList: seq<string>, msg: string) returns (shown: bool)
    ensures shown
  {
    var pass := new HUDRenderpassAdapter();
    forall k | 0 <= k < |idList|
      ensures !Matches(pass.ids, idList[k])
    {
      NothingMatchesInitially(idList[k]);
    }
    pass.ProcessMessageFor(idList, msg);
    shown := pass.IsVisible();
  }
}
