/**
 * jkanvas.io.json.JSONManager: two tables of a JSON document being read, the
 * templates by name and the thunks (deferred values) by id. Both are
 * java.util.HashMaps updated with put, which replaces an existing binding
 * before the duplicate is reported.
 *
 * JSONElement and JSONThunk are not part of this model; they appear as
 * opaque values. HashMap accepts a null key, so template names are nullable;
 * thunk ids are checked for null before every put.
 */
module Json {
  import opened Lang

  /** A parsed JSON element, opaque apart from whether it is a JSON object. */
  datatype JSONElement = JSONElement(handle: int, isObject: bool)

  /** The object handed to addRawId, opaque. */
  datatype RawObject = RawObject(handle: int)

  /** JSONElement.expectObject: passes on a JSON object and throws on anything else. */
  function ExpectObject(el: JSONElement): (o: Outcome)
    ensures o == Done <==> el.isObject
    ensures o != Done ==> o == Thrown(NotAnObject)
  {
    if el.isObject then Done else Thrown(NotAnObject)
  }

  /** What a thunk was created from: an unresolved id, or a raw object given directly. */
  datatype ThunkKind = Unresolved | Raw(obj: Option<RawObject>)

  /** A deferred value bound to an id. Identity matters: getForId hands out the same object again. */
  class JSONThunk {
    const manager: JSONManager
    const kind: ThunkKind

    constructor (manager: JSONManager, kind: ThunkKind)
      ensures this.manager == manager && this.kind == kind
    {
      this.manager := manager;
      this.kind := kind;
    }
  }

  class JSONManager {
    /** The template map. */
    var templates: map<Option<string>, JSONElement>
    /** The id map. */
    var thunks: map<string, JSONThunk>

    /** Every bound thunk belongs to this manager. */
    ghost predicate Valid()
      reads this
    {
      forall id :: id in thunks ==> thunks[id].manager == this
    }

    constructor ()
      ensures Valid() && templates == map[] && thunks == map[]
    {
      templates := map[];
      thunks := map[];
    }

    /**
     * Adds a template. A null element or one that is not a JSON object is
     * rejected first; otherwise the element is stored, and a name that was
     * bound already is reported after it has been rebound.
     */
    method AddTemplate(name: Option<string>, el: Option<JSONElement>) returns (o: Outcome)
      modifies this`templates
      ensures el.None? ==> o == Thrown(NullPointer) && templates == old(templates)
      ensures el.Some? && !el.value.isObject ==> o == Thrown(NotAnObject) && templates == old(templates)
      ensures el.Some? && el.value.isObject ==>
                && templates == old(templates)[name := el.value]
                && (o == Done <==> name !in old(templates))
                && (o != Done ==> o == Thrown(IllegalArgument))
    {
      if el.None? {
        return Thrown(NullPointer);
      }
      var e := ExpectObject(el.value);
      if e.Thrown? {
        return e;
      }
      var previous := name in templates;
      templates := templates[name := el.value];
      if previous {
        return Thrown(IllegalArgument);
      }
      o := Done;
    }

    /** The template stored under name; NullPointerException when there is none. */
    function GetTemplate(name: Option<string>): (r: Result<JSONElement>)
      reads this
      ensures r.Ok? <==> name in templates
      ensures r.Ok? ==> r.value == templates[name]
      ensures !r.Ok? ==> r == Throw(NullPointer)
    {
      if name in templates then Ok(templates[name]) else Throw(NullPointer)
    }

    /**
     * Binds id to thunk. Null arguments are rejected; an id in use is
     * reported after it has been rebound.
     */
    method SetForId(id: Option<string>, thunk: JSONThunk?) returns (o: Outcome)
      requires Valid() && (thunk != null ==> thunk.manager == this)
      modifies this`thunks
      ensures Valid()
      ensures (id.None? || thunk == null) ==> o == Thrown(NullPointer) && thunks == old(thunks)
      ensures id.Some? && thunk != null ==>
                && thunks == old(thunks)[id.value := thunk]
                && (o == Done <==> id.value !in old(thunks))
                && (o != Done ==> o == Thrown(IllegalArgument))
    {
      if id.None? || thunk == null {
        return Thrown(NullPointer);
      }
      var previous := id.value in thunks;
      thunks := thunks[id.value := thunk];
      if previous {
        return Thrown(IllegalArgument);
      }
      o := Done;
    }

    /**
     * The thunk bound to id; an unused id is first bound to a new unresolved
     * thunk of this manager. A null id is rejected.
     */
    method GetForId(id: Option<string>) returns (r: Result<JSONThunk>)
      requires Valid()
      modifies this`thunks
      ensures Valid()
      ensures id.None? ==> r == Throw(NullPointer) && thunks == old(thunks)
      ensures id.Some? && id.value in old(thunks) ==> r == Ok(old(thunks)[id.value]) && thunks == old(thunks)
      ensures id.Some? && id.value !in old(thunks) ==>
                && r.Ok? && fresh(r.value) && r.value.manager == this && r.value.kind == Unresolved
                && thunks == old(thunks)[id.value := r.value]
      ensures r.Ok? ==> r.value.manager == this
    {
      if id.None? {
        return Throw(NullPointer);
      }
      if id.value !in thunks {
        var t := new JSONThunk(this, Unresolved);
        var o := SetForId(id, t);
      }
      r := Ok(thunks[id.value]);
    }

    /**
     * Binds id to a new thunk holding obj. A null id is rejected; an id in use
     * is reported after it has been rebound.
     */
    method AddRawId(id: Option<string>, obj: Option<RawObject>) returns (o: Outcome)
      requires Valid()
      modifies this`thunks
      ensures Valid()
      ensures id.None? ==> o == Thrown(NullPointer) && thunks == old(thunks)
      ensures id.Some? ==>
                && id.value in thunks && fresh(thunks[id.value])
                && thunks[id.value].kind == Raw(obj) && thunks[id.value].manager == this
                && thunks == old(thunks)[id.value := thunks[id.value]]
                && (o == Done <==> id.value !in old(thunks))
                && (o != Done ==> o == Thrown(IllegalArgument))
    {
      if id.None? {
        return Thrown(NullPointer);
      }
      var t := new JSONThunk(this, Raw(obj));
      var previous := id.value in thunks;
      thunks := thunks[id.value := t];
      if previous {
        return Thrown(IllegalArgument);
      }
      o := Done;
    }
  }

  /** Storing a template and reading it back gives the element stored, whatever was there before. */
  method TemplateRoundTrip(m: JSONManager, name: Option<string>, el: JSONElement) returns (r: Result<JSONElement>)
    requires el.isObject
    modifies m`templates
    ensures r == Ok(el)
  {
    var o := m.AddTemplate(name, Some(el));
    r := m.GetTemplate(name);
  }

  /**
   * getForId is get-or-create: called twice with the same id it succeeds both
   * times with the same thunk, and an id bound this way is then in use for
   * addRawId.
   */
  method GetForIdTwice(m: JSONManager, id: string, obj: Option<RawObject>)
    returns (first: Result<JSONThunk>, second: Result<JSONThunk>, raw: Outcome)
    requires m.Valid()
    modifies m`thunks
    ensures first.Ok? && second == first
    ensures raw == Thrown(IllegalArgument)
  {
    first := m.GetForId(Some(id));
    second := m.GetForId(Some(id));
    raw := m.AddRawId(Some(id), obj);
  }
}
