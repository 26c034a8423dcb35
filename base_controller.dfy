/**
 * The generic CRUD controller BaseController<TEntity, TContext>: search by a
 * named property, fetch, create, full update, patch, delete and soft-disable,
 * over one entity set. The set is a table from Id to record plus the order in
 * which the store lists the records.
 */
module Base {
  import opened Wrappers
  import opened Entities
  import opened JsonPatch

  /** The ApiResponse<T> envelope; Data is None where the controller passes null. */
  datatype ApiResponse<T> = ApiResponse(success: bool, data: Option<T>, message: string)

  /** The HTTP answer of an action. */
  datatype Reply<T> =
    | Ok(body: T)                         // Ok(...)
    | BadRequest(message: string)         // BadRequest(message); BadRequest() has message ""
    | InvalidModel(failed: seq<PatchOp>)  // BadRequest(ModelState) after patch operations failed
    | NotFound(message: string)           // NotFound(message)
    | ServerError(message: string)        // StatusCode(500, message)
    | Unhandled                           // an exception the action does not catch

  const IdRequired := "ID 不能為空"
  const NoMatchingRecord := "未找到相符的資料"
  const FieldNameRequired := "搜尋欄位不能為空"
  const InvalidSearchField := "無效的搜尋欄位"
  const NoResults := "沒有找到相符的資料"
  const QueryFailed := "查詢時發生了錯誤："

  predicate Distinct<T(==)>(s: seq<T>) {
    forall i, j | 0 <= i < j < |s| :: s[i] != s[j]
  }

  // ---------------------------------------------------------------------------
  // RestoreOldPropertyValue
  // ---------------------------------------------------------------------------

  /**
   * How the controller calls RestoreOldPropertyValue<DateTime>: a forced value
   * goes into a DateTime property, and a copied value comes from a record of the
   * same type.
   */
  predicate CanRestore(name: string, oldEntity: Option<Entity>, e: Entity, data: Option<Time>) {
    var p := Property(KindOf(e), name);
    p.Some? ==> if data.Some? then TypeOf(p.value) == TimeType
                else oldEntity.Some? && KindOf(oldEntity.value) == KindOf(e)
  }

  /**
   * Writes data into property name of e when data is given, and otherwise copies
   * that property's value from oldEntity; an entity type without such a property
   * is left as it is.
   */
  function RestoreOldPropertyValue(name: string, oldEntity: Option<Entity>, e: Entity, data: Option<Time>): (r: Entity)
    requires CanRestore(name, oldEntity, e, data)
    ensures KindOf(r) == KindOf(e)
    ensures Property(KindOf(e), name).None? ==> r == e
    ensures var p := Property(KindOf(e), name);
            p.Some? ==>
              && Get(r, p.value) == (if data.Some? then Some(Instant(data.value)) else Get(oldEntity.value, p.value))
              && forall g :: g != p.value ==> Get(r, g) == Get(e, g)
  {
    var p := Property(KindOf(e), name);
    if p.None? then e
    else if data.Some? then Set(e, p.value, Instant(data.value)).value
    else Set(e, p.value, Get(oldEntity.value, p.value).value).value
  }

  // ---------------------------------------------------------------------------
  // The records each mutation stores
  // ---------------------------------------------------------------------------

  /** The record Create stores for payload e. */
  function Created(e: Entity, id: Guid, now: Time): Entity {
    e.(id := id, createdAt := now)
  }

  /** Create forces Id and CreatedAt; every other property, UpdatedAt and IsEnable included, is stored as supplied. */
  lemma CreatedFields(e: Entity, id: Guid, now: Time)
    ensures KindOf(Created(e, id, now)) == KindOf(e)
    ensures forall f :: Get(Created(e, id, now), f) ==
              if f == Id then Some(Uuid(id))
              else if f == CreatedAt then Some(Instant(now))
              else Get(e, f)
  {
  }

  /** The record a successful Update stores when payload replaces stored. */
  function Merged(stored: Entity, payload: Entity, now: Time): Entity
    requires KindOf(stored) == KindOf(payload)
  {
    var m := payload.(createdAt := stored.createdAt, updatedAt := now);
    if m.User? then m.(password := stored.password) else m
  }

  /**
   * Update stores the payload except that CreatedAt and, for a type that has one,
   * Password are kept from the stored record, and UpdatedAt becomes now.
   */
  lemma MergedFields(stored: Entity, payload: Entity, now: Time)
    requires KindOf(stored) == KindOf(payload)
    ensures KindOf(Merged(stored, payload, now)) == KindOf(payload)
    ensures forall f :: Get(Merged(stored, payload, now), f) ==
              if f == CreatedAt || f == Password then Get(stored, f)
              else if f == UpdatedAt then Some(Instant(now))
              else Get(payload, f)
  {
  }

  /** The three restores Update performs on the payload produce the merged record. */
  lemma UpdateRestores(stored: Entity, payload: Entity, now: Time)
    requires KindOf(stored) == KindOf(payload)
    ensures var stamped := RestoreOldPropertyValue("UpdatedAt", Some(stored), payload, Some(now));
            var kept := RestoreOldPropertyValue("CreatedAt", Some(stored), stamped, None);
            RestoreOldPropertyValue("Password", Some(stored), kept, None) == Merged(stored, payload, now)
  {
    assert PropertyName(UpdatedAt) == "UpdatedAt" && PropertyName(CreatedAt) == "CreatedAt";
    assert PropertyName(Password) == "Password";
    var stamped := RestoreOldPropertyValue("UpdatedAt", Some(stored), payload, Some(now));
    var kept := RestoreOldPropertyValue("CreatedAt", Some(stored), stamped, None);
    var e := RestoreOldPropertyValue("Password", Some(stored), kept, None);
    MergedFields(stored, payload, now);
    SameFieldsSameEntity(e, Merged(stored, payload, now));
  }

  /** The record a successful Patch stores: the operations applied, then UpdatedAt stamped. */
  function Patched(e: Entity, ops: seq<PatchOp>, now: Time): Entity {
    ApplyTo(e, ops).0.(updatedAt := now)
  }

  /** Stamping UpdatedAt on the entity the operations produced gives the patched record. */
  lemma StampIsPatched(e: Entity, ops: seq<PatchOp>, now: Time)
    ensures RestoreOldPropertyValue("UpdatedAt", None, ApplyTo(e, ops).0, Some(now)) == Patched(e, ops, now)
  {
    assert PropertyName(UpdatedAt) == "UpdatedAt";
    var applied := ApplyTo(e, ops).0;
    SameFieldsSameEntity(RestoreOldPropertyValue("UpdatedAt", None, applied, Some(now)), Patched(e, ops, now));
  }

  /**
   * After a patch whose operations all apply, UpdatedAt is now, every property an
   * operation designates holds the value of the last such operation, and every
   * other property is unchanged.
   */
  lemma PatchedFields(e: Entity, ops: seq<PatchOp>, now: Time)
    requires forall i | 0 <= i < |ops| :: Applicable(KindOf(e), ops[i])
    ensures KindOf(Patched(e, ops, now)) == KindOf(e)
    ensures forall f :: Get(Patched(e, ops, now), f) ==
              if f == UpdatedAt then Some(Instant(now))
              else if Targets(ops, f) then Some(LastValue(ops, f))
              else Get(e, f)
  {
    var applied := ApplyTo(e, ops).0;
    assert Patched(e, ops, now) == Set(applied, UpdatedAt, Instant(now)).value;
    forall f | f != UpdatedAt
      ensures Get(applied, f) == if Targets(ops, f) then Some(LastValue(ops, f)) else Get(e, f)
    {
      if Targets(ops, f) {
        ApplyToLastWins(e, ops, f);
      } else {
        ApplyToUntouched(e, ops, f);
      }
    }
  }

  /** A patch whose operations all apply and that designates Password leaves the last such operation's string there. */
  lemma PatchedPassword(e: Entity, ops: seq<PatchOp>, now: Time)
    requires e.User? && Targets(ops, Password)
    requires forall i | 0 <= i < |ops| :: Applicable(KindOf(e), ops[i])
    ensures LastValue(ops, Password).Str?
    ensures Patched(e, ops, now).User? && Patched(e, ops, now).password == LastValue(ops, Password).str
  {
    PatchedFields(e, ops, now);
    assert Get(Patched(e, ops, now), Password) == Some(LastValue(ops, Password));
  }

  /** The record Disable stores. */
  function Disabled(e: Entity): Entity {
    e.(isEnable := false)
  }

  /** Disable clears IsEnable and changes nothing else, UpdatedAt included; disabling twice is disabling once. */
  lemma DisabledFields(e: Entity)
    ensures KindOf(Disabled(e)) == KindOf(e)
    ensures forall f :: Get(Disabled(e), f) == if f == IsEnable then Some(Flag(false)) else Get(e, f)
    ensures Disabled(Disabled(e)) == Disabled(e)
  {
  }

  // ---------------------------------------------------------------------------
  // Patch, as a transition of the table
  // ---------------------------------------------------------------------------

  /** What Patch(id, patchDoc) answers and what the table becomes. */
  function PatchResult(table: map<Guid, Entity>, id: Guid, patchDoc: Option<seq<PatchOp>>, now: Time,
                       conflict: Option<string>): (Reply<ApiResponse<Entity>>, map<Guid, Entity>)
  {
    if patchDoc.None? then (BadRequest(""), table)
    else if id !in table then (Ok(ApiResponse(false, None, NoMatchingRecord)), table)
    else
      var (applied, failed) := ApplyTo(table[id], patchDoc.value);
      if failed != [] then (InvalidModel(failed), table)
      else if applied.id != id then (Unhandled, table)
      else if conflict.Some? then (Ok(ApiResponse(false, None, conflict.value)), table)
      else (Ok(ApiResponse(true, None, "")), table[id := Patched(table[id], patchDoc.value, now)])
  }

  /**
   * Patch is all or nothing: either the table is unchanged, or the answer is a
   * success, every operation applied, and exactly the record under id was
   * replaced by its patched version, whose Id is still id.
   */
  lemma PatchAllOrNothing(table: map<Guid, Entity>, id: Guid, patchDoc: Option<seq<PatchOp>>, now: Time,
                          conflict: Option<string>)
    ensures var (r, after) := PatchResult(table, id, patchDoc, now, conflict);
            || (after == table && !(r.Ok? && r.body.success))
            || (&& r == Ok(ApiResponse(true, None, ""))
                && patchDoc.Some? && id in table && conflict.None?
                && (forall i | 0 <= i < |patchDoc.value| :: Applicable(KindOf(table[id]), patchDoc.value[i]))
                && after == table[id := Patched(table[id], patchDoc.value, now)]
                && Patched(table[id], patchDoc.value, now).id == id)
  {
    if patchDoc.Some? && id in table {
      ApplyToFailures(table[id], patchDoc.value);
    }
  }

  // ---------------------------------------------------------------------------
  // GetByField's filter
  // ---------------------------------------------------------------------------

  /** The culture-dependent string forms of Guid and DateTime values. */
  datatype Culture = Culture(guidText: Guid -> string, timeText: Time -> string)

  /** property.GetValue(e).ToString(); None when the value is null (or e has no such property). */
  function FieldText(e: Entity, f: Field, c: Culture): Option<string> {
    match Get(e, f)
    case None => None
    case Some(Str(t)) => t
    case Some(Flag(b)) => Some(if b then "True" else "False")
    case Some(Instant(t)) => Some(c.timeText(t))
    case Some(Uuid(g)) => Some(c.guidText(g))
  }

  /** string.Contains: ordinal, case-sensitive search for sub in s. */
  function Contains(s: string, sub: string): bool
    decreases |s|
  {
    (|sub| <= |s| && s[..|sub|] == sub) || (s != [] && Contains(s[1..], sub))
  }

  /** sub occurs in s at offset k. */
  predicate OccursAt(s: string, sub: string, k: nat) {
    k + |sub| <= |s| && s[k..k + |sub|] == sub
  }

  /** An occurrence at offset k is found by the search. */
  lemma {:induction false} OccursContains(s: string, sub: string, k: nat)
    requires OccursAt(s, sub, k)
    ensures Contains(s, sub)
    decreases k
  {
    if k > 0 {
      assert s[1..][k - 1..k - 1 + |sub|] == s[k..k + |sub|];
      OccursContains(s[1..], sub, k - 1);
    }
  }

  /** The search succeeds only where sub occurs: the offset it stops at. */
  lemma {:induction false} ContainsWitness(s: string, sub: string) returns (k: nat)
    requires Contains(s, sub)
    ensures OccursAt(s, sub, k)
    decreases |s|
  {
    if |sub| <= |s| && s[..|sub|] == sub {
      k := 0;
    } else {
      var j := ContainsWitness(s[1..], sub);
      k := j + 1;
      assert s[k..k + |sub|] == s[1..][j..j + |sub|];
    }
  }

  /** Contains(s, sub) holds exactly when sub occurs in s at some offset. */
  lemma ContainsIff(s: string, sub: string)
    ensures Contains(s, sub) <==> exists k: nat :: OccursAt(s, sub, k)
  {
    if Contains(s, sub) {
      var k := ContainsWitness(s, sub);
    }
    if exists k: nat :: OccursAt(s, sub, k) {
      var k: nat :| OccursAt(s, sub, k);
      OccursContains(s, sub, k);
    }
  }

  /** The filter's condition for e: the property's text contains search. */
  predicate Matches(e: Entity, f: Field, search: string, c: Culture) {
    var t := FieldText(e, f, c);
    t.Some? && Contains(t.value, search)
  }

  /** r keeps some elements of s, in the order s has them. */
  predicate SubsequenceOf<T(==)>(r: seq<T>, s: seq<T>)
    decreases |s|
  {
    r == [] || (s != [] && ((r[0] == s[0] && SubsequenceOf(r[1..], s[1..])) || SubsequenceOf(r, s[1..])))
  }

  /**
   * entities.Where(e => property.GetValue(e).ToString().Contains(searchValue)).ToList():
   * None when the evaluation throws, because a value is null or the search string is.
   */
  function Filter(es: seq<Entity>, f: Field, search: Option<string>, c: Culture): (r: Option<seq<Entity>>)
    ensures r.None? <==> (exists x | x in es :: FieldText(x, f, c).None?) || (es != [] && search.None?)
    ensures r.Some? ==> SubsequenceOf(r.value, es)
    ensures r.Some? ==> forall x :: x in r.value <==> x in es && search.Some? && Matches(x, f, search.value, c)
    decreases |es|
  {
    if es == [] then Some([])
    else
      var t := FieldText(es[0], f, c);
      if t.None? || search.None? then None
      else
        var rest := Filter(es[1..], f, search, c);
        if rest.None? then None
        else
          if Contains(t.value, search.value) then
            var r := [es[0]] + rest.value;
            assert r[1..] == rest.value;
            Some(r)
          else Some(rest.value)
  }

  /** The records of table listed by ids. */
  function Rows(table: map<Guid, Entity>, ids: seq<Guid>): seq<Entity>
    requires forall i | 0 <= i < |ids| :: ids[i] in table
  {
    seq(|ids|, i requires 0 <= i < |ids| => table[ids[i]])
  }

  /** ids without id, in the same order. */
  function Without(ids: seq<Guid>, id: Guid): (r: seq<Guid>)
    ensures forall x :: x in r <==> x in ids && x != id
    ensures Distinct(ids) ==> Distinct(r)
    decreases |ids|
  {
    if ids == [] then []
    else
      var rest := Without(ids[1..], id);
      if ids[0] == id then rest
      else
        assert Distinct(ids) ==> ids[0] !in rest;
        assert Distinct(ids) ==> Distinct(ids[1..]) by {
          if Distinct(ids) {
            forall i, j | 0 <= i < j < |ids[1..]| ensures ids[1..][i] != ids[1..][j] {
              assert ids[1..][i] == ids[i + 1] && ids[1..][j] == ids[j + 1];
            }
          }
        }
        [ids[0]] + rest
  }

  // ---------------------------------------------------------------------------
  // The controller
  // ---------------------------------------------------------------------------

  class BaseController {
    /** The entity type TEntity the controller is instantiated with. */
    const kind: Kind
    /** The entity set, by Id. */
    var table: map<Guid, Entity>
    /** The order in which the store lists the entity set. */
    var order: seq<Guid>

    /** Every record has the controller's type and is stored under its own Id; order lists each Id once. */
    ghost predicate Valid()
      reads this
      ensures Valid() ==> forall i, j | 0 <= i < |order| && 0 <= j < |order| ::
                            order[i] in table && table[order[i]].id == order[i] && (order[i] == order[j] ==> i == j)
    {
      && (forall id | id in table :: KindOf(table[id]) == kind && table[id].id == id)
      && Distinct(order)
      && (forall id :: id in table <==> id in order)
    }

    constructor(kind: Kind)
      ensures Valid() && this.kind == kind && table == map[] && order == []
    {
      this.kind := kind;
      table := map[];
      order := [];
    }

    /** The entity set as the store lists it. */
    function Stored(): seq<Entity>
      reads this
      requires Valid()
    {
      Rows(table, order)
    }

    /** Lookup by id: a missing id and an unknown id are failures with their own messages. */
    function GetEntityById(id: Option<Guid>): (r: ApiResponse<Entity>)
      reads this
      requires Valid()
      ensures r.success <==> id.Some? && id.value in table
      ensures r.success ==> r.data == Some(table[id.value]) && r.data.value.id == id.value && r.message == ""
      ensures !r.success ==> r.data.None? && r.message == if id.None? then IdRequired else NoMatchingRecord
    {
      if id.None? then ApiResponse(false, None, IdRequired)
      else if id.value !in table then ApiResponse(false, None, NoMatchingRecord)
      else ApiResponse(true, Some(table[id.value]), "")
    }

    method GetById(id: Guid) returns (r: Reply<ApiResponse<Entity>>)
      requires Valid()
      ensures id in table ==> r == Ok(ApiResponse(true, Some(table[id]), ""))
      ensures id !in table ==> r == Ok(ApiResponse(false, None, NoMatchingRecord))
    {
      var result := GetEntityById(Some(id));
      r := Ok(result);
    }

    /**
     * Search by property: a blank or unknown property name is refused whatever the
     * store holds; otherwise the answer lists, in store order, exactly the records
     * whose property text contains searchValue, and no match is NotFound.
     */
    method GetByField(fieldName: Option<string>, searchValue: Option<string>, culture: Culture)
      returns (r: Reply<seq<Entity>>)
      requires Valid()
      ensures fieldName.None? || fieldName == Some("") ==> r == BadRequest(FieldNameRequired)
      ensures fieldName.Some? && fieldName.value != "" && Property(kind, fieldName.value).None? ==>
                r == BadRequest(InvalidSearchField)
      ensures fieldName.Some? && Property(kind, fieldName.value).Some? ==>
                var f := Property(kind, fieldName.value).value;
                && (r.ServerError? <==>
                      (exists x | x in Stored() :: FieldText(x, f, culture).None?)
                      || (order != [] && searchValue.None?))
                && (r.ServerError? ==> r.message == QueryFailed)
                && (r.NotFound? ==> r.message == NoResults && forall x | x in Stored() :: !Matches(x, f, searchValue.value, culture))
                && (r.Ok? ==> r.body != [] && SubsequenceOf(r.body, Stored()) &&
                              forall x :: x in r.body <==> x in Stored() && Matches(x, f, searchValue.value, culture))
                && (r.Ok? || r.NotFound? || r.ServerError?)
    {
      if fieldName.None? || fieldName.value == "" {
        return BadRequest(FieldNameRequired);
      }
      var property := Property(kind, fieldName.value);
      if property.None? {
        return BadRequest(InvalidSearchField);
      }
      var entities := Stored();
      var found := Filter(entities, property.value, searchValue, culture);
      if found.None? {
        return ServerError(QueryFailed);
      }
      if found.value == [] {
        return NotFound(NoResults);
      }
      r := Ok(found.value);
    }

    /**
     * Create stores the payload under the fresh id with CreatedAt = now and answers
     * with the stored record; the table grows by that one entry.
     */
    method Create(entity: Entity, newId: Guid, now: Time) returns (r: Reply<ApiResponse<Entity>>)
      requires Valid() && KindOf(entity) == kind && newId !in table
      modifies this
      ensures Valid()
      ensures table == old(table)[newId := Created(entity, newId, now)]
      ensures order == old(order) + [newId]
      ensures r == Ok(ApiResponse(true, Some(Created(entity, newId, now)), ""))
    {
      var e := entity;
      var idProperty := Property(kind, "Id");
      assert PropertyName(Id) == "Id";
      if idProperty.Some? && TypeOf(idProperty.value) == GuidType {
        e := Set(e, idProperty.value, Uuid(newId)).value;
      }
      assert PropertyName(CreatedAt) == "CreatedAt";
      e := RestoreOldPropertyValue("CreatedAt", None, e, Some(now));
      CreatedFields(entity, newId, now);
      SameFieldsSameEntity(e, Created(entity, newId, now));
      table := table[e.id := e];
      order := order + [e.id];
      r := Ok(ApiResponse(true, Some(e), ""));
    }

    /**
     * Update of an unknown id, or one the store refuses with a concurrency error,
     * leaves the table as it was; otherwise the stored record becomes the merge of
     * the payload into it and the answer carries no data.
     */
    method Update(entity: Entity, now: Time, conflict: Option<string>) returns (r: Reply<ApiResponse<Entity>>)
      requires Valid() && KindOf(entity) == kind
      modifies this
      ensures Valid() && order == old(order)
      ensures entity.id !in old(table) ==>
                table == old(table) && r == Ok(ApiResponse(false, None, NoMatchingRecord))
      ensures entity.id in old(table) && conflict.Some? ==>
                table == old(table) && r == Ok(ApiResponse(false, None, conflict.value))
      ensures entity.id in old(table) && conflict.None? ==>
                && table == old(table)[entity.id := Merged(old(table)[entity.id], entity, now)]
                && r == Ok(ApiResponse(true, None, ""))
    {
      var result := GetEntityById(Some(entity.id));
      if !result.success {
        return Ok(result);
      }
      var oldEntity := result.data.value;
      UpdateRestores(oldEntity, entity, now);
      var e := RestoreOldPropertyValue("UpdatedAt", Some(oldEntity), entity, Some(now));
      e := RestoreOldPropertyValue("CreatedAt", Some(oldEntity), e, None);
      e := RestoreOldPropertyValue("Password", Some(oldEntity), e, None);
      if conflict.Some? {
        return Ok(ApiResponse(false, None, conflict.value));
      }
      table := table[entity.id := e];
      r := Ok(ApiResponse(true, None, ""));
    }

    /**
     * Patch applies the operations to the record under id and stamps UpdatedAt; it
     * answers and changes the table as PatchResult says.
     */
    method Patch(id: Guid, patchDoc: Option<seq<PatchOp>>, now: Time, conflict: Option<string>)
      returns (r: Reply<ApiResponse<Entity>>)
      requires Valid()
      modifies this
      ensures Valid() && order == old(order)
      ensures (r, table) == PatchResult(old(table), id, patchDoc, now, conflict)
    {
      if patchDoc.None? {
        return BadRequest("");
      }
      var result := GetEntityById(Some(id));
      if !result.success {
        return Ok(result);
      }
      var entity := result.data.value;
      var (applied, failed) := ApplyTo(entity, patchDoc.value);
      if failed != [] {
        return InvalidModel(failed);
      }
      StampIsPatched(entity, patchDoc.value, now);
      entity := RestoreOldPropertyValue("UpdatedAt", None, applied, Some(now));
      // Saving a record whose key changed throws, and that exception is not caught.
      if entity.id != id {
        return Unhandled;
      }
      if conflict.Some? {
        return Ok(ApiResponse(false, None, conflict.value));
      }
      table := table[id := entity];
      r := Ok(ApiResponse(true, None, ""));
    }

    method Delete(id: Guid) returns (r: Reply<ApiResponse<Entity>>)
      requires Valid()
      modifies this
      ensures Valid()
      ensures id !in old(table) ==>
                table == old(table) && order == old(order) && r == Ok(ApiResponse(false, None, NoMatchingRecord))
      ensures id in old(table) ==>
                && table == old(table) - {id} && order == Without(old(order), id)
                && r == Ok(ApiResponse(true, Some(old(table)[id]), ""))
    {
      var result := RemoveEntity(id);
      r := Ok(result);
    }

    /**
     * Disable of an unknown id fails and changes nothing; otherwise the record's
     * IsEnable becomes false, nothing else of it changes, and the answer carries it.
     */
    method Disable(id: Guid) returns (r: Reply<ApiResponse<Entity>>)
      requires Valid()
      modifies this
      ensures Valid() && order == old(order)
      ensures id !in old(table) ==>
                table == old(table) && r == Ok(ApiResponse(false, None, NoMatchingRecord))
      ensures id in old(table) ==>
                && table == old(table)[id := Disabled(old(table)[id])]
                && r == Ok(ApiResponse(true, Some(Disabled(old(table)[id])), ""))
    {
      var result := GetEntityById(Some(id));
      if !result.success {
        return Ok(result);
      }
      var entity := result.data.value;
      var isEnableProperty := Property(kind, "IsEnable");
      assert PropertyName(IsEnable) == "IsEnable";
      if isEnableProperty.Some? {
        entity := Set(entity, isEnableProperty.value, Flag(false)).value;
      }
      DisabledFields(table[id]);
      SameFieldsSameEntity(entity, Disabled(table[id]));
      table := table[id := entity];
      r := Ok(ApiResponse(true, Some(entity), ""));
    }

    /** Removes the record under id and answers with it; an unknown id fails and changes nothing. */
    method RemoveEntity(id: Guid) returns (r: ApiResponse<Entity>)
      requires Valid()
      modifies this
      ensures Valid()
      ensures id !in old(table) ==>
                table == old(table) && order == old(order) && r == ApiResponse(false, None, NoMatchingRecord)
      ensures id in old(table) ==>
                && table == old(table) - {id} && order == Without(old(order), id)
                && r == ApiResponse(true, Some(old(table)[id]), "")
    {
      if id !in table {
        return ApiResponse(false, None, NoMatchingRecord);
      }
      var entity := table[id];
      table := table - {id};
      order := Without(order, id);
      r := ApiResponse(true, Some(entity), "");
    }
  }
}
