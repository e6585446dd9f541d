/** The add-holdtype and disable-holdtype handlers (routes/containerRoutes.js)
    as pure functions from a store to a reply and the store afterwards. */
module HoldTypes {
  import opened Schema

  /** The response of a handler: the four rejections of the routes, a failed
      save (the schema validator refusing the document, answered with 500),
      or the saved container. */
  datatype Outcome =
    | InvalidInput
    | NotFound
    | DuplicateActiveHold
    | NoActiveHold
    | ServerError
    | Ok(container: Container)

  datatype Reply = Reply(outcome: Outcome, store: seq<Container>)

  /** `!holdType` in the handlers: a missing body field or the empty string. */
  predicate MissingType(holdType: Option<string>) {
    holdType.None? || holdType.value == ""
  }

  /** The entry the add handler pushes: active, stamped with the caller and
      `now`, with no `updatedBy`; built through the schema's defaults. */
  function NewHold(t: string, user: UserId, now: Timestamp): HoldEntry {
    MakeEntry(t, Some(true), Some(now), Some(user), None, now)
  }

  /** The entry after disabling: status cleared and the caller recorded. */
  function Disabled(e: HoldEntry, user: UserId): HoldEntry {
    e.(status := false, updatedBy := Some(user))
  }

  function NumberIs(number: string): Container -> bool {
    (c: Container) => c.containerNumber == number
  }

  function IdIs(id: ContainerId): Container -> bool {
    (c: Container) => c.id == id
  }

  function ActiveKind(t: string): HoldEntry -> bool {
    (e: HoldEntry) => ActiveOf(e, t)
  }

  /** `container.save()`: validate, then insert (slot == |store|) or replace. */
  function Save(store: seq<Container>, slot: nat, c: Container): (r: Reply)
    requires slot <= |store|
    ensures r.outcome.Ok? <==> Valid(c)
    ensures r.outcome.Ok? ==> r.outcome.container == c
    ensures !r.outcome.Ok? ==> r == Reply(ServerError, store)
    ensures r.outcome.Ok? && slot == |store| ==> r.store == store + [c]
    ensures r.outcome.Ok? && slot < |store| ==> r.store == store[slot := c]
  {
    if !Valid(c) then Reply(ServerError, store)
    else if slot == |store| then Reply(Ok(c), store + [c])
    else Reply(Ok(c), store[slot := c])
  }

  /** PUT /:id/add-holdtype, where `:id` is the container number. */
  function Add(store: seq<Container>, number: string, holdType: Option<string>,
               user: UserId, now: Timestamp, freshId: ContainerId): (r: Reply)
    // a missing type is refused before the store is consulted
    ensures r.outcome == InvalidInput <==> MissingType(holdType)
    // the handler never answers with the disable handler's rejections
    ensures !r.outcome.NotFound? && !r.outcome.NoActiveHold?
    // every rejection leaves the store as it was
    ensures !r.outcome.Ok? ==> r.store == store
    // no container with that number: a fresh one holding exactly the new entry
    ensures !MissingType(holdType) && RequiredString(number)
            && (forall n :: 0 <= n < |store| ==> store[n].containerNumber != number) ==>
              var c := Container(freshId, number, [NewHold(holdType.value, user, now)]);
              r == Reply(Ok(c), store + [c])
    // the first container with that number already holds the type: rejected
    ensures !MissingType(holdType) ==>
              forall n :: 0 <= n < |store| && store[n].containerNumber == number
                          && (forall m :: 0 <= m < n ==> store[m].containerNumber != number) ==>
                (r.outcome == DuplicateActiveHold <==> HasActive(store[n].holdTypes, holdType.value))
    // otherwise the new entry is appended to that container and nothing else moves
    ensures !MissingType(holdType) ==>
              forall n :: 0 <= n < |store| && store[n].containerNumber == number
                          && (forall m :: 0 <= m < n ==> store[m].containerNumber != number)
                          && !HasActive(store[n].holdTypes, holdType.value) && Valid(store[n]) ==>
                var c := store[n].(holdTypes := store[n].holdTypes + [NewHold(holdType.value, user, now)]);
                r == Reply(Ok(c), store[n := c])
  {
    if MissingType(holdType) then Reply(InvalidInput, store)
    else
      var t := holdType.value;
      match FirstWhere(store, NumberIs(number))
      case None =>
        Save(store, |store|, Container(freshId, number, [NewHold(t, user, now)]))
      case Some(n) =>
        var c := store[n];
        if FirstWhere(c.holdTypes, ActiveKind(t)).Some? then Reply(DuplicateActiveHold, store)
        else
          // the handler next tests for a disabled entry of the type, but both of
          // its branches push the same entry, so the test decides nothing
          Save(store, n, c.(holdTypes := c.holdTypes + [NewHold(t, user, now)]))
  }

  /** The hold list after disabling entry `k`: the same length and order,
      entry `k` disabled by `user`, every other entry untouched. */
  predicate DisabledOnly(before: seq<HoldEntry>, after: seq<HoldEntry>, k: nat, user: UserId) {
    && |after| == |before|
    && k < |before|
    && after[k].kind == before[k].kind
    && after[k].dateAdded == before[k].dateAdded
    && after[k].addedBy == before[k].addedBy
    && !after[k].status
    && after[k].updatedBy == Some(user)
    && forall j :: 0 <= j < |before| && j != k ==> after[j] == before[j]
  }

  /** PUT /:id/disable-holdtype, where `:id` is the container id. */
  function Disable(store: seq<Container>, id: ContainerId, holdType: Option<string>,
                   user: UserId): (r: Reply)
    ensures r.outcome == InvalidInput <==> MissingType(holdType)
    ensures !r.outcome.Ok? ==> r.store == store
    ensures !r.outcome.DuplicateActiveHold?
    ensures r.outcome == NotFound <==>
              !MissingType(holdType) && forall n :: 0 <= n < |store| ==> store[n].id != id
    // the container found is the first with that id; it has no active entry of the type
    ensures !MissingType(holdType) ==>
              forall n :: 0 <= n < |store| && store[n].id == id
                          && (forall m :: 0 <= m < n ==> store[m].id != id) ==>
                (r.outcome == NoActiveHold <==> !HasActive(store[n].holdTypes, holdType.value))
    // success: exactly the first active entry of the type is disabled, in place
    ensures r.outcome.Ok? ==>
              exists n, k :: 0 <= n < |store| && store[n].id == id
                          && (forall m :: 0 <= m < n ==> store[m].id != id)
                          && 0 <= k < |store[n].holdTypes|
                          && ActiveOf(store[n].holdTypes[k], holdType.value)
                          && (forall j :: 0 <= j < k ==> !ActiveOf(store[n].holdTypes[j], holdType.value))
                          && r.outcome.container.id == id
                          && r.outcome.container.containerNumber == store[n].containerNumber
                          && DisabledOnly(store[n].holdTypes, r.outcome.container.holdTypes, k, user)
                          && r.store == store[n := r.outcome.container]
  {
    if MissingType(holdType) then Reply(InvalidInput, store)
    else
      var t := holdType.value;
      match FirstWhere(store, IdIs(id))
      case None => Reply(NotFound, store)
      case Some(n) =>
        var c := store[n];
        match FirstWhere(c.holdTypes, ActiveKind(t))
        case None => Reply(NoActiveHold, store)
        case Some(k) =>
          Save(store, n, c.(holdTypes := c.holdTypes[k := Disabled(c.holdTypes[k], user)]))
  }
}
