/** Properties that relate the hold-type handlers to the store invariants and
    to each other. */
module HoldTypeLaws {
  import opened Schema
  import opened HoldTypes

  /** Appending an active entry of a type that has no active entry keeps the
      per-type uniqueness and the "active entries are unstamped" rule. */
  lemma AppendKeepsInvariant(hs: seq<HoldEntry>, t: string, user: UserId, now: Timestamp)
    requires AtMostOneActive(hs) && ActiveUnstamped(hs)
    requires forall k :: 0 <= k < |hs| ==> !ActiveOf(hs[k], t)
    ensures AtMostOneActive(hs + [NewHold(t, user, now)])
    ensures ActiveUnstamped(hs + [NewHold(t, user, now)])
  {
    var hs' := hs + [NewHold(t, user, now)];
    forall i, j | 0 <= i < j < |hs'| && hs'[i].status && hs'[j].status
      ensures hs'[i].kind != hs'[j].kind
    {
      if j == |hs| {
        assert !ActiveOf(hs[i], t);
      } else {
        assert hs'[i] == hs[i] && hs'[j] == hs[j];
      }
    }
  }

  /** Clearing the status of one entry keeps both per-container invariants. */
  lemma DisableKeepsInvariant(hs: seq<HoldEntry>, k: nat, user: UserId)
    requires k < |hs|
    requires AtMostOneActive(hs) && ActiveUnstamped(hs)
    ensures AtMostOneActive(hs[k := Disabled(hs[k], user)])
    ensures ActiveUnstamped(hs[k := Disabled(hs[k], user)])
  {
    var hs' := hs[k := Disabled(hs[k], user)];
    forall i, j | 0 <= i < j < |hs'| && hs'[i].status && hs'[j].status
      ensures hs'[i].kind != hs'[j].kind
    {
      assert hs'[i] == hs[i] && hs'[j] == hs[j];
    }
  }

  /** Add keeps "at most one active entry per type" (through its duplicate
      guard) and "active entries carry no updatedBy" on every container. */
  lemma AddPreservesConsistency(store: seq<Container>, number: string, holdType: Option<string>,
                                user: UserId, now: Timestamp, freshId: ContainerId)
    requires Consistent(store)
    ensures Consistent(Add(store, number, holdType, user, now, freshId).store)
  {
    var r := Add(store, number, holdType, user, now, freshId);
    if !MissingType(holdType) && r.outcome.Ok? {
      var t := holdType.value;
      match FirstWhere(store, NumberIs(number))
      case None =>
        assert r.store == store + [Container(freshId, number, [NewHold(t, user, now)])];
      case Some(n) =>
        var c := store[n];
        assert FirstWhere(c.holdTypes, ActiveKind(t)).None?;
        AppendKeepsInvariant(c.holdTypes, t, user, now);
        assert r.store == store[n := c.(holdTypes := c.holdTypes + [NewHold(t, user, now)])];
    }
  }

  /** Disable keeps both invariants: it only ever clears a status. */
  lemma DisablePreservesConsistency(store: seq<Container>, id: ContainerId, holdType: Option<string>,
                                    user: UserId)
    requires Consistent(store)
    ensures Consistent(Disable(store, id, holdType, user).store)
  {
    var r := Disable(store, id, holdType, user);
    if !MissingType(holdType) && r.outcome.Ok? {
      var t := holdType.value;
      var n := FirstWhere(store, IdIs(id)).value;
      var c := store[n];
      var k := FirstWhere(c.holdTypes, ActiveKind(t)).value;
      DisableKeepsInvariant(c.holdTypes, k, user);
      assert r.store == store[n := c.(holdTypes := c.holdTypes[k := Disabled(c.holdTypes[k], user)])];
    }
  }

  /** On a store the validator accepts, Add with a real container number never
      fails at save time, and the store stays acceptable. */
  lemma AddKeepsStoreValid(store: seq<Container>, number: string, holdType: Option<string>,
                           user: UserId, now: Timestamp, freshId: ContainerId)
    requires AllValid(store) && RequiredString(number)
    ensures Add(store, number, holdType, user, now, freshId).outcome != ServerError
    ensures AllValid(Add(store, number, holdType, user, now, freshId).store)
  {
    var r := Add(store, number, holdType, user, now, freshId);
    if !MissingType(holdType) {
      var t := holdType.value;
      match FirstWhere(store, NumberIs(number))
      case None =>
      case Some(n) =>
        var c := store[n];
        var c' := c.(holdTypes := c.holdTypes + [NewHold(t, user, now)]);
        assert Valid(c) && Valid(c');
    }
  }

  /** The same for Disable: the entry keeps its type, so validity is kept. */
  lemma DisableKeepsStoreValid(store: seq<Container>, id: ContainerId, holdType: Option<string>,
                               user: UserId)
    requires AllValid(store)
    ensures Disable(store, id, holdType, user).outcome != ServerError
    ensures AllValid(Disable(store, id, holdType, user).store)
  {
    if !MissingType(holdType) {
      var t := holdType.value;
      match FirstWhere(store, IdIs(id))
      case None =>
      case Some(n) =>
        var c := store[n];
        match FirstWhere(c.holdTypes, ActiveKind(t))
        case None =>
        case Some(k) =>
          var c' := c.(holdTypes := c.holdTypes[k := Disabled(c.holdTypes[k], user)]);
          assert Valid(c) && Valid(c');
    }
  }

  /** Add keeps `_id` unique as long as the id it gives a created container
      is not in use; an update never changes an id. */
  lemma AddKeepsIdsUnique(store: seq<Container>, number: string, holdType: Option<string>,
                          user: UserId, now: Timestamp, freshId: ContainerId)
    requires UniqueIds(store)
    requires forall n :: 0 <= n < |store| ==> store[n].id != freshId
    ensures UniqueIds(Add(store, number, holdType, user, now, freshId).store)
  {
    var r := Add(store, number, holdType, user, now, freshId);
    if !MissingType(holdType) && r.outcome.Ok? {
      var t := holdType.value;
      match FirstWhere(store, NumberIs(number))
      case None =>
        assert r.store == store + [Container(freshId, number, [NewHold(t, user, now)])];
      case Some(n) =>
        var c := store[n];
        assert r.store == store[n := c.(holdTypes := c.holdTypes + [NewHold(t, user, now)])];
    }
  }

  /** Disable never changes an id, so `_id` stays unique. */
  lemma DisableKeepsIdsUnique(store: seq<Container>, id: ContainerId, holdType: Option<string>,
                              user: UserId)
    requires UniqueIds(store)
    ensures UniqueIds(Disable(store, id, holdType, user).store)
  {
    var r := Disable(store, id, holdType, user);
    if !MissingType(holdType) && r.outcome.Ok? {
      var t := holdType.value;
      var n := FirstWhere(store, IdIs(id)).value;
      var c := store[n];
      var k := FirstWhere(c.holdTypes, ActiveKind(t)).value;
      assert r.store == store[n := c.(holdTypes := c.holdTypes[k := Disabled(c.holdTypes[k], user)])];
    }
  }

  /** With unique ids, the container `findOne({_id})` finds is the only one
      with that id. */
  lemma UniqueIdFound(store: seq<Container>, n: nat)
    requires UniqueIds(store) && n < |store|
    ensures FirstWhere(store, IdIs(store[n].id)) == Some(n)
  {
    FirstWhereAt(store, IdIs(store[n].id), n);
  }

  /** Adding the same type to the same container number twice: the second
      request is refused and changes nothing. */
  lemma AddTwiceRejected(store: seq<Container>, number: string, t: string,
                         user: UserId, now: Timestamp, freshId: ContainerId,
                         user': UserId, now': Timestamp, freshId': ContainerId)
    requires Add(store, number, Some(t), user, now, freshId).outcome.Ok?
    ensures var s1 := Add(store, number, Some(t), user, now, freshId).store;
            Add(s1, number, Some(t), user', now', freshId') == Reply(DuplicateActiveHold, s1)
  {
    var r1 := Add(store, number, Some(t), user, now, freshId);
    var s1 := r1.store;
    var c1 := r1.outcome.container;
    var n: nat;
    match FirstWhere(store, NumberIs(number)) {
      case None =>
        n := |store|;
        assert c1 == Container(freshId, number, [NewHold(t, user, now)]);
        assert s1 == store + [c1];
        assert forall m :: 0 <= m < n ==> s1[m] == store[m] && !NumberIs(number)(store[m]);
      case Some(m) =>
        n := m;
        assert c1 == store[m].(holdTypes := store[m].holdTypes + [NewHold(t, user, now)]);
        assert s1 == store[m := c1];
        assert forall j :: 0 <= j < n ==> s1[j] == store[j] && !NumberIs(number)(store[j]);
    }
    // the container touched by the first request is the first match afterwards
    assert n < |s1| && s1[n] == c1 && NumberIs(number)(s1[n]);
    FirstWhereAt(s1, NumberIs(number), n);
    var last := |c1.holdTypes| - 1;
    assert ActiveKind(t)(c1.holdTypes[last]);
  }

  /** With at most one active entry per type, disabling the active entry of
      `t` leaves no active entry of `t`. */
  lemma ClearedIsOnlyActive(hs: seq<HoldEntry>, k: nat, t: string, user: UserId)
    requires AtMostOneActive(hs)
    requires k < |hs| && ActiveOf(hs[k], t)
    ensures !HasActive(hs[k := Disabled(hs[k], user)], t)
  {
    var hs' := hs[k := Disabled(hs[k], user)];
    forall j | 0 <= j < |hs|
      ensures !ActiveOf(hs'[j], t)
    {
      if j < k {
        assert hs'[j] == hs[j];
        assert !(hs[j].status && hs[k].status) || hs[j].kind != hs[k].kind;
      } else if j > k {
        assert hs'[j] == hs[j];
        assert !(hs[k].status && hs[j].status) || hs[k].kind != hs[j].kind;
      }
    }
  }

  /** Disabling the same type twice on the first container with its id: the
      first request succeeds, and with the invariant in place there was only
      one active entry, so the second request finds none. */
  lemma DisableTwiceRejected(store: seq<Container>, n: nat, t: string,
                             user: UserId, user': UserId)
    requires Consistent(store)
    requires n < |store| && Valid(store[n])
    requires forall m :: 0 <= m < n ==> store[m].id != store[n].id
    requires HasActive(store[n].holdTypes, t)
    ensures var r1 := Disable(store, store[n].id, Some(t), user);
            && r1.outcome.Ok?
            && Disable(r1.store, store[n].id, Some(t), user') == Reply(NoActiveHold, r1.store)
  {
    var id := store[n].id;
    var hs := store[n].holdTypes;
    var k := FirstWhere(hs, ActiveKind(t)).value;
    DisableAt(store, n, k, t, user);
    var c1 := store[n].(holdTypes := hs[k := Disabled(hs[k], user)]);
    var s1 := store[n := c1];
    assert forall m :: 0 <= m < n ==> s1[m] == store[m];
    FirstWhereAt(s1, IdIs(id), n);
    assert AtMostOneActive(hs);
    ClearedIsOnlyActive(hs, k, t, user);
    assert forall j :: 0 <= j < |c1.holdTypes| ==> !ActiveKind(t)(c1.holdTypes[j]);
  }

  /** The number of active entries of type `t`. */
  function ActiveCount(hs: seq<HoldEntry>, t: string): nat {
    if |hs| == 0 then 0
    else ActiveCount(hs[..|hs| - 1], t) + (if ActiveOf(hs[|hs| - 1], t) then 1 else 0)
  }

  lemma {:induction false} NoActiveCountsZero(hs: seq<HoldEntry>, t: string)
    requires forall k :: 0 <= k < |hs| ==> !ActiveOf(hs[k], t)
    ensures ActiveCount(hs, t) == 0
  {
    if |hs| > 0 {
      NoActiveCountsZero(hs[..|hs| - 1], t);
    }
  }

  /** Disable on the first container with its id, whose first active entry
      of `t` is at `k`: that entry is disabled in place. */
  lemma DisableAt(store: seq<Container>, n: nat, k: nat, t: string, user: UserId)
    requires n < |store| && Valid(store[n])
    requires forall m :: 0 <= m < n ==> store[m].id != store[n].id
    requires k < |store[n].holdTypes| && ActiveOf(store[n].holdTypes[k], t)
    requires forall j :: 0 <= j < k ==> !ActiveOf(store[n].holdTypes[j], t)
    ensures var hs := store[n].holdTypes;
            var c1 := store[n].(holdTypes := hs[k := Disabled(hs[k], user)]);
            Disable(store, store[n].id, Some(t), user) == Reply(Ok(c1), store[n := c1])
  {
    var hs := store[n].holdTypes;
    FirstWhereAt(store, IdIs(store[n].id), n);
    FirstWhereAt(hs, ActiveKind(t), k);
    var c1 := store[n].(holdTypes := hs[k := Disabled(hs[k], user)]);
    assert Valid(store[n]) && Valid(c1);
  }

  /** Add on the first container with its number, which is valid and has no
      active entry of `t`: the new entry is appended to it in place. */
  lemma AddAt(store: seq<Container>, n: nat, t: string, user: UserId, now: Timestamp, freshId: ContainerId)
    requires n < |store| && Valid(store[n])
    requires forall m :: 0 <= m < n ==> store[m].containerNumber != store[n].containerNumber
    requires t != "" && !HasActive(store[n].holdTypes, t)
    ensures var c := store[n].(holdTypes := store[n].holdTypes + [NewHold(t, user, now)]);
            Add(store, store[n].containerNumber, Some(t), user, now, freshId) == Reply(Ok(c), store[n := c])
  {
    FirstWhereAt(store, NumberIs(store[n].containerNumber), n);
  }

  /** Disable a hold, then add it again through the container number: the
      container keeps the disabled entry in place and gains one new active
      entry at the end, which is then the only active entry of that type. */
  lemma DisableThenAdd(store: seq<Container>, n: nat, t: string,
                       user: UserId, user': UserId, now: Timestamp, freshId: ContainerId)
    requires Consistent(store)
    requires n < |store| && Valid(store[n])
    requires forall m :: 0 <= m < n ==> store[m].id != store[n].id
    requires forall m :: 0 <= m < n ==> store[m].containerNumber != store[n].containerNumber
    requires HasActive(store[n].holdTypes, t)
    ensures var r1 := Disable(store, store[n].id, Some(t), user);
            var r2 := Add(r1.store, store[n].containerNumber, Some(t), user', now, freshId);
            && r1.outcome.Ok? && r2.outcome.Ok?
            && var hs := store[n].holdTypes;
               var hs2 := r2.outcome.container.holdTypes;
               && |hs2| == |hs| + 1
               && hs2[|hs|] == NewHold(t, user', now)
               && (exists k :: 0 <= k < |hs| && ActiveOf(hs[k], t)
                               && hs2[k].kind == t && !hs2[k].status && hs2[k].updatedBy == Some(user))
               && ActiveCount(hs2, t) == 1
  {
    var number := store[n].containerNumber;
    var hs := store[n].holdTypes;
    var k := FirstWhere(hs, ActiveKind(t)).value;
    var hs1 := hs[k := Disabled(hs[k], user)];
    var c1 := store[n].(holdTypes := hs1);
    var s1 := store[n := c1];
    DisableAt(store, n, k, t, user);
    assert AtMostOneActive(hs);
    ClearedIsOnlyActive(hs, k, t, user);
    assert Valid(c1) && RequiredString(hs[k].kind);
    assert forall m :: 0 <= m < n ==> s1[m] == store[m];
    AddAt(s1, n, t, user', now, freshId);
    var hs2 := hs1 + [NewHold(t, user', now)];
    assert hs2[..|hs2| - 1] == hs1;
    assert forall j :: 0 <= j < |hs1| ==> !ActiveOf(hs1[j], t);
    NoActiveCountsZero(hs1, t);
    assert ActiveOf(hs[k], t) && hs2[k].kind == t && !hs2[k].status && hs2[k].updatedBy == Some(user);
  }

  /** CUSTOMS added to CONT1 on an empty store. */
  lemma AddToEmptyStore(user: UserId, now: Timestamp, freshId: ContainerId)
    ensures var c := Container(freshId, "CONT1", [HoldEntry("CUSTOMS", true, now, Some(user), None)]);
            Add([], "CONT1", Some("CUSTOMS"), user, now, freshId) == Reply(Ok(c), [c])
  {
  }
}
