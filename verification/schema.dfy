/** The document shapes of the container store (models/containers.js): a
    container with a required number and an ordered list of hold entries. */
module Schema {

  datatype Option<+T> = None | Some(value: T)

  /** Opaque database identifiers and instants; only equality is used. */
  type UserId = int
  type ContainerId = int
  type Timestamp = int

  /** One element of `holdTypes`. The JavaScript field `type` is `kind` here.
      `updatedBy` is None until the entry is disabled. The schema declares no
      `dateUpdated` path, so there is no such field. */
  datatype HoldEntry = HoldEntry(
    kind: string,
    status: bool,
    dateAdded: Timestamp,
    addedBy: Option<UserId>,
    updatedBy: Option<UserId>)

  /** A container document; `id` is its `_id`. The `createdAt`/`updatedAt`
      timestamps maintained by the store are not modelled. */
  datatype Container = Container(
    id: ContainerId,
    containerNumber: string,
    holdTypes: seq<HoldEntry>)

  /** Builds an entry the way the schema does when a document is created:
      a missing `status` becomes true and a missing `dateAdded` becomes `now`. */
  function MakeEntry(kind: string, status: Option<bool>, dateAdded: Option<Timestamp>,
                     addedBy: Option<UserId>, updatedBy: Option<UserId>, now: Timestamp): (e: HoldEntry)
    ensures e.kind == kind && e.addedBy == addedBy && e.updatedBy == updatedBy
    ensures status.None? ==> e.status
    ensures status.Some? ==> e.status == status.value
    ensures dateAdded.None? ==> e.dateAdded == now
    ensures dateAdded.Some? ==> e.dateAdded == dateAdded.value
  {
    HoldEntry(kind,
              match status case None => true case Some(b) => b,
              match dateAdded case None => now case Some(d) => d,
              addedBy, updatedBy)
  }

  /** A `required: true` String path rejects a missing value and the empty string. */
  predicate RequiredString(s: string) {
    s != ""
  }

  /** What the schema validator accepts: a container number, and a type on every entry. */
  predicate Valid(c: Container) {
    && RequiredString(c.containerNumber)
    && forall k :: 0 <= k < |c.holdTypes| ==> RequiredString(c.holdTypes[k].kind)
  }

  /** An entry that currently holds the container under hold type `t`. */
  predicate ActiveOf(e: HoldEntry, t: string) {
    e.kind == t && e.status
  }

  predicate HasActive(hs: seq<HoldEntry>, t: string) {
    exists k :: 0 <= k < |hs| && ActiveOf(hs[k], t)
  }

  /** The store invariant: for each hold type at most one entry is active. */
  predicate AtMostOneActive(hs: seq<HoldEntry>) {
    forall i, j :: 0 <= i < j < |hs| && hs[i].status && hs[j].status ==> hs[i].kind != hs[j].kind
  }

  /** `updatedBy` is only ever written when an entry is disabled. */
  predicate ActiveUnstamped(hs: seq<HoldEntry>) {
    forall k :: 0 <= k < |hs| && hs[k].status ==> hs[k].updatedBy.None?
  }

  /** The invariant the two mutating handlers keep on every stored container. */
  predicate Consistent(store: seq<Container>) {
    forall n :: 0 <= n < |store| ==> AtMostOneActive(store[n].holdTypes) && ActiveUnstamped(store[n].holdTypes)
  }

  /** `_id` is unique within the collection. */
  predicate UniqueIds(store: seq<Container>) {
    forall i, j :: 0 <= i < j < |store| ==> store[i].id != store[j].id
  }

  predicate AllValid(store: seq<Container>) {
    forall n :: 0 <= n < |store| ==> Valid(store[n])
  }

  /** The index of the first element satisfying `p`, as `findOne` (natural
      order), `Array.prototype.find` and `findIndex` return it. */
  function FirstWhere<T>(s: seq<T>, p: T -> bool): (r: Option<nat>)
    ensures r.Some? ==> r.value < |s| && p(s[r.value])
    ensures r.Some? ==> forall k :: 0 <= k < r.value ==> !p(s[k])
    ensures r.None? ==> forall k :: 0 <= k < |s| ==> !p(s[k])
  {
    if |s| == 0 then None
    else if p(s[0]) then Some(0)
    else match FirstWhere(s[1..], p)
      case None => None
      case Some(k) => Some(k + 1)
  }

  /** The first match is at `n` when `n` matches and nothing before it does. */
  lemma FirstWhereAt<T>(s: seq<T>, p: T -> bool, n: nat)
    requires n < |s| && p(s[n])
    requires forall m :: 0 <= m < n ==> !p(s[m])
    ensures FirstWhere(s, p) == Some(n)
  {
  }
}
