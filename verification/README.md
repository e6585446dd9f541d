# Container holds: a Dafny model

This project models the business logic of a small container-hold REST API.
A **container** is a document with a `containerNumber` and an ordered list of
**hold entries**. Each entry has a hold `type` label, a `status` (true means the
hold is active), `dateAdded`, `addedBy` and an optional `updatedBy`. Three
handlers in `routes/containerRoutes.js` work over the container collection:

- **add-holdtype** (`PUT /:id/add-holdtype`, where `:id` is a container
  *number*) creates the container if no container has that number. It refuses
  the request when an active entry of the type already exists. Otherwise it
  appends a new active entry. This refusal works only for a string `holdType`
  without unpaired surrogates; see "## Left out" for numbers, booleans and
  such strings.
- **disable-holdtype** (`PUT /:id/disable-holdtype`, where `:id` is the
  container *id*) clears the status of the first active entry of the type and
  records the caller in `updatedBy`.
- **list** (`GET /`) filters by `status=true` or `status=false`. When both
  `page` and `pageSize` are given, it returns one page together with `total`,
  `currentPage` and `totalPages`.

The store is a `seq<Container>`. Every lookup returns the first match in
store order, as `findOne` does. Container numbers are not unique. A new
container is appended at the end. Each handler is a pure function from the
store and the request to a reply and the store afterwards. The calling user,
"now" and the id the database would give a new document are plain parameters.

Modules:

- `Schema` (`schema.dfy`) holds the document shapes of `models/containers.js`.
  It defines the schema defaults and the validator's required strings; a
  `required` String rejects the empty string. It also defines the store
  invariants, the first-match lookup `FirstWhere` and its converse `FirstWhereAt`.
- `HoldTypes` (`hold_types.dfy`) holds the add and disable handlers, and
  `Save`, which validates the document and then inserts or replaces it.
- `HoldTypeLaws` (`hold_type_laws.dfy`) proves invariant preservation and how
  repeated and combined requests behave.
- `Listing` (`listing.dfy`) holds the status filter and `parseInt(s, 10)`
  with its `|| default` fallback. It also holds the skip/limit window,
  `Math.ceil` for the page count, and the list handler itself.
- `ListingLaws` (`listing_laws.dfy`) proves that the status filters partition
  the store and that `parseInt` reads decimal text back. It also proves that
  pages 1..totalPages, put together, give the unpaged listing.

Points where the handlers behave in ways that are easy to miss:

- The disable handler assigns `dateUpdated` (`routes/containerRoutes.js:168`),
  but the schema does not declare it (`models/containers.js:6-14`). Under the
  schema's default strict mode the value is neither saved nor returned, so the
  model has no such field and Disable takes no timestamp.
- parseInt giving NaN or 0 (also "-0") falls back to 1 for the page and 10
  for the page size. Negative values are kept, and the leading digits of text
  such as "3abc" are read as 3.
- `ServerError` stands only for the validator refusing the document at save
  time, which the handlers' catch blocks answer with 500.
  `AddKeepsStoreValid` and `DisableKeepsStoreValid` show that it cannot happen
  on a store that already validates.

The store's own behaviour on the query `.skip(n).limit(m)` is taken as follows.
A negative skip is refused, and the model answers `StoreRejected`. A negative
limit is read as its absolute value.

## Model

| member | source | states |
|---|---|---|
| Schema.MakeEntry | models/containers.js:7-13 | A new entry keeps its type and users; a missing status becomes true and a missing dateAdded becomes the current time; the add handler's entries (status true, dateAdded now, addedBy the caller) are built through it |
| Schema.FirstWhere | routes/containerRoutes.js:76-78 | The lookup answers the first element that matches, with no match before it, and answers none only when nothing matches |
| HoldTypes.Save | routes/containerRoutes.js:130-131 | Saving succeeds exactly when the document has a non-empty number and every entry a non-empty type; a new document is appended and an existing one replaced in its slot; a refused save leaves the store unchanged |
| HoldTypes.Add | routes/containerRoutes.js:68-138 | A missing or empty type is refused with InvalidInput, and only then; an unknown number gives a new container holding just the new active entry; an active entry of the type in the first container with that number gives DuplicateActiveHold; otherwise the new entry is appended to that container and the rest of the store stays as it was, whether or not a disabled entry of the type exists; every refusal leaves the store unchanged |
| HoldTypes.Disable | routes/containerRoutes.js:140-178 | InvalidInput exactly for a missing type; NotFound exactly when no container has the id; NoActiveHold exactly when the first container with the id has no active entry of the type; on success only the first active entry of the type changes (status false, updatedBy the caller), in place, and every other entry and container stays the same |
| HoldTypeLaws.AppendKeepsInvariant | routes/containerRoutes.js:106-127 | Appending an active entry of a type with no active entry keeps at most one active entry per type, and keeps active entries without updatedBy |
| HoldTypeLaws.DisableKeepsInvariant | routes/containerRoutes.js:165-167 | Clearing one entry's status keeps both per-container invariants |
| HoldTypeLaws.AddPreservesConsistency | routes/containerRoutes.js:95-127 | After any Add, every container still has at most one active entry per type, and no active entry has updatedBy |
| HoldTypeLaws.DisablePreservesConsistency | routes/containerRoutes.js:154-171 | After any Disable, both invariants still hold on every container |
| HoldTypeLaws.AddKeepsStoreValid | models/containers.js:5-8 | On a store that validates, Add with a non-empty container number never fails at save time, and the store still validates |
| HoldTypeLaws.DisableKeepsStoreValid | routes/containerRoutes.js:165-171 | On a store that validates, Disable never fails at save time, and the store still validates |
| HoldTypeLaws.AddTwiceRejected | routes/containerRoutes.js:95-104 | A second Add of the same type to the same number, after one that succeeded, is refused with DuplicateActiveHold and changes nothing |
| HoldTypeLaws.ClearedIsOnlyActive | routes/containerRoutes.js:155-166 | With at most one active entry per type, disabling the active entry of a type leaves no active entry of that type |
| HoldTypeLaws.DisableTwiceRejected | routes/containerRoutes.js:148-171 | On a consistent store, Disable of a type that is active in the first valid container with the id succeeds, and a second Disable of the same type on the same id is refused with NoActiveHold and changes nothing |
| HoldTypeLaws.DisableAt | routes/containerRoutes.js:148-173 | On the first container with the id, whose first active entry of the type is at k, Disable succeeds, and the store and reply hold that container with entry k disabled |
| HoldTypeLaws.AddAt | routes/containerRoutes.js:76-131 | On the first valid container with the number and no active entry of the type, Add succeeds, and the store and reply hold that container with the new active entry appended |
| HoldTypeLaws.DisableThenAdd | routes/containerRoutes.js:106-127 | Disable followed by Add of the same type: the old entry stays disabled in place, one new active entry is appended, and it is the only active entry of the type |
| HoldTypeLaws.AddKeepsIdsUnique | routes/containerRoutes.js:81-93 | When the id given to a created container is not in use, Add keeps every container id distinct |
| HoldTypeLaws.DisableKeepsIdsUnique | routes/containerRoutes.js:165-171 | Disable keeps every container id distinct |
| HoldTypeLaws.UniqueIdFound | routes/containerRoutes.js:148 | With distinct ids, the lookup by id finds exactly the container that has the id |
| HoldTypeLaws.AddToEmptyStore | routes/containerRoutes.js:81-93 | Adding CUSTOMS to CONT1 on an empty store gives one container CONT1 with one active CUSTOMS entry added by the caller |
| Listing.ParseStatus | routes/containerRoutes.js:14-23 | Only the exact strings "true" and "false" choose the active and inactive filters; any other value or none means no filter |
| Listing.Select | routes/containerRoutes.js:48-50 | The listing is no longer than the store, every listed container is in the store and matches the filter, and every matching container is listed |
| Listing.TrimStart | routes/containerRoutes.js:27-28 | What remains is a suffix of the text, everything dropped is JavaScript white space, and what remains does not start with white space |
| Listing.Unsigned | routes/containerRoutes.js:27-28 | parseInt drops exactly one leading minus or plus sign and nothing else |
| Listing.DigitRun | routes/containerRoutes.js:27-28 | parseInt's digit run is the longest prefix made only of decimal digits: every character in it is a digit, and the next character, if any, is not |
| Listing.ParseSigned | routes/containerRoutes.js:27-28 | On text with no leading white space, parseInt answers NaN exactly when no digit follows one optional sign, and answers a negative value only after a leading minus |
| Listing.ParseInt | routes/containerRoutes.js:27-28 | parseInt is ParseSigned applied after TrimStart: it answers NaN exactly when, after leading white space and one optional sign, no digit follows; a negative result comes only from text whose first non-space character is a minus sign |
| Listing.PageParam | routes/containerRoutes.js:27-28 | A page parameter is the parsed integer, except that NaN and 0 become the fallback; with a non-zero fallback it is never 0 |
| Listing.CeilDiv | routes/containerRoutes.js:43 | totalPages is the ceiling of total divided by the page size, for either sign of the page size |
| Listing.Window | routes/containerRoutes.js:30-32 | The page is at most `count` consecutive containers starting at the skip, as many as remain, and empty past the end |
| Listing.Page | routes/containerRoutes.js:26-44 | With a negative skip the store refuses; otherwise the reply holds the consecutive containers from (page-1)*size, the selection size as total, the page number, and the rounded-up page count |
| Listing.List | routes/containerRoutes.js:7-56 | Without both page and pageSize the reply is the whole filtered selection; with both it is the page of that selection for the parsed (fallback-adjusted) values, and the page number is never 0 |
| ListingLaws.SelectAppend | routes/containerRoutes.js:48-50 | Filtering commutes with concatenation, so the listing keeps store order |
| ListingLaws.SelectAnyIsStore | routes/containerRoutes.js:11-23 | With no status filter the whole store is listed in order |
| ListingLaws.StatusFiltersDisjoint | routes/containerRoutes.js:14-23 | No container listed for "false" is listed for "true", and none listed for "false" has an empty hold list |
| ListingLaws.StatusPartition | routes/containerRoutes.js:14-23 | Every container falls in exactly one of: listed for "true", listed for "false", or has no hold entries |
| ListingLaws.DecimalValue | routes/containerRoutes.js:27-28 | The digit value of a number's decimal text is the number itself |
| ListingLaws.DigitRunOfDigits | routes/containerRoutes.js:27-28 | parseInt's digit run over digits followed by a non-digit stops exactly at the non-digit |
| ListingLaws.ParseDigitsFirst | routes/containerRoutes.js:27-28 | Text that starts with digits parses to the value of its leading digit run |
| ListingLaws.ParseDecimal | routes/containerRoutes.js:27-28 | parseInt reads back the decimal text of a number, whatever non-digit text follows |
| ListingLaws.ParseNegativeDecimal | routes/containerRoutes.js:27-28 | A leading minus sign gives the negated value, so a negative page number survives the fallback |
| ListingLaws.ParsePlusDecimal | routes/containerRoutes.js:27-28 | A leading plus sign is dropped, and the value read is the number itself |
| ListingLaws.TrimSpace | routes/containerRoutes.js:27-28 | Leading JavaScript white space is dropped before parsing |
| ListingLaws.ParseSkipsSpace | routes/containerRoutes.js:27-28 | Leading white space does not change what parseInt returns |
| ListingLaws.PageParamDecimal | routes/containerRoutes.js:27-28 | A positive page or size in decimal is used as given, and "0" gives the fallback |
| ListingLaws.PrefixThenWindow | routes/containerRoutes.js:30-32 | The skip/limit window from lo to hi continues the prefix that ends at lo, so the two together are the prefix that ends at hi |
| ListingLaws.PagesArePrefix | routes/containerRoutes.js:30-32 | Pages 1..n of size L, put together, are the first min(n*L, total) containers of the selection |
| ListingLaws.CeilingBounds | routes/containerRoutes.js:43 | For a positive page size the page count is non-negative, and count times size covers the total |
| ListingLaws.AllPagesCoverSelection | routes/containerRoutes.js:30-43 | Pages 1..totalPages, put together, are exactly the selection |
| ListingLaws.PagesBeyondLastAreEmpty | routes/containerRoutes.js:30-43 | Any page after totalPages is empty |
| ListingLaws.PageIsWindow | routes/containerRoutes.js:30-44 | A positive page of a positive size is the window at (page-1)*size, with the selection size and the rounded-up page count |
| ListingLaws.ListPage | routes/containerRoutes.js:26-44 | GET with positive decimal page p and size L answers window p of the filtered selection, with its total, p and the page count |
| ListingLaws.ListedPagesStep | routes/containerRoutes.js:26-44 | The handler's answers for pages 1..n are its answers for pages 1..n-1 followed by window n of the selection |
| ListingLaws.ListedPagesArePages | routes/containerRoutes.js:26-44 | The handler's answers for pages 1..n, put together, are pages 1..n of the selection |
| ListingLaws.PagingReassemblesListing | routes/containerRoutes.js:26-51 | Walking pages 1..totalPages of the paged listing gives exactly the unpaged listing, in the same order |

## Left out

- Authentication: `middlewares/auth.js` and the login in `routes/authRoutes.js`. They are wrappers around JSON Web Token signing and verification and around bcrypt. The model assumes the caller is already authenticated and passes the user id in.
- `server.js` and `seeder.js`: these are server wiring, database connection and user seeding.
- DELETE `/:id` (`routes/containerRoutes.js:59-66`): a single store call that reports success whether or not anything was deleted.
- `.populate` of `addedBy`/`updatedBy` with user records without passwords: this is a join done by the store. The model returns user ids.
- The `createdAt`/`updatedAt` timestamps kept by the store, the `_id` Mongoose gives each `holdTypes` element and the `__v` version key of a container, all of which appear in the Add and Disable replies; and the current time, which is a parameter.
- `dateUpdated` on disable is not stored, because the schema does not declare it (see above).
- The 500 answers for store failures, for a container id that is not a valid ObjectId, and for the store rejecting a query. The only ones modelled are the validator's refusal (`ServerError`) and a negative skip (`StoreRejected`).
- Races between concurrent Add and Disable requests on one container: each handler is modelled as one atomic step.
- Request values of other JSON types: `holdType` is a string or missing, and each query value is a string or missing. Numbers, booleans, objects and repeated query parameters (arrays) are not modelled. On these inputs the program does not keep the invariant the model proves. A body `{"holdType": 5}` passes `!holdType` (`routes/containerRoutes.js:71`), and the schema casts the pushed `type` to the string "5" (`models/containers.js:8`). The guard `ht.type === holdType` (`routes/containerRoutes.js:96-98`) then compares "5" with 5 and never matches, so a second such Add appends another active "5" entry. Disable (`routes/containerRoutes.js:155-157`) likewise answers NoActiveHold while a "5" entry is active. `true` behaves the same way. A string is modelled as a sequence of Unicode scalar values, so a JSON string holding an unpaired surrogate escape, such as `{"holdType": "\ud800"}`, is not modelled either. It passes `!holdType`, but it is written to the store as UTF-8, with U+FFFD in place of the lone surrogate. The reloaded `type` is then "\ufffd", the `===` guards at `routes/containerRoutes.js:96-98` and `155-157` never match "\ud800" again, and the same break follows: a second Add appends another active entry, and Disable answers NoActiveHold. AddPreservesConsistency, AddTwiceRejected, DisableTwiceRejected and Disable's NoActiveHold rule therefore hold only for string `holdType` values without unpaired surrogates.
- Floating point: `parseInt` results above 2^53, `Infinity`, and page arithmetic in doubles are modelled as exact integers.
- The id of a new container is a parameter, because the database's id generation is not modelled. Add does not require it to be unused; `AddKeepsIdsUnique` shows that ids stay distinct when it is.
- Listing.PageParam: its contract states the fallback rule but does not characterise `parseInt` itself. The ListingLaws round-trip lemmas (`ParseDecimal`, `ParseNegativeDecimal`, `ParseSkipsSpace`) do that.
