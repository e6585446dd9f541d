/** GET / (routes/containerRoutes.js): the status filter over the store and
    the optional page window with its page count. */
module Listing {
  import opened Schema

  /** The three store queries the handler can build from `status`. */
  datatype StatusFilter = AnyStatus | ActiveOnly | InactiveOnly

  /** Only the exact strings "true" and "false" select a filter. */
  function ParseStatus(status: Option<string>): (f: StatusFilter)
    ensures f == ActiveOnly <==> status == Some("true")
    ensures f == InactiveOnly <==> status == Some("false")
  {
    match status
    case Some(s) => if s == "true" then ActiveOnly else if s == "false" then InactiveOnly else AnyStatus
    case None => AnyStatus
  }

  /** `$elemMatch: {status: true}` */
  predicate SomeActive(c: Container) {
    exists k :: 0 <= k < |c.holdTypes| && c.holdTypes[k].status
  }

  predicate Matches(f: StatusFilter, c: Container) {
    match f
    case AnyStatus => true
    case ActiveOnly => SomeActive(c)
    // a non-empty list and no element with status true
    case InactiveOnly => |c.holdTypes| > 0 && !SomeActive(c)
  }

  /** The containers the query selects, in store order. */
  function Select(store: seq<Container>, f: StatusFilter): (r: seq<Container>)
    ensures |r| <= |store|
    ensures forall i :: 0 <= i < |r| ==> Matches(f, r[i]) && r[i] in store
    ensures forall n :: 0 <= n < |store| && Matches(f, store[n]) ==> store[n] in r
  {
    if |store| == 0 then []
    else (if Matches(f, store[0]) then [store[0]] else []) + Select(store[1..], f)
  }

  // ---------------------------------------------------------------------------
  // parseInt(s, 10)

  /** StrWhiteSpaceChar of ECMAScript: white space and line terminators. */
  predicate IsJsSpace(ch: char) {
    var u := ch as int;
    u == 9 || u == 10 || u == 11 || u == 12 || u == 13 || u == 32 || u == 0xA0
    || u == 0x1680 || (0x2000 <= u <= 0x200A) || u == 0x2028 || u == 0x2029
    || u == 0x202F || u == 0x205F || u == 0x3000 || u == 0xFEFF
  }

  predicate IsDigit(ch: char) {
    '0' <= ch <= '9'
  }

  predicate AllDigits(d: string) {
    forall i :: 0 <= i < |d| ==> IsDigit(d[i])
  }

  /** Drops the leading white space. */
  function TrimStart(s: string): (r: string)
    ensures |r| <= |s| && r == s[|s| - |r|..]
    ensures forall i :: 0 <= i < |s| - |r| ==> IsJsSpace(s[i])
    ensures r == [] || !IsJsSpace(r[0])
  {
    if |s| > 0 && IsJsSpace(s[0]) then TrimStart(s[1..]) else s
  }

  /** The length of the longest prefix made of decimal digits. */
  function DigitRun(s: string): (n: nat)
    ensures n <= |s| && AllDigits(s[..n])
    ensures n == |s| || !IsDigit(s[n])
  {
    if |s| > 0 && IsDigit(s[0]) then
      var m := DigitRun(s[1..]);
      assert s[..m + 1] == [s[0]] + s[1..][..m];
      m + 1
    else 0
  }

  /** The value of a string of decimal digits, most significant first. */
  function DigitsValue(d: string): nat
    requires AllDigits(d)
  {
    if |d| == 0 then 0 else DigitsValue(d[..|d| - 1]) * 10 + (d[|d| - 1] as int - '0' as int)
  }

  /** The text after one optional leading sign. */
  function Unsigned(u: string): (rest: string)
    ensures |u| > 0 && (u[0] == '-' || u[0] == '+') ==> rest == u[1..]
    ensures !(|u| > 0 && (u[0] == '-' || u[0] == '+')) ==> rest == u
  {
    if |u| > 0 && (u[0] == '-' || u[0] == '+') then u[1..] else u
  }

  /** parseInt with radix 10: white space, an optional sign, then the longest
      run of digits; None stands for NaN (no digit after the sign). */
  function ParseInt(s: string): (r: Option<int>)
    ensures r.None? <==> Unsigned(TrimStart(s)) == [] || !IsDigit(Unsigned(TrimStart(s))[0])
    ensures r.Some? && r.value < 0 ==> |TrimStart(s)| > 0 && TrimStart(s)[0] == '-'
  {
    ParseSigned(TrimStart(s))
  }

  /** parseInt after the leading white space is gone. */
  function ParseSigned(u: string): (r: Option<int>)
    ensures r.None? <==> Unsigned(u) == [] || !IsDigit(Unsigned(u)[0])
    ensures r.Some? && r.value < 0 ==> |u| > 0 && u[0] == '-'
  {
    var negative := |u| > 0 && u[0] == '-';
    var rest := Unsigned(u);
    var n := DigitRun(rest);
    if n == 0 then None
    else
      var v: int := DigitsValue(rest[..n]);
      Some(if negative then -v else v)
  }

  /** `parseInt(raw, 10) || fallback`: NaN and zero (also "-0") are falsy. */
  function PageParam(raw: string, fallback: int): (v: int)
    ensures ParseInt(raw).None? ==> v == fallback
    ensures ParseInt(raw) == Some(0) ==> v == fallback
    ensures ParseInt(raw).Some? && ParseInt(raw) != Some(0) ==> v == ParseInt(raw).value
    ensures fallback != 0 ==> v != 0
  {
    match ParseInt(raw)
    case None => fallback
    case Some(p) => if p == 0 then fallback else p
  }

  // ---------------------------------------------------------------------------
  // Paging

  /** A query-string value is truthy when it is present and not empty. */
  predicate Truthy(v: Option<string>) {
    v.Some? && v.value != ""
  }

  function Min(a: int, b: int): int {
    if a <= b then a else b
  }

  function Abs(x: int): nat {
    if x < 0 then -x else x
  }

  /** `q` is the ceiling of the exact quotient `total / limit`:
      q - 1 < total / limit <= q, multiplied out by the signed `limit`. */
  predicate IsCeiling(q: int, total: nat, limit: int) {
    && (limit > 0 ==> (q - 1) * limit < total <= q * limit)
    && (limit < 0 ==> q * limit <= total < (q - 1) * limit)
  }

  /** `Math.ceil(total / limit)`. */
  function CeilDiv(total: nat, limit: int): (q: int)
    requires limit != 0
    ensures IsCeiling(q, total, limit)
  {
    if limit > 0 then
      var a := total + limit - 1;
      assert a == (a / limit) * limit + a % limit;
      a / limit
    else
      var l := -limit;
      assert total == (total / l) * l + total % l;
      -(total / l)
  }

  /** What `.skip(skip).limit(count)` returns from the selected containers. */
  function Window(items: seq<Container>, skip: nat, count: nat): (w: seq<Container>)
    ensures |w| <= count
    ensures skip >= |items| ==> w == []
    ensures skip < |items| ==> |w| == if skip + count <= |items| then count else |items| - skip
    ensures forall i :: 0 <= i < |w| ==> skip + i < |items| && w[i] == items[skip + i]
  {
    if skip >= |items| then []
    else if skip + count <= |items| then items[skip..skip + count]
    else items[skip..]
  }

  /** `.skip((pageNum - 1) * pageLimit)`: the containers on earlier pages. */
  function Skip(pageNum: int, pageLimit: int): int {
    (pageNum - 1) * pageLimit
  }

  /** The handler's answer: the bare list, or one page with its counters, or
      the store refusing a negative skip. */
  datatype ListReply =
    | Everything(containers: seq<Container>)
    | Paged(containers: seq<Container>, total: nat, currentPage: int, totalPages: int)
    | StoreRejected

  /** What the paged branch answers for page `pageNum` of size `pageLimit`:
      the store refuses a negative skip; otherwise at most |pageLimit|
      containers taken consecutively from `selected` at the skip, the size of
      the whole selection, the page number and the rounded-up page count. */
  predicate IsPageAnswer(r: ListReply, selected: seq<Container>, pageNum: int, pageLimit: int) {
    if Skip(pageNum, pageLimit) < 0 then r == StoreRejected
    else
      && r.Paged?
      && r.total == |selected|
      && r.currentPage == pageNum
      && |r.containers| == (if Skip(pageNum, pageLimit) >= |selected| then 0
                            else Min(Abs(pageLimit), |selected| - Skip(pageNum, pageLimit)))
      && (forall i :: 0 <= i < |r.containers| ==>
            Skip(pageNum, pageLimit) + i < |selected|
            && r.containers[i] == selected[Skip(pageNum, pageLimit) + i])
      && IsCeiling(r.totalPages, r.total, pageLimit)
  }

  function Page(selected: seq<Container>, pageNum: int, pageLimit: int): (r: ListReply)
    requires pageLimit != 0
    ensures IsPageAnswer(r, selected, pageNum, pageLimit)
  {
    var skip := Skip(pageNum, pageLimit);
    if skip < 0 then StoreRejected
    else Paged(Window(selected, skip, Abs(pageLimit)), |selected|, pageNum, CeilDiv(|selected|, pageLimit))
  }

  /** GET /?status=&page=&pageSize= */
  function List(store: seq<Container>, status: Option<string>, page: Option<string>,
                pageSize: Option<string>): (r: ListReply)
    ensures !(Truthy(page) && Truthy(pageSize)) ==>
              r == Everything(Select(store, ParseStatus(status)))
    ensures Truthy(page) && Truthy(pageSize) ==>
              && PageParam(page.value, 1) != 0
              && IsPageAnswer(r, Select(store, ParseStatus(status)),
                              PageParam(page.value, 1), PageParam(pageSize.value, 10))
  {
    var selected := Select(store, ParseStatus(status));
    if !(Truthy(page) && Truthy(pageSize)) then Everything(selected)
    else Page(selected, PageParam(page.value, 1), PageParam(pageSize.value, 10))
  }
}
