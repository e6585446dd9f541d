/** Properties of the container listing: how the status filters split the
    store, how parseInt reads page numbers, and how the pages fit together. */
module ListingLaws {
  import opened Schema
  import opened Listing

  // ---------------------------------------------------------------------------
  // Status filters

  /** Filtering distributes over concatenation, so the selection keeps the
      store's order. */
  lemma {:induction false} SelectAppend(a: seq<Container>, b: seq<Container>, f: StatusFilter)
    ensures Select(a + b, f) == Select(a, f) + Select(b, f)
  {
    if |a| == 0 {
      assert a + b == b;
    } else {
      assert (a + b)[0] == a[0];
      assert (a + b)[1..] == a[1..] + b;
      SelectAppend(a[1..], b, f);
    }
  }

  /** Without a status filter the whole store is listed, in order. */
  lemma {:induction false} SelectAnyIsStore(store: seq<Container>)
    ensures Select(store, AnyStatus) == store
  {
    if |store| > 0 {
      SelectAnyIsStore(store[1..]);
      assert Select(store, AnyStatus) == [store[0]] + Select(store[1..], AnyStatus);
      assert store == [store[0]] + store[1..];
    }
  }

  /** "true" and "false" select disjoint sets, and "false" never returns a
      container with an empty hold list. */
  lemma StatusFiltersDisjoint(store: seq<Container>)
    ensures forall i :: 0 <= i < |Select(store, InactiveOnly)| ==>
              Select(store, InactiveOnly)[i] !in Select(store, ActiveOnly)
    ensures forall i :: 0 <= i < |Select(store, InactiveOnly)| ==>
              |Select(store, InactiveOnly)[i].holdTypes| > 0
  {
  }

  /** The number of containers with an empty hold list. */
  function EmptyCount(store: seq<Container>): nat {
    if |store| == 0 then 0 else (if |store[0].holdTypes| == 0 then 1 else 0) + EmptyCount(store[1..])
  }

  /** Every container is listed under exactly one of "true", "false", or has
      no hold entries at all. */
  lemma {:induction false} StatusPartition(store: seq<Container>)
    ensures |Select(store, ActiveOnly)| + |Select(store, InactiveOnly)| + EmptyCount(store) == |store|
  {
    if |store| > 0 {
      StatusPartition(store[1..]);
      var c := store[0];
      if |c.holdTypes| == 0 {
        assert !SomeActive(c);
      }
    }
  }

  // ---------------------------------------------------------------------------
  // parseInt

  function DigitChar(d: nat): (ch: char)
    requires d < 10
    ensures IsDigit(ch) && ch as int - '0' as int == d
  {
    ('0' as int + d) as char
  }

  /** The decimal rendering of a natural number, as a client would send it. */
  function Decimal(n: nat): (s: string)
    ensures |s| > 0 && AllDigits(s)
    decreases n
  {
    if n < 10 then [DigitChar(n)] else Decimal(n / 10) + [DigitChar(n % 10)]
  }

  lemma {:induction false} DecimalValue(n: nat)
    ensures DigitsValue(Decimal(n)) == n
    decreases n
  {
    var d := Decimal(n);
    if n >= 10 {
      DecimalValue(n / 10);
      assert d[..|d| - 1] == Decimal(n / 10);
    }
  }

  lemma {:induction false} DigitRunOfDigits(d: string, rest: string)
    requires AllDigits(d)
    requires rest == [] || !IsDigit(rest[0])
    ensures DigitRun(d + rest) == |d|
  {
    if |d| > 0 {
      assert (d + rest)[1..] == d[1..] + rest;
      DigitRunOfDigits(d[1..], rest);
    } else {
      assert d + rest == rest;
    }
  }

  /** parseInt on text that starts with a digit: the value of the leading
      digit run. */
  lemma ParseDigitsFirst(d: string, rest: string)
    requires |d| > 0 && AllDigits(d)
    requires rest == [] || !IsDigit(rest[0])
    ensures ParseInt(d + rest) == Some(DigitsValue(d) as int)
  {
    var s := d + rest;
    assert s[0] == d[0];
    assert !IsJsSpace(s[0]) && s[0] != '-' && s[0] != '+';
    assert TrimStart(s) == s;
    assert Unsigned(s) == s;
    DigitRunOfDigits(d, rest);
    assert s[..|d|] == d;
    assert ParseSigned(s) == Some(DigitsValue(d) as int);
  }

  /** parseInt reads a decimal rendering back, whatever non-digit text follows. */
  lemma ParseDecimal(n: nat, rest: string)
    requires rest == [] || !IsDigit(rest[0])
    ensures ParseInt(Decimal(n) + rest) == Some(n)
  {
    ParseDigitsFirst(Decimal(n), rest);
    DecimalValue(n);
  }

  /** A leading minus sign negates the value read. */
  lemma ParseNegativeDecimal(n: nat, rest: string)
    requires rest == [] || !IsDigit(rest[0])
    ensures ParseInt("-" + Decimal(n) + rest) == Some(-(n as int))
  {
    var d := Decimal(n);
    var s := "-" + d + rest;
    assert s[0] == '-' && !IsJsSpace(s[0]);
    assert TrimStart(s) == s;
    assert Unsigned(s) == d + rest;
    DigitRunOfDigits(d, rest);
    assert (d + rest)[..|d|] == d;
    DecimalValue(n);
    assert ParseSigned(s) == Some(-(n as int));
  }

  /** A leading plus sign is dropped and the value read is unchanged. */
  lemma ParsePlusDecimal(n: nat, rest: string)
    requires rest == [] || !IsDigit(rest[0])
    ensures ParseInt("+" + Decimal(n) + rest) == Some(n)
  {
    var d := Decimal(n);
    var s := "+" + d + rest;
    assert s[0] == '+' && !IsJsSpace(s[0]);
    assert TrimStart(s) == s;
    assert Unsigned(s) == d + rest;
    DigitRunOfDigits(d, rest);
    assert (d + rest)[..|d|] == d;
    DecimalValue(n);
    assert ParseSigned(s) == Some(n);
  }

  /** Leading white space is skipped. */
  lemma {:induction false} ParseSkipsSpace(ws: string, s: string)
    requires forall i :: 0 <= i < |ws| ==> IsJsSpace(ws[i])
    ensures ParseInt(ws + s) == ParseInt(s)
  {
    TrimSpace(ws, s);
  }

  lemma {:induction false} TrimSpace(ws: string, s: string)
    requires forall i :: 0 <= i < |ws| ==> IsJsSpace(ws[i])
    ensures TrimStart(ws + s) == TrimStart(s)
  {
    if |ws| > 0 {
      assert (ws + s)[0] == ws[0];
      assert (ws + s)[1..] == ws[1..] + s;
      TrimSpace(ws[1..], s);
    } else {
      assert ws + s == s;
    }
  }

  /** A positive page number or size sent in decimal is taken as it is; the
      fallback only replaces NaN and zero. */
  lemma PageParamDecimal(n: nat, fallback: int)
    requires n > 0
    ensures PageParam(Decimal(n), fallback) == n
    ensures PageParam(Decimal(0), fallback) == fallback
  {
    ParseDecimal(n, []);
    ParseDecimal(0, []);
    assert Decimal(n) + [] == Decimal(n);
    assert Decimal(0) + [] == Decimal(0);
  }

  // ---------------------------------------------------------------------------
  // Pages

  /** Pages 1..n of size `limit`, one after another. */
  function Pages(items: seq<Container>, limit: nat, n: nat): seq<Container>
    requires limit > 0
  {
    if n == 0 then [] else Pages(items, limit, n - 1) + Window(items, (n - 1) * limit, limit)
  }

  /** The window [lo, hi) continues the prefix that ends at lo. */
  lemma PrefixThenWindow(items: seq<Container>, lo: nat, hi: nat)
    requires lo <= hi
    ensures items[..Min(lo, |items|)] + Window(items, lo, hi - lo) == items[..Min(hi, |items|)]
  {
    if lo < |items| {
      var m := Min(hi, |items|);
      assert Window(items, lo, hi - lo) == items[lo..m];
      assert items[..lo] + items[lo..m] == items[..m];
    }
  }

  /** The first n pages are the first n * limit containers (or all of them). */
  lemma {:induction false} PagesArePrefix(items: seq<Container>, limit: nat, n: nat)
    requires limit > 0
    ensures Pages(items, limit, n) == items[..Min(n * limit, |items|)]
  {
    if n > 0 {
      PagesArePrefix(items, limit, n - 1);
      var lo := (n - 1) * limit;
      assert n * limit == lo + limit;
      PrefixThenWindow(items, lo, lo + limit);
    }
  }

  lemma CeilingBounds(total: nat, limit: int)
    requires limit > 0
    ensures CeilDiv(total, limit) >= 0
    ensures CeilDiv(total, limit) * limit >= total
  {
  }

  /** Pages 1..totalPages together are exactly the selection. */
  lemma AllPagesCoverSelection(items: seq<Container>, limit: nat)
    requires limit > 0
    ensures Pages(items, limit, CeilDiv(|items|, limit)) == items
  {
    CeilingBounds(|items|, limit);
    PagesArePrefix(items, limit, CeilDiv(|items|, limit));
  }

  /** Any page after the last one is empty. */
  lemma PagesBeyondLastAreEmpty(items: seq<Container>, limit: nat, p: int)
    requires limit > 0
    requires p > CeilDiv(|items|, limit)
    ensures p - 1 >= 0 && Window(items, (p - 1) * limit, limit) == []
  {
    var q := CeilDiv(|items|, limit);
    CeilingBounds(|items|, limit);
    assert (p - 1) * limit >= q * limit;
  }

  /** The concatenated answers of GET /?status=s&page=p&pageSize=L for
      p = 1..n, with p and L sent in decimal. */
  function ListedPages(store: seq<Container>, status: Option<string>, limit: nat, n: nat): seq<Container>
    requires limit > 0
  {
    if n == 0 then []
    else
      var r := List(store, status, Some(Decimal(n)), Some(Decimal(limit)));
      ListedPages(store, status, limit, n - 1) + (if r.Paged? then r.containers else [])
  }

  /** A positive page of a positive size is a window at a non-negative skip. */
  lemma PageIsWindow(selected: seq<Container>, p: nat, limit: nat)
    requires limit > 0 && p > 0
    ensures Page(selected, p, limit)
              == Paged(Window(selected, (p - 1) * limit, limit), |selected|, p, CeilDiv(|selected|, limit))
  {
    assert Skip(p, limit) == (p - 1) * limit >= 0;
  }

  /** Page p of size L (both positive, in decimal) is the p-th window of the
      selection. */
  lemma ListPage(store: seq<Container>, status: Option<string>, limit: nat, p: nat)
    requires limit > 0 && p > 0
    ensures var selected := Select(store, ParseStatus(status));
            List(store, status, Some(Decimal(p)), Some(Decimal(limit)))
              == Paged(Window(selected, (p - 1) * limit, limit), |selected|, p, CeilDiv(|selected|, limit))
  {
    var pageText, sizeText := Decimal(p), Decimal(limit);
    PageParamDecimal(p, 1);
    PageParamDecimal(limit, 10);
    assert Truthy(Some(pageText)) && Truthy(Some(sizeText));
    var selected := Select(store, ParseStatus(status));
    assert List(store, status, Some(pageText), Some(sizeText)) == Page(selected, p, limit);
    PageIsWindow(selected, p, limit);
  }

  /** The answer for page n, appended to the answers for pages 1..n-1. */
  lemma ListedPagesStep(store: seq<Container>, status: Option<string>, limit: nat, n: nat)
    requires limit > 0 && n > 0
    ensures ListedPages(store, status, limit, n)
              == ListedPages(store, status, limit, n - 1)
                 + Window(Select(store, ParseStatus(status)), (n - 1) * limit, limit)
  {
    ListPage(store, status, limit, n);
  }

  lemma {:induction false} ListedPagesArePages(store: seq<Container>, status: Option<string>, limit: nat, n: nat)
    requires limit > 0
    ensures ListedPages(store, status, limit, n) == Pages(Select(store, ParseStatus(status)), limit, n)
  {
    if n > 0 {
      ListedPagesArePages(store, status, limit, n - 1);
      ListedPagesStep(store, status, limit, n);
    }
  }

  /** Walking pages 1..totalPages (the count every page reports, by
      ListPage) lists exactly what the same query without paging lists, in
      the same order. */
  lemma PagingReassemblesListing(store: seq<Container>, status: Option<string>, limit: nat)
    requires limit > 0
    ensures var all := List(store, status, None, None);
            && all.Everything?
            && ListedPages(store, status, limit, CeilDiv(|all.containers|, limit)) == all.containers
  {
    var selected := Select(store, ParseStatus(status));
    assert !Truthy(None);
    assert List(store, status, None, None) == Everything(selected);
    ListedPagesArePages(store, status, limit, CeilDiv(|selected|, limit));
    AllPagesCoverSelection(selected, limit);
  }
}
