/** The list screens' paging window: the records fetched from the server are
    filtered by the search box, and without a search only the first
    `visibleCount` of them are shown, ten more on each "load more". */
module Paging {
  import opened Values
  import opened Search

  /** How many more records "load more" reveals, and how many a fresh fetch shows. */
  const PageSize: int := 10

  /** The response body of a list request: an array, an object whose array
      fields are named by the keys of `lists` (a field that is null or
      undefined is absent), or nothing at all. */
  datatype Payload = Array(items: seq<Record>) | Object(lists: map<string, seq<Record>>) | Nothing

  /** The object fields tried for the lead list, in order. */
  const LeadPayloadKeys: seq<string> := ["items", "data", "leads"]

  /** The object fields tried for the job list, in order. */
  const JobPayloadKeys: seq<string> := ["items", "data", "jobs"]

  /** The object field tried for the technician list. */
  const TechnicianPayloadKeys: seq<string> := ["items"]

  /** `data?.[keys[0]] ?? … ?? data?.[keys[n-1]] ?? []` on an object. */
  function FirstList(lists: map<string, seq<Record>>, keys: seq<string>): (r: seq<Record>)
    ensures forall i :: 0 <= i < |keys| && keys[i] in lists && (forall j :: 0 <= j < i ==> keys[j] !in lists)
              ==> r == lists[keys[i]]
    ensures (forall i :: 0 <= i < |keys| ==> keys[i] !in lists) ==> r == []
    decreases |keys|
  {
    if keys == [] then []
    else if keys[0] in lists then lists[keys[0]]
    else
      var r := FirstList(lists, keys[1..]);
      assert forall i :: 1 <= i < |keys| ==> keys[i] == keys[1..][i - 1];
      r
  }

  /** `Array.isArray(data) ? data : data?.items ?? data?.data ?? … ?? []` */
  function Normalize(data: Payload, keys: seq<string>): (r: seq<Record>)
    ensures data.Array? ==> r == data.items
    ensures data.Nothing? ==> r == []
    ensures data.Object? && |keys| > 0 && keys[0] in data.lists ==> r == data.lists[keys[0]]
  {
    match data
    case Array(items) => items
    case Object(lists) => FirstList(lists, keys)
    case Nothing => []
  }

  /** `items.filter(keep)` */
  function Filter(items: seq<Record>, keep: Record -> bool): (r: seq<Record>)
    ensures |r| <= |items|
    ensures forall x :: x in r <==> x in items && keep(x)
  {
    if items == [] then []
    else
      var rest := Filter(items[1..], keep);
      assert forall x :: x in items <==> x == items[0] || x in items[1..];
      (if keep(items[0]) then [items[0]] else []) + rest
  }

  /** A filter that keeps every record keeps the list as it is. */
  lemma {:induction false} FilterKeepingAll(items: seq<Record>, keep: Record -> bool)
    requires forall x :: keep(x)
    ensures Filter(items, keep) == items
  {
    if items != [] {
      FilterKeepingAll(items[1..], keep);
      assert items == [items[0]] + items[1..];
    }
  }

  /** Filtering keeps input order and repeated records: the filter of two
      lists one after the other is their filters one after the other. */
  lemma {:induction false} FilterAppend(a: seq<Record>, b: seq<Record>, keep: Record -> bool)
    ensures Filter(a + b, keep) == Filter(a, keep) + Filter(b, keep)
  {
    if a == [] {
      assert a + b == b;
    } else {
      var ab := a + b;
      var head := if keep(a[0]) then [a[0]] else [];
      assert ab[0] == a[0] && ab[1..] == a[1..] + b;
      assert Filter(ab, keep) == head + Filter(a[1..] + b, keep);
      FilterAppend(a[1..], b, keep);
      assert Filter(a, keep) == head + Filter(a[1..], keep);
      assert head + (Filter(a[1..], keep) + Filter(b, keep)) == (head + Filter(a[1..], keep)) + Filter(b, keep);
    }
  }

  /** The records the search keeps: `matchesSearch(rec, term)`. */
  function Matcher(fields: seq<seq<string>>, term: string): Record -> bool {
    rec => MatchesSearch(rec, fields, term)
  }

  function Min(a: int, b: int): int { if a <= b then a else b }

  /** The records shown: all that were found while searching, otherwise
      `filtered.slice(0, count)`. */
  function Window(filtered: seq<Record>, searching: bool, count: int): (r: seq<Record>)
    requires count >= 0
    ensures r <= filtered
    ensures searching ==> r == filtered
    ensures !searching ==> |r| == Min(count, |filtered|)
  {
    if searching then filtered else filtered[..Min(count, |filtered|)]
  }

  /** `!searching && count < filtered.length`: records are still hidden. */
  function More(filtered: seq<Record>, searching: bool, count: int): (r: bool)
    requires count >= 0
    ensures r <==> !searching && |Window(filtered, searching, count)| < |filtered|
  {
    !searching && count < |filtered|
  }

  /** Widening the window by a page shows a page more, or everything. */
  lemma WindowGrows(filtered: seq<Record>, count: int)
    requires count >= 0
    ensures |Window(filtered, false, count + PageSize)| == Min(|Window(filtered, false, count)| + PageSize, |filtered|)
    ensures Window(filtered, false, count) <= Window(filtered, false, count + PageSize)
  {
  }

  /** A whole number of pages plus one page is a whole number of pages. */
  lemma NextPageWhole(count: int)
    requires count % PageSize == 0
    ensures (count + PageSize) % PageSize == 0
  {
    var q := count / PageSize;
    assert count == PageSize * q;
    assert count + PageSize == PageSize * (q + 1);
  }

  /** The paging state of one list screen. */
  class PagedList {
    /** `allLeads` / `allJobs`: the records of the last successful fetch. */
    var items: seq<Record>
    /** The text in the search box, as typed. */
    var searchTerm: string
    /** How many records are shown while there is no search. */
    var visibleCount: int
    /** A fetch is in flight. */
    var loading: bool
    /** The fields the search looks at, in join order. */
    const fields: seq<seq<string>>
    /** The object fields a response body is read from. */
    const payloadKeys: seq<string>

    /** The window is whole pages: at least one page, a multiple of the page size. */
    predicate Valid()
      reads this
    {
      visibleCount >= PageSize && visibleCount % PageSize == 0
    }

    constructor (fields: seq<seq<string>>, payloadKeys: seq<string>)
      ensures Valid()
      ensures this.fields == fields && this.payloadKeys == payloadKeys
      ensures items == [] && searchTerm == "" && visibleCount == PageSize && !loading
    {
      this.fields := fields;
      this.payloadKeys := payloadKeys;
      items := [];
      searchTerm := "";
      visibleCount := PageSize;
      loading := false;
    }

    /** `normalizedSearch` */
    function Term(): string
      reads this`searchTerm
    {
      NormalizeSearch(searchTerm)
    }

    /** `filteredLeads` / `filteredJobs` */
    function Filtered(): seq<Record>
      reads this`items, this`searchTerm
    {
      Filter(items, Matcher(fields, Term()))
    }

    /** `visibleLeads` / `visibleJobs` */
    function Visible(): (r: seq<Record>)
      requires Valid()
      reads this
      ensures r <= Filtered()
      ensures Term() != "" ==> r == Filtered()
      ensures Term() == "" ==> |r| == Min(visibleCount, |Filtered()|)
    {
      Window(Filtered(), Term() != "", visibleCount)
    }

    /** `hasMore`: the "load more" button is offered. */
    function HasMore(): (r: bool)
      requires Valid()
      reads this
      ensures r <==> Term() == "" && |Visible()| < |Filtered()|
    {
      More(Filtered(), Term() != "", visibleCount)
    }

    /** `shownCount` */
    function ShownCount(): (r: int)
      requires Valid()
      reads this
      ensures r <= TotalCount()
    {
      |Visible()|
    }

    /** `totalCount` */
    function TotalCount(): int
      reads this`items, this`searchTerm
    {
      |Filtered()|
    }

    /** `setSearchTerm(term)` */
    method SetSearchTerm(term: string)
      modifies this
      ensures searchTerm == term
      ensures items == old(items) && visibleCount == old(visibleCount) && loading == old(loading)
    {
      searchTerm := term;
    }

    /** `setLoading(true)` as a fetch starts. */
    method StartFetch()
      modifies this
      ensures loading
      ensures items == old(items) && searchTerm == old(searchTerm) && visibleCount == old(visibleCount)
    {
      loading := true;
    }

    /** The end of `fetchLeads` / `fetchJobs`: a response body (`None` when
        the request failed) replaces the records and resets the window to
        one page; either way loading ends. */
    method FinishFetch(response: Option<Payload>)
      requires Valid()
      modifies this
      ensures Valid() && !loading && searchTerm == old(searchTerm)
      ensures response.Some? ==> items == Normalize(response.value, payloadKeys) && visibleCount == PageSize
      ensures response.None? ==> items == old(items) && visibleCount == old(visibleCount)
    {
      if response.Some? {
        items := Normalize(response.value, payloadKeys);
        visibleCount := PageSize;
      }
      loading := false;
    }

    /** `loadMore()`: one more page, unless a fetch is in flight or a search
        is active; without a search the window then shows ten more records,
        or all of them. */
    method LoadMore()
      requires Valid()
      modifies this
      ensures Valid()
      ensures items == old(items) && searchTerm == old(searchTerm) && loading == old(loading)
      ensures old(loading) || Term() != "" ==> visibleCount == old(visibleCount)
      ensures !old(loading) && Term() == "" ==> visibleCount == old(visibleCount) + PageSize
      ensures !old(loading) && Term() == "" ==> |Visible()| == Min(old(|Visible()|) + PageSize, |Filtered()|)
    {
      var typed := searchTerm;
      var normalizedSearch := NormalizeSearch(typed);
      if loading || normalizedSearch != "" {
        return;
      }
      ghost var filtered, before := Filtered(), visibleCount;
      assert |Visible()| == Min(before, |filtered|);
      NextPageWhole(before);
      visibleCount := visibleCount + PageSize;
      assert Valid() && Filtered() == filtered && Term() == "";
      assert |Visible()| == Min(before + PageSize, |filtered|);
    }
  }

  // ---------------------------------------------------------------- properties

  /** Without a search every fetched record is in the filtered list, so the
      window is a prefix of the fetched records. */
  lemma VisibleWithoutSearch(p: PagedList)
    requires p.Valid() && p.Term() == ""
    ensures p.Filtered() == p.items
    ensures p.Visible() == p.items[..Min(p.visibleCount, |p.items|)]
  {
    FilterKeepingAll(p.items, Matcher(p.fields, ""));
  }

  /** The button is offered exactly while records are hidden by the window. */
  lemma HasMoreIffHidden(p: PagedList)
    requires p.Valid()
    ensures p.HasMore() <==> p.ShownCount() < p.TotalCount()
  {
  }
}
