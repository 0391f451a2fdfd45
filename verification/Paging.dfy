// controller/list.go: pages of the release list, on 64-bit integers.
module Paging {
  import opened Int64
  import opened Text
  import opened Decimals

  /** What "page, _ = strconv.Atoi(query)" leaves in page: out of range it is the nearest int, else 0. */
  function AtoiOrNearest(query: string): (page: int)
    ensures IsInt64(page)
  {
    if Atoi(query).Some? then Atoi(query).value
    else
      var digits := if query != "" && (query[0] == '-' || query[0] == '+') then query[1..] else query;
      if digits == "" || exists c :: c in digits && !IsDigit(c) then 0
      else if query[0] == '-' then MIN_INT
      else MAX_INT
  }

  /** parseListPagination: (page, perPage), perPage 0 when paging is off. */
  function ParseListPagination(query: string, pageSize: int): (r: (int, int))
    ensures 1 <= r.0 <= MAX_INT && r.1 == if pageSize <= 0 then 0 else pageSize
  {
    if pageSize <= 0 then (1, 0)
    else
      var page := AtoiOrNearest(query);
      (if page < 1 then 1 else page, pageSize)
  }

  /** paginateElements; None stands for a slice expression out of bounds, which panics. */
  function PaginateElements<T>(elements: seq<T>, page: int, perPage: int): Option<seq<T>> {
    if perPage <= 0 || page < 1 then Some(elements)
    else
      var start := Wrap64(Wrap64(page - 1) * perPage);
      if start >= |elements| then Some([])
      else
        var end := Min(Wrap64(start + perPage), |elements|);
        if 0 <= start <= end then Some(elements[start..end]) else None
  }

  /** Go's integer division, which rounds toward zero. */
  function Quotient(a: int, b: int): int
    requires b > 0
  {
    if a >= 0 then a / b else -(-a / b)
  }

  function TotalPages(totalCount: int, perPage: int): int
    requires perPage > 0
  {
    Quotient(Wrap64(Wrap64(totalCount + perPage) - 1), perPage)
  }

  datatype Relation = First | Prev | Next | Last
  datatype Link = Link(relation: Relation, page: int)

  /** addListPaginationLinks: the links behind those already in the header. */
  function AddListPaginationLinks(existing: seq<Link>, totalCount: int, page: int, perPage: int): seq<Link> {
    if perPage <= 0 || totalCount <= 0 then existing
    else
      var totalPages := TotalPages(totalCount, perPage);
      if totalPages <= 1 then existing
      else
        var page := if page > totalPages then totalPages else page;
        var links := [Link(First, 1)];
        var links := if page > 1 then links + [Link(Prev, page - 1)] else links;
        var links := if page < totalPages then links + [Link(Next, page + 1)] else links;
        existing + links + [Link(Last, totalPages)]
  }

  /** The page a client goes to when it follows a relation. */
  function Follow(links: seq<Link>, relation: Relation): Option<int> {
    if links == [] then None
    else if links[0].relation == relation then Some(links[0].page)
    else Follow(links[1..], relation)
  }

  ghost predicate Fits(totalCount: int, perPage: int) {
    perPage > 0 && totalCount >= 0 && IsInt64(totalCount + perPage)
  }

  lemma {:induction false} TotalPagesExact(totalCount: int, perPage: int)
    requires Fits(totalCount, perPage)
    ensures var pages := TotalPages(totalCount, perPage);
            && 0 <= pages <= totalCount
            && totalCount <= pages * perPage < totalCount + perPage
            && (totalCount > 0 ==> pages >= 1)
  {
    var a := totalCount + perPage - 1;
    var q := TotalPages(totalCount, perPage);
    assert q == a / perPage;
    assert a == q * perPage + a % perPage;
    if q > totalCount {
      Scale(totalCount + 1, q, perPage);
      assert (totalCount + 1) * perPage == totalCount * perPage + perPage;
      Scale(1, perPage, totalCount);
      assert false;
    }
  }

  lemma {:induction false} Scale(a: int, b: int, c: int)
    requires a <= b && c >= 0
    ensures a * c <= b * c
  {
  }

  /** Every page up to the last starts inside the list, and its arithmetic does not wrap around. */
  lemma {:induction false} PageInBounds(totalCount: int, perPage: int, page: int)
    requires Fits(totalCount, perPage) && totalCount > 0
    requires 1 <= page <= TotalPages(totalCount, perPage)
    ensures 0 <= (page - 1) * perPage < totalCount
    ensures Wrap64(Wrap64(page - 1) * perPage) == (page - 1) * perPage
    ensures Wrap64((page - 1) * perPage + perPage) == page * perPage
  {
    TotalPagesExact(totalCount, perPage);
    var pages := TotalPages(totalCount, perPage);
    Scale(page, pages, perPage);
    Scale(0, page - 1, perPage);
    assert (page - 1) * perPage == page * perPage - perPage;
  }

  lemma {:induction false} PageElements<T>(elements: seq<T>, perPage: int, page: int)
    requires Fits(|elements|, perPage) && elements != []
    requires 1 <= page <= TotalPages(|elements|, perPage)
    ensures 0 <= (page - 1) * perPage <= Min(page * perPage, |elements|)
    ensures PaginateElements(elements, page, perPage)
         == Some(elements[(page - 1) * perPage..Min(page * perPage, |elements|)])
  {
    PageInBounds(|elements|, perPage, page);
    assert (page - 1) * perPage == page * perPage - perPage;
  }

  /** Pages 1 to n, one behind the other. */
  function FirstPages<T>(elements: seq<T>, perPage: int, n: nat): Option<seq<T>> {
    if n == 0 then Some([])
    else
      match (FirstPages(elements, perPage, n - 1), PaginateElements(elements, n, perPage))
      case (Some(before), Some(page)) => Some(before + page)
      case _ => None
  }

  lemma {:induction false} FirstPagesAre<T>(elements: seq<T>, perPage: int, n: nat)
    requires Fits(|elements|, perPage) && elements != []
    requires n <= TotalPages(|elements|, perPage)
    ensures 0 <= n * perPage
    ensures FirstPages(elements, perPage, n) == Some(elements[..Min(n * perPage, |elements|)])
  {
    Scale(0, n, perPage);
    if n > 0 {
      FirstPagesAre(elements, perPage, n - 1);
      PageInBounds(|elements|, perPage, n);
      PageElements(elements, perPage, n);
      var from, to := (n - 1) * perPage, Min(n * perPage, |elements|);
      assert elements[..from] + elements[from..to] == elements[..to];
    }
  }

  /** Tiling: the pages 1..totalPages are the list, for every list and page size. */
  lemma {:induction false} PagesTile<T>(elements: seq<T>, perPage: int)
    requires Fits(|elements|, perPage)
    ensures TotalPages(|elements|, perPage) >= 0
    ensures FirstPages(elements, perPage, TotalPages(|elements|, perPage)) == Some(elements)
  {
    TotalPagesExact(|elements|, perPage);
    if elements != [] {
      FirstPagesAre(elements, perPage, TotalPages(|elements|, perPage));
      assert elements[..|elements|] == elements;
    }
  }

  /** Each relation leads to the page it names, and nowhere else. */
  lemma {:induction false} LinksLead(totalCount: int, page: int, perPage: int)
    requires Fits(totalCount, perPage) && TotalPages(totalCount, perPage) > 1 && page >= 1
    ensures var pages := TotalPages(totalCount, perPage);
            var shown := Min(page, pages);
            var links := AddListPaginationLinks([], totalCount, page, perPage);
            && Follow(links, First) == Some(1)
            && Follow(links, Last) == Some(pages)
            && Follow(links, Next) == (if shown < pages then Some(shown + 1) else None)
            && Follow(links, Prev) == (if shown > 1 then Some(shown - 1) else None)
  {
    TotalPagesExact(totalCount, perPage);
    var pages := TotalPages(totalCount, perPage);
    var links := AddListPaginationLinks([], totalCount, page, perPage);
    var shown := Min(page, pages);
    var back := if shown > 1 then [Link(Prev, shown - 1)] else [];
    var on := if shown < pages then [Link(Next, shown + 1)] else [];
    var end := [Link(Last, pages)];
    assert links == [Link(First, 1)] + (back + (on + end));
    FollowFour(back, on, pages, First);
    FollowFour(back, on, pages, Prev);
    FollowFour(back, on, pages, Next);
    FollowFour(back, on, pages, Last);
  }

  lemma {:induction false} FollowFour(back: seq<Link>, on: seq<Link>, pages: int, r: Relation)
    requires |back| <= 1 && |on| <= 1
    ensures Follow([Link(First, 1)] + (back + (on + [Link(Last, pages)])), r) ==
            if r == First then Some(1)
            else if back != [] && back[0].relation == r then Some(back[0].page)
            else if on != [] && on[0].relation == r then Some(on[0].page)
            else if r == Last then Some(pages)
            else None
  {
    var end := [Link(Last, pages)];
    FollowConcat([Link(First, 1)], back + (on + end), r);
    FollowConcat(back, on + end, r);
    FollowConcat(on, end, r);
    FollowConcat(end, [], r);
    assert end + [] == end;
  }

  lemma {:induction false} FollowConcat(a: seq<Link>, b: seq<Link>, r: Relation)
    requires |a| <= 1
    ensures Follow(a + b, r) == if a != [] && a[0].relation == r then Some(a[0].page) else Follow(b, r)
  {
    if a != [] {
      assert (a + b)[1..] == b;
    } else {
      assert a + b == b;
    }
  }

  /** Every page that a response links to starts inside the list. */
  lemma {:induction false} LinkedPagesInBounds(totalCount: int, page: int, perPage: int, relation: Relation)
    requires Fits(totalCount, perPage) && page >= 1
    requires Follow(AddListPaginationLinks([], totalCount, page, perPage), relation).Some?
    ensures var p := Follow(AddListPaginationLinks([], totalCount, page, perPage), relation).value;
            1 <= p <= TotalPages(totalCount, perPage) && 0 <= (p - 1) * perPage < totalCount
  {
    LinksLead(totalCount, page, perPage);
    TotalPagesExact(totalCount, perPage);
    PageInBounds(totalCount, perPage, Follow(AddListPaginationLinks([], totalCount, page, perPage), relation).value);
  }

  /** The pages a client sees that starts at page and follows "next" up to fuel times. */
  function Visit(totalCount: int, page: int, perPage: int, fuel: nat): seq<int>
    decreases fuel
  {
    var next := Follow(AddListPaginationLinks([], totalCount, page, perPage), Next);
    if fuel == 0 || next.None? then [page] else [page] + Visit(totalCount, next.value, perPage, fuel - 1)
  }

  lemma {:induction false} NextPage(totalCount: int, page: int, perPage: int)
    requires Fits(totalCount, perPage) && totalCount > 0 && 1 <= page <= TotalPages(totalCount, perPage)
    ensures Follow(AddListPaginationLinks([], totalCount, page, perPage), Next)
         == if page < TotalPages(totalCount, perPage) then Some(page + 1) else None
  {
    if TotalPages(totalCount, perPage) > 1 {
      LinksLead(totalCount, page, perPage);
    }
  }

  /** Following "next" from any page visits each later page once and stops at "last". */
  lemma {:induction false} VisitFrom(totalCount: int, page: int, perPage: int, fuel: nat)
    requires Fits(totalCount, perPage) && totalCount > 0
    requires 1 <= page <= TotalPages(totalCount, perPage) && fuel >= TotalPages(totalCount, perPage) - page
    ensures var pages := TotalPages(totalCount, perPage);
            Visit(totalCount, page, perPage, fuel) == seq(pages - page + 1, i => page + i)
    decreases fuel
  {
    hide TotalPages, AddListPaginationLinks, Follow;
    NextPage(totalCount, page, perPage);
    var pages := TotalPages(totalCount, perPage);
    if page < pages {
      VisitFrom(totalCount, page + 1, perPage, fuel - 1);
    }
    assert seq(pages - page + 1, i => page + i) == [page] + seq(pages - page, i => page + 1 + i);
  }

  /** From page 1 these are all pages, and the walk ends where "last" points. */
  lemma {:induction false} NextVisitsAll(totalCount: int, perPage: int, fuel: nat)
    requires Fits(totalCount, perPage) && totalCount > 0 && fuel >= TotalPages(totalCount, perPage)
    ensures var pages := TotalPages(totalCount, perPage);
            var visited := Visit(totalCount, 1, perPage, fuel);
            && pages >= 1
            && visited == seq(pages, i => i + 1)
            && (pages > 1 ==> Follow(AddListPaginationLinks([], totalCount, 1, perPage), Last) == Some(visited[|visited| - 1]))
  {
    TotalPagesExact(totalCount, perPage);
    VisitFrom(totalCount, 1, perPage, fuel);
    var pages := TotalPages(totalCount, perPage);
    var visited := Visit(totalCount, 1, perPage, fuel);
    assert |visited| == pages && forall i :: 0 <= i < pages ==> visited[i] == 1 + i;
    if pages > 1 {
      LinksLead(totalCount, 1, perPage);
    }
  }

  // ----- Pages as a client asks for them -----

  /** Which page a query asks for: its number, cut to what there can be, and page 1 for anything else. */
  lemma {:induction false} QueryExact(query: string, pageSize: int)
    requires pageSize > 0
    ensures var page := ParseListPagination(query, pageSize).0;
            && (Digits(query) ==> page == Clamped(DecimalValue(query)))
            && (query != "" && query[0] == '+' && Digits(query[1..]) ==> page == Clamped(DecimalValue(query[1..])))
            && (!Digits(query) && !(query != "" && query[0] == '+' && Digits(query[1..])) ==> page == 1)
  {
    AtoiExact(query);
    DigitsPlain(query);
    if query != "" {
      DigitsPlain(query[1..]);
    }
  }

  function Clamped(n: nat): int {
    if n < 1 then 1 else if n > MAX_INT then MAX_INT else n
  }

  /** The page that makeLink prints is the page that is served. */
  lemma {:induction false} LinkedQuery(p: nat, pageSize: int)
    requires 1 <= p <= MAX_INT && pageSize > 0
    ensures ParseListPagination(Itoa(p), pageSize) == (p, pageSize)
  {
    ItoaDigits(p);
    QueryExact(Itoa(p), pageSize);
  }

  /** What listing answers to a query: the elements of the page and the links. */
  function Serve<T>(elements: seq<T>, query: string, pageSize: int): (Option<seq<T>>, seq<Link>) {
    var (page, perPage) := ParseListPagination(query, pageSize);
    (PaginateElements(elements, page, perPage), AddListPaginationLinks([], |elements|, page, perPage))
  }

  /** What a client collects that starts with a query and follows "next" at most fuel times. */
  function Browse<T>(elements: seq<T>, query: string, pageSize: int, fuel: nat): Option<seq<T>>
    decreases fuel
  {
    var (page, links) := Serve(elements, query, pageSize);
    var next := Follow(links, Next);
    if page.None? then None
    else if next.None? || next.value < 0 || fuel == 0 then page
    else
      var rest := Browse(elements, Itoa(next.value), pageSize, fuel - 1);
      if rest.None? then None else Some(page.value + rest.value)
  }

  function PageStart(page: int, perPage: int): int {
    (page - 1) * perPage
  }

  /** One page and where the next one starts. */
  lemma {:induction false} PageHere<T>(elements: seq<T>, perPage: int, page: int)
    requires Fits(|elements|, perPage) && elements != [] && 1 <= page <= TotalPages(|elements|, perPage)
    ensures 0 <= PageStart(page, perPage) <= |elements|
    ensures page < TotalPages(|elements|, perPage) ==>
              && PageStart(page, perPage) <= PageStart(page + 1, perPage) <= |elements|
              && PaginateElements(elements, page, perPage) == Some(elements[PageStart(page, perPage)..PageStart(page + 1, perPage)])
    ensures page == TotalPages(|elements|, perPage) ==>
              PaginateElements(elements, page, perPage) == Some(elements[PageStart(page, perPage)..])
  {
    hide PaginateElements, TotalPages;
    TotalPagesExact(|elements|, perPage);
    PageInBounds(|elements|, perPage, page);
    PageElements(elements, perPage, page);
    assert page * perPage == (page - 1) * perPage + perPage;
    if page < TotalPages(|elements|, perPage) {
      PageInBounds(|elements|, perPage, page + 1);
    } else {
      assert page * perPage >= |elements|;
      assert elements[(page - 1) * perPage..|elements|] == elements[(page - 1) * perPage..];
    }
  }

  lemma {:induction false} BrowseFrom<T>(elements: seq<T>, query: string, pageSize: int, page: nat, fuel: nat)
    requires Fits(|elements|, pageSize) && elements != []
    requires 1 <= page <= TotalPages(|elements|, pageSize) && ParseListPagination(query, pageSize) == (page, pageSize)
    requires fuel >= TotalPages(|elements|, pageSize) - page
    ensures 0 <= PageStart(page, pageSize) <= |elements|
    ensures Browse(elements, query, pageSize, fuel) == Some(elements[PageStart(page, pageSize)..])
    decreases fuel
  {
    hide ParseListPagination, PaginateElements, AddListPaginationLinks, TotalPages, PageStart, Follow;
    PageHere(elements, pageSize, page);
    NextPage(|elements|, page, pageSize);
    TotalPagesExact(|elements|, pageSize);
    if page < TotalPages(|elements|, pageSize) {
      LinkedQuery(page + 1, pageSize);
      BrowseFrom(elements, Itoa(page + 1), pageSize, page + 1, fuel - 1);
      Tiled(elements, PageStart(page, pageSize), PageStart(page + 1, pageSize));
    }
  }

  lemma {:induction false} Tiled<T>(elements: seq<T>, a: nat, c: nat)
    requires a <= c <= |elements|
    ensures elements[a..c] + elements[c..] == elements[a..]
  {
  }

  /** A client that asks for no page and follows "next" to the end collects the list, paged or not. */
  lemma {:induction false} BrowseAll<T>(elements: seq<T>, pageSize: int, fuel: nat)
    requires pageSize <= 0 || (Fits(|elements|, pageSize) && fuel >= TotalPages(|elements|, pageSize))
    ensures Browse(elements, "", pageSize, fuel) == Some(elements)
  {
    if pageSize > 0 {
      QueryExact("", pageSize);
      if elements != [] {
        TotalPagesExact(|elements|, pageSize);
        BrowseFrom(elements, "", pageSize, 1, fuel);
        assert elements[0..] == elements;
      }
    }
  }

  /** The pages 1 to n as their queries are answered, one behind the other. */
  function Served<T>(elements: seq<T>, pageSize: int, n: nat): Option<seq<T>> {
    if n == 0 then Some([])
    else
      match (Served(elements, pageSize, n - 1), Serve(elements, Itoa(n), pageSize).0)
      case (Some(before), Some(page)) => Some(before + page)
      case _ => None
  }

  lemma {:induction false} ServedIs<T>(elements: seq<T>, pageSize: int, n: nat)
    requires pageSize > 0 && n <= MAX_INT
    ensures Served(elements, pageSize, n) == FirstPages(elements, pageSize, n)
  {
    hide ParseListPagination, PaginateElements, AddListPaginationLinks;
    if n > 0 {
      ServedIs(elements, pageSize, n - 1);
      LinkedQuery(n, pageSize);
    }
  }

  /** Tiling over requests: the answers to "1", "2", ... up to the last page concatenate to the list. */
  lemma {:induction false} QueriesTile<T>(elements: seq<T>, pageSize: int)
    requires Fits(|elements|, pageSize)
    ensures var pages := TotalPages(|elements|, pageSize);
            pages >= 0 && Served(elements, pageSize, pages) == Some(elements)
  {
    TotalPagesExact(|elements|, pageSize);
    PagesTile(elements, pageSize);
    ServedIs(elements, pageSize, TotalPages(|elements|, pageSize));
  }

  /** Behind the last page, as long as its start fits in 64 bits, there is nothing. */
  lemma {:induction false} BehindLastPage<T>(elements: seq<T>, page: int, perPage: int)
    requires Fits(|elements|, perPage) && page > TotalPages(|elements|, perPage) && page >= 1
    requires (page - 1) * perPage <= MAX_INT
    ensures PaginateElements(elements, page, perPage) == Some([])
  {
    hide TotalPages;
    TotalPagesExact(|elements|, perPage);
    Scale(TotalPages(|elements|, perPage), page - 1, perPage);
    Scale(1, perPage, page - 1);
    assert page - 1 <= (page - 1) * perPage;
    BehindStart(elements, page, perPage, (page - 1) * perPage);
  }

  lemma {:induction false} BehindStart<T>(elements: seq<T>, page: int, perPage: int, start: int)
    requires Fits(|elements|, perPage) && 1 <= page <= MAX_INT + 1 && start == (page - 1) * perPage && |elements| <= start <= MAX_INT
    ensures PaginateElements(elements, page, perPage) == Some([])
  {
  }

  /** Links that a header already has stay in front. */
  lemma {:induction false} LinksAppended(existing: seq<Link>, totalCount: int, page: int, perPage: int)
    ensures AddListPaginationLinks(existing, totalCount, page, perPage)
         == existing + AddListPaginationLinks([], totalCount, page, perPage)
  {
    var more := AddListPaginationLinks([], totalCount, page, perPage);
    assert existing + [] == existing;
    assert existing + ([] + more) == existing + more;
  }
}
