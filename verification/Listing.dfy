// ListClusters: paging through the store with an opaque token.
module Listing {
  import opened Convert
  import opened Ordering
  import opened Tokens
  import opened Versions
  import opened Wrappers

  const BY_NAME: HostedCluster -> string := (hc: HostedCluster) => hc.name

  datatype ClusterList = ClusterList(clusters: seq<Cluster>, next: Option<string>)

  /** A page before conversion; `next` is the offset its token stands for. */
  datatype Page = Page(items: seq<HostedCluster>, next: Option<nat>)

  function NextToken(p: Page): Option<string> {
    if p.next.None? then None else Some(TokenFor(p.next.value))
  }

  function Each<T, U>(f: T -> U, s: seq<T>): seq<U> {
    seq(|s|, i requires 0 <= i < |s| => f(s[i]))
  }

  lemma EachAppends<T, U>(f: T -> U, a: seq<T>, b: seq<T>)
    ensures Each(f, a + b) == Each(f, a) + Each(f, b)
  {
  }

  ghost predicate NamesAscend(hcs: seq<HostedCluster>) {
    forall i, j :: 0 <= i < j < |hcs| ==> Less(hcs[i].name, hcs[j].name)
  }

  function ConvertAll(hcs: seq<HostedCluster>, m: Matrix): seq<Cluster> {
    Each((hc: HostedCluster) => ToCluster(hc, m), hcs)
  }

  /** Each HC of the list is shown, in its place. */
  lemma ConvertedAt(hcs: seq<HostedCluster>, m: Matrix, i: nat)
    requires i < |hcs|
    ensures |ConvertAll(hcs, m)| == |hcs| && ConvertAll(hcs, m)[i] == ToCluster(hcs[i], m)
    ensures ConvertAll(hcs, m)[i].name == hcs[i].name && ConvertAll(hcs, m)[i].id == hcs[i].id
  {
  }

  lemma ConvertAppends(a: seq<HostedCluster>, b: seq<HostedCluster>, m: Matrix)
    ensures ConvertAll(a + b, m) == ConvertAll(a, m) + ConvertAll(b, m)
  {
    EachAppends((hc: HostedCluster) => ToCluster(hc, m), a, b);
  }

  method ConvertItems(page: seq<HostedCluster>, m: Matrix) returns (clusters: seq<Cluster>)
    ensures clusters == ConvertAll(page, m)
  {
    clusters := [];
    for i := 0 to |page|
      invariant clusters == ConvertAll(page[..i], m)
    {
      assert page[..i+1] == page[..i] + [page[i]];
      ConvertAppends(page[..i], [page[i]], m);
      var cl := HostedClusterToCluster(page[i], m);
      clusters := clusters + [cl];
    }
    assert page[..|page|] == page;
  }

  function Clamp(x: nat, total: nat): (r: nat)
    ensures r <= total && r <= x && (r == total || r == x)
  {
    if x > total then total else x
  }

  /** The slice a request is entitled to, and whether more follows. */
  function PageAt(sorted: seq<HostedCluster>, offset: nat, size: nat): Page {
    var from := Clamp(offset, |sorted|);
    var end := Clamp(from + size, |sorted|);
    Page(sorted[from..end], if end < |sorted| then Some(end) else None)
  }

  /** The page holds the elements from the offset on, as many as fit; past the end it is empty. */
  lemma PageMeaning(sorted: seq<HostedCluster>, offset: nat, size: nat)
    ensures var p, n := PageAt(sorted, offset, size), |sorted|;
      && |p.items| == (if offset >= n then 0 else if n - offset < size then n - offset else size)
      && (forall i :: 0 <= i < |p.items| ==> p.items[i] == sorted[offset + i])
      && (p.next.Some? <==> offset + size < n)
      && (p.next.Some? ==> p.next.value == offset + size)
  {
  }

  method PageOffset(pageToken: string) returns (r: Result<nat, Error>)
    ensures r == ParseToken(pageToken)
  {
    var offset := 0;
    if pageToken != "" {
      var decoded := Decode(pageToken);
      if decoded.None? {
        return Err(InvalidArgument);
      }
      var v := Atoi(decoded.value);
      if v.None? || v.value < 0 {
        return Err(InvalidArgument);
      }
      offset := v.value;
    }
    r := Ok(offset);
  }

  method Bounds(start: nat, pageSize: nat, total: nat) returns (offset: nat, end: nat)
    ensures offset == Clamp(start, total) && end == Clamp(offset + pageSize, total)
    ensures offset <= end <= total
  {
    offset := start;
    if offset > total {
      offset := total;
    }
    end := offset + pageSize;
    if end > total {
      end := total;
    }
  }

  /** `listing` is what the store returned, in whatever order; None if it failed. */
  method ListClusters(listing: Option<seq<HostedCluster>>, m: Matrix, pageSize: nat, pageToken: string)
    returns (r: Result<ClusterList, Error>)
    requires pageSize >= 1
    ensures listing.None? ==> r == Err(Internal)
    ensures listing.Some? && ParseToken(pageToken).Err? ==> r == Err(InvalidArgument)
    ensures listing.Some? && ParseToken(pageToken).Ok? ==>
              var page := PageAt(Sort(listing.value, BY_NAME), ParseToken(pageToken).value, pageSize);
              r == Ok(ClusterList(ConvertAll(page.items, m), NextToken(page)))
  {
    if listing.None? {
      return Err(Internal);
    }
    var items := Sort(listing.value, BY_NAME);
    var parsed := PageOffset(pageToken);
    if parsed.Err? {
      return Err(InvalidArgument);
    }
    var total := |items|;
    var offset, end := Bounds(parsed.value, pageSize, total);
    ghost var page := PageAt(items, parsed.value, pageSize);
    assert page.items == items[offset..end];
    var clusters := ConvertItems(items[offset..end], m);
    var next := None;
    if end < total {
      next := Some(TokenFor(end));
    }
    assert next == NextToken(page);
    r := Ok(ClusterList(clusters, next));
  }

  // ---- following the tokens ------------------------------------------------------------

  function TokenAt(pages: seq<Page>, i: nat): string {
    if i == 0 || i > |pages| || pages[i-1].next.None? then "" else NextToken(pages[i-1]).value
  }

  /** Page i answers its token from this sorted list. */
  ghost predicate WalkStep(sorted: seq<HostedCluster>, size: nat, pages: seq<Page>, i: nat) {
    && i < |pages|
    && (i > 0 ==> pages[i-1].next.Some?)
    && ParseToken(TokenAt(pages, i)).Ok?
    && pages[i] == PageAt(sorted, ParseToken(TokenAt(pages, i)).value, size)
  }

  /**
   * The first |pages| answers of a client that starts without a token and then follows each
   * next token. `orders(i)` is the order in which the store lists its items at call i.
   */
  ghost predicate Walk(orders: nat -> seq<HostedCluster>, size: nat, pages: seq<Page>) {
    forall i: nat :: i < |pages| ==> WalkStep(Sort(orders(i), BY_NAME), size, pages, i)
  }

  /** The same when every call sees one sorted list. */
  ghost predicate SortedWalk(sorted: seq<HostedCluster>, size: nat, pages: seq<Page>) {
    forall i: nat :: i < |pages| ==> WalkStep(sorted, size, pages, i)
  }

  function Concat(pages: seq<Page>): seq<HostedCluster> {
    if pages == [] then [] else Concat(pages[..|pages|-1]) + pages[|pages|-1].items
  }

  /** Every call lists the same clusters, each in its own order. */
  ghost predicate SameClusters(orders: nat -> seq<HostedCluster>, items: seq<HostedCluster>) {
    forall i :: Permuted(items, orders(i))
  }

  lemma SameLength(items: seq<HostedCluster>)
    ensures |Sort(items, BY_NAME)| == |items|
  {
    assert |multiset(Sort(items, BY_NAME))| == |multiset(items)|;
  }

  /** The next token of a page leads to the offset where the page ended. */
  lemma TokenContinues(pages: seq<Page>, i: nat)
    requires i < |pages| && pages[i].next.Some? && pages[i].next.value <= MAX_INT
    ensures ParseToken(TokenAt(pages, i + 1)) == Ok(pages[i].next.value)
  {
    TokenRoundTripIff(pages[i].next.value);
  }

  /** The order in which the store lists its items does not matter to a client. */
  lemma WalkIgnoresOrder(orders: nat -> seq<HostedCluster>, items: seq<HostedCluster>, size: nat, pages: seq<Page>)
    requires DistinctKeys(items, BY_NAME) && SameClusters(orders, items) && Walk(orders, size, pages)
    ensures SortedWalk(Sort(items, BY_NAME), size, pages)
  {
    forall i: nat | i < |pages| ensures WalkStep(Sort(items, BY_NAME), size, pages, i) {
      assert Permuted(items, orders(i)) && WalkStep(Sort(orders(i), BY_NAME), size, pages, i);
      SortIgnoresOrder(items, orders(i), BY_NAME);
    }
  }

  lemma PageEnds(sorted: seq<HostedCluster>, offset: nat, size: nat)
    requires offset <= |sorted|
    ensures var next := PageAt(sorted, offset, size).next;
            && (next.None? <==> offset + size >= |sorted|)
            && (next.Some? ==> next.value == offset + size)
  {
  }

  /** Following the token of the page at `offset` gives the page at `offset + size`. */
  lemma PageFollows(sorted: seq<HostedCluster>, size: nat, pages: seq<Page>, i: nat, offset: nat)
    requires |sorted| <= MAX_INT && offset <= |sorted| && WalkStep(sorted, size, pages, i + 1)
    requires pages[i] == PageAt(sorted, offset, size)
    ensures offset + size < |sorted| && pages[i + 1] == PageAt(sorted, offset + size, size)
  {
    PageEnds(sorted, offset, size);
    TokenContinues(pages, i);
  }

  /** Where page i starts: i * size. */
  function Start(i: nat, size: nat): nat {
    if i == 0 then 0 else Start(i - 1, size) + size
  }

  lemma {:induction false} StartIsProduct(i: nat, size: nat)
    ensures Start(i, size) == i * size
  {
    if i > 0 {
      StartIsProduct(i - 1, size);
    }
  }

  /** Page i covers the sorted list from Start(i) to Start(i + 1). */
  lemma {:induction false} WalkPage(sorted: seq<HostedCluster>, size: nat, pages: seq<Page>, i: nat)
    requires |sorted| <= MAX_INT && i < |pages| && SortedWalk(sorted, size, pages)
    ensures pages[i] == PageAt(sorted, Start(i, size), size)
    ensures i > 0 ==> Start(i, size) < |sorted|
  {
    assert WalkStep(sorted, size, pages, i);
    if i > 0 {
      WalkPage(sorted, size, pages, i - 1);
      PageFollows(sorted, size, pages, i - 1, Start(i - 1, size));
    }
  }

  lemma WalkInit(sorted: seq<HostedCluster>, size: nat, pages: seq<Page>)
    requires pages != [] && SortedWalk(sorted, size, pages)
    ensures SortedWalk(sorted, size, pages[..|pages|-1])
  {
    var init := pages[..|pages|-1];
    forall i: nat | i < |init| ensures WalkStep(sorted, size, init, i) {
      assert WalkStep(sorted, size, pages, i);
      assert TokenAt(init, i) == TokenAt(pages, i);
    }
  }

  /** After k pages the client has the sorted list up to Start(k). */
  lemma {:induction false} WalkCollects(sorted: seq<HostedCluster>, size: nat, pages: seq<Page>)
    requires |sorted| <= MAX_INT && SortedWalk(sorted, size, pages)
    ensures Concat(pages) == sorted[..Clamp(Start(|pages|, size), |sorted|)]
  {
    if pages != [] {
      var k := |pages| - 1;
      WalkInit(sorted, size, pages);
      WalkCollects(sorted, size, pages[..k]);
      WalkPage(sorted, size, pages, k);
      SliceGrows(sorted, Start(k, size), size);
    }
  }

  lemma SliceGrows(sorted: seq<HostedCluster>, offset: nat, size: nat)
    ensures sorted[..Clamp(offset, |sorted|)] + PageAt(sorted, offset, size).items
         == sorted[..Clamp(offset + size, |sorted|)]
  {
  }

  function PageCount(n: nat, size: nat): nat
    requires size >= 1
  {
    if n == 0 then 1 else (n + size - 1) / size
  }

  lemma CeilingBounds(n: nat, size: nat)
    requires size >= 1 && n >= 1
    ensures var c := PageCount(n, size); c >= 1 && (c - 1) * size < n <= c * size
  {
    var q := n + size - 1;
    assert q == q / size * size + q % size;
  }

  lemma Scale(a: nat, b: nat, size: nat)
    requires a <= b
    ensures a * size <= b * size
  {
  }

  /** The k-th page is the last exactly when k is the page count. */
  lemma PageCountBounds(n: nat, size: nat, k: nat)
    requires size >= 1 && k >= 1 && (k > 1 ==> Start(k - 1, size) < n)
    ensures k <= PageCount(n, size)
    ensures Start(k, size) >= n <==> k == PageCount(n, size)
  {
    StartIsProduct(k, size);
    StartIsProduct(k - 1, size);
    if n > 0 {
      CeilingBounds(n, size);
      var c := PageCount(n, size);
      if c < k {
        Scale(c, k - 1, size);
      } else if k < c {
        Scale(k, c - 1, size);
      }
    }
  }

  /** The page count, and where the last page ends. */
  lemma WalkFinishes(sorted: seq<HostedCluster>, size: nat, pages: seq<Page>)
    requires size >= 1 && |sorted| <= MAX_INT && pages != [] && SortedWalk(sorted, size, pages)
    ensures |pages| <= PageCount(|sorted|, size)
    ensures pages[|pages|-1].next.None? <==> |pages| == PageCount(|sorted|, size)
    ensures Start(|pages|, size) >= |sorted| <==> |pages| == PageCount(|sorted|, size)
    ensures pages[|pages|-1].next.Some? ==> ParseToken(TokenAt(pages, |pages|)).Ok?
  {
    var k := |pages| - 1;
    WalkPage(sorted, size, pages, k);
    PageEnds(sorted, Start(k, size), size);
    PageCountBounds(|sorted|, size, k + 1);
    if pages[k].next.Some? {
      TokenContinues(pages, k);
    }
  }

  /**
   * A walk never fails and never exceeds max(1, ceil(n / size)) pages. It is complete exactly
   * then, and the pages are the whole list, sorted by name.
   */
  lemma WalkIsComplete(orders: nat -> seq<HostedCluster>, items: seq<HostedCluster>, size: nat, pages: seq<Page>)
    requires size >= 1 && |items| <= MAX_INT && pages != []
    requires DistinctKeys(items, BY_NAME) && SameClusters(orders, items) && Walk(orders, size, pages)
    ensures |pages| <= PageCount(|items|, size)
    ensures pages[|pages|-1].next.None? <==> |pages| == PageCount(|items|, size)
    ensures pages[|pages|-1].next.Some? ==> ParseToken(TokenAt(pages, |pages|)).Ok?
    ensures |pages| == PageCount(|items|, size) ==> Concat(pages) == Sort(items, BY_NAME)
    ensures StrictlyAscending(Sort(items, BY_NAME), BY_NAME) && Permuted(items, Sort(items, BY_NAME))
    ensures NamesAscend(Sort(items, BY_NAME))
  {
    var sorted := Sort(items, BY_NAME);
    SameLength(items);
    WalkIgnoresOrder(orders, items, size, pages);
    WalkFinishes(sorted, size, pages);
    WalkCollects(sorted, size, pages);
    SortIgnoresOrder(items, items, BY_NAME);
    assert sorted[..|items|] == sorted;
  }

  // ---- a client that follows the tokens ---------------------------------------------------

  /** Every call lists clusters that sort to this list. */
  ghost predicate SortTo(orders: nat -> seq<HostedCluster>, sorted: seq<HostedCluster>) {
    forall i :: Sort(orders(i), BY_NAME) == sorted
  }

  lemma AllSortAlike(orders: nat -> seq<HostedCluster>, items: seq<HostedCluster>)
    requires DistinctKeys(items, BY_NAME) && SameClusters(orders, items)
    ensures SortTo(orders, Sort(items, BY_NAME))
  {
    forall i ensures Sort(orders(i), BY_NAME) == Sort(items, BY_NAME) {
      SortIgnoresOrder(items, orders(i), BY_NAME);
    }
  }

  /** Any token equal to this one parses to the offset. */
  ghost predicate LeadsTo(token: string, offset: nat) {
    forall t :: t == token ==> ParseToken(t) == Ok(offset)
  }

  /** A token for this offset, if there is more to come. */
  ghost predicate GoesOn(next: Option<string>, offset: nat, total: nat) {
    (next.Some? <==> offset < total) && (next.Some? ==> LeadsTo(next.value, offset))
  }

  lemma NoTokenLeadsToStart()
    ensures LeadsTo("", 0)
  {
  }

  function PageClusters(sorted: seq<HostedCluster>, offset: nat, size: nat, m: Matrix): seq<Cluster> {
    ConvertAll(PageAt(sorted, offset, size).items, m)
  }

  /** The clusters of the first k pages. */
  function FirstPages(sorted: seq<HostedCluster>, size: nat, k: nat, m: Matrix): seq<Cluster> {
    if k == 0 then [] else FirstPages(sorted, size, k - 1, m) + PageClusters(sorted, Start(k - 1, size), size, m)
  }

  lemma {:induction false} FirstPagesCover(sorted: seq<HostedCluster>, size: nat, k: nat, m: Matrix)
    ensures FirstPages(sorted, size, k, m) == ConvertAll(sorted[..Clamp(Start(k, size), |sorted|)], m)
  {
    if k > 0 {
      var offset := Start(k - 1, size);
      FirstPagesCover(sorted, size, k - 1, m);
      SliceGrows(sorted, offset, size);
      ConvertAppends(sorted[..Clamp(offset, |sorted|)], PageAt(sorted, offset, size).items, m);
    }
  }

  /** Call k: the page at the token's offset, and a token for where it ends. */
  method Fetch(orders: nat -> seq<HostedCluster>, k: nat, m: Matrix, size: nat, token: string,
               ghost sorted: seq<HostedCluster>, ghost offset: nat)
    returns (clusters: seq<Cluster>, next: Option<string>)
    requires size >= 1 && SortTo(orders, sorted) && |sorted| <= MAX_INT
    requires LeadsTo(token, offset) && offset <= |sorted|
    ensures clusters == PageClusters(sorted, offset, size, m)
    ensures GoesOn(next, offset + size, |sorted|)
  {
    PageEnds(sorted, offset, size);
    assert ParseToken(token) == Ok(offset);
    var answer := ListClusters(Some(orders(k)), m, size, token);
    assert Sort(orders(k), BY_NAME) == sorted;
    clusters, next := answer.value.clusters, answer.value.next;
    if next.Some? {
      TokenRoundTripIff(offset + size);
    }
  }

  /** The same in terms of pages: after k of them, one more. */
  method FetchMore(orders: nat -> seq<HostedCluster>, k: nat, m: Matrix, size: nat, token: string,
                   all: seq<Cluster>, ghost sorted: seq<HostedCluster>)
    returns (more: seq<Cluster>, next: Option<string>)
    requires size >= 1 && SortTo(orders, sorted) && |sorted| <= MAX_INT
    requires LeadsTo(token, Start(k, size)) && Start(k, size) <= |sorted| && all == FirstPages(sorted, size, k, m)
    ensures more == FirstPages(sorted, size, k + 1, m) && GoesOn(next, Start(k + 1, size), |sorted|)
  {
    var page: seq<Cluster>;
    page, next := Fetch(orders, k, m, size, token, sorted, Start(k, size));
    more := all + page;
  }

  method FollowTokens(orders: nat -> seq<HostedCluster>, ghost sorted: seq<HostedCluster>, m: Matrix, size: nat)
    returns (all: seq<Cluster>, calls: nat)
    requires size >= 1 && |sorted| <= MAX_INT && SortTo(orders, sorted)
    ensures calls >= 1 && all == FirstPages(sorted, size, calls, m)
    ensures Start(calls, size) >= |sorted| && (calls > 1 ==> Start(calls - 1, size) < |sorted|)
  {
    NoTokenLeadsToStart();
    var next: Option<string>;
    all, next := FetchMore(orders, 0, m, size, "", [], sorted);
    calls := 1;
    while next.Some?
      invariant calls >= 1 && all == FirstPages(sorted, size, calls, m)
      invariant GoesOn(next, Start(calls, size), |sorted|)
      invariant calls > 1 ==> Start(calls - 1, size) < |sorted|
      decreases |sorted| - Start(calls, size)
    {
      all, next := FetchMore(orders, calls, m, size, next.value, all, sorted);
      calls := calls + 1;
    }
  }

  /**
   * Whatever order the store lists its items in on each call, a client that follows the tokens
   * gets every cluster once, in the order of their names, in max(1, ceil(n / size)) calls.
   */
  method CollectAll(orders: nat -> seq<HostedCluster>, ghost items: seq<HostedCluster>, m: Matrix, size: nat)
    returns (all: seq<Cluster>, calls: nat)
    requires size >= 1 && |items| <= MAX_INT && DistinctKeys(items, BY_NAME) && SameClusters(orders, items)
    ensures all == ConvertAll(Sort(items, BY_NAME), m) && NamesAscend(Sort(items, BY_NAME))
    ensures calls == PageCount(|items|, size)
  {
    ghost var sorted := Sort(items, BY_NAME);
    SameLength(items);
    AllSortAlike(orders, items);
    all, calls := FollowTokens(orders, sorted, m, size);
    SortIgnoresOrder(items, items, BY_NAME);
    FirstPagesCover(sorted, size, calls, m);
    PageCountBounds(|items|, size, calls);
    assert sorted[..|sorted|] == sorted;
  }
}
