/**
 * The breadth-first crawler of populate_db.py: a FIFO frontier of
 * (title, depth) entries and a visited set, seeded from the store, driving
 * fetch-then-merge cycles until the frontier is empty.
 *
 * The page source is a map from requested title to the fetched page; a
 * title that is not a key is "not found". Step and Run give the meaning of
 * one pass and of the whole loop; PopulateDatabase is the loop itself.
 */
module Crawler {
  import opened Wrappers
  import opened GraphStore

  /** Summaries are cut to their first 500 characters. */
  const SummaryLimit: nat := 500
  /** Pending store titles are queued at this depth. */
  const PendingDepth: nat := 2

  /** What the page source returns for a title that exists. */
  datatype PageInfo = PageInfo(title: string, summary: string, fullurl: string, links: seq<string>)

  type PageSource = map<string, PageInfo>

  datatype Entry = Entry(title: string, depth: nat)

  datatype Frontier = Frontier(queue: seq<Entry>, visited: set<string>, store: Store)

  ghost predicate Distinct<T>(s: seq<T>)
  {
    forall i, j :: 0 <= i < j < |s| ==> s[i] != s[j]
  }

  /** `summary[0:500]` */
  function Truncate(s: string): (r: string)
    ensures |r| == if |s| <= SummaryLimit then |s| else SummaryLimit
    ensures r == s[..|r|]
  {
    if |s| <= SummaryLimit then s else s[..SummaryLimit]
  }

  /** `[(t, d) for t in titles]` */
  function AtDepth(titles: seq<string>, d: nat): (r: seq<Entry>)
    ensures |r| == |titles|
    ensures forall i :: 0 <= i < |titles| ==> r[i] == Entry(titles[i], d)
  {
    if titles == [] then [] else [Entry(titles[0], d)] + AtDepth(titles[1..], d)
  }

  /** `.unique().tolist()`: each row once, in order of first appearance. */
  function Unique(rows: seq<string>): (r: seq<string>)
    ensures Distinct(r)
    ensures forall t :: t in r <==> t in rows
    ensures |r| <= |rows|
  {
    if rows == [] then []
    else
      var u := Unique(rows[..|rows| - 1]);
      var last := rows[|rows| - 1];
      assert rows == rows[..|rows| - 1] + [last];
      if last in u then u else u + [last]
  }

  /**
   * First appearance decides the order: the unique rows of any prefix are a
   * prefix of the unique rows of the whole.
   */
  lemma {:induction false} UniquePrefix(rows: seq<string>, k: nat)
    requires k <= |rows|
    ensures var u := Unique(rows[..k]);
      |u| <= |Unique(rows)| && u == Unique(rows)[..|u|]
  {
    if k < |rows| {
      var init := rows[..|rows| - 1];
      assert rows[..k] == init[..k];
      UniquePrefix(init, k);
    } else {
      assert rows[..k] == rows;
    }
  }

  /**
   * The two store queries at start-up return exactly the titles of the
   * resolved nodes (`url IS NOT NULL`) and of the pending nodes
   * (`url IS NULL`), in some order.
   */
  ghost predicate RowsOf(st: Store, resolvedRows: seq<string>, pendingRows: seq<string>)
  {
    (forall t :: t in resolvedRows <==> Resolved(st, t)) &&
    (forall t :: t in pendingRows <==> Pending(st, t))
  }

  /** The frontier before the main loop starts. */
  function Initial(startPages: seq<string>, resolvedRows: seq<string>, pendingRows: seq<string>,
                   st: Store): Frontier
  {
    Frontier(AtDepth(startPages, 0) + AtDepth(Unique(pendingRows), PendingDepth),
             (set t | t in resolvedRows),
             st)
  }

  /**
   * The initial queue is the start pages at depth 0 in order, then every
   * pending store title once at depth 2; visited is the set of resolved
   * store titles.
   */
  lemma InitialFrontier(startPages: seq<string>, resolvedRows: seq<string>, pendingRows: seq<string>,
                        st: Store)
    requires RowsOf(st, resolvedRows, pendingRows)
    ensures var f := Initial(startPages, resolvedRows, pendingRows, st);
      |startPages| <= |f.queue| &&
      (forall i :: 0 <= i < |startPages| ==> f.queue[i] == Entry(startPages[i], 0)) &&
      (forall e :: e in f.queue[|startPages|..] ==> e.depth == PendingDepth && Pending(st, e.title)) &&
      (forall t :: Pending(st, t) ==> Entry(t, PendingDepth) in f.queue[|startPages|..]) &&
      Distinct(f.queue[|startPages|..]) &&
      (forall t :: t in f.visited <==> Resolved(st, t)) &&
      f.store == st
  {
    var f := Initial(startPages, resolvedRows, pendingRows, st);
    assert f.queue[|startPages|..] == AtDepth(Unique(pendingRows), PendingDepth);
    PendingQueue(st, pendingRows);
  }

  /** The pending rows queued at depth 2: each pending title exactly once. */
  lemma PendingQueue(st: Store, pendingRows: seq<string>)
    requires forall t :: t in pendingRows <==> Pending(st, t)
    ensures var tail := AtDepth(Unique(pendingRows), PendingDepth);
      (forall e :: e in tail ==> e.depth == PendingDepth && Pending(st, e.title)) &&
      (forall t :: Pending(st, t) ==> Entry(t, PendingDepth) in tail) &&
      Distinct(tail)
  {
    var u := Unique(pendingRows);
    var tail := AtDepth(u, PendingDepth);
    forall e | e in tail
      ensures e.depth == PendingDepth && Pending(st, e.title)
    {
      var i :| 0 <= i < |tail| && tail[i] == e;
      assert u[i] in pendingRows;
    }
    forall t | Pending(st, t)
      ensures Entry(t, PendingDepth) in tail
    {
      var i :| 0 <= i < |u| && u[i] == t;
      assert tail[i] == Entry(t, PendingDepth);
    }
    forall i, j | 0 <= i < j < |tail|
      ensures tail[i] != tail[j]
    {
      assert u[i] != u[j];
    }
  }

  /** The entries `queue.append`ed for the links of a page: those not yet visited, in order. */
  function Enqueued(links: seq<string>, visited: set<string>, depth: nat): seq<Entry>
  {
    if links == [] then []
    else
      var last := links[|links| - 1];
      Enqueued(links[..|links| - 1], visited, depth) + (if last in visited then [] else [Entry(last, depth)])
  }

  /**
   * Exactly the links not yet visited are queued, each at the given depth;
   * a link occurring twice is queued twice.
   */
  lemma {:induction false} EnqueuedEffect(links: seq<string>, visited: set<string>, depth: nat)
    ensures var r := Enqueued(links, visited, depth);
      |r| <= |links| &&
      (forall e :: e in r ==> e.depth == depth && e.title in links && e.title !in visited) &&
      (forall l :: l in links && l !in visited ==> Entry(l, depth) in r) &&
      (forall l :: multiset(r)[Entry(l, depth)] == if l in visited then 0 else multiset(links)[l])
  {
    if links != [] {
      var init := links[..|links| - 1];
      var last := links[|links| - 1];
      assert links == init + [last];
      EnqueuedEffect(init, visited, depth);
      var piece := if last in visited then [] else [Entry(last, depth)];
      assert multiset(Enqueued(links, visited, depth)) == multiset(Enqueued(init, visited, depth)) + multiset(piece);
      assert multiset(links) == multiset(init) + multiset{last};
    }
  }

  /**
   * The queued entries keep the order of the links: queuing the links of
   * `a + b` queues those of `a`, then those of `b`.
   */
  lemma {:induction false} EnqueuedAppend(a: seq<string>, b: seq<string>, visited: set<string>, depth: nat)
    ensures Enqueued(a + b, visited, depth) == Enqueued(a, visited, depth) + Enqueued(b, visited, depth)
  {
    if b == [] {
      assert a + b == a;
    } else {
      var init := b[..|b| - 1];
      var last := b[|b| - 1];
      assert (a + b)[..|a + b| - 1] == a + init;
      EnqueuedAppend(a, init, visited, depth);
      var piece := if last in visited then [] else [Entry(last, depth)];
      assert Enqueued(a, visited, depth) + Enqueued(init, visited, depth) + piece
          == Enqueued(a, visited, depth) + (Enqueued(init, visited, depth) + piece);
    }
  }

  /** The LINKS_TO merges of the `for link in page.links` loop, in order. */
  function MergeLinks(st: Store, source: string, links: seq<string>): Store
  {
    if links == [] then st
    else MergeEdge(MergeLinks(st, source, links[..|links| - 1]), LinksTo, source, links[|links| - 1])
  }

  /**
   * The link merges of a page whose node exists add a LINKS_TO edge from it
   * to every link and a node for every link; nodes that existed keep their
   * properties and new ones are pending. Without the source node nothing is
   * written.
   */
  lemma {:induction false} MergeLinksEffect(st: Store, source: string, links: seq<string>)
    ensures var r := MergeLinks(st, source, links);
      (source !in st.pages ==> r == st) &&
      (source in st.pages ==>
        r.pages.Keys == st.pages.Keys + (set l | l in links) &&
        r.linksTo == st.linksTo + (set l | l in links :: (source, l))) &&
      (forall t :: t in st.pages ==> r.pages[t] == st.pages[t]) &&
      (forall t :: t in r.pages && t !in st.pages ==> r.pages[t] == Unfetched) &&
      r.alias == st.alias &&
      Grows(st, r)
  {
    if links != [] {
      var init := links[..|links| - 1];
      var last := links[|links| - 1];
      assert links == init + [last];
      MergeLinksEffect(st, source, init);
      var s := MergeLinks(st, source, init);
      MergeEdgeEffect(s, LinksTo, source, last);
      GrowsTransitive(st, s, MergeLinks(st, source, links));
    }
  }

  /** Everything written to the store for a found page requested as `requested`. */
  function WritePage(st: Store, requested: string, page: PageInfo): Store
  {
    var summary := Truncate(page.summary);
    var s1 := MergePage(st, page.title, summary, page.fullurl);
    var s2 := if requested != page.title
              then MergeEdge(MergePage(s1, requested, summary, page.fullurl), Alias, requested, page.title)
              else s1;
    MergeLinks(s2, page.title, page.links)
  }

  /**
   * After a found page is written: its canonical title holds the truncated
   * summary and the url; a differing requested title holds the same and has
   * an ALIAS edge to the canonical title; every link is a node with a
   * LINKS_TO edge from the canonical title; nodes created for links are
   * pending; no other node changes and nothing is removed.
   */
  lemma {:induction false} WritePageEffect(st: Store, requested: string, page: PageInfo)
    ensures var r := WritePage(st, requested, page);
      var attrs := PageAttrs(Some(Truncate(page.summary)), Some(page.fullurl));
      r.pages.Keys == st.pages.Keys + {page.title, requested} + (set l | l in page.links) &&
      r.pages[page.title] == attrs &&
      r.pages[requested] == attrs &&
      r.alias == st.alias + (if requested != page.title then {(requested, page.title)} else {}) &&
      r.linksTo == st.linksTo + (set l | l in page.links :: (page.title, l)) &&
      (forall t :: t in st.pages && t != page.title && t != requested ==> r.pages[t] == st.pages[t]) &&
      (forall t :: t in r.pages && t !in st.pages && t != page.title && t != requested ==> r.pages[t] == Unfetched) &&
      Grows(st, r)
  {
    var summary := Truncate(page.summary);
    var s1 := MergePage(st, page.title, summary, page.fullurl);
    MergePageEffect(st, page.title, summary, page.fullurl);
    var s2 := s1;
    if requested != page.title {
      var sr := MergePage(s1, requested, summary, page.fullurl);
      MergePageEffect(s1, requested, summary, page.fullurl);
      s2 := MergeEdge(sr, Alias, requested, page.title);
      MergeEdgeEffect(sr, Alias, requested, page.title);
      GrowsTransitive(s1, sr, s2);
    }
    GrowsTransitive(st, s1, s2);
    MergeLinksEffect(s2, page.title, page.links);
    GrowsTransitive(st, s2, WritePage(st, requested, page));
  }

  /** Writing a page keeps every relationship anchored at resolved pages. */
  lemma WritePageConsistent(st: Store, requested: string, page: PageInfo)
    requires Consistent(st)
    ensures Consistent(WritePage(st, requested, page))
  {
    WritePageEffect(st, requested, page);
  }

  /** Link merges that are all present already write nothing. */
  lemma {:induction false} MergeLinksPresent(st: Store, source: string, links: seq<string>)
    requires forall l :: l in links ==> (source, l) in st.linksTo && l in st.pages
    ensures MergeLinks(st, source, links) == st
  {
    if links != [] {
      var init := links[..|links| - 1];
      var last := links[|links| - 1];
      assert links == init + [last];
      MergeLinksPresent(st, source, init);
      assert (source, last) in st.linksTo;
      if source in st.pages {
        assert st.linksTo + {(source, last)} == st.linksTo;
      }
    }
  }

  /**
   * Idempotent merges: writing the same page again, for the same requested
   * title, leaves the store exactly as the first write left it.
   */
  lemma WritePageIdempotent(st: Store, requested: string, page: PageInfo)
    ensures WritePage(WritePage(st, requested, page), requested, page) == WritePage(st, requested, page)
  {
    var w := WritePage(st, requested, page);
    WritePageEffect(st, requested, page);
    var summary := Truncate(page.summary);
    var attrs := PageAttrs(Some(summary), Some(page.fullurl));
    assert w.pages[page.title := attrs] == w.pages;
    assert MergePage(w, page.title, summary, page.fullurl) == w;
    if requested != page.title {
      assert w.pages[requested := attrs] == w.pages;
      assert MergePage(w, requested, summary, page.fullurl) == w;
      assert w.alias + {(requested, page.title)} == w.alias;
      assert MergeEdge(w, Alias, requested, page.title) == w;
    }
    MergeLinksPresent(w, page.title, page.links);
  }

  /**
   * The page write as the source states its alias test: by object identity
   * (`is not`), not by value. Whether the requested title and the canonical
   * title are the same string object is not visible in the values, so it is
   * the parameter `sameObject`; only equal strings can be the same object.
   */
  function WritePageAsWritten(st: Store, requested: string, page: PageInfo, sameObject: bool): Store
    requires sameObject ==> requested == page.title
  {
    var summary := Truncate(page.summary);
    var s1 := MergePage(st, page.title, summary, page.fullurl);
    var s2 := if !sameObject
              then MergeEdge(MergePage(s1, requested, summary, page.fullurl), Alias, requested, page.title)
              else s1;
    MergeLinks(s2, page.title, page.links)
  }

  /**
   * The identity test lets an equal but distinct title string through: the
   * page then gets an ALIAS relationship to itself.
   */
  lemma AsWrittenSelfAlias(st: Store, page: PageInfo)
    ensures (page.title, page.title) in WritePageAsWritten(st, page.title, page, false).alias
  {
    var summary := Truncate(page.summary);
    var s1 := MergePage(st, page.title, summary, page.fullurl);
    var sr := MergePage(s1, page.title, summary, page.fullurl);
    var s2 := MergeEdge(sr, Alias, page.title, page.title);
    MergeEdgeEffect(sr, Alias, page.title, page.title);
    MergeLinksEffect(s2, page.title, page.links);
  }

  /** Where identity and value equality agree, the as-written write is WritePage. */
  lemma AsWrittenAgrees(st: Store, requested: string, page: PageInfo, sameObject: bool)
    requires sameObject <==> requested == page.title
    ensures WritePageAsWritten(st, requested, page, sameObject) == WritePage(st, requested, page)
  {
  }

  /** Compared by value, a page write never adds an ALIAS relationship from a page to itself. */
  lemma WritePageNoSelfAlias(st: Store, requested: string, page: PageInfo)
    ensures forall t :: (t, t) in WritePage(st, requested, page).alias ==> (t, t) in st.alias
  {
    WritePageEffect(st, requested, page);
  }

  /** The front entry is fetched and written: unvisited, not too deep, and found. */
  predicate Fetches(source: PageSource, maxDepth: int, f: Frontier)
    requires f.queue != []
  {
    var e := f.queue[0];
    e.title !in f.visited && e.depth <= maxDepth && e.title in source
  }

  /** One pass of `while queue:`. */
  function Step(source: PageSource, maxDepth: int, f: Frontier): (r: Frontier)
    requires f.queue != []
    ensures |f.queue| - 1 <= |r.queue| && r.queue[..|f.queue| - 1] == f.queue[1..]
    ensures f.visited <= r.visited <= f.visited + {f.queue[0].title}
    ensures r.visited != f.visited <==> Fetches(source, maxDepth, f)
    ensures !Fetches(source, maxDepth, f) ==> r.store == f.store && r.queue == f.queue[1..]
  {
    var e := f.queue[0];
    var rest := f.queue[1..];
    if e.title in f.visited || e.depth > maxDepth then
      f.(queue := rest)
    else if e.title !in source then
      f.(queue := rest)
    else
      var page := source[e.title];
      var visited := f.visited + {e.title};
      var queue := rest + Enqueued(page.links, visited, e.depth + 1);
      assert queue[..|rest|] == rest;
      Frontier(queue, visited, WritePage(f.store, e.title, page))
  }

  /** A pass that fetches: the pop, the visited mark, the appended links and the writes. */
  lemma StepFetch(source: PageSource, maxDepth: int, f: Frontier,
                  queue: seq<Entry>, visited: set<string>, store: Store)
    requires f.queue != [] && Fetches(source, maxDepth, f)
    requires visited == f.visited + {f.queue[0].title}
    requires queue == f.queue[1..] + Enqueued(source[f.queue[0].title].links, visited, f.queue[0].depth + 1)
    requires store == WritePage(f.store, f.queue[0].title, source[f.queue[0].title])
    ensures Step(source, maxDepth, f) == Frontier(queue, visited, store)
  {
  }

  /**
   * What a fetching pass observably does: the requested title becomes
   * visited; the rest of the queue stays in front, followed by exactly the
   * unvisited links one level deeper; both titles hold the truncated summary
   * and the url; ALIAS gains (requested, canonical) exactly when the two
   * differ; LINKS_TO gains (canonical, l) for every link.
   */
  lemma FetchEffect(source: PageSource, maxDepth: int, f: Frontier)
    requires f.queue != [] && Fetches(source, maxDepth, f)
    ensures var e, r := f.queue[0], Step(source, maxDepth, f);
      var page := source[e.title];
      var attrs := PageAttrs(Some(Truncate(page.summary)), Some(page.fullurl));
      var added := r.queue[|f.queue| - 1..];
      r.visited == f.visited + {e.title} &&
      r.queue[..|f.queue| - 1] == f.queue[1..] &&
      (forall l :: l in page.links && l !in r.visited ==> Entry(l, e.depth + 1) in added) &&
      (forall x :: x in added ==> x.depth == e.depth + 1 && x.title in page.links && x.title !in r.visited) &&
      e.title in r.store.pages && r.store.pages[e.title] == attrs &&
      page.title in r.store.pages && r.store.pages[page.title] == attrs &&
      r.store.alias == f.store.alias + (if e.title != page.title then {(e.title, page.title)} else {}) &&
      r.store.linksTo == f.store.linksTo + (set l | l in page.links :: (page.title, l))
  {
    var e := f.queue[0];
    var page := source[e.title];
    var visited := f.visited + {e.title};
    var added := Enqueued(page.links, visited, e.depth + 1);
    var queue := f.queue[1..] + added;
    var store := WritePage(f.store, e.title, page);
    StepFetch(source, maxDepth, f, queue, visited, store);
    assert queue[..|f.queue| - 1] == f.queue[1..] && queue[|f.queue| - 1..] == added;
    EnqueuedEffect(page.links, visited, e.depth + 1);
    WritePageEffect(f.store, e.title, page);
  }

  /**
   * The termination measure (|unvisited keys of the source|, |queue|)
   * decreases lexicographically on every pass.
   */
  lemma StepDecreases(source: PageSource, maxDepth: int, f: Frontier)
    requires f.queue != []
    ensures var r := Step(source, maxDepth, f);
      if Fetches(source, maxDepth, f)
      then |source.Keys - r.visited| < |source.Keys - f.visited|
      else r.visited == f.visited && |r.queue| < |f.queue|
  {
    if Fetches(source, maxDepth, f) {
      var t := f.queue[0].title;
      var r := Step(source, maxDepth, f);
      assert source.Keys - r.visited == (source.Keys - f.visited) - {t};
    }
  }

  /** The whole main loop: passes until the frontier is empty. */
  function Run(source: PageSource, maxDepth: int, f: Frontier): (r: Frontier)
    ensures r.queue == []
    ensures f.visited <= r.visited
    decreases |source.Keys - f.visited|, |f.queue|
  {
    if f.queue == [] then f
    else
      StepDecreases(source, maxDepth, f);
      Run(source, maxDepth, Step(source, maxDepth, f))
  }

  /** A pass only adds to the store and keeps it consistent. */
  lemma StepGrows(source: PageSource, maxDepth: int, f: Frontier)
    requires f.queue != []
    ensures Grows(f.store, Step(source, maxDepth, f).store)
    ensures Consistent(f.store) ==> Consistent(Step(source, maxDepth, f).store)
  {
    if Fetches(source, maxDepth, f) {
      var e := f.queue[0];
      WritePageEffect(f.store, e.title, source[e.title]);
      if Consistent(f.store) {
        WritePageConsistent(f.store, e.title, source[e.title]);
      }
    }
  }

  /**
   * A whole crawl never deletes a page, never turns a resolved page back
   * into a pending one, never drops a relationship, and keeps every
   * relationship anchored at resolved pages.
   */
  lemma {:induction false} RunGrows(source: PageSource, maxDepth: int, f: Frontier)
    ensures Grows(f.store, Run(source, maxDepth, f).store)
    ensures Consistent(f.store) ==> Consistent(Run(source, maxDepth, f).store)
    decreases |source.Keys - f.visited|, |f.queue|
  {
    if f.queue != [] {
      StepDecreases(source, maxDepth, f);
      var g := Step(source, maxDepth, f);
      StepGrows(source, maxDepth, f);
      RunGrows(source, maxDepth, g);
      GrowsTransitive(f.store, g.store, Run(source, maxDepth, g).store);
    }
  }

  /** The loop runs one pass and goes on from there. */
  lemma RunUnfold(source: PageSource, maxDepth: int, f: Frontier)
    requires f.queue != []
    ensures Run(source, maxDepth, f) == Run(source, maxDepth, Step(source, maxDepth, f))
  {
  }

  /** The requested titles fetched and written by Run, in order. */
  function Fetched(source: PageSource, maxDepth: int, f: Frontier): seq<string>
    decreases |source.Keys - f.visited|, |f.queue|
  {
    if f.queue == [] then []
    else
      StepDecreases(source, maxDepth, f);
      (if Fetches(source, maxDepth, f) then [f.queue[0].title] else [])
        + Fetched(source, maxDepth, Step(source, maxDepth, f))
  }

  /**
   * The `with driver.session()` block for a found page requested as
   * `requested`: merge the canonical node, the alias node and ALIAS edge when
   * the requested title differs, then `for link in page.links:` append each
   * unvisited link one level deeper and merge its LINKS_TO edge.
   */
  method WriteFetched(queue0: seq<Entry>, visited: set<string>, store0: Store,
                      requested: string, page: PageInfo, depth: nat)
    returns (queue: seq<Entry>, store: Store)
    ensures queue == queue0 + Enqueued(page.links, visited, depth + 1)
    ensures store == WritePage(store0, requested, page)
  {
    var summary := Truncate(page.summary);
    store := MergePage(store0, page.title, summary, page.fullurl);
    if requested != page.title {
      store := MergePage(store, requested, summary, page.fullurl);
      store := MergeEdge(store, Alias, requested, page.title);
    }
    ghost var written := store;
    queue := queue0;
    for i := 0 to |page.links|
      invariant queue == queue0 + Enqueued(page.links[..i], visited, depth + 1)
      invariant store == MergeLinks(written, page.title, page.links[..i])
    {
      var link := page.links[i];
      assert page.links[..i + 1][..i] == page.links[..i];
      if link !in visited {
        queue := queue + [Entry(link, depth + 1)];
      }
      store := MergeEdge(store, LinksTo, page.title, link);
    }
    assert page.links[..|page.links|] == page.links;
  }

  /** Putting in front a title that is in neither `rest` nor `seen` keeps titles distinct. */
  lemma PrependFresh(t: string, rest: seq<string>, seen: set<string>)
    requires t !in seen && Distinct(rest) && forall u :: u in rest ==> u !in seen + {t}
    ensures Distinct([t] + rest)
    ensures forall u :: u in [t] + rest ==> u !in seen
    ensures (set u | u in [t] + rest) == {t} + (set u | u in rest)
  {
    var ts := [t] + rest;
    forall i, j | 0 <= i < j < |ts| ensures ts[i] != ts[j] {
      if i == 0 {
        assert ts[j] in rest;
      } else {
        assert ts[i] == rest[i - 1] && ts[j] == rest[j - 1];
      }
    }
  }

  /**
   * Every title is fetched and written at most once per run, never one that
   * was visited when the run started, and always one the source has.
   */
  lemma {:induction false} FetchedOnce(source: PageSource, maxDepth: int, f: Frontier)
    ensures var ts := Fetched(source, maxDepth, f);
      Distinct(ts) &&
      (forall t :: t in ts ==> t !in f.visited && t in source)
    decreases |source.Keys - f.visited|, |f.queue|
  {
    if f.queue != [] {
      StepDecreases(source, maxDepth, f);
      var g := Step(source, maxDepth, f);
      FetchedOnce(source, maxDepth, g);
      var rest := Fetched(source, maxDepth, g);
      if Fetches(source, maxDepth, f) {
        var t := f.queue[0].title;
        assert g.visited == f.visited + {t};
        assert Fetched(source, maxDepth, f) == [t] + rest;
        PrependFresh(t, rest, f.visited);
      } else {
        assert Fetched(source, maxDepth, f) == rest;
      }
    }
  }

  /** The final visited set is the initial one plus exactly the fetched titles. */
  lemma {:induction false} FetchedVisited(source: PageSource, maxDepth: int, f: Frontier)
    ensures forall t :: t in Run(source, maxDepth, f).visited <==> t in f.visited || t in Fetched(source, maxDepth, f)
    decreases |source.Keys - f.visited|, |f.queue|
  {
    if f.queue != [] {
      StepDecreases(source, maxDepth, f);
      var g := Step(source, maxDepth, f);
      FetchedVisited(source, maxDepth, g);
      var head := if Fetches(source, maxDepth, f) then [f.queue[0].title] else [];
      var rest := Fetched(source, maxDepth, g);
      assert Fetched(source, maxDepth, f) == head + rest;
      assert forall t :: t in g.visited <==> t in f.visited || t in head;
      RunUnfold(source, maxDepth, f);
    }
  }

  /**
   * One pass of `while queue:`: pop the front entry; skip it when its title
   * is visited or it is too deep; skip it when the source does not have the
   * page; otherwise mark the requested title visited and write the page.
   */
  method CrawlPass(source: PageSource, maxDepth: int, queue0: seq<Entry>, visited0: set<string>, store0: Store)
    returns (queue: seq<Entry>, visited: set<string>, store: Store)
    requires queue0 != []
    ensures Frontier(queue, visited, store) == Step(source, maxDepth, Frontier(queue0, visited0, store0))
  {
    var entry := queue0[0];
    queue, visited, store := queue0[1..], visited0, store0;
    if entry.title in visited || entry.depth > maxDepth {
      return;
    }
    if entry.title !in source {
      return;
    }
    var page := source[entry.title];
    visited := visited + {entry.title};
    queue, store := WriteFetched(queue, visited, store, entry.title, page, entry.depth);
    StepFetch(source, maxDepth, Frontier(queue0, visited0, store0), queue, visited, store);
  }

  /**
   * `populate_database`: the store after seeding the frontier from the start
   * pages and the two store queries, and running the main loop.
   */
  method PopulateDatabase(source: PageSource, startPages: seq<string>, maxDepth: int, store0: Store,
                          resolvedRows: seq<string>, pendingRows: seq<string>)
    returns (store: Store)
    ensures store == Run(source, maxDepth, Initial(startPages, resolvedRows, pendingRows, store0)).store
  {
    ghost var final := Run(source, maxDepth, Initial(startPages, resolvedRows, pendingRows, store0));
    var queue := AtDepth(startPages, 0);
    var visited: set<string> := {};
    visited := visited + set t | t in resolvedRows;
    queue := queue + AtDepth(Unique(pendingRows), PendingDepth);
    store := store0;
    assert Frontier(queue, visited, store) == Initial(startPages, resolvedRows, pendingRows, store0);
    while queue != []
      invariant Run(source, maxDepth, Frontier(queue, visited, store)) == final
      decreases |source.Keys - visited|, |queue|
    {
      StepDecreases(source, maxDepth, Frontier(queue, visited, store));
      queue, visited, store := CrawlPass(source, maxDepth, queue, visited, store);
    }
  }
}
