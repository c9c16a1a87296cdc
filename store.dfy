/** The usual optional-value wrapper. */
module Wrappers {
  datatype Option<+T> = None | Some(value: T)
}

/**
 * The graph store as the crawler sees it: :Page nodes keyed by title, each
 * with an optional summary and an optional url, and two relationship types,
 * LINKS_TO and ALIAS. Because titles are map keys and relationships are set
 * members, MERGE is insertion and can never create a duplicate.
 */
module GraphStore {
  import opened Wrappers

  /** Properties of a :Page node; a node whose url is unset is "pending". */
  datatype PageAttrs = PageAttrs(summary: Option<string>, url: Option<string>)

  /** The node created by a bare `MERGE (b:Page {title: ...})`. */
  const Unfetched := PageAttrs(None, None)

  datatype Rel = LinksTo | Alias

  datatype Store = Store(
    pages: map<string, PageAttrs>,
    linksTo: set<(string, string)>,
    alias: set<(string, string)>)
  {
    /** The relationship set of the given type. */
    function Edges(rel: Rel): set<(string, string)>
    {
      match rel
      case LinksTo => linksTo
      case Alias => alias
    }
  }

  /** A page that has been fetched at some point: its url is set. */
  predicate Resolved(st: Store, title: string)
  {
    title in st.pages && st.pages[title].url.Some?
  }

  /** A page known only as a link target: its url is unset. */
  predicate Pending(st: Store, title: string)
  {
    title in st.pages && st.pages[title].url.None?
  }

  /**
   * Every relationship starts at a resolved page and ends at a page of the
   * store: relationships are only written right after their source page
   * was fetched, and MERGE creates their target.
   */
  ghost predicate Consistent(st: Store)
  {
    (forall e :: e in st.linksTo ==> Resolved(st, e.0) && e.1 in st.pages) &&
    (forall e :: e in st.alias ==> Resolved(st, e.0) && e.1 in st.pages)
  }

  /**
   * `b` is `a` after writes only: no page disappears, no resolved page goes
   * back to pending, no relationship disappears.
   */
  ghost predicate Grows(a: Store, b: Store)
  {
    a.pages.Keys <= b.pages.Keys &&
    (forall t :: Resolved(a, t) ==> Resolved(b, t)) &&
    a.linksTo <= b.linksTo && a.alias <= b.alias
  }

  lemma GrowsTransitive(a: Store, b: Store, c: Store)
    requires Grows(a, b) && Grows(b, c)
    ensures Grows(a, c)
  {
  }

  /** `MERGE (p:Page {title: $title}) SET p.summary = $summary, p.url = $url` */
  function MergePage(st: Store, title: string, summary: string, url: string): Store
  {
    st.(pages := st.pages[title := PageAttrs(Some(summary), Some(url))])
  }

  /** `MERGE (b:Page {title: $title})`: creates a pending node only when none exists. */
  function MergeNode(st: Store, title: string): Store
  {
    if title in st.pages then st else st.(pages := st.pages[title := Unfetched])
  }

  /**
   * `MATCH (a:Page {title: $source}) MERGE (b:Page {title: $target})
   *  MERGE (a)-[:rel]->(b)`: when no node `a` matches, nothing is written.
   */
  function MergeEdge(st: Store, rel: Rel, source: string, target: string): Store
  {
    if source !in st.pages then st
    else
      var s := MergeNode(st, target);
      match rel
      case LinksTo => s.(linksTo := s.linksTo + {(source, target)})
      case Alias => s.(alias := s.alias + {(source, target)})
  }

  /**
   * A page merge sets exactly that page's properties (resolving it) and
   * leaves every other page and every relationship alone.
   */
  lemma MergePageEffect(st: Store, title: string, summary: string, url: string)
    ensures var r := MergePage(st, title, summary, url);
      r.pages.Keys == st.pages.Keys + {title} &&
      r.pages[title] == PageAttrs(Some(summary), Some(url)) &&
      (forall t :: t in st.pages && t != title ==> r.pages[t] == st.pages[t]) &&
      r.linksTo == st.linksTo && r.alias == st.alias &&
      Grows(st, r)
  {
  }

  /**
   * A relationship merge adds the relationship and, when missing, a pending
   * target node; it changes no existing node; when its source node does not
   * exist it writes nothing.
   */
  lemma MergeEdgeEffect(st: Store, rel: Rel, source: string, target: string)
    ensures var r := MergeEdge(st, rel, source, target);
      (source !in st.pages ==> r == st) &&
      (source in st.pages ==>
        r.pages.Keys == st.pages.Keys + {target} &&
        (target !in st.pages ==> r.pages[target] == Unfetched) &&
        r.Edges(rel) == st.Edges(rel) + {(source, target)}) &&
      (forall t :: t in st.pages ==> r.pages[t] == st.pages[t]) &&
      (rel != LinksTo ==> r.linksTo == st.linksTo) &&
      (rel != Alias ==> r.alias == st.alias) &&
      Grows(st, r)
  {
  }

  /** Setting the same properties twice is the same as setting them once. */
  lemma MergePageIdempotent(st: Store, title: string, summary: string, url: string)
    ensures MergePage(MergePage(st, title, summary, url), title, summary, url)
         == MergePage(st, title, summary, url)
  {
  }

  /** Merging an existing relationship again is a no-op. */
  lemma MergeEdgeIdempotent(st: Store, rel: Rel, source: string, target: string)
    ensures MergeEdge(MergeEdge(st, rel, source, target), rel, source, target)
         == MergeEdge(st, rel, source, target)
  {
  }
}
