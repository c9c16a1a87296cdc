# neo4j-wikipedia: the crawler and the graph assembler, in Dafny

This project models the two routines of the neo4j-wikipedia repository that hold its logic.

- **The crawler** (`populate_database`). It keeps a FIFO frontier of `(title, depth)` entries and a `visited` set, both seeded from the store:
  - pages whose `url` is set are visited from the start;
  - pages whose `url` is unset ("pending") are queued at depth 2.

  Each pass pops the front entry. It skips the entry when the title is visited or the entry is too deep, and also when the page source does not know the page. Otherwise it:
  - marks the *requested* title visited;
  - merges the canonical `:Page` node with its summary cut to 500 characters and its url;
  - if the requested title differs, merges the requested title's node too, with an `ALIAS` relationship to the canonical one;
  - for each link, queues the link one level deeper unless it is visited, and merges a `LINKS_TO` relationship.
- **The graph assembler** (`get_graph_data`). It takes the one row of the neighbourhood query: the center page and its outgoing and incoming neighbours. From it, it builds the node list (groups 1, 2 and 3, deduplicated by node id through `node_ids`) and one edge per neighbour entry. When there is no row, the result is a 404.

Module layout:

- `store.dfy` (`GraphStore`) is the graph store as a value:
  - `:Page` nodes keyed by title, with an optional summary and url;
  - two relationship sets, `LINKS_TO` and `ALIAS`.

  Each Cypher `MERGE` the crawler runs is a map or set insertion. `MATCH (a) MERGE (b) MERGE (a)-[:R]->(b)` writes nothing when `a` is missing.
- `crawler.dfy` (`Crawler`) holds the crawler:
  - `Step` and `Run` give the meaning of one pass and of the whole loop, terminating on the measure (unvisited source titles, queue length);
  - `PopulateDatabase` is the `while queue:` loop, proved equal to `Run` on the initial frontier;
  - `CrawlPass` is one pass, proved equal to `Step`;
  - `WriteFetched` is the session block with its `for link in page.links:` loop.
- `graph_assembler.dfy` (`GraphAssembler`) holds the assembler:
  - `FirstById` is the reference definition of the `node_ids` filter (keep the first node of each id);
  - `Assemble` is the graph a row yields;
  - `GetGraphData` is the method with the two loops, proved to return `Assemble` of the row.

The collaborators become parameters:

- the Wikipedia client is a map `PageSource` from requested title to page (canonical title, summary, fullurl, links); a missing key is "page does not exist";
- the two start-up store queries are two row sequences, `resolvedRows` and `pendingRows`, tied to the store by `RowsOf`;
- the neighbourhood query's result is an `Option<QueryRow>`.

## Model

| member | source | states |
|---|---|---|
| GraphStore.MergePageEffect | populate_db.py:67-72 | Merging a page sets exactly that title's summary and url, so the page is resolved. Every other node and both relationship sets are unchanged. |
| GraphStore.MergeEdgeEffect | populate_db.py:98-106 | If the source node is missing, nothing is written. Otherwise the relationship is added, and so is a pending target node if it was missing. No existing node changes and the other relationship set is untouched. |
| GraphStore.MergePageIdempotent | populate_db.py:68 | Setting a page's properties twice leaves the store as setting them once does. |
| GraphStore.MergeEdgeIdempotent | populate_db.py:82-106 | Merging the same ALIAS or LINKS_TO relationship again is a no-op. |
| Crawler.Truncate | populate_db.py:70 | The summary is its prefix of length min(500, length). |
| Crawler.AtDepth | populate_db.py:32 | Each title in order, paired with the given depth. |
| Crawler.Unique | populate_db.py:45-47 | `.unique()`: the result has no repeats, the same members as the rows, and is no longer than the rows. |
| Crawler.UniquePrefix | populate_db.py:45-47 | `.unique()` keeps the order of first appearance: the unique rows of any prefix are a prefix of the unique rows of the whole. |
| Crawler.InitialFrontier | populate_db.py:32-47 | The initial queue is each start page at depth 0, in order, followed by each pending store title exactly once at depth 2. Visited is exactly the set of resolved store titles. The store is untouched. |
| Crawler.PendingQueue | populate_db.py:43-47 | The depth-2 tail holds only pending titles, holds every pending title, and has no repeats. |
| Crawler.EnqueuedEffect | populate_db.py:93-95 | Exactly the links not visited are queued, each at the given depth, and no more entries than links. Repeats are kept: an unvisited link is queued as many times as it occurs among the links. |
| Crawler.EnqueuedAppend | populate_db.py:93-95 | The queued entries keep the order of the links: queuing the links of `a + b` queues those of `a`, then those of `b`. |
| Crawler.MergeLinksEffect | populate_db.py:97-106 | If the page node exists, every link becomes a node with a LINKS_TO relationship from the canonical title. Existing nodes keep their properties, new link nodes are pending, and ALIAS is untouched. If the page node does not exist, nothing is written. |
| Crawler.WritePageEffect | populate_db.py:65-106 | After a found page is written, the canonical title and the requested title both hold the truncated summary and the fullurl. ALIAS gains (requested, canonical) exactly when the two differ. LINKS_TO gains (canonical, link) for every link. The node keys are the old ones plus the two titles and the links. Other nodes are unchanged and new link nodes are pending. |
| Crawler.WritePageConsistent | populate_db.py:82-106 | A page write keeps every relationship starting at a resolved page and ending at a store node. |
| Crawler.MergeLinksPresent | populate_db.py:98-106 | Link merges whose relationships and targets already exist write nothing. |
| Crawler.WritePageIdempotent | populate_db.py:67-106 | Writing the same page again for the same requested title leaves the store exactly as the first write left it. |
| Crawler.AsWrittenSelfAlias | populate_db.py:74-90 | With the identity test as written, a requested title equal to the canonical one but held in a different string object produces an ALIAS relationship from the page to itself. |
| Crawler.AsWrittenAgrees | populate_db.py:74-90 | When identity coincides with value equality, the as-written write equals `WritePage`. |
| Crawler.WritePageNoSelfAlias | populate_db.py:74-90 | With the test compared by value, a page write never adds an ALIAS relationship from a page to itself. |
| Crawler.Step | populate_db.py:50-106 | One pass is FIFO: the rest of the queue stays in front. Visited grows by at most the popped title, and it changes exactly when the entry is fetched (unvisited, within depth, and found). A skipped entry only leaves the queue: the store and visited are unchanged. |
| Crawler.FetchEffect | populate_db.py:56-106 | A fetching pass makes the requested title visited. The rest of the queue stays in front, followed by exactly the unvisited links at depth+1. Both the requested and the canonical title hold the truncated summary and the fullurl. ALIAS gains (requested, canonical) exactly when the two differ. LINKS_TO gains (canonical, l) for every link. |
| Crawler.StepDecreases | populate_db.py:50-62 | A fetching pass removes one title from the unvisited source titles. Every other pass leaves visited alone and shortens the queue. The loop therefore terminates. |
| Crawler.Run | populate_db.py:50-109 | The loop ends with an empty queue, and visited only grows. |
| Crawler.StepGrows | populate_db.py:65-106 | A pass never deletes a node, never turns a resolved page back into a pending one, never drops a relationship, and keeps the store consistent. |
| Crawler.RunGrows | populate_db.py:50-106 | The same holds for a whole crawl. |
| Crawler.FetchedOnce | populate_db.py:53-62 | Over a crawl, every title is fetched and written at most once. Each fetched title was not visited at the start, and the source has it. |
| Crawler.FetchedVisited | populate_db.py:53-62 | The final visited set is the initial one plus exactly the fetched titles. |
| Crawler.WriteFetched | populate_db.py:65-106 | The session block and its link loop append `Enqueued` of the links to the queue and leave the store as `WritePage`. |
| Crawler.CrawlPass | populate_db.py:50-106 | The body of `while queue:` computes `Step`. |
| Crawler.PopulateDatabase | populate_db.py:26-109 | The store after seeding the frontier and looping until the queue is empty is `Run` of the initial frontier. |
| GraphAssembler.Tagged | main.py:75-86 | A neighbour list becomes visualization nodes of one group: same ids and titles, same order. |
| GraphAssembler.GetGraphData | main.py:59-88 | No row gives exactly a 404 "Page not found", and only that case gives an error. A row gives `Assemble` of the row. |
| GraphAssembler.Absorb | main.py:76-78 | One `node_ids` check appends a node exactly when its id is new, and keeps `node_ids` equal to the ids of the list. |
| GraphAssembler.AddOutgoing | main.py:75-79 | The outgoing loop filters the neighbours as group-2 nodes and emits one edge center->n per entry, in order. |
| GraphAssembler.AddIncoming | main.py:82-86 | The incoming loop filters the neighbours as group-3 nodes and appends one edge n->center per entry, in order. |
| GraphAssembler.AssembleSteps | main.py:68-86 | The center step, then the outgoing loop, then the incoming loop, together filter all candidates at once. |
| GraphAssembler.KeepAllAppend | main.py:75-86 | Filtering one list and then another equals filtering their concatenation. |
| GraphAssembler.FirstByIdProps | main.py:64-86 | The kept nodes have pairwise distinct ids and exactly the ids of the candidates. They are candidates themselves, and there are no more of them than candidates. |
| GraphAssembler.FirstByIdFirstWins | main.py:70-85 | Every kept node is the first candidate with its id. |
| GraphAssembler.CandidateGroup | main.py:69-85 | The first candidate with an id gets group 1 if the id is the center's. Otherwise it gets group 2 if the id is an outgoing neighbour's, even when that neighbour is also incoming. Otherwise it gets group 3. |
| GraphAssembler.KeptGroups | main.py:69-85 | Every output node carries the group given by first assignment. |
| GraphAssembler.CandidateIds | main.py:69-86 | The candidate ids are the center id plus all outgoing and incoming neighbour ids. |
| GraphAssembler.EdgesAt | main.py:75-86 | There are as many edges as outgoing and incoming entries together. First comes one edge center->n for each outgoing entry, then one edge n->center for each incoming entry, in input order. |
| GraphAssembler.EdgesCovered | main.py:75-86 | When the node ids cover the center and all neighbours, no edge endpoint is missing. |
| GraphAssembler.FirstByIdPrefix | main.py:69-72 | The first candidate, the center, is always kept, in front. |
| GraphAssembler.GraphFacts | main.py:64-88 | The assembled graph:<br>- has the center first, with group 1;<br>- has pairwise distinct node ids, with first assignment winning the groups;<br>- has node ids that are exactly the center's and all neighbours';<br>- has at most one node more than there are neighbour entries;<br>- has one edge per neighbour entry, in input order;<br>- has no dangling edge endpoint. |

## Left out

- The Neo4j driver, sessions, Cypher execution and `to_df()` are not modelled. The store is the value `Store`, and the query results are parameters: `resolvedRows`, `pendingRows` and the `QueryRow` option.
- `RowsOf` assumes that the start-up queries return exactly the resolved and pending titles. The order of their rows is left open.
- The `wikipediaapi` client is the map `PageSource`, a fixed snapshot of Wikipedia during a crawl. Network failures and exceptions are not modelled.
- PopulateDatabase takes `maxDepth` as a required parameter. The default `max_depth=2` of populate_db.py:26 is not modelled, because a default argument is only a call-site convenience. The `__main__` block passes 7.
- `create_constraints` is not modelled. Title uniqueness comes from titles being map keys.
- `time.sleep`, `print`, the dotenv configuration and the `__main__` block are left out, because they are timing, logging and setup.
- The FastAPI application is left out: CORS, `search_pages`, the 503 checks for a missing driver, and the shutdown hook. They are HTTP plumbing.
- The Cypher query of `get_graph_data` is left out. The model receives its row: the center node and the `collect(DISTINCT ...)` lists.
- Node ids are plain integers, and the JSON dictionaries are the datatypes `VNode` and `Edge`. Their `label` field is named `caption`, because `label` is a Dafny keyword.
- WritePage: the source's alias test is the identity test `is not`. `WritePage`, which the rest of the model uses, compares by value (`!=`), so it differs from the code whenever equal titles are distinct string objects. `WritePageAsWritten` models the identity test; see "## Findings".
- The code marks the requested title visited (populate_db.py:62), not the canonical title. The model follows the code, so a page reached under two different titles is fetched once per title.
- Strings are sequences of characters. The 500-character cut is by character, as Python's slice is on code points.

## Findings

| source | as written | input that shows it | evidently intended | confidence | as-written member | corrected member |
|---|---|---|---|---|---|---|
| populate_db.py:74 | `if page_title is not page.title:` compares string identity | A requested title equal to the canonical title but held in a different string object, as a title read back from the API response is. | Compare by value (`!=`), so that only a redirected title gets an alias node and an ALIAS relationship. | medium, not executed | Crawler.AsWrittenSelfAlias | Crawler.WritePageNoSelfAlias |
