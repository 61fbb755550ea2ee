# Markov-chain structure analysis, modelled in Dafny

The C program reads a finite Markov chain as a weighted directed graph. Vertices
are 1..n, and each vertex has a linked list of (destination, probability) cells.
From this graph it:

- splits the graph into strongly connected components with Tarjan's algorithm
  (`tarjan_run`);
- maps each vertex to its class and collects the links between classes
  (`build_class_links`);
- removes the transitive links to get a Hasse diagram (`removeTransitiveLinks`);
- labels each class transient, persistent or absorbing, and decides whether the
  chain is irreducible (`printGraphCharacteristics`);
- turns the graph into an n-by-n transition matrix and extracts the principal
  submatrix of a class (`matrix.c`).

This project models those steps and proves what they compute.

- **The graph** (`graph.dfy`, module `Graph`):
  - `AdjList` is a class whose array `arr` holds one list per vertex 0..n.
  - A list is a `seq<Cell>` read from its head.
  - `adj_add_edge` rewrites one entry of that array.
- **The growable C arrays** (`tarjan_data.dfy`, module `TarjanData`):
  - The stack, a class's members and the partition's classes are `seq`
    fields reassigned by methods.
  - Each keeps its capacity, updated by the source's growth rule.
- **The link array** (`links.dfy`, module `Links`) is an `array<Link>` buffer
  with a `size`, as in `t_link_array`. Compaction happens in place in that
  buffer.
- **Tarjan's traversal** is proved in two layers:
  - `tarjan_dfs` and `tarjan_run` are methods on the mutable vertex records,
    stack and partition (module `Tarjan`). They are proved to compute the
    functions `Dfs`, `Explore` and `Run` of module `TarjanSpec`, which follow
    the same branches on state values.
  - `TarjanSpec` then proves, through the invariant in module
    `TarjanInvariant`, that these classes:
    - partition the vertices 1..n;
    - are exactly the strongly connected components (module `SccSpec`);
    - come out in reverse topological order.
  - Module `TarjanNumbering` proves the discovery numbering of the same
    functions: each visit raises the counter by exactly the number of
    vertices it visits, and after a run the counter is n and the vertices
    1..n hold the indices 0..n-1, one each.
  - Reachability is defined in module `Reachability`.
- **The condensation** (`condensation.dfy`):
  - `build_vertex_to_class` is specified by the function `ClassMap`.
  - `build_class_links` is specified by `ClassLinks`: the cross-class links of
    each vertex's edges, vertex by vertex and in list order, with later
    duplicates dropped.
- **The Hasse reduction** (`hasse.dfy`) is specified by the function `Reduce`.
- **Classification** (`classification.dfy`) returns the report as a value
  instead of printing it.
- **The matrices** (`matrix.dfy`) are `array2<real>`. The entries are only
  stored and moved, never computed with.

Two behaviours of the code are worth knowing before reading the table:

- **Class order.** `tarjan_run` emits a component only after every component
  it reaches, so the sink components come first (`RunCorrect`'s reverse
  topological order). On the chain 1->2, 2->1, 2->3, 3->3 the first class,
  `C1`, is {3} and the second is {1,2} (`ExampleRun`).
- **Transient and persistent labels.** `caracteristiques.c:14` reads a link's
  source class with an extra `- 1`, while `build_class_links` numbers classes
  from 0. `Characterize` takes that offset as a parameter, so both readings are
  modelled. The consequence is the finding at the end.

## Model

| member | source | states |
|---|---|---|
| Graph.PushFront | graph.c:23-27 | the new cell (dest, prob) becomes the head and the old list follows it unchanged |
| Graph.AdjList.constructor | graph.c:41-52 | the graph has the given n and lists 0..n, all empty; list 0 is unused and every destination is in 1..n |
| Graph.AdjList.AddEdge | graph.c:54-61 | an edge is accepted exactly when both ends lie in 1..n; an accepted edge puts (v, p) at the head of u's list and leaves every other list as it was; a refused edge changes nothing |
| Graph.ListOrderIsReverseOfInsertion | graph.c:59-60 | after any sequence of accepted edge additions, each vertex's list is the cells added to it in reverse call order, followed by what it held before |
| Graph.AdjFree | graph.c:70-83 | afterwards the graph has no array; n becomes 0, except that a graph whose array was already gone keeps its n |
| TarjanData.InitVertices | tarjan.c:5-20 | no array exactly when the graph is missing or has n <= 0; otherwise records 0..n, record i having id i, index and lowlink -1 and not on the stack |
| TarjanData.Grown | tarjan.c:30-39 | a grown capacity is larger than the old one and at least 4 |
| TarjanData.IntStack.constructor | tarjan.c:42-53 | an empty stack whose capacity is the requested one, or 4 when the request is below 1 |
| TarjanData.IntStack.Push | tarjan.c:56-59 | v is on top of the old contents; the capacity grows by the growth rule exactly when the stack was full |
| TarjanData.IntStack.Pop | tarjan.c:62-68 | on a non-empty stack, the top is returned and removed and the rest is kept; on an empty stack it is an error (None) and nothing changes |
| TarjanData.IntStack.Peek | tarjan.c:71-77 | an error exactly on an empty stack; otherwise the top, with the stack unchanged |
| TarjanData.IntStack.Empty | tarjan.c:80-82 | true exactly when the stack holds nothing |
| TarjanData.PushThenPop | tarjan.c:56-68 | a pop right after a push returns the pushed value and restores the contents from before the push |
| TarjanData.Truncate | tarjan.c:98-99 | the copied name has at most the buffer's 7 characters, is a prefix of the given one, and is the whole of it when that fits |
| TarjanData.TarjanClass.constructor | tarjan.c:95-107 | no members, capacity 0; the given name cut to 7 characters, or "C?" without a name |
| TarjanData.TarjanClass.AddMember | tarjan.c:122-125 | the vertex is appended at position size, earlier members and the name stay, and the capacity grows only when it was full |
| TarjanData.TarjanPartition.constructor | tarjan.c:148-154 | no classes, capacity 0 |
| TarjanData.TarjanPartition.AddClass | tarjan.c:169-172 | the class is appended at position size, earlier classes stay, and the capacity grows only when it was full |
| TarjanData.ClassName | tarjan.c:228-229 | a class name is "C" followed by digits, between 2 and 7 characters long |
| TarjanData.ClassNameUncut | tarjan.c:228-229 | up to 999999 classes the name of class k is exactly "C" followed by k in decimal |
| TarjanSpec.LastIndex | tarjan.c:233-237 | the pop loop stops at the topmost occurrence of u: that position holds u and no position above it does |
| TarjanSpec.Dfs | tarjan.c:199-241 | visiting u gives it the entry counter as index, raises the counter, shrinks the set of unvisited vertices, keeps earlier records and classes, and only pushes previously unvisited vertices above the entry stack |
| TarjanSpec.Explore | tarjan.c:213-224 | exploring u's edges changes no other visited record, keeps u's index, only appends classes and only pushes newly visited vertices |
| TarjanSpec.DfsCorrect | tarjan.c:199-241 | one visit keeps the invariant: every visited record has 0 <= lowlink <= index < counter, on_stack is exactly stack membership, the stack is in index order, and every emitted class is a whole component; a root leaves the stack as it found it and its class ends with u; a non-root stays on the stack with a lower lowlink that it reaches |
| TarjanSpec.RunCorrect | tarjan.c:244-263 | the classes of a run cover every vertex 1..n exactly once, two vertices share a class exactly when each reaches the other, and an edge leaving a class ends in that class or an earlier one |
| TarjanNumbering.PushedNumbered | tarjan.c:206-208 | a visit hands the vertex the counter as its index: exactly one vertex leaves the unvisited set, and gap-free distinct numbering below the counter is kept |
| TarjanNumbering.DfsNumbering | tarjan.c:199-241 | tarjan_dfs raises the counter by exactly the number of vertices it newly visits, keeps the indices distinct and gap-free, and never visits slot 0 |
| TarjanNumbering.StepNumbering | tarjan.c:215-222 | one edge of the loop raises the counter by exactly the number of vertices its traversal visits (none for an already visited end) and keeps the numbering |
| TarjanNumbering.ExploreNumbering | tarjan.c:213-224 | the edge loop of u raises the counter by exactly the number of vertices it newly visits and keeps the numbering |
| TarjanNumbering.RunFromNumbering | tarjan.c:253-257 | the loop of tarjan_run raises the counter by exactly the number of vertices it visits and keeps the numbering |
| TarjanNumbering.RunFromVisits | tarjan.c:253-257 | after the loop every vertex 1..n has been visited |
| TarjanNumbering.InitialNumbered | tarjan.c:249-252 | before the loop no number is used and all n+1 record slots are unvisited |
| TarjanNumbering.FinalNumbering | tarjan.c:206-208 | once 1..n are visited and slot 0 is not, the indices of 1..n are pairwise distinct, below the counter, and cover every number below it |
| TarjanNumbering.RunNumbering | tarjan.c:244-263 | after a run the counter is n and the vertices 1..n hold the discovery indices 0..n-1, one each: pairwise distinct, in range, and every number used |
| TarjanInvariant.FinalPartition | tarjan.c:253-257 | once every vertex is visited and the stack is empty, the classes are a partition into components in reverse topological order |
| Tarjan.TarjanEdge | tarjan.c:214-223 | the records, stack, partition and counter after one edge are those of Step: an unvisited v is explored and u's lowlink takes v's when smaller; a v still on the stack lowers u's lowlink to v's index |
| Tarjan.ExploreEdges | tarjan.c:213-224 | the structures after u's edge loop hold Explore of the state before it |
| Tarjan.PopComponent | tarjan.c:227-240 | the stack is popped down to the topmost u into a new class named "C" followed by the class count, which is appended to the partition |
| Tarjan.PopInto | tarjan.c:233-239 | the stack keeps what lay below u; the class receives the popped vertices in pop order, so u is its last member; exactly those vertices are marked off the stack |
| Tarjan.TarjanDfs | tarjan.c:199-241 | the records, stack, partition and counter after the visit of u hold Dfs of the state before it; class names stay "C1", "C2", ... in order |
| Tarjan.TarjanRun | tarjan.c:244-263 | a missing or empty graph gives no class; otherwise the partition is Run of the graph, so it partitions 1..n into the strongly connected components in reverse topological order, named C1, C2, ... in creation order |
| Links.LinkArray.constructor | tarjan.c:309-311 | no links and an empty buffer |
| Links.LinkArray.Push | tarjan.c:295-305 | (a, b) is appended after the links in use; a full buffer is replaced by one of capacity 8, or twice the old from 8 on |
| Links.LinkArray.Exists | tarjan.c:271-276 | true exactly when (from, to) is among the links in use |
| Condensation.ClassMapMeaning | tarjan.c:279-292 | vertex 0 and a vertex in no class map to -1; otherwise a vertex maps to the last class that holds it |
| Condensation.PartitionMap | tarjan.c:284-290 | for a partition of 1..n, the map names a vertex's class exactly |
| Condensation.BuildVertexToClass | tarjan.c:279-292 | the array has n + 1 entries and equals ClassMap of the partition's member lists |
| Condensation.Dedup | tarjan.c:321-322 | skipping links already present keeps exactly the same set of links |
| Condensation.DedupDistinct | tarjan.c:321-322 | no link is produced twice |
| Condensation.ClassLinksMembership | tarjan.c:315-325 | a link is produced exactly when some edge u -> v joins two different existing classes in that direction; in particular no link goes from a class to itself |
| Condensation.FirstEncounterOrder | tarjan.c:315-325 | links come out in the order their first witness edge is met: vertices ascending, then list order |
| Condensation.LinksPointBackward | tarjan.c:308-328 | on Tarjan's partition every link goes from a later class to an earlier one |
| Condensation.AddCell | tarjan.c:318-323 | one cell adds its candidate link exactly when both classes exist, they differ and the link is new |
| Condensation.AddEdgeLinks | tarjan.c:317-324 | a vertex's cells, in list order, extend the links as Dedup of the candidates so far |
| Condensation.AddVertexLinks | tarjan.c:316-324 | after vertex u the links are Dedup of the candidates of vertices 1..u |
| Condensation.AddAllLinks | tarjan.c:315-325 | after all vertices the links are ClassLinks of the graph and the class map |
| Condensation.BuildClassLinks | tarjan.c:308-328 | the links are reset and then are exactly ClassLinks of the graph and the partition's class map |
| Hasse.MarkTransitive | hasse.c:16-45 | the marker of a link in use is set exactly when two links at two different positions of the original array (possibly including itself) form a path of two hops from its source to its destination |
| Hasse.Compact | hasse.c:47-55 | the unmarked links are moved down in order, the size becomes their number, and the buffer cells from the new size on are untouched |
| Hasse.RemoveTransitiveLinks | hasse.c:13-56 | a missing array, or one of at most two links, is left as it is; otherwise the links in use become Reduce of the original links, in the same buffer |
| Hasse.ReduceMembership | hasse.c:26-45 | with more than two links, a link survives exactly when it was in the input and no two links at different positions of the input (possibly including itself) form a two-hop path for it |
| Hasse.ReduceIsSubsequence | hasse.c:47-55 | the result is the input with some links left out, in the original relative order, never longer |
| Hasse.SurvivorsHaveNoTwoHop | hasse.c:26-55 | no survivor has a two-hop path made of two survivors |
| Hasse.ReduceIdempotent | hasse.c:13-56 | removing the transitive links a second time removes nothing more |
| Classification.OutgoingFlags | caracteristiques.c:10-17 | hasOutgoing[c] holds exactly when some link's source, minus the given offset, is c; sources outside 0..nbClasses-1 are ignored |
| Classification.Characterize | caracteristiques.c:3-56 | one report per class, in partition order, with its name and members; transient exactly when it has an outgoing link; absorbing exactly when persistent with one member, naming that member; irreducible exactly when there is one class |
| Classification.TransientIffLeaves | caracteristiques.c:13-17 | reading build_class_links's 0-based sources, a class has an outgoing link exactly when one of its members has an edge leaving it |
| Classification.ReducePreservesOutgoing | hasse.c:47-55 | when every link points to a lower class, the reduction keeps every class's outgoing link, if it has one |
| Classification.ClassificationOfRun | caracteristiques.c:29-34 | on Tarjan's classes, a class's label is the same before and after the reduction, and it is transient exactly when one of its members has an edge leaving it |
| Classification.ChainClasses | tarjan.c:244-263 | any partition of the chain 1->2, 2->1, 2->3, 3->3 into components in reverse topological order is {3} followed by {1,2} |
| Classification.ExampleRun | tarjan.c:244-263 | Tarjan's run on that chain emits exactly two classes, {3} first and then one holding 1 and 2 |
| Classification.SourceReadingSwapsLabels | caracteristiques.c:14 | on Tarjan's classes of that chain the one link is (1, 0); read with the source's - 1 it marks the absorbing class {3} and not {1,2}; read from 0 it marks {1,2} only |
| Matrix.MatrixCreate | matrix.c:7-23 | an n-by-n matrix with every entry 0 |
| Matrix.MatrixCopy | matrix.c:42-46 | the leading n-by-n block of dest equals that of src, the rest of dest is untouched, and src keeps its entries |
| Matrix.LastProbMeaning | matrix.c:58-61 | a probability is found for v exactly when some cell goes to v, and it is that of a cell to v after which no cell goes to v |
| Matrix.EntryOfEdge | matrix.c:57-62 | the entry for u -> v is 0 when u has no edge to v, and otherwise the probability of u's last cell to v in list order |
| Matrix.MatrixFromGraph | matrix.c:53-65 | the matrix is n-by-n and entry (u-1, v-1) is the entry of u's list for v |
| Matrix.ClosedClassRows | matrix.c:135-143 | in the rows of a class that no edge leaves, every column of a vertex outside the class is 0 |
| Matrix.SubMatrix | matrix.c:119-146 | an index outside the partition gives no matrix and leaves the size as it was; otherwise the size is the class's member count and S[i][j] is the matrix entry for members i and j, in member-list order |

## Left out

- readGraph (graph.c:87-113) and main.c are file reading and a fixed path. They are not part of this model.
- Rendering is left out because it is only console and file output. This covers class_print, partition_print, print_class_links, hasse_to_mermaid, matrix_print, adj_print, list_print and the text printed by printGraphCharacteristics.
- matrix_mult and matrix_diff are floating-point arithmetic, and matrix.c has no loop that iterates them to convergence. Probabilities and matrix entries are `real` values that are only stored and moved.
- A failing malloc, calloc or realloc ends the program. The model treats allocation as always succeeding.
- The free functions are left out because they only release memory: tarjan_free_vertices, stack_free, class_free, partition_free and matrix_free. AdjFree models only the fields adj_free resets.
- make_cell and make_list have no member of their own. A cell is the datatype value `Cell(dest, prob)`, whose `next` is its position in the list, and an empty list is `[]`.
- Graph.AdjList.AddEdge: an edge out of bounds ends the program in the source. Here it returns false and changes nothing.
- TarjanData.IntStack.Pop and TarjanData.IntStack.Peek: on an empty stack the source prints an error and exits. Here they return None.
- C `int` overflow of the index counter, the capacities and the class count is not modelled. Integers are unbounded.
- The linked list cells are values, so a list is a `seq<Cell>`. Sharing of cells between lists cannot arise in the source and is not modelled.
- A matrix is a Dafny `array2` rather than a `float**` of separately allocated rows, so aliasing between rows is not modelled.
- partition_add_class stores a shallow copy of the class struct, which shares the member buffer. The partition stores the class's fields as a value, so that sharing is not modelled.
- Condensation.Candidate: a destination outside 0..n adds no link. The source would read outside the map there, but adj_add_edge never stores such a destination.
- Matrix.SubMatrix requires every member of the class to be a vertex of the matrix, as the source's reads need. The out-of-range read it would otherwise make is undefined behaviour.
- The call depth of the recursive traversal, and the C call stack overflow it can cause on deep graphs, are not modelled.

## Findings

| source | as written | input that shows it | evidently intended | confidence | as-written member | corrected member |
|---|---|---|---|---|---|---|
| caracteristiques.c:14 | the source class of a link is taken as `from - 1`, while build_class_links stores 0-based class positions (tarjan.c:316), so a link from class c marks class c - 1 | the chain 1->2, 2->1, 2->3, 3->3: Tarjan's run gives the classes {3} (C1) and {1,2} (C2) and build_class_links the one link (1, 0); as written, C1 {3} is reported transient and C2 {1,2} persistent, the reverse of the truth | class c is transient exactly when some link's source is c, that is, when one of its members has an edge leaving it | not executed | Classification.SourceReadingSwapsLabels | Classification.ClassificationOfRun |
