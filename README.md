# influx: dependency ordering and `@Singleton` checks

This project models two parts of the influx dependency-injection tool in org.voidzero.influx. It proves properties of both.

- **`TopologicalSort<T>`** takes an adjacency map from each vertex to the vertices it depends on. A depth-first search builds a post-order. Without a cycle, `topologicalSort()` returns that post-order reversed. When the search meets an edge back into the active call chain, it returns the list `cycleNodes` that reports the cycle, but only if the loop that builds that list ends. That loop ends only for a self-loop or when the stack's first element is the neighbour hit. Otherwise it never ends (see "## Findings"), and the call fails with `OutOfMemoryError` instead. The class `Topological.TopologicalSort` keeps the Java fields:
  - `visited`
  - `recursionStack`
  - `topologicalOrder`
  - `cycleDetected`
  - `cycleNodes`

  Its methods follow `topologicalSort()` and the recursive `dfs`. A ghost field `path` holds the chain of active `dfs` frames. The proofs show that `recursionStack` holds exactly the vertices of `path`. A ghost field `trueCycle` holds the cycle that the back edge closes.
- **The `@Singleton` checks of `InfluxProcessor`.** `process` claims a non-empty set of annotations. `processSingleton` goes through the elements annotated with `@Singleton`:
  - it skips those that are not of declared type;
  - it casts the rest to `TypeElement`. For an element of declared type that is not a type declaration, such as a field or parameter of class type, the cast throws `ClassCastException`, and the exception ends the loop and `process`;
  - it skips names already in the static `classCache`;
  - it caches every new name;
  - it runs three independent checks on it: not an interface, not an abstract class, and has a no-arg constructor.

  Elements are a small datatype. The `Messager` becomes a list of (class name, reason) records. The loop is specified by the function `SingletonRound` over a `Round` value: the cache, the checked names, the diagnostics, and whether the exception has been thrown. The lemmas about `SingletonRound` state the caching guarantees.

`sequences.dfy` holds the sequence facts both parts use: no repetitions, and the set of elements.

Three points about what the code does:

- For an edge `A -> B` (A depends on B), the code returns `[A, B]`: the reversed post-order lists a vertex before what it depends on.
- The code reports a cycle as `[n, v, n]`, where `v` is the current vertex and `n` the neighbour on the stack, when the cycle loop stops. It is `[n, n]` for a self-loop. The path in between is not recorded.
- The code runs all three `@Singleton` checks on every new class and can print several errors for one class. It does not stop at the first.

## Model

In this table, `TopologicalSort.java` is src/main/java/org/voidzero/influx/TopologicalSort.java and `InfluxProcessor.java` is src/main/java/org/voidzero/influx/InfluxProcessor.java.

| member | source | states |
|---|---|---|
| Topological.TopologicalSort.constructor | src/main/java/org/voidzero/influx/TopologicalSort.java:13-20 | The sorter starts with the graph, empty `visited`, `recursionStack`, `topologicalOrder` and `cycleNodes`, and `cycleDetected` false; the search invariant holds. |
| Topological.TopologicalSort.Sort | src/main/java/org/voidzero/influx/TopologicalSort.java:22-38 | A list is returned exactly when the graph (keys and the neighbours of keys) has no cycle. That list then holds every vertex exactly once, lists each vertex before its neighbours, and `cycleDetected` stays false. Otherwise the graph has a real cycle made of vertices still on `recursionStack`, none of them emitted. A reported cycle is `cycleNodes`, with `cycleDetected` set, and begins and ends with the neighbour that closed it. |
| Topological.TopologicalSort.SearchKeys | src/main/java/org/voidzero/influx/TopologicalSort.java:23-30 | The key loop: when no `dfs` reports a cycle, every key is visited, the stack is empty and the search invariant holds; otherwise it stops at the first cycle, with the cycle facts of `Dfs`. |
| Topological.TopologicalSort.Dfs | src/main/java/org/voidzero/influx/TopologicalSort.java:40-65 | `dfs(vertex)` on an unvisited vertex keeps the search invariant. If it finishes, `recursionStack` is unchanged and the vertex has been appended after all its neighbours. If it stops at a cycle, the vertex stays on the stack and the cycle it reports is a real cycle of the graph. The order only grows. |
| Topological.TopologicalSort.VisitNeighbors | src/main/java/org/voidzero/influx/TopologicalSort.java:44-61 | The neighbour loop: unvisited neighbours are searched, and a neighbour on the stack closes a cycle. If the loop ends, every neighbour is in the post-order and the stack is unchanged. |
| Topological.TopologicalSort.CloseCycle | src/main/java/org/voidzero/influx/TopologicalSort.java:50-58 | A back edge `vertex -> neighbor` into the stack yields a real cycle from `neighbor` along the call chain to `vertex` and back, a single edge exactly for a self-loop. The loop closes exactly when `vertex == neighbor` or the stack's first element is `neighbor`; otherwise it runs away. |
| Topological.TopologicalSort.TraceCycle | src/main/java/org/voidzero/influx/TopologicalSort.java:51-57 | The cycle loop gives `[n, n]` for a self-loop and `[n, v, n]` when the stack's first element is `n`. Otherwise it gives `[n, v]` plus the first element, and then repeats it without end. |
| Topological.Enter | src/main/java/org/voidzero/influx/TopologicalSort.java:41-42 | Marking an unvisited vertex visited and pushing it keeps the search invariant: the stack is the set of the call chain, and the chain is a walk of the graph. |
| Topological.Leave | src/main/java/org/voidzero/influx/TopologicalSort.java:62-63 | Popping a vertex whose neighbours are all finished and appending it keeps the post-order without repetitions, with every edge pointing backwards in it. |
| Topological.CycleFromPath | src/main/java/org/voidzero/influx/TopologicalSort.java:50-58 | The cycle a back edge closes: it starts and ends at the neighbour hit, and its second-to-last vertex is the current one. |
| Topological.BackEdgeCycle | src/main/java/org/voidzero/influx/TopologicalSort.java:50-58 | That path segment is a cycle of the graph without repeated vertices, on `recursionStack` and absent from the post-order; it is a single edge exactly for a self-loop. |
| Topological.ReverseKeepsElements | src/main/java/org/voidzero/influx/TopologicalSort.java:35 | `Collections.reverse` keeps the length and the elements of the list, and a list without repetitions stays without them. |
| Topological.ReverseTwice | src/main/java/org/voidzero/influx/TopologicalSort.java:35 | `Collections.reverse` undoes itself: reversing the list again gives it back. |
| Topological.NeighborIsVertex | src/main/java/org/voidzero/influx/TopologicalSort.java:44 | `getOrDefault`: a vertex with a neighbour is a key of the map, so a vertex that is not a key has no neighbours; every neighbour is a vertex. |
| Topological.ReversedPostOrderPointsForward | src/main/java/org/voidzero/influx/TopologicalSort.java:35-36 | Reversing a post-order in which every edge points backwards gives a list in which every edge points forwards. |
| Topological.FinishedSearchCoversVertices | src/main/java/org/voidzero/influx/TopologicalSort.java:23-25 | Once every key is visited and the stack is empty, the post-order holds every vertex, including neighbours that are not keys. |
| Topological.ReversedSearchIsTopological | src/main/java/org/voidzero/influx/TopologicalSort.java:32-37 | The list returned without a cycle is a topological order of all vertices, of the same size as the vertex set, and the graph is acyclic. |
| Topological.ForwardOrderIsAcyclic | src/main/java/org/voidzero/influx/TopologicalSort.java:32-37 | A graph with a list over its vertices in which every edge points forwards has no cycle. |
| Topological.SelfLoopExample | src/main/java/org/voidzero/influx/TopologicalSort.java:50-57 | The graph `1 -> 1` reports the cycle `[1, 1]`. |
| Topological.EmptyGraphExample | src/main/java/org/voidzero/influx/TopologicalSort.java:22-36 | The empty graph sorts to the empty list. |
| Topological.ChainOrder | src/main/java/org/voidzero/influx/TopologicalSort.java:32-36 | The only topological order of `1 -> 2` is `[1, 2]`. |
| Topological.ChainExample | src/main/java/org/voidzero/influx/TopologicalSort.java:22-36 | The graph `1 -> 2` sorts to `[1, 2]`: the dependent comes first. |
| Topological.RunawayExample | src/main/java/org/voidzero/influx/TopologicalSort.java:52-56 | In `1 -> 2 -> 3 -> 2` searched from `1`, when the stack's first element is `1`, the cycle loop never ends. |
| Processor.Message | src/main/java/org/voidzero/influx/InfluxProcessor.java:152-183 | The error text of a diagnostic starts with the class name, followed by a non-empty wording of the reason. |
| Processor.IsInterface | src/main/java/org/voidzero/influx/InfluxProcessor.java:120-126 | An interface is never a class. |
| Processor.IsClass | src/main/java/org/voidzero/influx/InfluxProcessor.java:124-126 | A class is a type element, so the cast at line 82 succeeds on it. |
| Processor.IsAbstractClass | src/main/java/org/voidzero/influx/InfluxProcessor.java:132-134 | An abstract class is a class, and so never an interface: an interface never draws the abstract-class error. |
| Processor.IsConcreteClass | src/main/java/org/voidzero/influx/InfluxProcessor.java:124-134 | A concrete class is a class; for a class, exactly one of concrete and abstract holds. |
| Processor.ClassIsConcreteOrAbstract | src/main/java/org/voidzero/influx/InfluxProcessor.java:124-134 | An element is a class exactly when it is concrete or abstract, and it is never both. |
| Processor.HasNoArgConstructor | src/main/java/org/voidzero/influx/InfluxProcessor.java:136-150 | The scan returns true exactly when some enclosed element is a constructor without parameters. |
| Processor.Checks | src/main/java/org/voidzero/influx/InfluxProcessor.java:96-98 | The three checks all run: each error is printed exactly when its condition fails, only about the class checked, and at most two at once, since an element cannot be both interface and abstract class. |
| Processor.SingletonRound | src/main/java/org/voidzero/influx/InfluxProcessor.java:73-105 | The loop of `processSingleton`: the cache only grows, names checked and errors printed before are kept in order, and once the exception has been thrown nothing changes. |
| Processor.RoundThrows | src/main/java/org/voidzero/influx/InfluxProcessor.java:78-82 | The loop throws `ClassCastException` exactly when some element is of declared type but not a type element, or when the exception was already thrown. |
| Processor.RoundStopsAtCast | src/main/java/org/voidzero/influx/InfluxProcessor.java:73-93 | The first element that fails the cast ends the loop. The elements before it are processed normally, that one is not cached, and none after it is looked at. |
| Processor.RoundAfterThrow | src/main/java/org/voidzero/influx/InfluxProcessor.java:73-82 | Once the exception is thrown, the remaining elements change nothing. |
| Processor.FieldStopsTheLoop | src/main/java/org/voidzero/influx/InfluxProcessor.java:73-93 | A field of class type annotated `@Singleton`, followed by a class: the loop throws at the field, and the class after it is neither cached nor checked. |
| Processor.RoundCache | src/main/java/org/voidzero/influx/InfluxProcessor.java:77-93 | The cache after the loop holds at most the earlier names plus the names of the elements of declared type. When no exception is thrown, it holds exactly those. |
| Processor.RoundKeepsConsistent | src/main/java/org/voidzero/influx/InfluxProcessor.java:87-93 | Every cached name has gone through the checks exactly once. The loop keeps this true. |
| Processor.RoundChecksOnlyNewNames | src/main/java/org/voidzero/influx/InfluxProcessor.java:77-98 | The names sent through the checks are exactly the names newly cached, so a cached class is never checked again. When no exception is thrown, they are the uncached names of declared type. |
| Processor.RoundDiagnosticsAreAboutChecked | src/main/java/org/voidzero/influx/InfluxProcessor.java:92-98 | Every error printed in a round is about a class the round checked. |
| Processor.RoundOverCachedChangesNothing | src/main/java/org/voidzero/influx/InfluxProcessor.java:87-90 | When every declared name is already cached, the loop caches, checks and prints nothing. |
| Processor.RoundIdempotent | src/main/java/org/voidzero/influx/InfluxProcessor.java:87-93 | Processing the same elements a second time changes nothing. |
| Processor.RoundSkipsUndeclared | src/main/java/org/voidzero/influx/InfluxProcessor.java:77-80 | Elements not of declared type affect nothing: dropping them gives the same round. |
| Processor.OtherAnnotationsChangeNothing | src/main/java/org/voidzero/influx/InfluxProcessor.java:47-62 | Without `@Singleton` among the annotations, `process` neither caches, checks nor prints. |
| Processor.ProcessRound | src/main/java/org/voidzero/influx/InfluxProcessor.java:47-63 | The loop of `process` over the annotations: the cache only grows, names checked and errors printed are kept, and after an exception nothing changes. |
| Processor.ProcessRoundAfterThrow | src/main/java/org/voidzero/influx/InfluxProcessor.java:47-63 | Once `processSingleton` throws, the remaining annotations are not looked at. |
| Processor.InfluxProcessor.constructor | src/main/java/org/voidzero/influx/InfluxProcessor.java:37 | The cache starts empty, with nothing checked or printed. |
| Processor.InfluxProcessor.Process | src/main/java/org/voidzero/influx/InfluxProcessor.java:40-66 | The new state, and whether the `ClassCastException` escaped, are those of `ProcessRound`. Unless it throws, `process` returns false exactly for no annotations. The cache and the checked names only grow, and every cached name stays checked exactly once. |
| Processor.InfluxProcessor.ProcessSingleton | src/main/java/org/voidzero/influx/InfluxProcessor.java:68-106 | The new cache, checked names and diagnostics, and whether the cast at line 82 threw, are those of `SingletonRound` over the elements. Every cached name stays checked exactly once. |
| Processor.InfluxProcessor.AssertNotInterface | src/main/java/org/voidzero/influx/InfluxProcessor.java:163-172 | Appends the interface error exactly for an interface; nothing else changes. |
| Processor.InfluxProcessor.AssertNotAbstractClass | src/main/java/org/voidzero/influx/InfluxProcessor.java:174-183 | Appends the abstract-class error exactly for an abstract class; nothing else changes. |
| Processor.InfluxProcessor.AssertHasNoArgConstructor | src/main/java/org/voidzero/influx/InfluxProcessor.java:152-161 | Appends the constructor error exactly when no constructor without parameters is declared; nothing else changes. |

## Left out

- `System.out.println` logging in `process`, `processSingleton` and `main` is I/O. So are `processNamed`, `processInject` and `processInjector`, which only print. None of them changes any state.
- `printMessage` prints a text, a `Diagnostic.Kind` and the offending element. The model keeps (class name, reason) per error, plus the text as `Message`. The kind is always `ERROR` and is left out.
- `generateSourceFile` writes a file through the `Filer` and is I/O. `TopologicalSort.main` is a demonstration driver.
- The processors in packages pro.johndunlap.influx and com.curtaincoder.influx, and `Injectable`, are not part of this model.
- The javax.lang.model API is reduced to `Element`:
  - kinds other than class and interface are `OtherTypeKind` for the other type declarations (enums, records, annotation types) and `NonTypeKind` for everything else (fields, parameters, enum constants and so on);
  - type kinds other than `DECLARED` are one `OtherType`;
  - of the modifiers, only `ABSTRACT` is kept.
- `RoundEnvironment.getElementsAnnotatedWith` is the function parameter `annotated`. The sets of annotations and elements are sequences in iteration order, and Java sets have no defined iteration order.
- `classCache` is static in Java, shared by all instances. The model has one `InfluxProcessor` object standing for all of them.
- The iteration order of `graph.keySet()` is the constant `keys`. `recursionStack.stream().findFirst()` is the constant function `findFirst`, and no property of it is assumed, so that Java's hashing is not reproduced.
- Topological.TopologicalSort.Sort: specified only for the first call on a fresh sorter. A second call would find the fields already filled and reverse `topologicalOrder` in place once more.
- Topological.TopologicalSort.Sort: when a cycle is reported, the contract says which cycle the search met. It does not say which key's search met it.
- Topological.TopologicalSort.TraceCycle: when the cycle loop would add the same vertex for ever, the model stops at the first repetition and returns `Runaway`. `Sort` then returns `OutOfMemory`, which stands for the `OutOfMemoryError` that ends the Java loop. The contents of `cycleNodes` after that are not modelled beyond those first entries.
- The recursion depth of `dfs` is not bounded in the model. In Java a long enough chain of dependencies ends in `StackOverflowError`; the model's `Dfs` and `VisitNeighbors` recurse as deep as the graph requires.
- `Collections.reverse` in place is modelled as assigning the reversed sequence to the field `topologicalOrder`.

## Findings

| source | as written | input that shows it | evidently intended | confidence | as-written member | corrected member |
|---|---|---|---|---|---|---|
| src/main/java/org/voidzero/influx/TopologicalSort.java:52-56 | The cycle loop follows `recursionStack.stream().findFirst()`, which does not change inside the loop. Unless that element is the neighbour hit, the loop appends it to `cycleNodes` for ever. | Edges `1 -> 2`, `2 -> 3`, `3 -> 2`, searched from `1`, with `1` the first element of the stack: the back edge `3 -> 2` appends `2, 3, 1, 1, 1, …` | Report the cycle read off the active call chain, from the neighbour down to the current vertex and back to the neighbour; `BackEdgeCycle` proves it is a real cycle of the graph without repeated vertices | high, not executed | Topological.RunawayExample | Topological.CycleFromPath |
