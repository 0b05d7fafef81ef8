# cargo-danger dependency graph core, in Dafny

This project models the graph engine of `cargo-danger`, a cargo subcommand that
walks the resolved dependency graph of a crate. Three routines of `src/main.rs`
are modelled and proved:

- `build_graph` walks from the root package with a `pending` stack popped LIFO,
  so the walk is depth-first. It keeps a `HashMap` index from package id to node
  index and fills it by lookup-or-create. It redirects each raw dependency id to
  its replacement and keeps only the dependency specs that match the raw id and
  pass the platform filter. It adds one petgraph edge, labelled with the
  dependency kind, per surviving spec.
- `find_duplicates` counts the graph's package ids by name. It returns every id
  whose name occurs more than once, sorted by the package-id order.
- `Charset::from_str` parses the `--charset` option.

Cargo's own types are abstracted:

- A `PackageId` is a (name, version, source) triple with a lexicographic total
  order (`package_id.dfy`).
- The `Resolve` is a map from id to raw dependency ids plus a replacement map.
- A `Package` is its id, its manifest metadata and its dependency specs.
- The meaning of version requirements and of `Platform::matches` is an `Oracle`
  of two function parameters (`cargo_model.dfy`).
- The petgraph graph is a node sequence and an edge sequence; a `NodeIndex` is a
  position (`dep_graph.dfy`).

`build_graph` is proved against `DepGraph.IsDependencyGraph`, an independent
description of the result:

- the index and the node arena agree, so there is exactly one node per id;
- every edge joins two nodes;
- the root is node 0;
- the nodes are exactly the ids reachable from the root through surviving specs;
- each node carries its package's metadata;
- each node's outgoing edges are exactly `OutEdges` of its package, in order.

The build fails exactly when some reachable id has no package, and the error
names such an id. The code's three nested loops are one method each
(`DrainPending`, `ProcessPackage`, `LinkDependency`), and the `entry` match is
`NodeFor`. Termination of the outer loop uses the measure
|package ids| − |nodes| + |pending|. An id is pushed only when its node is
created, so the measure drops on every pop and stays the same on every insertion.

`find_duplicates` is proved to return a strictly increasing sequence whose
elements are exactly `Duplicates.DuplicateIds` of the index's key set. A strictly
sorted sequence is fixed by its elements (`StrictlySortedUnique`), so the result
does not depend on the `HashMap` iteration order. The model picks keys with `:|`,
which stands for any order.

Three facts about the code shape the model:

- The walk is depth-first: `pending` is a stack.
- Edges are never coalesced: two surviving specs for the same target give two edges.
- A raw dependency with no surviving spec is skipped silently. It adds no node
  and no edge, and it is not an error. The only error is a package missing from
  the package set (`packages.get_one`).

## Model

| member | source | states |
|---|---|---|
| OutputOptions.CharsetFromStr | src/main.rs:131-140 | the parse succeeds exactly for "utf8" and "ascii" and yields the glyph set of that spelling; every other string gives the error "invalid charset" |
| OutputOptions.CharsetRoundTrip | src/main.rs:119-140 | parsing the spelling of each glyph set gives that glyph set back |
| PackageIds.IdLtIrreflexive | src/main.rs:248 | no package id is below itself in the order `sort` uses |
| PackageIds.IdLtTransitive | src/main.rs:248 | the package-id order (name, then version, then source) is transitive |
| PackageIds.IdLtTotal | src/main.rs:248 | any two different package ids are ordered one way or the other |
| PackageIds.IdLtAsymmetric | src/main.rs:248 | two package ids are never below each other |
| PackageIds.IdLeTransitive | src/main.rs:248 | the non-strict order is transitive |
| PackageIds.IdLeTotal | src/main.rs:248 | the non-strict order relates any two ids |
| CargoModel.SurvivingMembers | src/main.rs:363-371 | a spec survives exactly when it is a spec of the package, matches the raw id ignoring source, and passes the platform filter; there are never more survivors than specs |
| CargoModel.PlatformFilterCases | src/main.rs:367-370 | the code's `and_then`/`map`/`unwrap_or(true)` chain lets a spec without a platform pass, lets every spec pass when there is no target, and otherwise lets a spec pass exactly when its platform matches the target and cfgs |
| DepGraph.NodeCount | src/main.rs:377-386 | when the index agrees with the arena, no two nodes have the same id and there are exactly as many nodes as indexed ids |
| DepGraph.FromNodeMembers | src/main.rs:388 | the edges counted as leaving a node are exactly the edges whose source is that node |
| DepGraph.OutEdgesExtend | src/main.rs:377-379 | adding index entries without changing existing ones leaves a processed node's edges and targets unchanged |
| DepGraph.OutEdgesLength | src/main.rs:363-388 | a package gets one edge per surviving spec, summed over its raw dependencies; nothing is coalesced |
| DepGraph.SurvivorCountZero | src/main.rs:363-376 | a package gets no edge exactly when none of its raw dependencies has a surviving spec |
| DepGraph.OutEdgesSound | src/main.rs:366-388 | each edge of a package leaves its node and goes to the node of the redirected id of a raw dependency, labelled with the kind of a spec that survived for the raw id |
| DepGraph.OutEdgesComplete | src/main.rs:366-388 | each surviving spec of each raw dependency gives an edge to the node of the redirected id with the spec's kind |
| DepGraph.ReachableStep | src/main.rs:362-381 | an id reached through a surviving spec of a reachable package is reachable |
| DepGraph.ReachableInClosed | src/main.rs:356-391 | an index holding the root whose every package's surviving targets are indexed holds every reachable id |
| GraphBuilder.NodesBounded | src/main.rs:377-386 | there are never more nodes than package ids, which bounds the walk |
| GraphBuilder.PopStarts | src/main.rs:356-358 | popping the top of `pending` starts processing a node that has no outgoing edges yet, with every other non-pending node finished |
| GraphBuilder.InsertKeeps | src/main.rs:379-385 | pushing a new successor and adding its node keeps the walk's invariants and leaves every finished node finished |
| GraphBuilder.AddEdgeKeeps | src/main.rs:388 | adding an edge out of the node being processed keeps the invariants and appends exactly that edge to its outgoing edges |
| GraphBuilder.FinishPackage | src/main.rs:362-390 | once all raw dependencies are linked, the processed node is finished |
| GraphBuilder.NodeFor | src/main.rs:377-386 | an indexed id gives back its index and changes nothing; a new id with a package is pushed and gets a new last node; a new id without a package is the only error; no other id is indexed or pushed |
| GraphBuilder.LinkDependency | src/main.rs:363-389 | one raw dependency adds exactly its `OutEdges` to the node being processed and indexes its redirected target; it can fail only by naming that target, a reachable id without a package; the index only gains entries, and only for that target; nodes, edges and `pending` only grow at their ends, and only ids not indexed before are pushed; with no surviving spec nothing changes |
| GraphBuilder.ProcessPackage | src/main.rs:359-390 | processing a popped package gives its node exactly the `OutEdges` of the package, keeps it off `pending`, keeps the invariants, and only grows the index, nodes, edges and `pending`; the index gains only the redirected targets of raw dependencies with a surviving spec, and only ids not indexed before are pushed; or it fails, naming such a target on a reachable id without a package |
| GraphBuilder.DrainPending | src/main.rs:356-391 | the loop ends with an empty stack and every node finished, or fails on a reachable id without a package |
| GraphBuilder.DrainedIsGraph | src/main.rs:356-393 | a finished walk is a dependency graph of the root, and then every reachable id has a package |
| GraphBuilder.BuildGraph | src/main.rs:339-394 | a missing root is an error naming it; the result is a dependency graph of everything reachable from the root exactly when every reachable id has a package; otherwise the error names a reachable id without a package |
| Duplicates.NoDuplicatesIffNamesDistinct | src/main.rs:238-247 | there are no duplicate ids exactly when no two ids share a name |
| Duplicates.DuplicateIffNameShared | src/main.rs:238-247 | an id is a duplicate exactly when another id has the same name |
| Duplicates.StrictlySortedUnique | src/main.rs:248 | two strictly sorted sequences with the same elements are equal, so the result does not depend on iteration order |
| Duplicates.SortedDistinctIsStrict | src/main.rs:248 | a sorted sequence without repeats is strictly increasing |
| Duplicates.PermutationKeepsDistinct | src/main.rs:248 | sorting a sequence without repeats leaves none repeated |
| Duplicates.CountNames | src/main.rs:238-240 | the counts hold exactly the names that occur, each with the number of ids that have it |
| Duplicates.CollectNamed | src/main.rs:246 | the filtered keys are exactly the ids with the given name, each once |
| Duplicates.CollectDuplicates | src/main.rs:244-247 | `dup_ids` holds every id whose name is counted more than once, each once |
| Duplicates.SortIds | src/main.rs:248 | the array ends sorted and is a permutation of its old contents |
| Duplicates.InsertLast | src/main.rs:248 | one insertion step extends the sorted prefix by one element and keeps the contents |
| Duplicates.FindDuplicates | src/main.rs:234-250 | the result is strictly increasing and holds exactly the ids of the graph whose name another id of the graph shares |

## Left out

- `main`, `real_main`, `workspace`, `registry` and `resolve` (src/main.rs:164-232, 270-314): cargo configuration, manifest loading and registry resolution, all calls into cargo.
- `get_cfgs` (src/main.rs:252-268): it runs `rustc --print=cfg` and parses the output with cargo's parser. The cfgs are a parameter of `BuildGraph` instead.
- `extract_packages` (src/main.rs:326-337): a thin map over the root's dependencies through cargo, whose result is only debug-printed.
- The `Opts`/`Args` command-line declarations and the `Symbols` glyph constants (src/main.rs:29-117, 143-162): command-line surface and constants with no logic.
- The parsing of `Prefix` and `Kind`: the code has no parser for them, so they are plain datatypes.
- `Dependency::matches_ignoring_source`: modelled as a name comparison plus a version-requirement oracle. Cargo's semver matching is not modelled.
- `Platform::matches`: a function parameter, not modelled.
- `Resolve::deps_not_replaced` and `Resolve::replacement`: modelled as map lookups. An id the resolve does not know has no dependencies.
- The package-id order: modelled as lexicographic on (name, version, source), with versions as (major, minor, patch). Cargo's pre-release/build-metadata order and its `SourceId` order are abstracted to this.
- `HashMap` iteration order and hashing: the loops over key sets pick an arbitrary remaining key.
- The `packages.get_one(pkg_id)?` of each popped id (src/main.rs:360): every pushed id had its package looked up when its node was created, so this call cannot fail. The model indexes the package set directly there, without a failure branch.
- The manifest metadata is an opaque record copied into the node.
- Index width: petgraph's `NodeIndex` and `EdgeIndex` are `u32`, and `add_node`/`add_edge` panic once the indices run out. The model's indices are unbounded `nat`s, so that panic is not modelled.
- BuildGraph: its contract fixes only the root's node index (0). The depth-first numbering of the other nodes and the relative order of edges leaving different nodes are fixed only by the method bodies; the contract states each node's own outgoing edges in order. When several reachable ids lack a package, which of them the error names also depends on the walk order, so the contract says only that it names one of them.
- Memory layout and lifetimes: the graph holds values, not references.
- parsing_examples/index_check.rs: a sample input for a tool that is not part of this repository's code.
- Unsafe-code counting and tree rendering: cargo-danger has no code for either yet, so there is nothing to model.
