# registry: a verified model of the route trie and the service registry

This project models the core of the Go package `registry`. The package maps normalised URL-like
paths to opaque handles. It has two layers.

- **The router** (router.go) is a trie of path segments with a static index beside it.
  - A pattern in which no `:` or `*` character occurs goes to the static index.
  - Every other pattern is walked into the trie, one node per segment. A `:name` segment is keyed `:`
    and a `*name` segment is keyed `*`.
  - `Match` returns the static entry alone, or else every handled node its backtracking search
    finds. The search keeps a stack of alternatives.
  - `Params` aligns a matched pattern with the path and binds the `:` and `*` names.
- **The registry** (registry.go, service.go, options.go, func.go) sits on top.
  - A `Registry` keeps one `Service` per cleaned prefix. All services share one `Options`, which
    holds the route table and the optional `Format` and `Filter` hooks.
  - A `Service` registers plain functions under their formatted names.
  - It also registers handler structs under their formatted type names, each with a table of its
    exported methods.
  - Every registration adds a route to the shared table.

The modules follow the source files.

| file | module | models |
|---|---|---|
| common.dfy | `Common` | `Option`, and `Handle`, an opaque stand-in for a Go `interface{}` or `reflect.Value` |
| paths.dfy | `Paths` | `strings.Split`, `strings.Join`, `path.Join` and `path.Clean` for rooted paths, ASCII lower-casing |
| trie.dfy | `Trie` | router.go as values: the node table, `PathName`, `NodeName`, `addChild`, `Register` as written and with the corrected walk (`RegisterReusing`), and the search `Match` performs |
| params.dfy | `RouteParams` | `Router.Params` |
| router.dfy | `Router` | the `Router` object, updated in place; each method is proved equal to its function in `Trie` |
| match_facts.dfy | `MatchFacts` | soundness and completeness of `Match`, the duplicates that a root `*` or `:` child causes, and the root path |
| register_facts.dfy | `RegisterFacts` | what a walk of `Register` reports and leaves behind, for both the walk as written and the corrected walk |
| register_match.dfy | `RegisterMatch` | `Register` followed by `Match`, as written and with the corrected walk |
| funcs.dfy | `Funcs` | func.go: `Clean`, `RouteName`, the string part of `FuncName`, `IsExported` |
| services.dfy | `Services` | options.go and service.go: the `Options` and `Service` classes |
| registry.dfy | `Registry` | registry.go: the `Registry` class |

The trie is an arena.
- `Router.nodes` is a sequence of `Node` values, and index 0 is the root.
- A child map holds indices into that sequence. This replaces the source's pointers.
- The `Router` class updates its table in place. Its methods are proved equal to the matching
  functions of `Trie`, and the lemmas are stated about those functions.
- The loops of the source are loops of the model: `Router.RegisterPattern` and
  `Router.RegisterPatternReusing` (the walk of `Register`), `Router.Match` and `Router.Backtrack`
  (the search), and `Router.Params`. `Router.AddChild` and `Router.Register` have no loop, as in the
  source; `Register` hands its walk to `RegisterPattern`.

Some behaviours of the code differ from what its own branches and comments suggest was meant. The
model follows the code in each case.
- **The root.** `PathName` (router.go:17-26) and `Clean` (func.go:12-21) have a branch that maps
  "/" to "", but it tests the named result before anything is assigned to it, so it is dead. The
  root therefore normalises to "/", not to "" (`Trie.PathNameRoot`, `Funcs.CleanRoot`). Only
  `Options.Clean` (options.go:20-32) maps the root to "" (`Services.CleanDefaultRoot`).
- **The root path in the trie.** "/" splits into two empty elements, so the root path has one
  empty segment. A root-level `:name` or `*name` pattern is returned for it
  (`MatchFacts.RootPathMatches`), and `:name` binds the empty string (`RouteParams.RootPathBinding`).
- **Static or dynamic.** A pattern goes to the static index only when no `:` or `*` occurs anywhere
  in it (router.go:153), not only at the start of a segment. "/a:b" therefore goes to the trie,
  where its segment is keyed as the literal "a:b" (`RegisterMatch.LiteralColonToTrie`).
- **The first segment of a request.** `Match` pushes the root's `*` child, its `:` child and its
  child for the first segment (router.go:95-99). When that segment is itself "*" or ":", one child
  is pushed twice and what lies below it is returned twice (`MatchFacts.RootWildcardTwice`,
  `MatchFacts.RootParamTwice`).
- **A reused node keeps its first route.** When `addChild` finds an existing child (router.go:230-236)
  it returns it unchanged, route included. As written, the walk never reuses a node below the fresh
  depth-1 node (`RegisterFacts.RegisterDynamicFreshFirst`), so this branch is only reached by the
  corrected walk. There, a later pattern that ends on such a node gives it its handle but not its
  route, and `Params` binds the names of the pattern that created the node: after "/a/:id/x" and then
  "/a/:name", "/a/5" binds `id`, not `name` (`RegisterMatch.ReusedNodeKeepsFirstRoute`).
- **Static entries.** A path that hits the static index matches that entry alone. The trie is not
  searched as well (router.go:84-87).
- **Duplicate dynamic routes.** Registering the same dynamic pattern twice is not rejected as the
  code is written (see Findings). `Trie.Register` and `Router.Router.Register` model that code;
  `Trie.RegisterReusing` and `Router.Router.RegisterReusing` are the corrected registration, and the
  lemmas about each say which one they are about.

## Model

| member | source | states |
|---|---|---|
| Trie.PathName | router.go:17-26 | The result is a canonical rooted path in lower case. Its segments are the lower-cased segments that `path.Join` keeps from "/" and the arguments. |
| Trie.PathNameIdempotent | router.go:17-26 | Normalising a normalised path changes nothing. |
| Trie.PathNameRoot | router.go:20-24 | The root normalises to "/", not to "": the branch meant to map it to "" never fires. |
| Trie.SplitPathName | router.go:89-90 | The split form of a normalised path has at least two elements, the first one empty, so `arr[1]` exists. |
| Trie.NodeName | router.go:28-35 | The key is ":" exactly when the segment starts with ":". It is "*" exactly when the segment starts with "*". Otherwise it is the segment itself. |
| Trie.NodeNameIdempotent | router.go:28-35 | Classifying a key again gives the same key. |
| Trie.NewNode | router.go:41-50 | A new node has no children and no handle, and its route is the pattern up to its depth. |
| Trie.NewStatic | router.go:53-58 | A static node holds the whole pattern at the last depth, with the handle. |
| Trie.Empty | router.go:37-39 | `NewRouter` gives a valid table: a root without children and an empty static index. |
| Trie.AddChildReady | router.go:217-238 | `addChild` keeps every edge well formed. On success it returns a node for the pattern up to `step`. |
| Trie.Walk | router.go:163-179 | The rest of `Register`'s loop keeps the table valid and never shrinks it. |
| Trie.FirstStep | router.go:162-166 | Depth 1 as written: a fresh childless node replaces the root's child for the first segment. Every other node is kept. |
| Trie.RegisterDynamic | router.go:161-180 | The walk as written leaves a valid table. |
| Trie.RegisterDynamicReusing | router.go:161-180 | The corrected walk, with `addChild` at every depth, leaves a valid table. |
| Trie.Register | router.go:146-181 | `Register` as written always leaves a valid table. |
| Trie.RegisterReusing | router.go:146-181 | The corrected `Register` leaves a valid table, and it is `Register` itself for the empty route and for literal patterns; only the trie walk differs. |
| Trie.ChildList | router.go:125-140 | A search step reaches at most one child per key, one level deeper and still within the path's depth. |
| Trie.Picks | router.go:95-99 | The root's children Match starts from form a well-formed stack of alternatives. |
| Trie.RootStack | router.go:95-99 | The initial stack of `*`, `:` and first-segment children is well formed. |
| RouteParams.ParamKey | router.go:202-209 | A segment binds a name exactly when it starts with ":" or "*". |
| RouteParams.ParamsKeys | router.go:192-215 | A name is bound exactly when some aligned pattern position is a `:` or `*` segment with that name. |
| RouteParams.ParamsValue | router.go:200-213 | A name bound at a position and not bound again later holds the value of that position: the path segment for `:`, the rest of the path joined by "/" for `*`. |
| RouteParams.ParamsLiteral | router.go:200-213 | A pattern without `:` or `*` segments binds nothing. |
| RouteParams.RootPathBinding | router.go:192-215 | A root-level `:name` pattern binds `name` to the empty string for the root path, and binds nothing else. |
| Router.Router.constructor | router.go:37-50 | `NewRouter` gives the empty valid table. |
| Router.Router.AddChild | router.go:217-238 | The method's node, error and new table are those of the `addChild` function, and the static index is unchanged. |
| Router.Router.Register | router.go:146-181 | As written: the new table and the error are those of `Trie.Register`, and validity is kept. |
| Router.Router.RegisterReusing | router.go:146-181 | Corrected: the new table and the error are those of `Trie.RegisterReusing`, and validity is kept. |
| Router.Router.RegisterPattern | router.go:161-180 | The loop as written gives the table and error of `RegisterDynamic`. |
| Router.Router.RegisterPatternReusing | router.go:161-180 | The corrected loop gives the table and error of `RegisterDynamicReusing`. |
| Router.Router.Match | router.go:81-144 | The nodes found are exactly `Trie.Match`: the static entry alone, or the trie search in stack order. |
| Router.Router.Backtrack | router.go:104-142 | The backtracking loop ends, and it returns exactly the candidates below its initial stack. |
| Router.Router.Expand | router.go:120-141 | One turn pushes the `*` child, then the `:` child, and selects the literal child. What is still to come is unchanged, and the measure of work left decreases. |
| Router.Params | router.go:192-215 | The loop over the aligned positions computes `RouteParams.Params`. |
| MatchFacts.SearchSound | router.go:105-142 | Everything the search finds below an on-path node carries a handle, ends its branch and has a pattern accepting the path. |
| MatchFacts.MatchSound | router.go:81-144 | Every node `Match` returns carries a handle and ends its branch at a wildcard or the path's depth. Each key of its pattern accepts the path's segment. |
| MatchFacts.SearchComplete | router.go:105-142 | Below a node, every handled node that ends its branch and is reached along accepting keys, with no `*` before the last, is found. |
| MatchFacts.MatchComplete | router.go:81-144 | If no static entry takes the path, `Match` returns every handled node reached from the root along accepting keys, with no `*` before the last, that ends its branch. |
| MatchFacts.RootWildcardTwice | router.go:95-99 | When the path's first segment is itself "*" and the root has a `*` child, everything found below that child is returned twice. |
| MatchFacts.RootStackParam | router.go:95-99 | When the path's first segment is itself ":", the initial stack ends with the root's `:` child twice, after the `*` child if there is one, and is just those two otherwise. |
| MatchFacts.RootParamTwice | router.go:95-99 | When the path's first segment is itself ":" and the root has a `:` child, everything found below that child is returned twice in a row, first; with no `*` child nothing else is returned. |
| MatchFacts.RootPathMatches | router.go:81-99 | The root path normalises to "/", which splits into two empty elements; a handled root-level `:` or `*` node is returned for it unless "/" is static. |
| RegisterFacts.WalkOutcome | router.go:163-179 | The walk fails with the wildcard error when a `*` segment comes before the end, fails with the duplicate error when the pattern already ends at a handled node, and succeeds otherwise. On success the pattern leads to the handle. |
| RegisterFacts.WalkExtends | router.go:163-179 | A walk only grows the table: every existing node keeps its depth, key, route, children and handle. |
| RegisterFacts.RegisterDynamicOutcome | router.go:161-180 | As written, the only error is a `*` segment before the end at depth 2 or deeper; depth 1 is never checked. |
| RegisterFacts.RegisterDynamicDetaches | router.go:162-166 | As written, the root's child for the first segment is always the node this call created. |
| RegisterFacts.RegisterDynamicReaches | router.go:161-180 | As written, on success the whole pattern leads from the root to the handle. |
| RegisterFacts.RegisterDynamicKeepsOthers | router.go:161-168 | As written, a key path whose first key differs from the pattern's first segment still leads to the same node, and an existing handle there is kept. |
| RegisterFacts.RegisterDynamicFreshFirst | router.go:162-168 | As written, the new depth-1 node has at most the new pattern's next level as children. |
| RegisterFacts.FreshChainDropsSibling | router.go:162-168 | As written, registering "/a/x" after "/a/:id" succeeds, but afterwards "a" then ":" no longer leads anywhere from the root. |
| RegisterFacts.ReusingOutcome | router.go:161-180 | Corrected walk: a `*` segment before the end at any depth fails, a pattern that already ends at a handled node fails as a duplicate, and otherwise the walk succeeds. |
| RegisterFacts.ReusingReaches | router.go:161-180 | Corrected walk: on success the whole pattern leads from the root to the handle. |
| RegisterFacts.ReusingKeeps | router.go:161-180 | Corrected walk: every key path keeps leading to the same node, and an existing handle is kept. |
| RegisterFacts.ReusingKeepsSibling | router.go:161-180 | Corrected walk: after "/a/:id" then "/a/x", both patterns lead to their own handles. |
| RegisterMatch.RegisterStatic | router.go:146-160 | The empty route fails and changes nothing. A literal pattern changes only the static index: a duplicate fails and changes nothing, and a new key adds exactly one entry holding the whole pattern and the handle. |
| RegisterMatch.StaticRoundTrip | router.go:150-159 | After a new literal pattern is registered, every path normalising to it matches exactly its static node. |
| RegisterMatch.DynamicNode | router.go:161-180 | As written, a walk that succeeds has no `*` before the end from depth 2 on, and leads from the root to a node at the pattern's depth, with its last key and the handle. |
| RegisterMatch.DynamicNodeReusing | router.go:161-180 | Corrected walk: one that succeeds has no `*` before the end at any depth, and leads from the root to a node at the pattern's depth, with its last key and the handle. |
| RegisterMatch.RegisteredNode | router.go:146-181 | As written, a pattern with a `:` or `*` registered without error reaches, from the root, a node at its depth with its last key and the handle. The static index is unchanged. |
| RegisterMatch.RegisteredNodeReusing | router.go:146-181 | The same for the corrected `Register`, with no `*` before the end at any depth. |
| RegisterMatch.FoundAlong | router.go:81-144 | A handled node reached from the root along a pattern's keys, with no `*` before the last, is returned for every path those keys accept, unless a static entry takes the path. |
| RegisterMatch.DynamicRoundTrip | router.go:146-181 | As written, after a pattern with a `:` or `*` is registered without error, `Match` returns a node with its handle for every path its keys accept segment by segment (more segments under a final `*`), unless a static entry takes the path. A `*` at depth 1 followed by more segments is excluded, since depth 1 is never checked. |
| RegisterMatch.ReusingRoundTrip | router.go:146-181 | Corrected `Register`: the same round trip, for every pattern registered without error. |
| RegisterMatch.RegisterKeepsOthers | router.go:146-181 | As written, registering keeps every static entry, and every key path that does not start with the new pattern's first key still leads to the same node with its handle. Paths under that first key are not kept (see Findings). |
| RegisterMatch.RegisterReusingKeeps | router.go:146-181 | Corrected `Register`: registering loses nothing. Every key path still leads to the same node, an existing handle stays, and every static entry stays. |
| RegisterMatch.LongerRegistered | router.go:161-180 | Corrected walk: "/a/:id/x" on the empty trie builds a chain of four nodes, each created by `addChild` for its segment with the route up to that depth, and the handle on the last. |
| RegisterMatch.ShorterReuses | router.go:217-238 | Corrected walk: "/a/:name" next goes down "a" and ":" through existing nodes without handles and only sets the handle of the ":" node; nothing else changes. |
| RegisterMatch.ReusedNodeKeepsFirstRoute | router.go:192-238 | Corrected walk: after "/a/:id/x" and "/a/:name", "/a/5" finds the second handle on a node whose route is still "/a/:id", and `Params` binds `id` to "5". |
| RegisterMatch.LiteralColonToTrie | router.go:146-160 | "/a:b" is not literal for the static test, because a ":" occurs in it, although its one segment is keyed "a:b". Registering it leaves the static index empty and puts it in the trie, where a request for "/a:b" finds it. |
| Funcs.Clean | func.go:12-21 | The result is a lower-case canonical rooted path made of the cleaned segments of the arguments. |
| Funcs.CleanIsPathName | func.go:12-21 | `Clean` and `PathName` agree on every input. |
| Funcs.CleanIdempotent | func.go:12-21 | Cleaning a cleaned path changes nothing. |
| Funcs.CleanRoot | func.go:15-19 | The root cleans to "/": the branch meant to give "" is dead. |
| Funcs.RouteName | func.go:34-41 | The name is ":" exactly for segments starting with ":", "*" exactly for those starting with "*", and the segment otherwise. |
| Funcs.RouteNameIsNodeName | func.go:34-41 | `RouteName` and the router's `NodeName` agree. |
| Funcs.FuncNameTail | func.go:25-31 | The short name of a function never contains ".". |
| Funcs.FuncNameQualified | func.go:25-31 | A qualified name keeps only what follows the qualifier, without a trailing "-fm". |
| Funcs.FuncNameMethodValue | func.go:25-31 | A method value `pkg.(*T).Name-fm` gives `Name`. |
| Funcs.FuncNamePlain | func.go:25-31 | A name with no "." and no "-fm" is kept as it is. |
| Funcs.IsExported | func.go:51-54 | An exported name is not empty. |
| Funcs.LowerNotExported | func.go:51-54 | A lower-cased name is never exported. |
| Funcs.ExportedByFirst | func.go:51-54 | Export is decided by the first character alone. |
| Services.CleanWith | options.go:20-32 | `Options.Clean` never returns "/". With the default folding it returns "" or a lower-case path below the root. |
| Services.Options.constructor | options.go:9-11 | `NewOptions` gives an empty route table and neither hook. |
| Services.Options.AddRoutePath | options.go:34-39 | The join of the service's prefix and the names is mapped to the service. Every other route is kept. |
| Services.CleanDefault | options.go:20-32 | With the default folding, `Options.Clean` is the package `Clean` with "/" mapped to "". |
| Services.CleanDefaultIdempotent | options.go:20-32 | With the default folding, `Options.Clean` is idempotent. |
| Services.CleanDefaultRoot | options.go:28-30 | No argument, "", "." and "/" all clean to "". |
| Services.ServiceNameOfClean | service.go:26-29 | A service's prefix is "" with an empty name, or "/" followed by its name. |
| Services.FormatWith | service.go:67-74 | With no prefix arguments, the formatted name is the cleaned name. |
| Services.FormatLiteral | service.go:71-73 | A cleaned prefix without "%v" is the formatted name whatever the name is. |
| Services.FormatPlaceholder | service.go:71-73 | The lower-cased name replaces the first "%v" of the cleaned prefix. The text before it is kept, and later ones are replaced too. |
| Services.Service.constructor | service.go:20-31 | The prefix is the cleaned name, and the name is the prefix without its "/". No function and no struct is registered yet. |
| Services.Service.RegisterFun | service.go:76-98 | An empty formatted name, a rejecting filter and an existing name each fail with their own error and change nothing. Otherwise the function is added under its name, and its route prefix/name is added. |
| Services.Service.RegisterStruct | service.go:101-142 | An empty formatted name and an existing struct name each fail and change nothing. Otherwise the struct is added with the method table of its accepted methods, and one route per accepted method is added. |
| Services.Service.AddMethods | service.go:120-140 | The loop builds exactly `MethodTable` and adds exactly the routes of `StructRoutes`. |
| Services.Service.Match | service.go:147-170 | Success always returns a function and needs the prefix. A plain function is found under the rest of the path. Otherwise a struct name and a method name found under that struct give the receiver and the method. |
| Services.MethodTableKeys | service.go:120-140 | A name is in a struct's method table exactly when some accepted method (of this package, exported, admitted by the filter) cleans to it. |
| Services.MethodTableValue | service.go:137-138 | A name holds the function of the last accepted method that cleans to it. |
| Services.MethodTableExported | service.go:126-133 | Only exported methods of this package reach the table. With the default folding, each is listed under a lower-case one-segment path. |
| Services.ExportedNotRoot | service.go:130-137 | An exported method name never cleans to "". |
| Services.MatchMethod | service.go:152-155 | A registered function is found under the prefix followed by its name. |
| Services.MatchStructMethod | service.go:156-169 | A struct method is found under the prefix, the struct name and the method name, with the struct's receiver. |
| Services.RouteKeyIsMatchPath | options.go:34-39 | With the default folding, the route key recorded for a registration is the plain concatenation that `Service.Match` strips. |
| Registry.Registry.constructor | registry.go:8-16 | `New` keeps the given options, or creates default ones, and holds no service. |
| Registry.Registry.Len | registry.go:18-20 | The number of services stored. |
| Registry.Registry.Get | registry.go:22-26 | A service is returned exactly when one is stored under the cleaned name, and it is that service. |
| Registry.Registry.Service | registry.go:50-58 | Get or create. An existing service is returned and nothing changes. Otherwise a new service with the shared options and the cleaned name is stored and returned. |
| Registry.Registry.Match | registry.go:43-47 | The entry of the shared route table for the cleaned path, if there is one. |
| Registry.Registry.Services | registry.go:61-66 | Every stored service appears, and nothing else, with one element per stored service. |
| Registry.HasIsGet | registry.go:22-31 | `Has` is `Get` succeeding. |
| Registry.GetPrefix | registry.go:50-58 | With the default folding, a stored service's prefix is the cleaned name it was requested by. |
| Registry.GetByCleanName | registry.go:22-26 | Names that clean alike address the same service. |

## Left out

- Reflection is not modelled: `ValueOf`, the kind checks of `RegisterFun` and `RegisterStruct`, and the `Register` dispatch on kind (service.go:49-65). A function or receiver is an opaque `Handle`. What reflection would report is a parameter: the runtime name of a function, and the name and method list of a struct type. The kind errors therefore do not arise.
- Funcs.FuncNameTail: only the string handling of `FuncName` is modelled. The runtime lookup of the name is a parameter.
- The `Format` and `Filter` hooks are function values with no contract. Properties of `Options.Clean` under a `Format` hook are stated for the default folding only.
- `fmt.Printf` and `logger.Debug` output, and the `String` and `childes` helpers used only for it, are left out.
- router.go:171 prints the node that `addChild` returned, which is nil on the wildcard error, so the Go program panics there. The model returns the error instead.
- `Router.Route` and `Router.Handle` are plain reads of a node's `route` and `handle` fields. `Service.Name` and `Service.Prefix` are plain reads of the `name` and `prefix` fields.
- `Service.Paths`, `Service.Merge` and `Registry.Merge` are not modelled. `Service.Merge` is not part of this model, so `Registry.Merge` cannot be stated either.
- node.go (`NewNode` and the `Node` type of service.go) is not part of this model. A handler struct is a `StructNode` value that holds its name, receiver and method table. The table is filled before the node is stored, not through a pointer during the loop. The source stores the node first (service.go:118) and then calls the `Filter` hook, which gets the service, once per method (service.go:134); a hook could see the node with a partly filled table. The model's `Filter` is a function of values that cannot read the service's state, so the result is the same only under that restriction.
- Trie.Register, Router.Router.Register: the handle is an opaque `Handle`, never nil. A nil handle in the source would be returned as a static match (router.go:84-86), would leave a trie node unmatched (router.go:115) and would not count as a duplicate (router.go:226).
- MatchFacts.MatchSound: that every returned node holds a handle rests on the table invariant that every static entry holds one, which is only so without nil handles (router.go:84-86).
- Registry.Registry.Match: the source reads an entry of a map of `*Service` into a `*Node`, which does not type-check. The model returns the `Service` the table holds.
- Registry.Registry.Services: Go's map iteration order is unspecified. The contract gives the result's contents and length, not its order.
- The trie is an arena of `Node` values rather than a graph of pointers. `Match` returns snapshots of the matched nodes, so later changes through a returned node are not modelled.
- Concurrency is left out. The source uses no locks either.
- Case folding is ASCII only, and `unicode.IsUpper` is modelled on ASCII letters. Decoding of multi-byte runes in `IsExported` is not modelled.
- registry_test.go and _options.go (an unbuilt variant of options.go) are left out.

## Findings

| source | as written | input that shows it | evidently intended | confidence | as-written member | corrected member |
|---|---|---|---|---|---|---|
| router.go:162-168 | At depth 1 `Register` always creates a new node and stores it as the root's child for the first segment. An earlier subtree under that segment is detached, and depth 1 is never checked for a misplaced `*`. Routes that share a first segment overwrite one another, and registering the same dynamic pattern twice succeeds instead of failing as a duplicate. | `Register("/a/:id", h1)` then `Register("/a/x", h2)`: both succeed, and "/a/:id" can no longer be reached. | Depth 1 goes through `addChild` like every other depth. Existing nodes are reused, a duplicate is reported, and every earlier route stays reachable. | not executed | RegisterFacts.FreshChainDropsSibling | RegisterFacts.ReusingKeepsSibling |
