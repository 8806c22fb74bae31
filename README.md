# score-go framework core in Dafny

This project models the core of score-go, the Go library behind Score implementations.

- **Resource uids.** A resource uid is `<type>.<class>#<id>`. It is built from a workload's resource declaration and read back by its accessors.
- **The State container.** It holds workloads and resource states. Its operations add a workload, prime the resources or topologically sort the resource uids by the `${resources.…}` placeholders in their params. They also build the per-workload output lookups.
- **Substitution.** This expands `${…}` placeholders, with `$$` and `$${…}` escapes, in strings and in decoded JSON/YAML documents. It also resolves a `metadata.…` or `resources.…` reference.
- **Overrides.** These parse dotted override paths, deep-merge override maps and set or delete a value at a path.
- **Workload validation.** The loader checks every placeholder of a workload.

A decoded document is the datatype `Types.Value`. Go's nil interface is `Null`; a nil params or metadata map is `None`. The State is a class whose methods return a fresh State and never write to the receiver. Loops that the Go code runs become `while`/`for` loops, each proved equal to a specification function. The properties of each operation are then proved about that function.

Go's map iteration order is unspecified.
- Pure specification functions visit map keys in sorted order.
- Methods visit map keys with `:|`, so each iteration may pick any remaining key.
- Only facts that hold for every order are claimed, with one exception: the error text of a document substitution in which several map keys fail (see `Substitution.Substituter.Substitute` under "## Left out").

## Model

| member | source | states |
|---|---|---|
| ResourceUids.UidRoundTrip | framework/resource_uid.go:26-50 | for a type with no '.' or '#' and a class with no '#', the built uid is well formed and Type, Class and Id give back the type, the class or "default", and the id or `<workload>.<name>` |
| ResourceUids.DefaultClass | framework/resource_uid.go:27-30 | a declaration without class gets class "default" |
| ResourceUids.ExplicitIdIgnoresNames | framework/resource_uid.go:31-33 | with an explicit id the uid does not depend on the workload or resource name, so declarations in two workloads share one uid |
| ResourceUids.UidInjective | framework/resource_uid.go:26-35 | two uids are equal exactly when type, class-or-default and id-or-default agree |
| ResourceUids.Type | framework/resource_uid.go:38-40 | the type is the prefix of the uid before its first '.' |
| ResourceUids.Class | framework/resource_uid.go:43-45 | the class is the text strictly between the first '.' and the first '#' |
| ResourceUids.Id | framework/resource_uid.go:48-50 | the id is the suffix after the first '#', or the whole uid when there is no '#' |
| ResourceUids.Parts | framework/resource_uid.go:37-50 | the accessors split `t.c#i` back into t, c and i |
| OverrideUtils.ParseDotPathParts | framework/override_utils.go:26-37 | the replace-split-restore loop returns DotPathParts(input) |
| OverrideUtils.DotPathPartsIsDotSplit | framework/override_utils.go:26-37 | when the input has no \x00 or \x01 character, the parts are the left-to-right reading where "\\\\" is a backslash, "\\." is a dot and any other '.' separates |
| OverrideUtils.DotPathEscapedBackslashExample | framework/override_utils.go:28-33 | `a.b\\\\.c` splits into a, `b\` and c: an escaped backslash before a dot does not escape the dot |
| OverrideUtils.DotPathEmpty | framework/override_utils.go:26-37 | the empty path parses to one empty element |
| OverrideUtils.OverrideMapInMap | framework/override_utils.go:42-65 | the loop over the override keys returns Merged(input, overrides) and no error |
| OverrideUtils.MergeOn | framework/override_utils.go:44-63 | after merging the keys ks, a key is present iff it was in the input and not overridden, or it is overridden by a non-nil value; keys outside ks keep their input value |
| OverrideUtils.MergeOnStep | framework/override_utils.go:44-63 | one more override key deletes the key for nil and otherwise sets it to the merged value |
| OverrideUtils.MergedKeys | framework/override_utils.go:44-63 | per key: nil deletes; a new key takes the override; two maps merge recursively; any other override replaces; untouched keys keep the input's value |
| OverrideUtils.MergeNothing | framework/override_utils.go:42-43 | merging no overrides returns the input |
| OverrideUtils.OverrideLeafWins | framework/override_utils.go:42-65 | every non-nil non-map value reachable by a path in the overrides is reachable by that path in the result |
| OverrideUtils.Nested | framework/override_utils.go:91-94 | a nested failure is prefixed with `<element>: `, a nested success x becomes `Done(place(x))`, a panic passes through |
| OverrideUtils.OverridePathInMap | framework/override_utils.go:74-117 | an empty path fails with "cannot change root node"; a one-element path deletes (delete or nil value) or sets the key; a deeper edit changes only the first key and prefixes its failures with that key |
| OverrideUtils.OverridePathInArray | framework/override_utils.go:119-166 | empty path and non-integer index fail as in Go; a one-element path removes, appends (-1) or sets, and fails when out of range; a deeper path panics on an out-of-range index and otherwise changes only that element |
| OverrideUtils.SetThenGetMap | framework/override_utils.go:74-117 | after a successful set at a path without -1 indices, reading that path gives the value set |
| OverrideUtils.SetThenGetArray | framework/override_utils.go:119-166 | the same for an edit that starts in an array |
| OverrideUtils.MapEditDone | framework/override_utils.go:74-117 | an edit starting in a map succeeds iff the path is Editable: each step before the last meets a map (a missing key counts as an empty map) or an in-range array index, and the last step is any map key or an array index the edit accepts |
| OverrideUtils.ArrayEditDone | framework/override_utils.go:119-166 | an edit starting in an array succeeds iff the path is Editable: the index parses, and it is in range, or -1 on a last-step set |
| OverrideUtils.DeleteThenGetMap | framework/override_utils.go:74-117 | after a successful delete of a path whose parent is a map, reading the path gives nothing |
| OverrideUtils.DeleteThenGetArray | framework/override_utils.go:119-166 | the same for a delete that starts in an array |
| OverrideUtils.MapDescendNonContainer | framework/override_utils.go:99-116 | descending through a key whose value is neither a map nor an array fails with `<key>: cannot set path in non-map/non-array` |
| OverrideUtils.ArrayDescendNonContainer | framework/override_utils.go:148-165 | descending through an in-range index whose element is neither a map nor an array fails with `<index>: cannot set path in non-map/non-array` |
| OverrideUtils.MapEditElsewhere | framework/override_utils.go:74-117 | an edit leaves every path through another existing first key unchanged |
| StringUtil.AtoiIntToString | framework/override_utils.go:124-142 | strconv.Atoi reads back the decimal text that `%d` prints for every 64-bit integer |
| Substitution.SplitRefParts | framework/substitution.go:30-37 | the replace-split-restore loop returns RefParts(ref) |
| Substitution.RefPartsIsRefSplit | framework/substitution.go:30-37 | for a ref with no NUL character the parts are the left-to-right reading where "\\." is a dot and any other '.' separates |
| Substitution.RefSplitPlain | framework/substitution.go:30-37 | `a.b` with no dot or backslash in a and b splits into exactly a and b |
| Substitution.Scan | framework/substitution.go:27 | the segments the pattern cuts a string into re-assemble it exactly, and each has a shape the pattern matches |
| Substitution.First | framework/substitution.go:27 | the first segment is a prefix of the input of one of the matched shapes |
| Substitution.ScanRef | framework/substitution.go:27 | `${c}` with no '}' in c is one placeholder with content c |
| Substitution.ScanEscapedRef | framework/substitution.go:27 | `$${c}` is one escape whose tail is `${c}` |
| Substitution.ScanDollarDollar | framework/substitution.go:27 | `$$` not followed by a closed `{…}` is one escape of a dollar |
| Substitution.ScanLoneDollar | framework/substitution.go:27 | a dollar followed by neither '$' nor '{' is plain text |
| Substitution.ScanUnclosed | framework/substitution.go:27 | `${` with no later '}' is plain text |
| Substitution.ScanDollarFree | framework/substitution.go:27 | text without '$' is all plain text |
| Substitution.DefaultUnEscaper | framework/substitution.go:49-51 | drops exactly the first character and never fails |
| Substitution.Substituter.Expand | framework/substitution.go:53-56 | a substituter without replacer returns "" and "replacer function is nil" |
| Substitution.Substituter.SubstituteString | framework/substitution.go:53-87 | the scanning loop returns Expand(src) |
| Substitution.ExpandPlaceholder | framework/substitution.go:58-85 | text before `${c}` is kept, the placeholder becomes the replacer's text for c and its error is collected, then the rest is expanded |
| Substitution.ExpandEscapedPlaceholder | framework/substitution.go:70-80 | with the default unescaper `$${c}` becomes `${c}` without a call to the replacer |
| Substitution.ExpandDollarDollar | framework/substitution.go:70-80 | with the default unescaper `$$` becomes `$` |
| Substitution.ExpandLoneDollar | framework/substitution.go:58-85 | a lone or unclosed dollar is copied and adds no error |
| Substitution.ExpandErrors | framework/substitution.go:82-83 | the expansion has no error iff the replacer accepts every placeholder and the unescaper every escape; each replacer error is among the joined errors |
| Substitution.ReplacerOnlyOnPlaceholders | framework/substitution.go:82-84 | two replacers that agree on the placeholders of s expand s alike |
| Substitution.ReplacerSeesPlaceholders | framework/substitution.go:82 | the replacer is called once per placeholder, from left to right |
| Substitution.SubstituteOk | framework/substitution.go:89-119 | substituting a document succeeds iff every string in it expands without error, and then the result has the same shape with each string expanded |
| Substitution.SubstituteErrNamesChild | framework/substitution.go:96-115 | a failure inside a map or list is the child's error prefixed with its key or index |
| Substitution.SubstituteOkIff | framework/substitution.go:89-119 | with the default unescaper, substitution succeeds iff the replacer accepts every placeholder of the document |
| Substitution.SubstituteString | framework/substitution.go:123-125 | equals a substituter with the given replacer and the default unescaper |
| Substitution.Substitute | framework/substitution.go:128-130 | succeeds iff the callback accepts every placeholder of the document |
| Substitution.MapLookupOutput | framework/substitution.go:132-148 | the key loop is one map step per key, failing on a non-map or a missing key |
| Substitution.WalkConcat | framework/substitution.go:136-145 | walking a+b is walking a and then b from where a ended |
| Substitution.Resolve | framework/substitution.go:150-190 | a failure has empty text; for each root and part count its outcome: an unknown root, a metadata ref without key or a resources ref without name fails with its message; a resource name without lookup fails with "no known resource"; otherwise the metadata walk or the resource's lookup of the remaining parts either fails with its error behind the `invalid ref '<ref>': ` prefix or its value is finished (a string as is, anything else marshalled) |
| Substitution.ResolveOk | framework/substitution.go:150-190 | a ref resolves without error only through a successful metadata walk or a known resource's successful lookup |
| Substitution.RefSplitJoin | framework/substitution.go:30-37 | joining parts without dot, backslash or NUL with '.' and splitting the ref gives the parts back |
| Substitution.ResolveMetadataRef | framework/substitution.go:156-189 | `metadata.k1.….kn` with plain keys fails without a key, and otherwise walks the metadata along k1 … kn: a walk error is prefixed, a value is finished |
| Substitution.ResolveResourceRef | framework/substitution.go:165-189 | `resources.<name>.k1.….kn` with plain parts fails without a name or without a lookup for name, and otherwise applies that lookup to k1 … kn: its error is prefixed, its value is finished |
| Substitution.BuildSubstitutionFunction | framework/substitution.go:150-191 | the returned callback is Resolve on every ref, so it never returns text together with an error |
| Substitution.ResolveMetadataString | framework/substitution.go:155-183 | `metadata.k` with a string value at k resolves to that string |
| ResourceStates.ResourceState.OutputLookup | framework/state.go:304-327 | the key loop returns LookupOutput: the embedded function, an error for no keys, or one step per key where nil is missing |
| ResourceStates.LookupOutputNested | framework/state.go:310-326 | looking up a+b is the lookup of a followed by a walk of b |
| ResourceStates.DeclsOf | framework/state.go:147-149 | the declarations of one workload are its resources in the given name order |
| ResourceStates.DeclsFrom | framework/state.go:145-149 | every declaration visited is declared by one of the named workloads |
| ResourceStates.DeclsComplete | framework/state.go:145-149 | the workloads and resources visited in sorted order are exactly the declared ones |
| Primings.MergeSpec | framework/state.go:169-185 | a repeated declaration fails exactly on differing non-nil params or metadata; otherwise its non-nil parts replace the entry's and params also move the source workload |
| Primings.CreatesValue | framework/state.go:150-162 | an unknown uid gets a new entry from the uid's accessors with the next guid and the declaration's params, metadata and workload |
| Primings.AdoptsValue | framework/state.go:163-168 | the first declaration of an existing uid in a pass replaces its params, metadata and source workload |
| Primings.MergesValue | framework/state.go:169-185 | a later declaration of a uid primed in this pass merges as MergeSpec says |
| Primings.PrimeStep | framework/state.go:149-185 | one declaration fails iff it clashes with an earlier one, and otherwise keeps every priming invariant |
| Primings.PrimeAllSpec | framework/state.go:144-187 | priming fails iff two declarations of one uid clash; otherwise declared uids are added and primed, others untouched, new entries empty, non-nil params and metadata adopted from their declarations, and the source workload is the uid's Owner |
| Primings.OwnerDeclares | framework/state.go:149-176 | the Owner of a declared uid (the last declaration that is its first or carries params) is one of its declaring workloads |
| Primings.OwnerFirst | framework/state.go:150-168 | when no declaration of a uid carries params, its Owner is its first declaration |
| Primings.PrimedSource | framework/state.go:144-187 | after a successful pass every declared uid is in the result and sourced from its Owner |
| Primings.SourceLeast | framework/state.go:145-175 | after priming in visiting order, a uid none of whose declarations carries params is sourced from the least of its declaring workloads |
| ResourceStates.DeclsOrdered | framework/state.go:145-147 | the visiting order lists declarations by workload name: an earlier one's workload is never above a later one's |
| Primings.PrimeWorkloads | framework/state.go:145-187 | the loop over the sorted workload names is PrimeAll over their declarations |
| Primings.PrimeDecls | framework/state.go:147-186 | the loop over one workload's sorted resource names is PrimeAll over its declarations |
| Primings.PrimeResource | framework/state.go:148-185 | one iteration of the inner loop is Prime |
| Primings.MergeResource | framework/state.go:170-184 | the conflict checks are Merge |
| States.WorkloadName | framework/state.go:101-104 | the name exists iff metadata.name is a string, and it is that string |
| States.State.WithWorkload | framework/state.go:93-111 | a missing name fails with the Go message; otherwise a new State maps the name to the spec, replacing a same-named workload, and keeps everything else |
| States.State.WithPrimedResources | framework/state.go:136-189 | fails with the Go message iff priming the sorted declarations fails, else a new State with the primed resources and the rest unchanged |
| States.Dependencies | framework/state.go:191-213 | succeeds iff every `resources.<name>` in the params names a resource of the workload; then it is the set of their uids; errors are prefixed with workload and resource |
| States.DependenciesDeclared | framework/state.go:197-206 | every dependency is the uid of a declared resource of the same workload |
| States.DepsClosed | framework/state.go:191-213 | every dependency of every declaration is a declared uid |
| States.GatherReady | framework/state.go:226-239 | a uid is in the no-incoming-edges set iff some declaration of it has no dependencies |
| States.GatherWaiting | framework/state.go:226-239 | a uid has incoming edges iff some declaration of it has dependencies, and its edges are one such declaration's |
| States.GatherSpec | framework/state.go:226-239 | when declarations of one uid agree, the gathered graph does not depend on the visiting order |
| States.GatherGraph | framework/state.go:221-239 | the nested gathering loop fails iff some declaration's dependencies fail, with that error, and otherwise returns the graph of some visiting order |
| States.GraphWf | framework/state.go:221-239 | the gathered graph of consistent, resolvable, closed declarations is well formed over the declared uids |
| States.GraphSort | framework/state.go:218-279 | its sort lists every declared uid once and after all its dependencies, or fails with the cycle error exactly when there is a cycle |
| States.State.GetSortedResourceUids | framework/state.go:218-279 | a dependency error is returned; otherwise the result is Kahn's sort of the gathered graph |
| States.State.GetResourceOutputForWorkload | framework/state.go:284-300 | an unknown workload fails, an unprimed resource fails with its name and uid, and otherwise every resource name maps to its state's OutputLookup |
| States.GatherLastWins | framework/state.go:226-237 | of the declarations of one uid that have dependencies, the last one visited sets the uid's edges, overwriting any earlier one's |
| States.SharedUidListedTwice | framework/state.go:233-237 | a uid declared once without and once with dependencies is both ready and waiting, so a successful sort lists it twice |
| States.MergedWf | framework/state.go:233-237 | merging the dependencies of all declarations of a uid gives a well-formed graph over the declared uids, consistent or not |
| States.MergedSort | framework/state.go:218-279 | sorting the merged graph lists every declared uid once and after the dependencies of each of its declarations, or fails exactly on a cycle |
| States.MergedOrdered | framework/state.go:245-273 | order against the merged edges puts each uid after the dependencies of all its declarations |
| States.MergedConsistent | framework/state.go:233-237 | when declarations agree, the merged graph is the gathered one |
| Sorting.SortedStringMapKeys | framework/state.go:124-131 | the keys of the map in strictly increasing order |
| Sorting.SortStrings | framework/state.go:129 | sort.Strings returns a sorted permutation of its input |
| Sorting.SortedSeq | framework/state.go:124-131 | the strictly increasing list of a set's elements |
| Sorting.SortedUnique | framework/state.go:253 | a strictly increasing list of a set's elements is that set's sorted list |
| Sorting.Elements | loader/validate.go:96-101 | copying a set into a list lists every element once |
| Sorting.SortedElements | framework/state.go:248-253 | a set copied into a list and sorted is its sorted list |
| Sorting.BelowTotal | framework/state.go:253 | Go's byte-wise string order is total |
| Sorting.BelowTrans | framework/state.go:253 | Go's string order is transitive |
| Sorting.BelowAntisym | framework/state.go:253 | Go's string order is antisymmetric |
| TopoSort.Kahn | framework/state.go:241-278 | the rounds of Kahn's loop return Sort(nodesWithNoIncomingEdges, incomingEdges) |
| TopoSort.DropEdges | framework/state.go:261-271 | dropping one node's edges gives the remaining edges and the nodes it releases |
| TopoSort.DropRound | framework/state.go:259-272 | dropping a round's nodes gives the remaining edges and released nodes of the whole round |
| TopoSort.KahnStep | framework/state.go:245-273 | one round appends the sorted frontier and continues with the released nodes while the graph shrinks |
| TopoSort.RoundSize | framework/state.go:259-272 | a round splits the waiting nodes into released and remaining |
| TopoSort.SortPerm | framework/state.go:241-278 | on a well-formed graph a success lists every node exactly once |
| TopoSort.SortTopo | framework/state.go:241-278 | on a well-formed graph a success lists every node after all its dependencies |
| TopoSort.SortCycleIff | framework/state.go:274-277 | on a well-formed graph the sort fails, with the cycle message, iff the edges hold a cycle |
| TopoSort.SelfReference | framework/state.go:274-277 | a node waiting on itself makes the sort fail |
| TopoSort.SortLists | framework/state.go:256-268 | a success lists every ready and every waiting node |
| TopoSort.SortRepeats | framework/state.go:256-268 | a node both ready and waiting makes a successful output list a node twice |
| TopoSort.RepeatExample | framework/state.go:233-278 | ready {a, b} with a waiting on b sorts to a, b, a |
| Validation.ErrorLines | loader/validate.go:38-40 | the error text is the header line followed by each message indented by four spaces, one per line |
| Validation.WellFormedIff | loader/validate.go:27 | a placeholder is well formed iff it is two or more non-empty words of `[a-zA-Z0-9_-]` joined by dots |
| Validation.SplitWords | loader/validate.go:127-128 | splitting a well-formed placeholder at '.' gives back its words |
| Validation.Judge | loader/validate.go:129-141 | a placeholder reported as naming no resource names a missing one |
| Validation.PassesIff | loader/validate.go:122-141 | a placeholder passes iff it is well formed and starts with metadata, or with resources and an existing resource name |
| Validation.JudgeWords | loader/validate.go:129-141 | a well-formed placeholder with another root is unsupported, and `resources.<missing>` names the missing resource |
| Validation.AllPlaceholdersInString | loader/validate.go:44-52 | the placeholders in a string, in order, with duplicates |
| Validation.AllPlaceholdersIn | loader/validate.go:56-64 | the set of placeholders in every string of a document |
| Validation.FilesPlaceholders | loader/validate.go:73-79 | the placeholders of file contents, except unexpanded or content-less files |
| Validation.VariablesPlaceholders | loader/validate.go:80-84 | the placeholders of all variable values |
| Validation.VolumesPlaceholders | loader/validate.go:85-89 | the placeholders of all volume sources |
| Validation.ContainerPlaceholders | loader/validate.go:72-90 | the placeholders of a container's files, variables and volumes |
| Validation.ContainersPlaceholders | loader/validate.go:72-90 | the placeholders of all containers |
| Validation.ResourcesPlaceholders | loader/validate.go:91-95 | the placeholders of all resource params |
| Validation.ListAllPlaceholders | loader/validate.go:70-103 | every placeholder of the workload, each listed once |
| Validation.MessagesMembers | loader/validate.go:122-142 | the messages are exactly the problems of the listed placeholders |
| Validation.MessagesSnoc | loader/validate.go:122-142 | one more placeholder appends its problem, if any, to the messages |
| Validation.Check | loader/validate.go:123-141 | the message for one placeholder: malformed, no such resource, unsupported root, or none |
| Validation.CheckAll | loader/validate.go:120-142 | the loop collects the messages of the placeholders in list order |
| Validation.Validate | loader/validate.go:119-149 | no error iff every placeholder passes; otherwise the messages of the placeholders in some order of the deduplicated list |
| Validation.MessagesPass | loader/validate.go:143-148 | no messages iff every placeholder passes, and each message is the problem of some placeholder |

## Left out

- uuidV4 (framework/state.go:114-122) reads random bytes. The model takes a function `guids` from the number of resources created so far to a guid string.
- reflect.DeepEqual is modelled as structural equality of `Value`s; numbers are one exact kind (`real`), so Go's int/float distinction is not modelled.
- Substitution.Substituter.Substitute: when several keys of a map fail, the model reports the error of the least failing key in sorted order. Go returns the error of whichever failing key its map iteration reaches first (framework/substitution.go:96-102). So the error text of `States.Dependencies`, and the one `States.State.GetSortedResourceUids` passes on, is one choice among Go's possible ones. `Substitution.SubstituteErrNamesChild` states what holds for every order: the error is some failing child's error behind its key.
- Go map iteration order is not modelled. Methods iterate with `:|`, and specifications that depend on order are stated for some order.
- States.State.GetSortedResourceUids: its result is tied to the graph of the actual visiting order. It equals the order-free graph only when all declarations of a uid have the same dependencies (see Findings).
- Validation.Validate, Validation.AllPlaceholdersIn: stated on sets of placeholders, because the Go list order comes from map iteration and is unspecified.
- Validation.Check follows the source message "has unsupported first element of"; loader/validate_test.go:145 expects "has unknown first element", which the source does not produce.
- States.State.WithPrimedResources: requires every declared uid that has no entry in the resources yet to be well formed, with its first '.' before its first '#'. A uid built by `NewResourceUid` always holds both characters. The Go accessors run only for such a new uid, and they panic exactly when its first '#' comes before its first '.', as a type like `a#b` causes. That panic is not modelled.
- OverrideUtils.OverridePathInArray: Go's index-out-of-range panic on a deeper path is the value `Panicked`, not a run-time abort.
- The Go regular expressions are replaced by predicates: the placeholder pattern by `Scan`/`First` and the validation pattern by `WellFormedPlaceholder`.
- A custom UnEscaper is a callback parameter, but the lemmas about escapes assume the default one.
- json.Marshal of a non-string resolved value is a `marshal` parameter of `Resolve`.
- YAML/JSON (de)serialisation of the State, its struct tags and the schema validation are not part of this model.
- The uriget, formatter and schema packages are not part of this model.
- OverrideUtils.OverrideMapInMap, OverrideUtils.OverridePathInMap: a nil map, as an input or nested in a document, is treated as an empty map. `maps.Clone(nil)` is nil in Go, and the assignment into it at framework/override_utils.go:51, 61, 85 and 95 panics; those panics are not modelled, since `Value.Obj` has no nil value.
- Integers are unbounded except in `Atoi`, which accepts exactly the 64-bit range as strconv.Atoi does.

## Findings

| source | as written | input that shows it | evidently intended | confidence | as-written member | corrected member |
|---|---|---|---|---|---|---|
| framework/state.go:233-237 | A uid declared by two workloads goes into `nodesWithNoIncomingEdges` when one declaration has no dependencies, and into `incomingEdges` when another has some. It is then listed twice, and the first time it can come before its dependency. When both declarations have dependencies, the last one visited wins (`States.GatherLastWins`). | Workloads w1 and w2 each declare a resource with type t, class c and id x. In w1 its params reference `${resources.db.host}`, where db is another resource of w1. In w2 its params are nil. The sort lists `t.c#x` in the first round, beside db, and a second time when dropping db's edges releases it. | Every uid is listed once, after the dependencies of all its declarations. | medium, not executed | States.SharedUidListedTwice | States.MergedSort |
