# Triton analysis utilities, modelled in Dafny

This project models the self-contained parts of Triton's analysis utility
header `include/triton/Analysis/Utility.h`:

- the integer and sequence helpers `convertType`, `product`, `ceil`,
  `reorder`, `highestPowOf2Divisor` and `nextPowOf2`
  (`utility.dfy`, module `Utility`; `pow2.dfy`, module `PowerOfTwo`);
- the validation done by the `ReduceOpHelper` constructor: operand 0's
  shape and encoding and the element types of all inputs are recorded, and one
  "shape mismatch" / "encoding mismatch" error is emitted per differing
  input (`reduce_op_helper.dfy`, module `ReduceOpHelpers`);
- the class `CallGraph<T>`: `build`, `walk`/`doWalk`, the getters,
  `mapFuncOp` and `mapCallOp` (`call_graph.dfy`, module `CallGraphs`, a
  class whose fields `graph`, `funcMap` and `roots` the methods update in
  place), specified by functions over values and proved properties of those
  functions (`call_graph_spec.dfy`, module `CallGraphSpec`).

Counting occurrences in a sequence and sequence associativity, which the
reduction checks and the walk both use, are defined once in
`sequences.dfy` (module `Sequences`).

MLIR handles (functions, calls, attributes, element types, operations) are
opaque values compared by identity. A module is its list of functions, in
module order, each with its calls in the order the module walk meets them.
Each call records what `resolveCallable` found: a function or nothing.
The visitors passed to `walk` are modelled by the trace of the calls it
makes to them: `NodeEvent(f)` for `updateNodeFn(f)` and `EdgeEvent(c, g)`
for `updateEdgeFn(c, g)`.

`doWalk` tests `visited` but never inserts into it. So the
"Cycle detected" error cannot fire for the set `walk` passes, and a cycle
reachable from a root would recurse forever. The model therefore asks for a
ghost ranking: each edge out of a ranked function leads to a function of
smaller rank. The ranking is the reason the recursion ends; the model does
not claim that cycles are detected. Because nothing is inserted into
`visited`, a function reachable along several paths is visited once per
path (`CallGraphSpec.WalkVisits`).
A function whose own call resolves to itself is marked visited by `build`,
so it is never a root (`CallGraphSpec.SelfCallerNotRoot`). If nothing else
calls it, `walk` never reaches it: it neither loops nor reports a cycle
(`CallGraphSpec.SelfLoopModuleHasNoRoots`).

The word size of `highestPowOf2Divisor` and `nextPowOf2` is fixed at
32-bit unsigned (`bv32`). Their contracts speak of a word's numeric value
`Val(x)` and of powers of two as natural numbers.

Three behaviours of the code are easy to misread:

- `getNumFunctions()` is 0 right after construction, because `build` never
  fills `funcMap`.
- `mapFuncOp` copies f's entries to the target and removes nothing, so f
  keeps its graph entry and payload.
- No cycle is ever reported by `walk`.

## Model

| member | source | states |
|---|---|---|
| Utility.ConvertType | include/triton/Analysis/Utility.h:76-82 | the output has the input's length and element i is the conversion of input element i |
| Utility.Product | include/triton/Analysis/Utility.h:84-86 | the product of no factors is 1; the product is 0 exactly when some factor is 0; non-negative factors give a non-negative product |
| Utility.ProductConcat | include/triton/Analysis/Utility.h:84-86 | the product of a concatenation is the product of the two products |
| Utility.Wrap32 | include/triton/Analysis/Utility.h:85 | narrowing to a 32-bit int gives a value in int range that is congruent modulo 2^32 and equal when already in range |
| Utility.AccumulateInt | include/triton/Analysis/Utility.h:84-86 | std::accumulate with std::multiplies into an int accumulator: each step narrows to 32 bits, so after any factor the result lies in int range; no factors leave the seed |
| Utility.ProductAsWritten | include/triton/Analysis/Utility.h:84-86 | product as written, seeded with the int literal 1: 1 for no factors, and always in int range whatever the Int factors are |
| Utility.ProductAsWrittenExact | include/triton/Analysis/Utility.h:84-86 | while every partial product fits in an int, the int-seeded accumulation equals the true product |
| Utility.ProductAsWrittenOverflows | include/triton/Analysis/Utility.h:84-86 | for the 64-bit shape [65536, 65536] the true product is 2^32 but the int-seeded accumulation gives 0 |
| Utility.TruncDiv | include/triton/Analysis/Utility.h:88 | C++ division: the remainder is smaller than the divisor in magnitude and is zero or has the dividend's sign; on non-negative operands it is ordinary division |
| Utility.Ceil | include/triton/Analysis/Utility.h:88 | (m + n - 1) / n with truncating division for all signs; for m >= 0 and n > 0 a block count that covers m while one block fewer does not |
| Utility.CeilLeast | include/triton/Analysis/Utility.h:88 | for m >= 0 and n > 0, any k with k * n >= m is at least ceil(m, n) |
| Utility.Gather | include/triton/Analysis/Utility.h:90-92 | output[i] = input[order[i]], with the length of order |
| Utility.Reorder | include/triton/Analysis/Utility.h:90-100 | under the asserted equal sizes and in-range order, the filled vector is Gather(input, order) |
| Utility.GatherIdentity | include/triton/Analysis/Utility.h:90-100 | reordering by the identity order returns the input unchanged |
| Utility.GatherCompose | include/triton/Analysis/Utility.h:90-100 | two reorders in a row are one reorder by the composed order |
| Utility.GatherInverse | include/triton/Analysis/Utility.h:90-100 | reordering by a permutation and then by its inverse restores the input |
| PowerOfTwo.HighestPowOf2Divisor | include/triton/Analysis/Utility.h:102-108 | 0 gives 1 << 30; otherwise a power of two that divides n with an odd quotient, and it is n's lowest set bit |
| PowerOfTwo.HighestPowOf2DivisorIsGreatest | include/triton/Analysis/Utility.h:102-108 | for non-zero n, every power of two dividing n is at most the result, so the result is the highest such divisor |
| PowerOfTwo.OddQuotientIsGreatest | include/triton/Analysis/Utility.h:102-108 | a power of two dividing a number with an odd quotient is at least every power of two dividing it |
| PowerOfTwo.LowestSetBitDivides | include/triton/Analysis/Utility.h:107 | n & ~(n - 1) has a power-of-two value that divides the value of n with an odd quotient |
| PowerOfTwo.LeastPow2 | include/triton/Analysis/Utility.h:110-111 | a power of two in [n, 2n) is the least power of two at least n |
| PowerOfTwo.TopMaskCovers | include/triton/Analysis/Utility.h:116-119 | the all-ones mask below the top bit of x covers x and shares its top bit |
| PowerOfTwo.TopMask | include/triton/Analysis/Utility.h:116-119 | the value the smearing loop reaches: zero exactly for zero; TopMaskCovers and TopMaskValue state the rest |
| PowerOfTwo.TopMaskValue | include/triton/Analysis/Utility.h:116-119 | the mask's value is 2^k - 1, at least the value of x and, for x != 0, less than twice it |
| PowerOfTwo.Smear | include/triton/Analysis/Utility.h:117-119 | the rounds x \|= x >> i for i = 1, 2, 4, 8, 16 turn x into the all-ones mask below its top bit |
| PowerOfTwo.TopMaskSuccessor | include/triton/Analysis/Utility.h:116-120 | one past the mask of n - 1 is the least power of two at least n for 0 < n <= 2^31 and wraps to 0 above |
| PowerOfTwo.NextPowOf2 | include/triton/Analysis/Utility.h:110-121 | 0 gives 1; 0 < n <= 2^31 gives the least power of two at least n, so a power of two gives itself; n > 2^31 gives 0 |
| ReduceOpHelpers.ElementTypes | include/triton/Analysis/Utility.h:20 | the element types of the inputs, one per input, in order |
| ReduceOpHelpers.Message.Text | include/triton/Analysis/Utility.h:24-27 | each error kind has its non-empty text |
| ReduceOpHelpers.DiagnosticEngine.Emit | include/triton/Analysis/Utility.h:24-27 | `rop.emitError() << msg`: the error is appended after every error already emitted, and nothing else changes |
| ReduceOpHelpers.InputDiagnostics | include/triton/Analysis/Utility.h:23-28 | one input draws a shape error exactly when its shape differs and an encoding error exactly when its encoding differs, and nothing else |
| ReduceOpHelpers.Diagnostics | include/triton/Analysis/Utility.h:22-29 | no error is emitted exactly when every input has the recorded shape and encoding |
| ReduceOpHelpers.MismatchDiagnostics | include/triton/Analysis/Utility.h:16-29 | every input checked against operand 0: no error exactly when all inputs share operand 0's shape and encoding |
| ReduceOpHelpers.ReduceOpHelper.constructor | include/triton/Analysis/Utility.h:15-30 | records operand 0's shape and encoding, the element types and the axis, and appends exactly the errors of every input in input order; construction completes |
| ReduceOpHelpers.DiagnosticsCount | include/triton/Analysis/Utility.h:22-29 | one shape error per input whose shape differs, one encoding error per input whose encoding differs, and no other error |
| ReduceOpHelpers.DiagnosticsConcat | include/triton/Analysis/Utility.h:22-29 | the errors for a concatenation of inputs are those of each part, in input order |
| ReduceOpHelpers.FirstInputIsSilent | include/triton/Analysis/Utility.h:17-29 | operand 0 never draws an error, so a single-input reduction emits none |
| CallGraphSpec.ResolvedEdges | include/triton/Analysis/Utility.h:227-235 | the edges of one function's calls, at most one per call; ResolvedEdgesConcat and ResolvedEdgesMembership say which and in what order |
| CallGraphSpec.AddEdges | include/triton/Analysis/Utility.h:231-232 | appending to graph[caller] extends only the caller's list, and creates its entry only when something is appended |
| CallGraphSpec.AddEdgesAppend | include/triton/Analysis/Utility.h:231-232 | appending edges one at a time is appending them all at once |
| CallGraphSpec.ResolvedEdgesMembership | include/triton/Analysis/Utility.h:227-235 | an edge (c, h) is recorded exactly when call c resolved to h |
| CallGraphSpec.ResolvedEdgesAllResolved | include/triton/Analysis/Utility.h:227-235 | when every call resolves, there is one edge per call, in call order |
| CallGraphSpec.ResolvedEdgesConcat | include/triton/Analysis/Utility.h:227-235 | the edges of a concatenation of calls are the edges of each part in turn: one edge per resolved call, in call order, unresolved calls contributing nothing |
| CallGraphSpec.ResolvedEdgesSkipsUnresolved | include/triton/Analysis/Utility.h:227-235 | resolved, unresolved, resolved gives exactly the two resolved edges, in order |
| CallGraphSpec.CalleesOfCallsMembership | include/triton/Analysis/Utility.h:233 | a function is marked visited exactly when some call resolved to it |
| CallGraphSpec.CalleesMembership | include/triton/Analysis/Utility.h:225-236 | the visited set of build is the union of the callees of every function |
| CallGraphSpec.GraphOfKeys | include/triton/Analysis/Utility.h:225-236 | a function has a graph entry exactly when one of its calls resolved |
| CallGraphSpec.GraphOfOther | include/triton/Analysis/Utility.h:225-236 | a handle that is not a function of the module has no edges |
| CallGraphSpec.GraphOfEdges | include/triton/Analysis/Utility.h:225-236 | with distinct function handles, each caller's list is exactly the edges of its resolved calls, in call order |
| CallGraphSpec.Lookup | include/triton/Analysis/Utility.h:257 | the edges of f without inserting an entry; a function with no entry has no edges |
| CallGraphSpec.GraphOf | include/triton/Analysis/Utility.h:225-236 | the graph of the first module walk, function by function; GraphOfKeys, GraphOfOther and GraphOfEdges state its keys and lists |
| CallGraphSpec.CalleesOfCalls | include/triton/Analysis/Utility.h:229-233 | the functions one function's resolved calls target; CalleesOfCallsMembership states membership |
| CallGraphSpec.Callees | include/triton/Analysis/Utility.h:223-236 | build's visited set over all functions; CalleesMembership states membership |
| CallGraphSpec.RootsOf | include/triton/Analysis/Utility.h:238-242 | the functions not visited, in module order, at most one per function |
| CallGraphSpec.RootsOfMembership | include/triton/Analysis/Utility.h:238-242 | a function is collected exactly when it belongs to the module and is not visited |
| CallGraphSpec.RootsOfConcat | include/triton/Analysis/Utility.h:238-242 | the roots keep module order: those of a concatenation are those of each part |
| CallGraphSpec.RootsMembership | include/triton/Analysis/Utility.h:221-243 | a function is a root exactly when it belongs to the module and no resolved call targets it |
| CallGraphSpec.Roots | include/triton/Analysis/Utility.h:238-242 | the roots build collects, at most one per function of the module; RootsMembership states which |
| CallGraphSpec.EdgesTraceConcat | include/triton/Analysis/Utility.h:257-266 | the loop over a concatenation of edge lists produces the events of each list in turn |
| CallGraphSpec.SubtreeEnds | include/triton/Analysis/Utility.h:248-271 | doWalk(f) produces events, f's update first in pre-order and last in post-order |
| CallGraphSpec.EdgeStepEnds | include/triton/Analysis/Utility.h:258-264 | one edge's events start with the edge's update in pre-order and end with it in post-order |
| CallGraphSpec.Subtree | include/triton/Analysis/Utility.h:248-271 | doWalk(f)'s events: f's update before (pre-order) or after (post-order) the events of its edges in list order; SubtreeEnds, SubtreeAtEdge and SubtreeVisits state its properties |
| CallGraphSpec.EdgesTrace | include/triton/Analysis/Utility.h:257-266 | the events of the loop over f's edges, each edge's events in list order; EdgesTraceConcat and EdgesVisits state its properties |
| CallGraphSpec.EdgeStep | include/triton/Analysis/Utility.h:258-264 | one edge's events: its update before (pre-order) or after (post-order) its callee's whole walk; EdgeStepEnds and EdgeStepVisits state its properties |
| CallGraphSpec.WalkTrace | include/triton/Analysis/Utility.h:157-163 | walk's events: the walk of each root in root order; WalkVisits states how often each function is updated |
| CallGraphSpec.SubtreeAtEdge | include/triton/Analysis/Utility.h:248-271 | the walk of f, cut at any edge: f's update first in pre-order and last in post-order, the edge's update before its callee's whole walk in pre-order and after it in post-order, the other edges in list order around it |
| CallGraphSpec.SubtreeVisits | include/triton/Analysis/Utility.h:248-271 | doWalk(f) updates a function once for every path from f to it |
| CallGraphSpec.EdgesVisits | include/triton/Analysis/Utility.h:257-266 | the loop over edges updates a function once for every path that starts with one of those edges |
| CallGraphSpec.EdgeStepVisits | include/triton/Analysis/Utility.h:258-264 | one edge updates a function once for every path from its callee |
| CallGraphSpec.WalkVisits | include/triton/Analysis/Utility.h:157-163 | walk updates a function once for every path to it from every root |
| CallGraphSpec.SelfCallUnranked | include/triton/Analysis/Utility.h:251-253 | a function that calls itself admits no ranking, so walking from it would not end |
| CallGraphSpec.SelfCallerNotRoot | include/triton/Analysis/Utility.h:229-242 | a function with a call resolving to itself is marked visited, so it is not among the roots |
| CallGraphSpec.SelfLoopModuleHasNoRoots | include/triton/Analysis/Utility.h:221-243 | a module of one function that only calls itself has no roots, so walk visits nothing |
| CallGraphSpec.Rewritten | include/triton/Analysis/Utility.h:189-193 | each edge of a list rewritten in place, in order, without changing the length |
| CallGraphSpec.Apply | include/triton/Analysis/Utility.h:190-191 | one edge after a rewrite (mapFuncOp here, mapCallOp at lines 213-214): an edge into f becomes the same call into t, an edge of call c becomes call t into the same callee, and every other edge is unchanged; for f != t (c != t) no edge into f (of c) remains |
| CallGraphSpec.RewriteGraph | include/triton/Analysis/Utility.h:188-194 | every list of the graph rewritten; no caller is added or removed |
| CallGraphSpec.ReplaceFirst | include/triton/Analysis/Utility.h:197-202 | the roots keep their length, and a list without f is unchanged |
| CallGraphSpec.ReplaceFirstAt | include/triton/Analysis/Utility.h:197-202 | when the first f sits at index i, replacing the first f is the single update at i |
| CallGraphSpec.FirstIndex | include/triton/Analysis/Utility.h:197-202 | the index where the search loop stops: an f with no f before it |
| CallGraphSpec.ReplaceFirstSplit | include/triton/Analysis/Utility.h:197-202 | only the first occurrence of f becomes t; what comes before and after it is kept |
| CallGraphSpec.MapFuncGraphEdges | include/triton/Analysis/Utility.h:188-195 | after mapFuncOp the callers are the old ones plus f and t, t's list is a copy of f's redirected list, and every other list has its edges into f redirected to t |
| CallGraphSpec.MapFuncGraphNoEdgeIntoSource | include/triton/Analysis/Utility.h:188-195 | for f != t, no edge targets f after mapFuncOp |
| CallGraphSpec.MapFuncGraphRedirects | include/triton/Analysis/Utility.h:188-195 | in every list but t's, f's own included, an edge into f keeps its place and call and now targets t |
| CallGraphSpec.MapFuncGraphCopiesRedirected | include/triton/Analysis/Utility.h:188-195 | t's new list has the length of f's old one, and an edge into f there (a self-call of f) is, in both f's and t's new lists, the same call now targeting t |
| CallGraphSpec.MapFuncDataKeeps | include/triton/Analysis/Utility.h:204 | after mapFuncOp f and t both have payloads, t's is f's (or T{}), f keeps its own, and other payloads are untouched |
| CallGraphSpec.MapCallGraphEdges | include/triton/Analysis/Utility.h:209-218 | mapCallOp changes only the call of edges whose call matches; callers, lengths and callees stay |
| CallGraphSpec.MapFuncGraph | include/triton/Analysis/Utility.h:188-195 | mapFuncOp's graph: the old callers plus f and t, with t's list equal to f's |
| CallGraphSpec.MapFuncData | include/triton/Analysis/Utility.h:204 | mapFuncOp's payloads: the old keys plus f and t, with t's payload equal to f's |
| CallGraphSpec.MapCallGraph | include/triton/Analysis/Utility.h:209-218 | mapCallOp's graph: the same callers, every list keeping its length |
| CallGraphSpec.ChainGraph | include/triton/Analysis/Utility.h:221-236 | for A calling B calling C, build records the edges A to B and B to C |
| CallGraphSpec.ChainRoots | include/triton/Analysis/Utility.h:238-242 | for the same chain, A is the only root |
| CallGraphSpec.ChainPreOrderWalk | include/triton/Analysis/Utility.h:248-271 | the pre-order walk of the chain updates A, edge A to B, B, edge B to C, then C |
| CallGraphSpec.ChainPostOrderWalk | include/triton/Analysis/Utility.h:248-271 | the post-order walk of the chain produces the same events in reverse order |
| CallGraphs.CallGraph.constructor | include/triton/Analysis/Utility.h:150 | building from a module gives its graph and roots, with no payloads |
| CallGraphs.CallGraph.Build | include/triton/Analysis/Utility.h:221-243 | the two module walks leave graph equal to the module's graph and roots equal to its roots, and leave funcMap alone |
| CallGraphs.CallGraph.AddCalls | include/triton/Analysis/Utility.h:225-236 | the calls of one function append their edges to its list and mark their callees visited |
| CallGraphs.CallGraph.CollectRoots | include/triton/Analysis/Utility.h:238-242 | appends, in module order, every function not visited |
| CallGraphs.CallGraph.DoWalk | include/triton/Analysis/Utility.h:248-271 | starting from an empty visited set, produces exactly the walk of f and leaves visited empty; a function already in visited is the fatal error |
| CallGraphs.CallGraph.Walk | include/triton/Analysis/Utility.h:157-163 | produces the walk of every root, in root order |
| CallGraphs.CallGraph.GetFuncData | include/triton/Analysis/Utility.h:166-171 | a payload exactly when funcMap has an entry for f, and then that entry; null otherwise |
| CallGraphs.CallGraph.GetRoots | include/triton/Analysis/Utility.h:175 | the roots |
| CallGraphs.CallGraph.GetNumFunctions | include/triton/Analysis/Utility.h:176 | the number of payload entries, 0 exactly when there is none |
| CallGraphs.CallGraph.IsRoot | include/triton/Analysis/Utility.h:179-181 | true exactly when f occurs among the roots |
| CallGraphs.CallGraph.RewriteList | include/triton/Analysis/Utility.h:189-193 | the inner loop rewrites each edge of one list in place |
| CallGraphs.CallGraph.RewriteEdges | include/triton/Analysis/Utility.h:188-194 | the outer loop leaves every list rewritten and the other fields alone |
| CallGraphs.CallGraph.MapFuncOp | include/triton/Analysis/Utility.h:186-205 | the new graph, roots and payloads are those of the value-level mapFuncOp |
| CallGraphs.ReplaceFirstRoot | include/triton/Analysis/Utility.h:197-202 | the search loop with break over roots yields the list with only its first f replaced by t |
| CallGraphs.CallGraph.MapCallOp | include/triton/Analysis/Utility.h:209-218 | the new graph is the value-level mapCallOp; roots and payloads are unchanged |
| CallGraphs.FreshGraphHasNoData | include/triton/Analysis/Utility.h:166-176 | right after construction getNumFunctions() is 0 and getFuncData is null for every function |

## Left out

- The `ReduceOpHelper` query methods (`isFastReduction`, the warp sizes,
  the scratch configurations, `getScratchSizeInBytes`,
  `isSupportedLayout`): only declared in this header, their bodies are
  elsewhere. The inline getters `getSrcShape` and `getSrcLayout` return the
  recorded fields, which the model exposes directly as the class's
  `srcShape` and `srcEncoding`.
- MLIR's diagnostic engine: modelled as a list that errors are only
  appended to (`ReduceOpHelpers.DiagnosticEngine`); severities, locations,
  handlers and the `InFlightDiagnostic` streaming object are not modelled.
- `multiRootTopologicalSort`, `multiRootGetSlice`, `createDataFlowSolver`
  and the IR queries (`maybeSharedAllocationOp`, `maybeAliasOp`,
  `supportMMA`, `getElementType`, `getValueOperandName`, `isSingleValue`,
  `isMmaToDotShortcut`): declared only, their bodies are not part of this
  model.
- `CallGraph::getModuleOp`: a plain getter; the module is the `moduleOp`
  field.
- Symbol resolution (`resolveCallable` and the symbol table) is given in the
  module as each call's resolved callee. The order of `moduleOp.walk` is
  taken to be function by function, calls in order.
- Calls outside any function (a null caller in `build`) are not
  represented: every call belongs to a function.
- The visitors' own side effects: the model records the sequence of calls
  made to them. `llvm::report_fatal_error` is modelled by a `fatal` result.
- `graph[funcOp]` in `doWalk` inserts an empty list for a function without
  edges. The model reads the graph without inserting (`Lookup`); the
  inserted entries are empty and change nothing a later operation reads
  except the set of keys. The insertion can also happen during the walk:
  the range-for over `graph[funcOp]` holds iterators into a list stored in
  the DenseMap, and the recursive `doWalk(callee)` may insert the callee's
  entry, which can grow the map and move its buckets, leaving the outer
  frames' iterators pointing into freed storage when the list lives in the
  SmallVector's inline buffer. The model's lists are values, so it cannot
  show this; it describes the walk as if the lists stayed in place.
- `mapFuncOp` writes `graph[t] = graph[f]` and `funcMap[t] = funcMap[f]`
  on a DenseMap. The model assumes the value read from `graph[f]` (or
  `funcMap[f]`) is copied before `t`'s entry is created; the effect of a
  rehash on that reference is not modelled. When f has no entry it gets an
  empty one (T{} for the payload), as `operator[]` does.
- `getFuncData` returns the address of the entry in `funcMap`; the model
  returns the payload value, so writes through that address are not
  modelled.
- `reorder`'s `RES_T` conversion: the result has the input's element type.
- `convertType`'s `T_OUT(i)` is a function parameter `convert`.
- `highestPowOf2Divisor` and `nextPowOf2` are modelled for 32-bit unsigned
  `T` only; other widths and negative values of a signed `T` are left out.
- `product` and `ceil` compute on unbounded integers, except for the
  narrowing shown under Findings; 64-bit overflow of `Int` is not modelled.
- CallGraphs.CallGraph.DoWalk: when `visited` starts non-empty the contract
  only says the result is fatal if f is in it and that nothing is added; the
  events produced then are not stated. `walk` always passes an empty set.
- The loop in `mapFuncOp` that replaces the first root equal to f ends with
  `break`; the model writes it as a search loop followed by one update.
- MapFuncOp and MapCallOp rewrite each caller's list in an unspecified
  order of callers; DenseMap iteration order is not modelled because it
  does not affect the result.

## Findings

| source | as written | input that shows it | evidently intended | confidence | as-written member | corrected member |
|---|---|---|---|---|---|---|
| include/triton/Analysis/Utility.h:84-86 | `std::accumulate` is seeded with the literal `1`, an `int`, so for `Int = int64_t` every partial product is narrowed to 32 bits | the 64-bit shape [65536, 65536] gives 0 | the product 2^32 in `Int` | not executed | Utility.ProductAsWrittenOverflows | Utility.Product |
