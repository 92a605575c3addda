# c-helper: forward dataflow solver and Util helpers, in Dafny

This project models two sequential parts of the c-helper Eclipse plug-in,
which analyses C programs, and proves properties of the models.

**The forward dataflow solver** (`ForwardSolver`, module `Dataflow`,
file `forward_solver.dfy`). The solver computes an entry set and an exit set
of analysis values for every vertex of a control-flow graph.

- `solve` fills the entry map with each vertex's initial value.
- `solveForward` then repeats passes until the exit map equals the snapshot
  taken at the start of the pass.
- A pass appends the entry vertex to a FIFO queue and dequeues vertices one by
  one. It stops when the queue is empty, or when it dequeues a vertex it
  already processed in this pass; that vertex is dropped.
- Processing a vertex first queues all its successors. Then the vertex gets
  an entry set (`getEntrySet`) and an exit set (the transfer of the entry set).
- The queue is created once and is never cleared. Vertices still queued when
  a pass stops early are dequeued at the start of the next pass, before the
  entry vertex appended for that pass.
- The snapshot map is never cleared either: `putAll` overwrites it.

The model keeps both quirks. `Result` and `ForwardSolver` are Dafny classes.
The two maps are fields that the methods update in place. The graph queries
and the analysis operations (initial value, join, transfer) are function
values whose behaviour the model does not know.

**The Util helpers** (module `Util`, file `util.dfy`):

- `maskBits` and `cutBits`: bit truncation and sign extension of
  `java.math.BigInteger` values. The BigInteger operations they use are in
  module `BigInteger` (`biginteger.dfy`): and, or, not, shiftLeft and testBit
  on unbounded integers in two's complement.
- `calculateColumnNumber`, with `String.lastIndexOf`.
- Both `indexOf` overloads: the plain one with a character predicate, and the
  one that skips comments by binary-searching them.
- The generic `binarySearch` with a comparator between two types.
- `removeQualifier`.

Where the Java code loops, the model has a method with a loop and its
invariants. Straight-line code is a function.

## Model

Source paths are relative to the repository root.

| member | source | states |
|---|---|---|
| Dataflow.Result.constructor | src/com/github/uchan_nos/c_helper/dataflow/ForwardSolver.java:23-25 | a new result holds two empty maps |
| Dataflow.ForwardSolver.constructor | src/com/github/uchan_nos/c_helper/dataflow/ForwardSolver.java:14-16 | the solver is bound to the given graph, entry vertex and analysis operations |
| Dataflow.ForwardSolver.Solve | src/com/github/uchan_nos/c_helper/dataflow/ForwardSolver.java:22-35 | a fresh result whose entry map has a key for exactly the graph's vertices, followed by the guarantees of SolveForward. The entry vertex keeps its initial entry set. A vertex without an exit set (one no pass processed) keeps its initial value. Every exit set is the transfer of the stored entry set. The recorded run starts from the initialised entry map, an empty exit map and an empty queue, and ends in the returned maps; the loop stops as SolveForward states (Stopped), so RunDetermined fixes the result |
| Dataflow.ForwardSolver.SolveForward | src/com/github/uchan_nos/c_helper/dataflow/ForwardSolver.java:37-66 | the outer loop. Pass k turns the maps of state k into those of state k+1 by processing its order of vertices in turn (RunOrder), and starts from the queue pass k-1 left, the first pass from an empty queue. `converged` holds exactly when at least one pass ran and the last one left the exit map equal to its snapshot; every earlier pass changed it. Converging takes at least two passes, and the last pass leaves each vertex it processed, other than the entry vertex, at the join of its predecessors' exit sets. The exit keys are exactly the vertices some pass processed, and no pass processes a vertex twice. The budget is used up unless the loop converged. Every processed vertex was in the queue when it was polled, so no pass goes on past an empty queue; with RunDetermined the whole run, and so the returned maps, is fixed by the graph, the analysis and the budget |
| Dataflow.ForwardSolver.Round | src/com/github/uchan_nos/c_helper/dataflow/ForwardSolver.java:45-65 | one iteration of the do-while: after putAll the snapshot equals the exit map the pass starts from (exit keys are never removed, so the old snapshot contents do not survive), a pass runs from the queue left over, and `changed` holds exactly when the exit map now differs from the snapshot; the recorded run gains this pass |
| Dataflow.ForwardSolver.SolveStep | src/com/github/uchan_nos/c_helper/dataflow/ForwardSolver.java:45-65 | recording one more pass keeps the loop invariant: the run so far is a trace of passes, the last recorded maps and queue are the current ones, the loop stops exactly when this pass left the exit map unchanged, and every pass before it changed the exit map |
| Dataflow.ForwardSolver.TraceStep | src/com/github/uchan_nos/c_helper/dataflow/ForwardSolver.java:38-50 | a pass that started from the last recorded maps and the last recorded queue extends the recorded run |
| Dataflow.ForwardSolver.TraceAt | src/com/github/uchan_nos/c_helper/dataflow/ForwardSolver.java:38-65 | every pass of a recorded run turned its starting maps into the next ones by processing its order, and its queue equation links the queue it started from to the queue it left |
| Dataflow.ForwardSolver.PolledWhileQueuedStep | src/com/github/uchan_nos/c_helper/dataflow/ForwardSolver.java:50 | polling one more vertex while the queue is not used up keeps "every processed vertex was queued when polled" |
| Dataflow.ForwardSolver.PolledFromQueue | src/com/github/uchan_nos/c_helper/dataflow/ForwardSolver.java:48-55 | the i-th vertex a pass processes is the i-th element of its queue as it stood before that poll: the left-over queue, the entry vertex and the successors queued by the first i processed vertices |
| Dataflow.ForwardSolver.CommonPrefix | src/com/github/uchan_nos/c_helper/dataflow/ForwardSolver.java:48-55 | two runs of a pass from the same queue process the same vertices, one for one, as far as both go |
| Dataflow.ForwardSolver.NoEarlierStop | src/com/github/uchan_nos/c_helper/dataflow/ForwardSolver.java:50 | a pass cannot stop before another run of it from the same queue: stopping early would mean dropping a vertex that the other run processes for the first time |
| Dataflow.ForwardSolver.PassDetermined | src/com/github/uchan_nos/c_helper/dataflow/ForwardSolver.java:47-64 | a pass is determined by the queue it starts from: the processed vertices, the dropped vertex and the queue left over are unique |
| Dataflow.ForwardSolver.TracePrefix | src/com/github/uchan_nos/c_helper/dataflow/ForwardSolver.java:45-65 | the first m passes of a recorded run are a recorded run |
| Dataflow.ForwardSolver.TraceDetermined | src/com/github/uchan_nos/c_helper/dataflow/ForwardSolver.java:37-65 | a recorded run is determined by its starting maps, its starting queue and its number of passes |
| Dataflow.ForwardSolver.NotShorter | src/com/github/uchan_nos/c_helper/dataflow/ForwardSolver.java:45-65 | a run that stops as the do-while does is at least as long as any other such run from the same start with the same budget |
| Dataflow.ForwardSolver.RunDetermined | src/com/github/uchan_nos/c_helper/dataflow/ForwardSolver.java:37-65 | two runs from the same start that stop as the do-while does agree on every pass, on the final maps and queue, and on `converged` |
| Dataflow.ForwardSolver.HistoryStep | src/com/github/uchan_nos/c_helper/dataflow/ForwardSolver.java:45-65 | a pass that only adds exit keys for the vertices it processed keeps "exit keys = vertices processed by some pass" and "no pass processes a vertex twice" |
| Dataflow.ForwardSolver.Pass | src/com/github/uchan_nos/c_helper/dataflow/ForwardSolver.java:47-64 | one pass. Every processed vertex was in the queue when it was polled: the pass stops once the queue is used up. The new maps are the old ones after processing the vertices of `order` in turn (RunOrder). The queue is FIFO and outlives the pass: processed ++ dropped ++ left-over queue == incoming queue ++ [entry] ++ the successors of the processed vertices, in processing order. At least one vertex is processed, none twice. A pass ends by dropping at most one vertex, which was processed earlier in the pass, or with an empty queue. With an empty incoming queue the entry vertex goes first. Processed vertices gain exit sets; the others keep theirs. If the exit map is back to its start value, every processed non-entry vertex satisfies the join equation. The consistency of the maps is kept |
| Dataflow.ForwardSolver.RunOrderFrame | src/com/github/uchan_nos/c_helper/dataflow/ForwardSolver.java:58-63 | processing the vertices of an order gives each of them an entry and an exit set and leaves every other vertex's entry and exit set (present or absent) as it was |
| Dataflow.ForwardSolver.RunOrderSnoc | src/com/github/uchan_nos/c_helper/dataflow/ForwardSolver.java:50-63 | processing one more vertex after an order is one more application of the loop body's map update |
| Dataflow.ForwardSolver.PassInvariantStep | src/com/github/uchan_nos/c_helper/dataflow/ForwardSolver.java:50-63 | dequeuing and processing a vertex not yet visited keeps the pass invariant, and strictly shrinks the set of unvisited graph vertices (the termination measure of the inner loop) |
| Dataflow.ForwardSolver.PassEnd | src/com/github/uchan_nos/c_helper/dataflow/ForwardSolver.java:50 | both ways the inner loop ends (empty queue; dequeue of a visited vertex, which is dropped) give Pass's guarantees |
| Dataflow.ForwardSolver.QueueEnd | src/com/github/uchan_nos/c_helper/dataflow/ForwardSolver.java:48-50 | at the end of a pass the queue equation holds with the dropped vertex, at least one vertex was processed, and with an empty incoming queue the first one is the entry vertex |
| Dataflow.ForwardSolver.ProcessVertex | src/com/github/uchan_nos/c_helper/dataflow/ForwardSolver.java:51-63 | the loop body: v is marked visited, the queue becomes the rest of the queue plus v's successors in order, v's entry set becomes getEntrySet's value and its exit set the transfer of that entry set, and the pass invariant is kept |
| Dataflow.ForwardSolver.PassStep | src/com/github/uchan_nos/c_helper/dataflow/ForwardSolver.java:50-63 | processing one more unvisited vertex keeps "no vertex processed twice, only processed vertices change exit sets, exit keys only grow" and the join equation for the vertices processed before |
| Dataflow.ForwardSolver.QueueStep | src/com/github/uchan_nos/c_helper/dataflow/ForwardSolver.java:50-55 | polling v and appending its successors keeps the FIFO queue equation |
| Dataflow.ForwardSolver.SuccessorsOfSnoc | src/com/github/uchan_nos/c_helper/dataflow/ForwardSolver.java:52-55 | processing v appends exactly v's successors, in iteration order, to the queued successors |
| Dataflow.ForwardSolver.VisitKeepsConsistent | src/com/github/uchan_nos/c_helper/dataflow/ForwardSolver.java:58-63 | storing a vertex's entry set and then its transfer as its exit set keeps the map invariants: key sets, entry vertex at its initial value, unprocessed vertices at their initial values, exit = transfer(entry) |
| Dataflow.ForwardSolver.Visit | src/com/github/uchan_nos/c_helper/dataflow/ForwardSolver.java:58-63 | the entry map gains v ↦ getEntrySet's value, and the exit map gains v ↦ the transfer of exactly that entry set; nothing else changes |
| Dataflow.ForwardSolver.AddAll | src/com/github/uchan_nos/c_helper/dataflow/ForwardSolver.java:53-55 | the queue afterwards is the queue before, followed by the successors in iteration order |
| Dataflow.ForwardSolver.GetEntrySet | src/com/github/uchan_nos/c_helper/dataflow/ForwardSolver.java:71-90 | the entry vertex gets the frozen entry set whatever its predecessors. Any other vertex gets join applied to the set of its predecessors' recorded exit sets: predecessors without one contribute nothing, and equal exit sets count once |
| Util.Mask | src/com/github/uchan_nos/c_helper/util/Util.java:127 | ONE.shiftLeft(bits) − 1 is 2^bits − 1 for bits ≥ 0 and −1 (all one bits) for a negative bits |
| Util.AndMask | src/com/github/uchan_nos/c_helper/util/Util.java:128 | value.and(mask) is value mod 2^bits for bits ≥ 0 and value itself for a negative bits |
| Util.MaskBits | src/com/github/uchan_nos/c_helper/util/Util.java:126-129 | for bits ≥ 0 the result is value mod 2^bits and lies in [0, 2^bits); for bits < 0 the mask is all ones and the value is returned unchanged |
| Util.Wrap | src/com/github/uchan_nos/c_helper/util/Util.java:147 | Java int arithmetic: the result is the int congruent to its argument mod 2^32, and an argument already in int range is unchanged (so bits − 1 wraps only at bits = −2^31) |
| Util.CutBits | src/com/github/uchan_nos/c_helper/util/Util.java:144-151 | throws ArithmeticException exactly when −2^31 < bits < 1 (testBit of a negative index); at bits = −2^31 the index bits − 1 wraps to 2^31 − 1 and the value comes back unchanged. For bits ≥ 1 the result lies in [−2^(bits−1), 2^(bits−1)) and is congruent to value mod 2^bits: the masked value, minus 2^bits when bit bits−1 is set |
| Util.CutBitsUnique | src/com/github/uchan_nos/c_helper/util/Util.java:131-151 | any number in that range congruent to value mod 2^bits is cutBits' result: the result is the value read as a bits-wide two's-complement number |
| Util.CutBitsDocExample | src/com/github/uchan_nos/c_helper/util/Util.java:135-138 | cutBits(416, 8) = −96, the documented example |
| Util.LastIndexOf | src/com/github/uchan_nos/c_helper/util/Util.java:160 | String.lastIndexOf(t, fromIndex): −1, or a start of t at or before fromIndex with no later start up to fromIndex |
| Util.CalculateColumnNumber | src/com/github/uchan_nos/c_helper/util/Util.java:159-165 | with no delimiter starting at or before offset the result is offset. Otherwise offset − col − \|delimiter\| is the last start of the delimiter at or before offset |
| Util.IndexOf | src/com/github/uchan_nos/c_helper/util/Util.java:214-221 | the least i with max(fromIndex, 0) ≤ i < \|s\| and p(s[i]), or −1 exactly when no such i exists |
| Util.CompareCommentTo | src/com/github/uchan_nos/c_helper/util/Util.java:254-267 | the comparator returns 0 exactly when the comment, shifted by commentOffset, covers the position, −1 exactly when it ends at or before the position, and 1 exactly when it starts after it |
| Util.CommentComparatorOrdered | src/com/github/uchan_nos/c_helper/util/Util.java:254-267 | for comments in file order the comparator's signs run −1…0…1 along the comment array for every position, and it returns 0 exactly when the position lies inside that comment |
| Util.IndexOfOutsideComments | src/com/github/uchan_nos/c_helper/util/Util.java:235-281 | the least i ≥ max(fromIndex, 0) with p(s[i]) that lies in no comment (shifted by commentOffset), or −1 exactly when there is none; with no comment array, the same as the plain indexOf |
| Util.BinarySearch | src/com/github/uchan_nos/c_helper/util/Util.java:287-304 | a non-negative result is an index whose element compares 0 to the key. A negative result is −low−1 with 0 ≤ low ≤ \|a\|. When the comparisons are ordered along the array, every element before low compares below the key and every one from low on compares above it |
| Util.RemoveQualifier | src/com/github/uchan_nos/c_helper/util/Util.java:339-344 | the result is not a qualifier type and is reached from the argument by removing outer qualifier wrappers only |
| Util.StrippedTypeUnique | src/com/github/uchan_nos/c_helper/util/Util.java:339-344 | only one non-qualifier type is reached that way, so removeQualifier's result is determined by that property |
| BigInteger.Not | src/com/github/uchan_nos/c_helper/util/Util.java:148 | not(x) is negative exactly when x is not: the two's-complement complement −x − 1 |
| BigInteger.And | src/com/github/uchan_nos/c_helper/util/Util.java:128 | and(a, b) is negative exactly when both are, and lies in [0, a] (resp. [0, b]) when a (resp. b) is not negative |
| BigInteger.Or | src/com/github/uchan_nos/c_helper/util/Util.java:148 | or(a, b) is negative exactly when one of them is, and is at least both when neither is |
| BigInteger.ShiftLeft | src/com/github/uchan_nos/c_helper/util/Util.java:127 | shiftLeft(x, n) is x·2^n for n ≥ 0 and floor(x / 2^−n) for n < 0 |
| BigInteger.TestBit | src/com/github/uchan_nos/c_helper/util/Util.java:147 | testBit(x, n) for n ≥ 0 holds exactly when (x mod 2^(n+1)) ≥ 2^n, i.e. bit n of the two's-complement bit string is 1 |
| BigInteger.AndLowOnes | src/com/github/uchan_nos/c_helper/util/Util.java:127-128 | value.and(2^n − 1) is value mod 2^n, the BigInteger and with n low one bits |
| BigInteger.AndAllOnes | src/com/github/uchan_nos/c_helper/util/Util.java:127-128 | and with −1 (all one bits, the mask for a negative bit count) changes nothing |
| BigInteger.OrHighOnes | src/com/github/uchan_nos/c_helper/util/Util.java:148 | for 0 ≤ r < 2^n, r.or(not(2^n − 1)) = r − 2^n: sign extension from bit n−1 |
| BigInteger.TestBitTop | src/com/github/uchan_nos/c_helper/util/Util.java:147 | for 0 ≤ r < 2^(n+1), testBit(r, n) holds exactly when r ≥ 2^n |
| BigInteger.ShiftOneRight | src/com/github/uchan_nos/c_helper/util/Util.java:127 | ONE.shiftLeft of a negative distance is 0 |

## Left out

- Dataflow.ForwardSolver.SolveForward: the outer do-while has no bound in the source and need not terminate. The model runs at most `maxPasses` passes and reports with `converged` whether the loop ended on its own. With `maxPasses` = 0 no pass runs, while the source always runs at least one. No termination or lattice monotonicity is claimed.
- Dataflow.ForwardSolver.Solve: requires the graph to be closed under successors and to contain the entry vertex, as a control-flow graph is. The Java code does not check this.
- The bodies of `Solver`, `Result`, `IGraph`, `getInitValue`, `join` and `transfer` are not part of this model. They are uninterpreted function values, and a callback that throws is not modelled.
- Value sets are values in the model. In Java the maps hold references to mutable `Set` objects: the frozen entry set of the entry vertex is the very object stored in the entry map and passed to `transfer`, and `putAll` copies references into the snapshot. The model assumes that `join` and `transfer` do not mutate their arguments; a callback that did would also change the frozen entry set and the snapshot.
- Dataflow.ForwardSolver.GetEntrySet: `getEntrySet` is a protected, overridable method; the model assumes a subclass does not override it.
- The successor query returns a Java `Set`. It is modelled as a sequence in the set's iteration order, the order the queue is filled in. Predecessors are a set, because join receives a set of exit sets. HashMap and HashSet hashing and the generic `equals` of vertices and values are Dafny equality.
- Util.CutBits: the value returned at bits = −2^31 assumes the `BigInteger.shiftLeft` of Java 8 and later, where a shift by −2^31 shifts right and gives 0; older runtimes may throw there instead.
- Util.MaskBits, Util.CutBits: BigInteger's finite range is not modelled. A shift by a bit count near 2^31 exceeds the largest BigInteger and throws (or exhausts memory) in Java; the model computes the mathematical value.
- Util.IndexOfOutsideComments: the in-place `Arrays.sort` of the comment array is not modelled. Instead, the comments must already be in file order and not overlap, which is what sorting the comments of one parsed file gives. The array's reordering, seen by the caller, is therefore not modelled either.
- Util.BinarySearch: Java `int` overflow in `(high + low) / 2` is not modelled (the indices are unbounded integers). The same holds for `commentOffset + offset` and `offset + length` in the comment comparator (Util.CompareCommentTo) and for `pos + 1` in Util.IndexOfOutsideComments.
- Util.LastIndexOf, Util.CalculateColumnNumber, Util.IndexOf, Util.IndexOfOutsideComments: a Java `String` is a sequence of UTF-16 code units and `CharPredicate` sees one code unit at a time; the model's strings are sequences of Unicode scalar values. Text with characters outside the Basic Multilingual Plane has different offsets in the model, and strings holding unpaired surrogates have no counterpart.
- Util.IndexOf: the `CharPredicate` is a pure function that cannot throw.
- `readFileAll` (file input and output), `countMatches` (java.util.regex), `calculateColumnNumbeer` (the Eclipse `IDocument` line table) and `sort` (a `TreeSet` of CFG vertices keyed by syntax-tree offsets) are not part of this model: they are library wrappers.
- `getAssigns`, `getName`, `isIBasicType`, `getRawSignature` and both `equals(char[], String)` overloads are syntax-tree type tests or one-line wrappers. They are not modelled.
- `CastSuppressingErrorSuggester.java` (syntax-tree traversal and user-interface strings) and `MallocCallFinderTest.java` (a JUnit test of a class not shown) are not part of this model.
