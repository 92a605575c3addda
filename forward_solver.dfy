/**
 * The forward dataflow solver: a fixpoint iteration over a control-flow
 * graph that fills, for every vertex, an entry set and an exit set of
 * analysis values. The graph queries and the three operations a concrete
 * analysis supplies (initial value, join, transfer) are parameters whose
 * behaviour the solver does not know.
 */
module Dataflow {

  /**
   * The graph the solver runs over. `successors(v)` lists the vertices with
   * an edge from `v` in the order the graph's successor set is iterated;
   * that order decides the order in which the solver's queue is filled.
   * `predecessors(v)` is the set of vertices with an edge into `v`.
   */
  datatype Graph<!Vertex> = Graph(vertices: set<Vertex>,
                                 successors: Vertex -> seq<Vertex>,
                                 predecessors: Vertex -> set<Vertex>)
  {
    /** Every successor of a vertex of the graph is a vertex of the graph. */
    ghost predicate Closed()
    {
      forall v :: v in vertices ==>
        forall i :: 0 <= i < |successors(v)| ==> successors(v)[i] in vertices
    }
  }

  /** The operations a concrete analysis supplies. */
  datatype Analysis<!Vertex, !Value> = Analysis(initValue: Vertex -> set<Value>,
                                              join: set<set<Value>> -> set<Value>,
                                              transfer: (Vertex, set<Value>) -> set<Value>)

  /** The two maps a solve run fills: vertex to entry set, vertex to exit set. */
  class Result<Vertex(==), Value(==)> {
    var entrySet: map<Vertex, set<Value>>
    var exitSet: map<Vertex, set<Value>>

    constructor ()
      ensures entrySet == map[] && exitSet == map[]
    {
      entrySet := map[];
      exitSet := map[];
    }
  }

  /** The two maps of a Result, as a value. */
  datatype Maps<Vertex, Value> = Maps(entrySet: map<Vertex, set<Value>>, exitSet: map<Vertex, set<Value>>)

  /** No element occurs twice. */
  ghost predicate Distinct<T>(s: seq<T>)
  {
    forall i, j :: 0 <= i < j < |s| ==> s[i] != s[j]
  }

  class ForwardSolver<Vertex(==), Value(==)> {
    const cfg: Graph<Vertex>
    const entryVertex: Vertex
    const analysis: Analysis<Vertex, Value>

    constructor (cfg: Graph<Vertex>, entryVertex: Vertex, analysis: Analysis<Vertex, Value>)
      ensures this.cfg == cfg && this.entryVertex == entryVertex && this.analysis == analysis
    {
      this.cfg := cfg;
      this.entryVertex := entryVertex;
      this.analysis := analysis;
    }

    /** What a control-flow graph guarantees: it is closed and holds the entry vertex. */
    ghost predicate WellFormed()
    {
      cfg.Closed() && entryVertex in cfg.vertices
    }

    /**
     * The collection getEntrySet joins: the exit sets recorded so far for the
     * predecessors of `v`. Predecessors without an exit set contribute
     * nothing, and equal exit sets are one element of the set.
     */
    ghost function PredecessorExits(exitSet: map<Vertex, set<Value>>, v: Vertex): set<set<Value>>
    {
      set p | p in cfg.predecessors(v) && p in exitSet :: exitSet[p]
    }

    /** The entry map solve starts from: every vertex holds its initial value. */
    ghost function InitialEntries(): map<Vertex, set<Value>>
    {
      map v | v in cfg.vertices :: analysis.initValue(v)
    }

    /** The entry set getEntrySet computes for `v` from the current exit sets. */
    ghost function EntryFor(exitSet: map<Vertex, set<Value>>, v: Vertex, entryInit: set<Value>): set<Value>
    {
      if v == entryVertex then entryInit else analysis.join(PredecessorExits(exitSet, v))
    }

    /** The successors of the vertices of `order`, one after the other. */
    ghost function SuccessorsOf(order: seq<Vertex>): seq<Vertex>
    {
      if order == [] then [] else SuccessorsOf(order[..|order| - 1]) + cfg.successors(order[|order| - 1])
    }

    /**
     * What processing `v` does to the two maps (lines 58-63 of the loop
     * body): the entry set getEntrySet computes, then its transfer as the
     * exit set.
     */
    ghost function VisitMaps(m: Maps<Vertex, Value>, v: Vertex, entryInit: set<Value>): Maps<Vertex, Value>
    {
      var e := EntryFor(m.exitSet, v, entryInit);
      Maps(m.entrySet[v := e], m.exitSet[v := analysis.transfer(v, e)])
    }

    /** The two maps after processing the vertices of `order` in turn, starting from `m`. */
    ghost function RunOrder(m: Maps<Vertex, Value>, order: seq<Vertex>, entryInit: set<Value>): Maps<Vertex, Value>
    {
      if order == [] then m
      else VisitMaps(RunOrder(m, order[..|order| - 1], entryInit), order[|order| - 1], entryInit)
    }

    /** Processing one more vertex is one more VisitMaps. */
    lemma RunOrderSnoc(m: Maps<Vertex, Value>, order: seq<Vertex>, v: Vertex, entryInit: set<Value>)
      ensures RunOrder(m, order + [v], entryInit) == VisitMaps(RunOrder(m, order, entryInit), v, entryInit)
    {
      assert (order + [v])[..|order|] == order;
    }

    /**
     * Processing the vertices of `order` gives each of them an entry and an
     * exit set and leaves every other entry and exit set as it was.
     */
    lemma {:induction false} RunOrderFrame(m: Maps<Vertex, Value>, order: seq<Vertex>, entryInit: set<Value>)
      ensures var r := RunOrder(m, order, entryInit);
              && (forall u :: u in order ==> u in r.entrySet && u in r.exitSet)
              && (forall u :: u !in order ==> (u in r.entrySet <==> u in m.entrySet))
              && (forall u :: u !in order ==> (u in r.exitSet <==> u in m.exitSet))
              && (forall u :: u !in order && u in m.entrySet ==> r.entrySet[u] == m.entrySet[u])
              && (forall u :: u !in order && u in m.exitSet ==> r.exitSet[u] == m.exitSet[u])
    {
      if order != [] {
        var init := order[..|order| - 1];
        RunOrderFrame(m, init, entryInit);
        assert order == init + [order[|order| - 1]];
        assert forall u :: u in order <==> u in init || u == order[|order| - 1];
      }
    }

    /**
     * What holds of the two maps from initialisation on: the entry map
     * covers exactly the graph, the entry vertex keeps its initial entry set,
     * a vertex without an exit set keeps its initial entry set, and every
     * exit set is the transfer of the vertex's entry set.
     */
    ghost predicate ConsistentMaps(entrySet: map<Vertex, set<Value>>, exitSet: map<Vertex, set<Value>>,
                                   entryInit: set<Value>)
    {
      && entrySet.Keys == cfg.vertices
      && exitSet.Keys <= cfg.vertices
      && entryInit == analysis.initValue(entryVertex)
      && entryVertex in entrySet && entrySet[entryVertex] == entryInit
      && (forall v :: v in entrySet && v !in exitSet ==> entrySet[v] == analysis.initValue(v))
      && (forall v :: v in exitSet ==> exitSet[v] == analysis.transfer(v, entrySet[v]))
    }

    ghost predicate Consistent(sets: Result<Vertex, Value>, entryInit: set<Value>)
      reads sets
    {
      ConsistentMaps(sets.entrySet, sets.exitSet, entryInit)
    }

    /** Visiting a vertex of the graph keeps the maps consistent. */
    lemma VisitKeepsConsistent(entrySet: map<Vertex, set<Value>>, exitSet: map<Vertex, set<Value>>,
                               entryInit: set<Value>, v: Vertex)
      requires ConsistentMaps(entrySet, exitSet, entryInit) && v in cfg.vertices
      ensures var e := EntryFor(exitSet, v, entryInit);
              ConsistentMaps(entrySet[v := e], exitSet[v := analysis.transfer(v, e)], entryInit)
    {
    }

    /**
     * What one pass has established after processing the vertices of
     * `order`, starting from the exit map `start`: no vertex was processed
     * twice, the processed vertices gained an exit set and no other exit set
     * changed, and if the exit map is back to `start`, every processed
     * vertex other than the entry vertex satisfies the join equation.
     */
    ghost predicate PassDone(start: map<Vertex, set<Value>>, entrySet: map<Vertex, set<Value>>,
                             exitSet: map<Vertex, set<Value>>, order: seq<Vertex>)
    {
      && Distinct(order)
      && (forall u :: u in order ==> u in cfg.vertices && u in entrySet)
      && (forall u :: u in exitSet ==> u in start || u in order)
      && (forall u :: u in start ==> u in exitSet)
      && (forall u :: u in order ==> u in exitSet)
      && (forall u :: u in start && u !in order ==> exitSet[u] == start[u])
      && (exitSet == start ==> Settled(entrySet, exitSet, order))
    }

    /**
     * Every vertex of `order` other than the entry vertex has as its entry
     * set the join of its predecessors' exit sets: the equation a fixpoint
     * of the analysis satisfies.
     */
    ghost predicate Settled(entrySet: map<Vertex, set<Value>>, exitSet: map<Vertex, set<Value>>, order: seq<Vertex>)
    {
      forall u :: u in order && u != entryVertex ==>
        u in entrySet && entrySet[u] == analysis.join(PredecessorExits(exitSet, u))
    }

    /** Processing one more vertex, not yet processed in the pass, keeps PassDone. */
    lemma {:induction false} PassStep(start: map<Vertex, set<Value>>, entrySet: map<Vertex, set<Value>>,
                                      exitSet: map<Vertex, set<Value>>, order: seq<Vertex>,
                                      v: Vertex, entryInit: set<Value>)
      requires PassDone(start, entrySet, exitSet, order)
      requires v in cfg.vertices && v in entrySet && v !in order
      ensures var e := EntryFor(exitSet, v, entryInit);
              PassDone(start, entrySet[v := e], exitSet[v := analysis.transfer(v, e)], order + [v])
    {
      var e := EntryFor(exitSet, v, entryInit);
      var entrySet', exitSet', order' := entrySet[v := e], exitSet[v := analysis.transfer(v, e)], order + [v];
      forall i, j | 0 <= i < j < |order'| ensures order'[i] != order'[j] {
        if j < |order| {
          assert order[i] != order[j];
        } else {
          assert order'[i] in order;
        }
      }
      if exitSet' == start {
        assert exitSet == start by {
          assert v in start && exitSet[v] == start[v];
          assert forall u :: u in exitSet ==> u in start;
        }
        forall u | u in order' && u != entryVertex
          ensures entrySet'[u] == analysis.join(PredecessorExits(exitSet', u))
        {
          if u != v {
            assert u in order;
          }
        }
      }
    }

    /** Processing one more vertex appends its successors to SuccessorsOf. */
    lemma SuccessorsOfSnoc(order: seq<Vertex>, v: Vertex)
      ensures SuccessorsOf(order + [v]) == SuccessorsOf(order) + cfg.successors(v)
    {
    }

    /** Dequeuing `v` and appending its successors keeps the queue equation of a pass. */
    lemma QueueStep(leftover: seq<Vertex>, order: seq<Vertex>, polled: seq<Vertex>, v: Vertex,
                    queued: seq<Vertex>, next: seq<Vertex>)
      requires order + polled == leftover + [entryVertex] + SuccessorsOf(order)
      requires polled == [v] + queued && next == cfg.successors(v)
      ensures (order + [v]) + (queued + next) == leftover + [entryVertex] + SuccessorsOf(order + [v])
    {
      SuccessorsOfSnoc(order, v);
      var front := leftover + [entryVertex];
      var s := SuccessorsOf(order);
      assert (order + [v]) + (queued + next) == (order + polled) + next;
      assert front + (s + next) == (front + s) + next;
    }

    /**
     * Every processed vertex was in the queue when it was polled: the i-th
     * poll of a pass reads the queue it started from, the entry vertex and
     * the successors queued by the i vertices processed before, so the pass
     * cannot go on once that queue is used up.
     */
    ghost predicate PolledWhileQueued(leftover: seq<Vertex>, order: seq<Vertex>)
    {
      forall i :: 0 <= i < |order| ==> i < |leftover| + 1 + |SuccessorsOf(order[..i])|
    }

    /** Polling one more vertex from a queue that is not used up keeps PolledWhileQueued. */
    lemma PolledWhileQueuedStep(leftover: seq<Vertex>, order: seq<Vertex>, v: Vertex)
      requires PolledWhileQueued(leftover, order)
      requires |order| < |leftover| + 1 + |SuccessorsOf(order)|
      ensures PolledWhileQueued(leftover, order + [v])
    {
      var order' := order + [v];
      forall i | 0 <= i < |order'| ensures i < |leftover| + 1 + |SuccessorsOf(order'[..i])| {
        assert order'[..i] == if i < |order| then order[..i] else order;
      }
    }

    /**
     * The queue of a pass as the source runs it: the processed vertices, the
     * dropped one and what is left are, in this order, the queue the pass
     * started from, the entry vertex and the successors of the processed
     * vertices; each processed vertex was polled while queued and none twice;
     * and the pass ended at an empty queue or on dropping a processed vertex.
     */
    ghost predicate QueueRun(leftover: seq<Vertex>, order: seq<Vertex>, dropped: seq<Vertex>,
                             remaining: seq<Vertex>)
    {
      && order + dropped + remaining == leftover + [entryVertex] + SuccessorsOf(order)
      && |dropped| <= 1
      && (dropped == [] ==> remaining == [])
      && (dropped != [] ==> dropped[0] in order)
      && Distinct(order)
      && PolledWhileQueued(leftover, order)
    }

    /** The successors queued by a prefix of `order` are a prefix of those queued by all of it. */
    lemma {:induction false} SuccessorsOfPrefix(order: seq<Vertex>, j: nat)
      requires j <= |order|
      ensures |SuccessorsOf(order[..j])| <= |SuccessorsOf(order)|
      ensures SuccessorsOf(order)[..|SuccessorsOf(order[..j])|] == SuccessorsOf(order[..j])
      decreases |order|
    {
      if j == |order| {
        assert order[..j] == order;
      } else {
        var init := order[..|order| - 1];
        assert init[..j] == order[..j];
        SuccessorsOfPrefix(init, j);
      }
    }

    /**
     * The i-th processed vertex of a pass is the i-th element of the queue
     * as it stood before it was polled: the vertices processed earlier decide it.
     */
    lemma PolledFromQueue(leftover: seq<Vertex>, order: seq<Vertex>, dropped: seq<Vertex>,
                          remaining: seq<Vertex>, i: nat)
      requires QueueRun(leftover, order, dropped, remaining) && i < |order|
      ensures i < |leftover + [entryVertex] + SuccessorsOf(order[..i])|
      ensures order[i] == (leftover + [entryVertex] + SuccessorsOf(order[..i]))[i]
    {
      SuccessorsOfPrefix(order, i);
      var q := leftover + [entryVertex] + SuccessorsOf(order);
      assert order[i] == (order + dropped + remaining)[i] == q[i];
      assert (leftover + [entryVertex] + SuccessorsOf(order[..i]))[i] == q[i];
    }

    /** Two runs of a pass from the same queue process the same first `k` vertices. */
    lemma {:induction false} CommonPrefix(leftover: seq<Vertex>,
                                          o1: seq<Vertex>, d1: seq<Vertex>, r1: seq<Vertex>,
                                          o2: seq<Vertex>, d2: seq<Vertex>, r2: seq<Vertex>, k: nat)
      requires QueueRun(leftover, o1, d1, r1) && QueueRun(leftover, o2, d2, r2)
      requires k <= |o1| && k <= |o2|
      ensures o1[..k] == o2[..k]
      decreases k
    {
      if k > 0 {
        CommonPrefix(leftover, o1, d1, r1, o2, d2, r2, k - 1);
        PolledFromQueue(leftover, o1, d1, r1, k - 1);
        PolledFromQueue(leftover, o2, d2, r2, k - 1);
        assert o1[..k] == o1[..k - 1] + [o1[k - 1]];
        assert o2[..k] == o2[..k - 1] + [o2[k - 1]];
      }
    }

    /** A run of a pass cannot stop before another run of it from the same queue does. */
    lemma NoEarlierStop(leftover: seq<Vertex>,
                        o1: seq<Vertex>, d1: seq<Vertex>, r1: seq<Vertex>,
                        o2: seq<Vertex>, d2: seq<Vertex>, r2: seq<Vertex>)
      requires QueueRun(leftover, o1, d1, r1) && QueueRun(leftover, o2, d2, r2)
      ensures |o1| >= |o2|
    {
      if |o1| < |o2| {
        var n := |o1|;
        CommonPrefix(leftover, o1, d1, r1, o2, d2, r2, n);
        assert o1[..n] == o1;
        PolledFromQueue(leftover, o2, d2, r2, n);
      }
    }

    /**
     * A pass is determined by the queue it starts from: its processed
     * vertices, the vertex it drops and the queue it leaves.
     */
    lemma PassDetermined(leftover: seq<Vertex>,
                         o1: seq<Vertex>, d1: seq<Vertex>, r1: seq<Vertex>,
                         o2: seq<Vertex>, d2: seq<Vertex>, r2: seq<Vertex>)
      requires QueueRun(leftover, o1, d1, r1) && QueueRun(leftover, o2, d2, r2)
      ensures o1 == o2 && d1 == d2 && r1 == r2
    {
      NoEarlierStop(leftover, o1, d1, r1, o2, d2, r2);
      NoEarlierStop(leftover, o2, d2, r2, o1, d1, r1);
      CommonPrefix(leftover, o1, d1, r1, o2, d2, r2, |o1|);
      assert o1[..|o1|] == o1 && o2[..|o2|] == o2;
      assert o1 == o2;
      assert o1 + (d1 + r1) == o1 + d1 + r1 == o2 + d2 + r2 == o1 + (d2 + r2);
      assert d1 + r1 == (o1 + (d1 + r1))[|o1|..] == (o1 + (d2 + r2))[|o1|..] == d2 + r2;
      if d1 != [] {
        assert d1 == [(d1 + r1)[0]] == [(d2 + r2)[0]] == d2;
        assert r1 == (d1 + r1)[1..] == (d2 + r2)[1..] == r2;
      }
    }

    /**
     * The state of a pass between two dequeues: the maps are consistent,
     * `visited` holds exactly the processed vertices, the queue holds
     * vertices of the graph and is what is left of the leftover queue, the
     * entry vertex and the successors of the processed vertices, and the
     * maps are those reached from `start` by processing `order`.
     */
    ghost predicate PassInvariant(start: Maps<Vertex, Value>, entrySet: map<Vertex, set<Value>>,
                                  exitSet: map<Vertex, set<Value>>, entryInit: set<Value>,
                                  leftover: seq<Vertex>, order: seq<Vertex>, visited: set<Vertex>,
                                  remaining: seq<Vertex>)
    {
      && ConsistentMaps(entrySet, exitSet, entryInit)
      && (forall u :: u in visited ==> u in order)
      && (forall u :: u in order ==> u in visited)
      && visited <= cfg.vertices
      && (forall i :: 0 <= i < |remaining| ==> remaining[i] in cfg.vertices)
      && order + remaining == leftover + [entryVertex] + SuccessorsOf(order)
      && PolledWhileQueued(leftover, order)
      && PassDone(start.exitSet, entrySet, exitSet, order)
      && Maps(entrySet, exitSet) == RunOrder(start, order, entryInit)
    }

    /** Dequeuing a vertex not yet processed and processing it keeps PassInvariant. */
    lemma PassInvariantStep(start: Maps<Vertex, Value>, entrySet: map<Vertex, set<Value>>,
                            exitSet: map<Vertex, set<Value>>, entryInit: set<Value>,
                            leftover: seq<Vertex>, order: seq<Vertex>, visited: set<Vertex>,
                            remaining: seq<Vertex>)
      requires WellFormed()
      requires PassInvariant(start, entrySet, exitSet, entryInit, leftover, order, visited, remaining)
      requires remaining != [] && remaining[0] !in visited
      ensures var v := remaining[0];
              var e := EntryFor(exitSet, v, entryInit);
              PassInvariant(start, entrySet[v := e], exitSet[v := analysis.transfer(v, e)], entryInit,
                            leftover, order + [v], visited + {v}, remaining[1..] + cfg.successors(v))
      ensures |cfg.vertices - (visited + {remaining[0]})| < |cfg.vertices - visited|
    {
      var v := remaining[0];
      assert remaining == [v] + remaining[1..];
      assert v in cfg.vertices - visited;
      assert cfg.vertices - (visited + {v}) < cfg.vertices - visited;
      QueueStep(leftover, order, remaining, v, remaining[1..], cfg.successors(v));
      assert |order| + |remaining| == |leftover| + 1 + |SuccessorsOf(order)|;
      PolledWhileQueuedStep(leftover, order, v);
      PassStep(start.exitSet, entrySet, exitSet, order, v, entryInit);
      RunOrderSnoc(start, order, v, entryInit);
      VisitKeepsConsistent(entrySet, exitSet, entryInit, v);
      var order' := order + [v];
      forall i | 0 <= i < |remaining[1..] + cfg.successors(v)|
        ensures (remaining[1..] + cfg.successors(v))[i] in cfg.vertices
      {
        if i >= |remaining[1..]| {
          assert (remaining[1..] + cfg.successors(v))[i] == cfg.successors(v)[i - |remaining[1..]|];
        }
      }
      assert forall u :: u in order' ==> u in order || u == v;
    }

    /**
     * How a pass ends: with an empty queue (nothing dropped), or by polling
     * a vertex already processed, which is dropped, from the queue `polled`.
     */
    lemma PassEnd(start: Maps<Vertex, Value>, entrySet: map<Vertex, set<Value>>,
                  exitSet: map<Vertex, set<Value>>, entryInit: set<Value>,
                  leftover: seq<Vertex>, order: seq<Vertex>, visited: set<Vertex>,
                  polled: seq<Vertex>, dropped: seq<Vertex>, remaining: seq<Vertex>)
      requires PassInvariant(start, entrySet, exitSet, entryInit, leftover, order, visited, polled)
      requires dropped == [] ==> polled == [] && remaining == []
      requires dropped != [] ==> polled != [] && dropped == [polled[0]] && remaining == polled[1..]
      requires dropped != [] ==> polled[0] in visited
      ensures ConsistentMaps(entrySet, exitSet, entryInit)
      ensures forall i :: 0 <= i < |remaining| ==> remaining[i] in cfg.vertices
      ensures order + dropped + remaining == leftover + [entryVertex] + SuccessorsOf(order)
      ensures |order| >= 1 && |dropped| <= 1
      ensures dropped != [] ==> dropped[0] in order
      ensures dropped == [] ==> remaining == []
      ensures leftover == [] ==> order[0] == entryVertex
      ensures PolledWhileQueued(leftover, order)
      ensures PassDone(start.exitSet, entrySet, exitSet, order)
      ensures Maps(entrySet, exitSet) == RunOrder(start, order, entryInit)
    {
      assert forall u :: u in visited ==> u in order;
      QueueEnd(leftover, order, polled, dropped, remaining, SuccessorsOf(order));
    }

    /**
     * The queue equation at the end of a pass, on the queue alone: `succ`
     * stands for the successors of the processed vertices.
     */
    lemma QueueEnd(leftover: seq<Vertex>, order: seq<Vertex>, polled: seq<Vertex>,
                   dropped: seq<Vertex>, remaining: seq<Vertex>, succ: seq<Vertex>)
      requires order + polled == leftover + [entryVertex] + succ
      requires dropped == [] ==> polled == [] && remaining == []
      requires dropped != [] ==> polled != [] && dropped == [polled[0]] && remaining == polled[1..]
      requires dropped != [] ==> polled[0] in order
      ensures order + dropped + remaining == leftover + [entryVertex] + succ
      ensures |order| >= 1
      ensures leftover == [] ==> order[0] == entryVertex
    {
      assert dropped + remaining == polled;
      assert |order| + |polled| == |leftover| + 1 + |succ|;
      assert (order + polled)[0] == order[0];
    }

    /**
     * solve: a fresh Result whose entry map holds the initial value of
     * every vertex, then the forward fixpoint iteration on it.
     */
    method Solve(maxPasses: nat)
      returns (sets: Result<Vertex, Value>, converged: bool, passes: nat,
               ghost states: seq<Maps<Vertex, Value>>, ghost queues: seq<seq<Vertex>>,
               ghost orders: seq<seq<Vertex>>, ghost drops: seq<seq<Vertex>>)
      requires WellFormed()
      ensures fresh(sets)
      ensures sets.entrySet.Keys == cfg.vertices
      ensures sets.exitSet.Keys <= cfg.vertices
      ensures sets.entrySet[entryVertex] == analysis.initValue(entryVertex)
      ensures forall v :: v in cfg.vertices && v !in sets.exitSet ==> sets.entrySet[v] == analysis.initValue(v)
      ensures forall v :: v in sets.exitSet ==> sets.exitSet[v] == analysis.transfer(v, sets.entrySet[v])
      ensures passes <= maxPasses && (!converged ==> passes == maxPasses)
      ensures |orders| == passes
      ensures Trace(states, queues, orders, drops, analysis.initValue(entryVertex))
      ensures states[0] == Maps(InitialEntries(), map[]) && queues[0] == []
      ensures Maps(sets.entrySet, sets.exitSet) == states[passes]
      ensures converged <==> passes >= 1 && !ExitChanged(states, passes - 1)
      ensures forall k :: 0 <= k < passes - 1 ==> ExitChanged(states, k)
      // with RunDetermined: the run, and so the result, is determined by the graph, the analysis and the budget
      ensures Stopped(states, orders, maxPasses, converged)
      ensures History(sets.exitSet, orders)
      ensures passes >= 1 ==> orders[0][0] == entryVertex
      ensures converged ==> passes >= 2
      ensures converged ==> Settled(sets.entrySet, sets.exitSet, orders[passes - 1])
    {
      sets := new Result();
      var rest := cfg.vertices;
      while rest != {}
        invariant rest <= cfg.vertices
        invariant sets.entrySet == map v | v in cfg.vertices - rest :: analysis.initValue(v)
        invariant sets.exitSet == map[]
        decreases rest
      {
        var v :| v in rest;
        sets.entrySet := sets.entrySet[v := analysis.initValue(v)];
        rest := rest - {v};
      }
      converged, passes, states, queues, orders, drops := SolveForward(sets, maxPasses);
    }

    /**
     * solveForward: repeat passes until the exit map equals its snapshot
     * from the start of the pass. The loop of the source has no bound; here
     * at most `maxPasses` passes run, and `converged` says whether the loop
     * ended for its own reason. The queue and the snapshot map live across
     * passes; the snapshot is never cleared, only overwritten by putAll, so
     * at the start of each pass it equals the exit map.
     *
     * The ghost results record the run: pass k starts from the maps
     * `states[k]` and the queue `queues[k]`, processes `orders[k]`, drops
     * `drops[k]` and leaves `states[k + 1]` and `queues[k + 1]`.
     */
    method SolveForward(sets: Result<Vertex, Value>, maxPasses: nat)
      returns (converged: bool, passes: nat,
               ghost states: seq<Maps<Vertex, Value>>, ghost queues: seq<seq<Vertex>>,
               ghost orders: seq<seq<Vertex>>, ghost drops: seq<seq<Vertex>>)
      requires WellFormed()
      requires sets.entrySet == InitialEntries()
      requires sets.exitSet == map[]
      modifies sets
      ensures Consistent(sets, analysis.initValue(entryVertex))
      ensures passes <= maxPasses && (!converged ==> passes == maxPasses)
      ensures |orders| == passes
      ensures Trace(states, queues, orders, drops, analysis.initValue(entryVertex))
      ensures states[0] == Maps(InitialEntries(), map[]) && queues[0] == []
      ensures Maps(sets.entrySet, sets.exitSet) == states[passes]
      // the loop stops at the first pass that leaves the exit map as it found it
      ensures converged <==> passes >= 1 && !ExitChanged(states, passes - 1)
      ensures forall k :: 0 <= k < passes - 1 ==> ExitChanged(states, k)
      // with RunDetermined: the run, and so the result, is determined by the graph, the analysis and the budget
      ensures Stopped(states, orders, maxPasses, converged)
      ensures History(sets.exitSet, orders)
      ensures passes >= 1 ==> orders[0][0] == entryVertex
      ensures converged ==> passes >= 2
      ensures converged ==> Settled(sets.entrySet, sets.exitSet, orders[passes - 1])
    {
      var remainVertices: seq<Vertex> := [];
      var prevExitSet: map<Vertex, set<Value>> := map[];
      var entryOfEntryVertex := sets.entrySet[entryVertex];
      converged, passes := false, 0;
      states, queues, orders, drops := [Maps(sets.entrySet, sets.exitSet)], [[]], [], [];
      while passes < maxPasses && !converged
        invariant passes <= maxPasses && |orders| == passes
        invariant prevExitSet.Keys <= sets.exitSet.Keys
        invariant SolveInvariant(Maps(sets.entrySet, sets.exitSet), entryOfEntryVertex, remainVertices,
                                 states, queues, orders, drops, converged)
        invariant History(sets.exitSet, orders)
        invariant converged ==> Settled(sets.entrySet, sets.exitSet, orders[passes - 1])
        decreases maxPasses - passes
      {
        var changed;
        ghost var order, dropped;
        prevExitSet, remainVertices, changed, order, dropped :=
          Round(sets, prevExitSet, entryOfEntryVertex, remainVertices, states, queues, orders, drops);
        states, queues := states + [Maps(sets.entrySet, sets.exitSet)], queues + [remainVertices];
        orders, drops := orders + [order], drops + [dropped];
        passes := passes + 1;
        converged := !changed;
      }
      SolveEnd(Maps(sets.entrySet, sets.exitSet), entryOfEntryVertex, remainVertices,
               states, queues, orders, drops, converged, maxPasses);
    }

    /**
     * The body of the loop of solveForward: the snapshot `prev` takes the
     * exit map in (putAll), then a pass runs from the queue `leftover`;
     * `changed` is the loop's test, whether the exit map now differs from
     * the snapshot. The recorded run gains this pass.
     */
    method Round(sets: Result<Vertex, Value>, prev: map<Vertex, set<Value>>, entryInit: set<Value>,
                 leftover: seq<Vertex>, ghost states: seq<Maps<Vertex, Value>>, ghost queues: seq<seq<Vertex>>,
                 ghost orders: seq<seq<Vertex>>, ghost drops: seq<seq<Vertex>>)
      returns (prev': map<Vertex, set<Value>>, remaining: seq<Vertex>, changed: bool,
               ghost order: seq<Vertex>, ghost dropped: seq<Vertex>)
      requires WellFormed()
      requires prev.Keys <= sets.exitSet.Keys
      requires SolveInvariant(Maps(sets.entrySet, sets.exitSet), entryInit, leftover, states, queues, orders, drops, false)
      requires History(sets.exitSet, orders)
      modifies sets
      ensures prev' == old(sets.exitSet) && prev'.Keys <= sets.exitSet.Keys
      ensures changed <==> sets.exitSet != prev'
      ensures SolveInvariant(Maps(sets.entrySet, sets.exitSet), entryInit, remaining,
                             states + [Maps(sets.entrySet, sets.exitSet)], queues + [remaining],
                             orders + [order], drops + [dropped], !changed)
      ensures History(sets.exitSet, orders + [order])
      ensures !changed ==> Settled(sets.entrySet, sets.exitSet, order)
    {
      prev' := prev + sets.exitSet;
      assert prev' == sets.exitSet;
      ghost var before := Maps(sets.entrySet, sets.exitSet);
      remaining, order, dropped := Pass(sets, entryInit, leftover);
      ghost var after := Maps(sets.entrySet, sets.exitSet);
      HistoryStep(prev', sets.entrySet, sets.exitSet, orders, order);
      SolveStep(before, after, entryInit, leftover, remaining, order, dropped, states, queues, orders, drops);
      changed := sets.exitSet != prev';
    }

    /**
     * What holds between the passes of solveForward: the maps `m` are
     * consistent and are the last recorded ones, the queue is the last
     * recorded one, `converged` says whether the last pass left the exit map
     * as it found it, and every pass before it changed the exit map.
     */
    ghost predicate SolveInvariant(m: Maps<Vertex, Value>, entryInit: set<Value>, remaining: seq<Vertex>,
                                   states: seq<Maps<Vertex, Value>>, queues: seq<seq<Vertex>>,
                                   orders: seq<seq<Vertex>>, drops: seq<seq<Vertex>>, converged: bool)
    {
      && ConsistentMaps(m.entrySet, m.exitSet, entryInit)
      && (forall i :: 0 <= i < |remaining| ==> remaining[i] in cfg.vertices)
      && Trace(states, queues, orders, drops, entryInit)
      && states[0] == Maps(InitialEntries(), map[]) && queues[0] == []
      && m == states[|orders|] && remaining == queues[|orders|]
      && (converged <==> |orders| >= 1 && !ExitChanged(states, |orders| - 1))
      && EveryPassChanged(states, if converged then |orders| - 1 else |orders|)
      && (|orders| >= 1 ==> entryVertex in m.exitSet && orders[0] != [] && orders[0][0] == entryVertex)
      && (converged ==> |orders| >= 2)
    }

    /**
     * One more pass of solveForward, from the maps `before` and the queue
     * `leftover` to `after` and `remaining`, keeps SolveInvariant, with
     * `converged` now saying whether this pass left the exit map unchanged.
     */
    lemma SolveStep(before: Maps<Vertex, Value>, after: Maps<Vertex, Value>, entryInit: set<Value>,
                    leftover: seq<Vertex>, remaining: seq<Vertex>, order: seq<Vertex>, dropped: seq<Vertex>,
                    states: seq<Maps<Vertex, Value>>, queues: seq<seq<Vertex>>,
                    orders: seq<seq<Vertex>>, drops: seq<seq<Vertex>>)
      requires SolveInvariant(before, entryInit, leftover, states, queues, orders, drops, false)
      requires ConsistentMaps(after.entrySet, after.exitSet, entryInit)
      requires forall i :: 0 <= i < |remaining| ==> remaining[i] in cfg.vertices
      requires order + dropped + remaining == leftover + [entryVertex] + SuccessorsOf(order)
      requires |order| >= 1 && |dropped| <= 1
      requires dropped != [] ==> dropped[0] in order
      requires dropped == [] ==> remaining == []
      requires leftover == [] ==> order[0] == entryVertex
      requires PolledWhileQueued(leftover, order)
      requires PassDone(before.exitSet, after.entrySet, after.exitSet, order)
      requires after == RunOrder(before, order, entryInit)
      ensures SolveInvariant(after, entryInit, remaining, states + [after], queues + [remaining],
                             orders + [order], drops + [dropped], after.exitSet == before.exitSet)
    {
      var states' := states + [after];
      TraceStep(states, queues, orders, drops, entryInit, after, order, dropped, remaining);
      EveryPassChangedStep(states, |orders|, after);
      assert states'[|orders| + 1] == after && states'[|orders|] == before;
      if orders == [] {
        assert entryVertex in after.exitSet && before.exitSet == map[];
      }
    }

    /** The facts SolveInvariant gives at the end of solveForward, in the form its contract states them. */
    lemma SolveEnd(m: Maps<Vertex, Value>, entryInit: set<Value>, remaining: seq<Vertex>,
                   states: seq<Maps<Vertex, Value>>, queues: seq<seq<Vertex>>,
                   orders: seq<seq<Vertex>>, drops: seq<seq<Vertex>>, converged: bool, maxPasses: nat)
      requires SolveInvariant(m, entryInit, remaining, states, queues, orders, drops, converged)
      requires |orders| <= maxPasses && (!converged ==> |orders| == maxPasses)
      ensures ConsistentMaps(m.entrySet, m.exitSet, entryInit)
      ensures Trace(states, queues, orders, drops, entryInit)
      ensures states[0] == Maps(InitialEntries(), map[]) && queues[0] == []
      ensures m == states[|orders|]
      ensures converged <==> |orders| >= 1 && !ExitChanged(states, |orders| - 1)
      ensures forall k :: 0 <= k < |orders| - 1 ==> ExitChanged(states, k)
      ensures |orders| >= 1 ==> orders[0] != [] && orders[0][0] == entryVertex
      ensures converged ==> |orders| >= 2
      ensures Stopped(states, orders, maxPasses, converged)
    {
    }

    /** Pass k (the one from `states[k]` to `states[k + 1]`) changed the exit map. */
    ghost predicate ExitChanged(states: seq<Maps<Vertex, Value>>, k: nat)
    {
      k + 1 < |states| && states[k + 1].exitSet != states[k].exitSet
    }

    /** Each of the first `n` recorded passes changed the exit map. */
    ghost predicate EveryPassChanged(states: seq<Maps<Vertex, Value>>, n: nat)
    {
      n < |states| && forall k :: 0 <= k < n ==> ExitChanged(states, k)
    }

    /** Recording one more pass keeps EveryPassChanged, and extends it when that pass changed the exit map. */
    lemma EveryPassChangedStep(states: seq<Maps<Vertex, Value>>, n: nat, after: Maps<Vertex, Value>)
      requires EveryPassChanged(states, n) && n == |states| - 1
      ensures EveryPassChanged(states + [after], n)
      ensures after.exitSet != states[n].exitSet ==> EveryPassChanged(states + [after], n + 1)
    {
      var states' := states + [after];
      forall k | 0 <= k < n
        ensures ExitChanged(states', k)
      {
        assert ExitChanged(states, k);
        assert states'[k + 1] == states[k + 1] && states'[k] == states[k];
      }
      assert states'[n + 1] == after && states'[n] == states[n];
    }

    /**
     * Pass k turned the maps `states[k]` into `states[k + 1]` by processing
     * the vertices of `orders[k]` in turn. Its queue, first in first out,
     * started as `queues[k]` (what the previous pass left) followed by the
     * entry vertex; the pass polled the processed vertices, then `drops[k]`
     * (the visited vertex that ended it, if one did), and left
     * `queues[k + 1]`, which holds exactly the successors still queued. Each
     * processed vertex was in the queue when it was polled (QueueRun).
     */
    ghost predicate PassRecorded(states: seq<Maps<Vertex, Value>>, queues: seq<seq<Vertex>>,
                                 orders: seq<seq<Vertex>>, drops: seq<seq<Vertex>>, entryInit: set<Value>, k: nat)
    {
      && k + 1 < |states| && k + 1 < |queues| && k < |orders| && k < |drops|
      && states[k + 1] == RunOrder(states[k], orders[k], entryInit)
      && QueueRun(queues[k], orders[k], drops[k], queues[k + 1])
    }

    /** The record of the passes run so far: one entry per pass, each as PassRecorded says. */
    ghost predicate Trace(states: seq<Maps<Vertex, Value>>, queues: seq<seq<Vertex>>,
                          orders: seq<seq<Vertex>>, drops: seq<seq<Vertex>>, entryInit: set<Value>)
      decreases |orders|
    {
      && |states| == |orders| + 1 && |queues| == |orders| + 1 && |drops| == |orders|
      && (orders != [] ==>
            var n := |orders| - 1;
            && Trace(states[..n + 1], queues[..n + 1], orders[..n], drops[..n], entryInit)
            && PassRecorded(states, queues, orders, drops, entryInit, n))
    }

    /** Every pass of a Trace is recorded as PassRecorded says. */
    lemma {:induction false} TraceAt(states: seq<Maps<Vertex, Value>>, queues: seq<seq<Vertex>>,
                                     orders: seq<seq<Vertex>>, drops: seq<seq<Vertex>>, entryInit: set<Value>, k: nat)
      requires Trace(states, queues, orders, drops, entryInit) && k < |orders|
      ensures PassRecorded(states, queues, orders, drops, entryInit, k)
      decreases |orders|
    {
      var n := |orders| - 1;
      if k < n {
        TraceAt(states[..n + 1], queues[..n + 1], orders[..n], drops[..n], entryInit, k);
        assert states[..n + 1][k] == states[k] && states[..n + 1][k + 1] == states[k + 1];
        assert queues[..n + 1][k] == queues[k] && queues[..n + 1][k + 1] == queues[k + 1];
        assert orders[..n][k] == orders[k] && drops[..n][k] == drops[k];
      }
    }

    /** Recording one more pass, from the last recorded maps and queue, keeps Trace. */
    lemma TraceStep(states: seq<Maps<Vertex, Value>>, queues: seq<seq<Vertex>>,
                    orders: seq<seq<Vertex>>, drops: seq<seq<Vertex>>, entryInit: set<Value>,
                    after: Maps<Vertex, Value>, order: seq<Vertex>, dropped: seq<Vertex>, remaining: seq<Vertex>)
      requires Trace(states, queues, orders, drops, entryInit)
      requires after == RunOrder(states[|orders|], order, entryInit)
      requires QueueRun(queues[|orders|], order, dropped, remaining)
      ensures Trace(states + [after], queues + [remaining], orders + [order], drops + [dropped], entryInit)
    {
      var states', queues', orders', drops' := states + [after], queues + [remaining], orders + [order], drops + [dropped];
      var n := |orders|;
      assert states'[..n + 1] == states && queues'[..n + 1] == queues;
      assert orders'[..n] == orders && drops'[..n] == drops;
      assert states'[n] == states[n] && states'[n + 1] == after;
      assert queues'[n] == queues[n] && queues'[n + 1] == remaining;
      assert orders'[n] == order && drops'[n] == dropped;
      assert PassRecorded(states', queues', orders', drops', entryInit, n);
    }

    /** The first `m` passes of a recorded run are a recorded run. */
    lemma {:induction false} TracePrefix(states: seq<Maps<Vertex, Value>>, queues: seq<seq<Vertex>>,
                                         orders: seq<seq<Vertex>>, drops: seq<seq<Vertex>>,
                                         entryInit: set<Value>, m: nat)
      requires Trace(states, queues, orders, drops, entryInit) && m <= |orders|
      ensures Trace(states[..m + 1], queues[..m + 1], orders[..m], drops[..m], entryInit)
      decreases |orders|
    {
      var n := |orders|;
      if m == n {
        assert states[..m + 1] == states && queues[..m + 1] == queues;
        assert orders[..m] == orders && drops[..m] == drops;
      } else {
        TracePrefix(states[..n], queues[..n], orders[..n - 1], drops[..n - 1], entryInit, m);
        assert states[..n][..m + 1] == states[..m + 1] && queues[..n][..m + 1] == queues[..m + 1];
        assert orders[..n - 1][..m] == orders[..m] && drops[..n - 1][..m] == drops[..m];
      }
    }

    /**
     * A recorded run is determined by the maps and the queue it starts from
     * and by its number of passes: the passes leave no choice.
     */
    lemma {:induction false} TraceDetermined(states1: seq<Maps<Vertex, Value>>, queues1: seq<seq<Vertex>>,
                                             orders1: seq<seq<Vertex>>, drops1: seq<seq<Vertex>>,
                                             states2: seq<Maps<Vertex, Value>>, queues2: seq<seq<Vertex>>,
                                             orders2: seq<seq<Vertex>>, drops2: seq<seq<Vertex>>,
                                             entryInit: set<Value>)
      requires Trace(states1, queues1, orders1, drops1, entryInit)
      requires Trace(states2, queues2, orders2, drops2, entryInit)
      requires |orders1| == |orders2| && states1[0] == states2[0] && queues1[0] == queues2[0]
      ensures states1 == states2 && queues1 == queues2 && orders1 == orders2 && drops1 == drops2
      decreases |orders1|
    {
      if orders1 != [] {
        var n := |orders1| - 1;
        assert states1[..n + 1][0] == states1[0] && states2[..n + 1][0] == states2[0];
        assert queues1[..n + 1][0] == queues1[0] && queues2[..n + 1][0] == queues2[0];
        TraceDetermined(states1[..n + 1], queues1[..n + 1], orders1[..n], drops1[..n],
                        states2[..n + 1], queues2[..n + 1], orders2[..n], drops2[..n], entryInit);
        PrefixAt(states1, states2, n);
        PrefixAt(queues1, queues2, n);
        PassDetermined(queues1[n], orders1[n], drops1[n], queues1[n + 1], orders2[n], drops2[n], queues2[n + 1]);
        SameLast(states1, states2);
        SameLast(queues1, queues2);
        SameLast(orders1, orders2);
        SameLast(drops1, drops2);
      }
    }

    /** Equal prefixes of length n + 1 agree at index n. */
    static lemma PrefixAt<T>(s1: seq<T>, s2: seq<T>, n: nat)
      requires n < |s1| && n < |s2| && s1[..n + 1] == s2[..n + 1]
      ensures s1[n] == s2[n]
    {
      assert s1[n] == s1[..n + 1][n];
    }

    /** Two sequences of the same length with equal prefixes and equal last elements are equal. */
    static lemma SameLast<T>(s1: seq<T>, s2: seq<T>)
      requires |s1| == |s2| > 0
      requires s1[..|s1| - 1] == s2[..|s2| - 1] && s1[|s1| - 1] == s2[|s2| - 1]
      ensures s1 == s2
    {
      assert s1 == s1[..|s1| - 1] + [s1[|s1| - 1]];
      assert s2 == s2[..|s2| - 1] + [s2[|s2| - 1]];
    }

    /**
     * How the loop of solveForward ends, given a budget of `maxPasses`:
     * `converged` holds exactly when the last pass left the exit map as it
     * found it, every pass before it changed the exit map, and without
     * convergence the budget is used up.
     */
    ghost predicate Stopped(states: seq<Maps<Vertex, Value>>, orders: seq<seq<Vertex>>,
                            maxPasses: nat, converged: bool)
    {
      && |orders| <= maxPasses && (!converged ==> |orders| == maxPasses)
      && (converged <==> |orders| >= 1 && !ExitChanged(states, |orders| - 1))
      && (forall k :: 0 <= k < |orders| - 1 ==> ExitChanged(states, k))
    }

    /** A run that stops as solveForward's loop does is at least as long as any other from the same start. */
    lemma NotShorter(states1: seq<Maps<Vertex, Value>>, queues1: seq<seq<Vertex>>,
                     orders1: seq<seq<Vertex>>, drops1: seq<seq<Vertex>>,
                     states2: seq<Maps<Vertex, Value>>, queues2: seq<seq<Vertex>>,
                     orders2: seq<seq<Vertex>>, drops2: seq<seq<Vertex>>,
                     entryInit: set<Value>, maxPasses: nat, converged1: bool, converged2: bool)
      requires Trace(states1, queues1, orders1, drops1, entryInit)
      requires Trace(states2, queues2, orders2, drops2, entryInit)
      requires states1[0] == states2[0] && queues1[0] == queues2[0]
      requires Stopped(states1, orders1, maxPasses, converged1)
      requires Stopped(states2, orders2, maxPasses, converged2)
      ensures |orders1| >= |orders2|
    {
      var p := |orders1|;
      if p < |orders2| {
        TracePrefix(states2, queues2, orders2, drops2, entryInit, p);
        assert states2[..p + 1][0] == states2[0] && queues2[..p + 1][0] == queues2[0];
        TraceDetermined(states1, queues1, orders1, drops1,
                        states2[..p + 1], queues2[..p + 1], orders2[..p], drops2[..p], entryInit);
        PrefixAgrees(states1, states2);
        // run 1 converged within the budget after pass p - 1, which run 2 says changed the exit map
        if p >= 1 {
          StoppedChanged(states2, orders2, maxPasses, converged2, p - 1);
        }
      }
    }

    /** A run that stops as solveForward's loop does changed the exit map in every pass but the last. */
    lemma StoppedChanged(states: seq<Maps<Vertex, Value>>, orders: seq<seq<Vertex>>,
                         maxPasses: nat, converged: bool, k: nat)
      requires Stopped(states, orders, maxPasses, converged) && k < |orders| - 1
      ensures ExitChanged(states, k)
    {
    }

    /** A prefix of a sequence agrees with it at every index it has. */
    static lemma PrefixAgrees<T>(s1: seq<T>, s2: seq<T>)
      requires |s1| <= |s2| && s1 == s2[..|s1|]
      ensures forall i :: 0 <= i < |s1| ==> s1[i] == s2[i]
    {
    }

    /**
     * solveForward's run is determined by where it starts and by its budget:
     * two runs that stop as its loop does agree on every pass and on
     * `converged`.
     */
    lemma RunDetermined(states1: seq<Maps<Vertex, Value>>, queues1: seq<seq<Vertex>>,
                        orders1: seq<seq<Vertex>>, drops1: seq<seq<Vertex>>,
                        states2: seq<Maps<Vertex, Value>>, queues2: seq<seq<Vertex>>,
                        orders2: seq<seq<Vertex>>, drops2: seq<seq<Vertex>>,
                        entryInit: set<Value>, maxPasses: nat, converged1: bool, converged2: bool)
      requires Trace(states1, queues1, orders1, drops1, entryInit)
      requires Trace(states2, queues2, orders2, drops2, entryInit)
      requires states1[0] == states2[0] && queues1[0] == queues2[0]
      requires Stopped(states1, orders1, maxPasses, converged1)
      requires Stopped(states2, orders2, maxPasses, converged2)
      ensures converged1 == converged2
      ensures states1 == states2 && queues1 == queues2 && orders1 == orders2 && drops1 == drops2
    {
      NotShorter(states1, queues1, orders1, drops1, states2, queues2, orders2, drops2,
                 entryInit, maxPasses, converged1, converged2);
      NotShorter(states2, queues2, orders2, drops2, states1, queues1, orders1, drops1,
                 entryInit, maxPasses, converged2, converged1);
      TraceDetermined(states1, queues1, orders1, drops1, states2, queues2, orders2, drops2, entryInit);
    }

    /** The vertices of `s`. */
    static function Elements(s: seq<Vertex>): set<Vertex>
    {
      set i | 0 <= i < |s| :: s[i]
    }

    /** The vertices processed by some pass of `orders`. */
    static ghost function Processed(orders: seq<seq<Vertex>>): set<Vertex>
      decreases |orders|
    {
      if orders == [] then {} else Processed(orders[..|orders| - 1]) + Elements(orders[|orders| - 1])
    }

    /** A vertex is in Processed(orders) exactly when some pass of `orders` processed it. */
    static lemma {:induction false} ProcessedIn(orders: seq<seq<Vertex>>, u: Vertex)
      ensures u in Processed(orders) <==> exists k :: 0 <= k < |orders| && u in orders[k]
      decreases |orders|
    {
      if orders != [] {
        var n := |orders| - 1;
        ProcessedIn(orders[..n], u);
        if u in Processed(orders[..n]) {
          var k :| 0 <= k < n && u in orders[..n][k];
          assert orders[k] == orders[..n][k];
        }
        if exists k :: 0 <= k < |orders| && u in orders[k] {
          var k :| 0 <= k < |orders| && u in orders[k];
          if k < n {
            assert orders[..n][k] == orders[k];
          }
        }
      }
    }

    /**
     * The history of the passes run so far: every pass processed at least
     * one vertex and none twice, and the processed vertices are exactly the
     * vertices with an exit set.
     */
    ghost predicate History(exitSet: map<Vertex, set<Value>>, orders: seq<seq<Vertex>>)
    {
      && (forall k :: 0 <= k < |orders| ==> orders[k] != [] && Distinct(orders[k]))
      && exitSet.Keys == Processed(orders)
    }

    /** Appending the order of a pass that went from `start` to `exitSet` keeps History. */
    lemma HistoryStep(start: map<Vertex, set<Value>>, entrySet: map<Vertex, set<Value>>,
                      exitSet: map<Vertex, set<Value>>, orders: seq<seq<Vertex>>, order: seq<Vertex>)
      requires History(start, orders)
      requires order != [] && PassDone(start, entrySet, exitSet, order)
      ensures History(exitSet, orders + [order])
      ensures orders != [] ==> (orders + [order])[0] == orders[0]
    {
      var orders' := orders + [order];
      forall k | 0 <= k < |orders'| ensures orders'[k] != [] && Distinct(orders'[k]) {
        if k < |orders| {
          assert orders'[k] == orders[k];
        }
      }
      assert orders'[..|orders|] == orders;
      assert Processed(orders') == start.Keys + Elements(order);
    }

    /**
     * One pass of the inner loop: the entry vertex is appended to the queue
     * left over from the previous pass, then vertices are dequeued and
     * processed until the queue is empty or a vertex already processed in
     * this pass is dequeued (that vertex is dropped). Processing a vertex
     * appends all its successors to the queue and then visits it.
     *
     * `order` lists the processed vertices, `dropped` the vertex that ended
     * the pass (if one did).
     */
    method Pass(sets: Result<Vertex, Value>, entryInit: set<Value>, leftover: seq<Vertex>)
      returns (remaining: seq<Vertex>, ghost order: seq<Vertex>, ghost dropped: seq<Vertex>)
      requires WellFormed() && Consistent(sets, entryInit)
      requires forall i :: 0 <= i < |leftover| ==> leftover[i] in cfg.vertices
      modifies sets
      ensures Consistent(sets, entryInit)
      ensures forall i :: 0 <= i < |remaining| ==> remaining[i] in cfg.vertices
      // the queue is first in, first out, and outlives the pass
      ensures order + dropped + remaining == leftover + [entryVertex] + SuccessorsOf(order)
      ensures |order| >= 1 && |dropped| <= 1
      ensures dropped != [] ==> dropped[0] in order
      ensures dropped == [] ==> remaining == []
      ensures leftover == [] ==> order[0] == entryVertex
      // the pass stops once its queue is used up: every processed vertex was queued when polled
      ensures PolledWhileQueued(leftover, order)
      // each vertex is processed at most once; the processed vertices gain
      // an exit set, the others keep theirs, and a pass that ends with the
      // exit map it started with leaves them at the join equation
      ensures PassDone(old(sets.exitSet), sets.entrySet, sets.exitSet, order)
      // the new maps are those reached by processing the vertices of `order` in turn
      ensures Maps(sets.entrySet, sets.exitSet) == RunOrder(Maps(old(sets.entrySet), old(sets.exitSet)), order, entryInit)
    {
      ghost var start := Maps(sets.entrySet, sets.exitSet);
      remaining := leftover + [entryVertex];
      var visitedVertices: set<Vertex> := {};
      order, dropped := [], [];
      while true
        invariant PassInvariant(start, sets.entrySet, sets.exitSet, entryInit,
                                leftover, order, visitedVertices, remaining)
        invariant dropped == []
        decreases |cfg.vertices - visitedVertices|
      {
        if remaining == [] {
          PassEnd(start, sets.entrySet, sets.exitSet, entryInit,
                  leftover, order, visitedVertices, remaining, dropped, remaining);
          break;
        }
        var v := remaining[0];
        var polled := remaining;
        remaining := remaining[1..];
        if v in visitedVertices {
          dropped := [v];
          PassEnd(start, sets.entrySet, sets.exitSet, entryInit,
                  leftover, order, visitedVertices, polled, dropped, remaining);
          break;
        }
        visitedVertices, remaining := ProcessVertex(sets, entryInit, start, leftover, order,
                                                    visitedVertices, polled);
        order := order + [v];
      }
    }

    /**
     * The body of the inner loop for the vertex `v` just polled from `polled`
     * and not yet visited: `v` is marked visited, its successors are
     * appended to the queue, and then it is visited.
     */
    method ProcessVertex(sets: Result<Vertex, Value>, entryInit: set<Value>, ghost start: Maps<Vertex, Value>,
                         ghost leftover: seq<Vertex>, ghost order: seq<Vertex>,
                         visited: set<Vertex>, polled: seq<Vertex>)
      returns (visited': set<Vertex>, queue: seq<Vertex>)
      requires WellFormed()
      requires PassInvariant(start, sets.entrySet, sets.exitSet, entryInit, leftover, order, visited, polled)
      requires polled != [] && polled[0] !in visited
      modifies sets
      ensures visited' == visited + {polled[0]}
      ensures queue == polled[1..] + cfg.successors(polled[0])
      ensures sets.entrySet == old(sets.entrySet)[polled[0] := EntryFor(old(sets.exitSet), polled[0], entryInit)]
      ensures sets.exitSet == old(sets.exitSet)[polled[0] := analysis.transfer(polled[0], sets.entrySet[polled[0]])]
      ensures PassInvariant(start, sets.entrySet, sets.exitSet, entryInit, leftover, order + [polled[0]],
                            visited', queue)
      ensures |cfg.vertices - visited'| < |cfg.vertices - visited|
    {
      var v := polled[0];
      PassInvariantStep(start, sets.entrySet, sets.exitSet, entryInit, leftover, order, visited, polled);
      visited' := visited + {v};
      var connectedVertices := cfg.successors(v);
      queue := AddAll(polled[1..], connectedVertices);
      Visit(sets, v, entryInit);
    }

    /** Appends the vertices of `next` to the queue, one by one, in order. */
    static method AddAll(queue: seq<Vertex>, next: seq<Vertex>) returns (queue': seq<Vertex>)
      ensures queue' == queue + next
    {
      queue' := queue;
      for i := 0 to |next|
        invariant queue' == queue + next[..i]
      {
        assert next[..i + 1] == next[..i] + [next[i]];
        queue' := queue' + [next[i]];
      }
      assert next[..|next|] == next;
    }

    /**
     * The body of the inner loop after the successors are queued: the entry
     * set of `v` (getEntrySet) is stored, then its transfer as the exit set.
     */
    method Visit(sets: Result<Vertex, Value>, v: Vertex, entryInit: set<Value>)
      modifies sets
      ensures sets.entrySet == old(sets.entrySet)[v := EntryFor(old(sets.exitSet), v, entryInit)]
      ensures sets.exitSet == old(sets.exitSet)[v := analysis.transfer(v, EntryFor(old(sets.exitSet), v, entryInit))]
    {
      var entrySet := GetEntrySet(v, entryInit, sets);
      sets.entrySet := sets.entrySet[v := entrySet];
      var exitSet := analysis.transfer(v, entrySet);
      sets.exitSet := sets.exitSet[v := exitSet];
    }

    /**
     * getEntrySet: the entry vertex gets the entry set captured before the
     * first pass whatever its predecessors; any other vertex gets the join of
     * the set of its predecessors' recorded exit sets.
     */
    method GetEntrySet(v: Vertex, entrySetOfEntryVertex: set<Value>, sets: Result<Vertex, Value>)
      returns (entrySet: set<Value>)
      ensures v == entryVertex ==> entrySet == entrySetOfEntryVertex
      ensures v != entryVertex ==> entrySet == analysis.join(PredecessorExits(sets.exitSet, v))
    {
      if v == entryVertex {
        entrySet := entrySetOfEntryVertex;
      } else {
        var exitSets: set<set<Value>> := {};
        var rest := cfg.predecessors(v);
        while rest != {}
          invariant rest <= cfg.predecessors(v)
          invariant exitSets == set p | p in cfg.predecessors(v) - rest && p in sets.exitSet :: sets.exitSet[p]
          decreases rest
        {
          var prevVertex :| prevVertex in rest;
          if prevVertex in sets.exitSet {
            exitSets := exitSets + {sets.exitSet[prevVertex]};
          }
          rest := rest - {prevVertex};
        }
        assert cfg.predecessors(v) - rest == cfg.predecessors(v);
        entrySet := analysis.join(exitSets);
      }
    }
  }
}
