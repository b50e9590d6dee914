/** MinPiecesHeuristic: how many more pieces the player to move needs to
    join two opposite edges, found by a Dijkstra search whose steps cost 1
    into an empty cell and 0 into an own piece. */
module Heuristic {
  import opened Boards
  import opened Grids
  import opened PathFinder
  import opened Games

  /** The heuristic's queued position: a cell and the pieces needed to reach it. */
  datatype Entry = Entry(pos: Position, distance: int)

  /** The edges one dijkstra call searches between: row 0 or column 0 is the
      start edge when startRow or startCol is 0; a cell is an end when its row
      is endRow or its column is endCol. */
  datatype Sides = Sides(startRow: int, startCol: int, endRow: int, endCol: int)

  /** The two calls score makes: top to bottom, left to right. A column of -1
      or a row of -1 never matches, so these stop only on the far edge. */
  function TopBottom(n: int): Sides { Sides(0, -1, n - 1, -1) }
  function LeftRight(n: int): Sides { Sides(-1, 0, -1, n - 1) }

  predicate IsSeed(n: int, sd: Sides, q: Position) {
    InBounds(n, q) && ((sd.startRow == 0 && q.row == 0) || (sd.startCol == 0 && q.col == 0))
  }

  predicate IsEnd(sd: Sides, q: Position) {
    q.row == sd.endRow || q.col == sd.endCol
  }

  /** The top-to-bottom search ends only on the last row, the left-to-right
      search only on the last column. */
  lemma EndsOfSides(n: int, q: Position)
    requires InBounds(n, q)
    ensures IsEnd(TopBottom(n), q) <==> q.row == n - 1
    ensures IsEnd(LeftRight(n), q) <==> q.col == n - 1
  {
  }

  /** A start cell costs nothing when it already holds `p`, one otherwise,
      whatever it holds. */
  function SeedCost(b: Board, p: Piece, q: Position): nat
    requires IsSquare(b) && InBounds(|b|, q)
  {
    if At(b, q) == p then 0 else 1
  }

  /** A later cell may be empty or `p`'s own, never the opponent's. */
  predicate Open(b: Board, p: Piece, q: Position)
    requires IsSquare(b)
  {
    InBounds(|b|, q) && (At(b, q) == None || At(b, q) == p)
  }

  /** Entering an empty cell needs one more piece. */
  function StepCost(b: Board, q: Position): nat
    requires IsSquare(b) && InBounds(|b|, q)
  {
    if At(b, q) == None then 1 else 0
  }

  /** The routes the search explores: a start cell, then 4-adjacent steps
      into open cells. */
  ghost predicate Route(b: Board, p: Piece, sd: Sides, w: seq<Position>)
    requires IsSquare(b)
  {
    |w| > 0 && InBounds(|b|, Last(w)) &&
    (|w| == 1 ==> IsSeed(|b|, sd, w[0])) &&
    (|w| > 1 ==> Route(b, p, sd, w[..|w| - 1]) && Adjacent(w[|w| - 2], Last(w)) && Open(b, p, Last(w)))
  }

  /** The pieces a route still needs. */
  ghost function Cost(b: Board, p: Piece, sd: Sides, w: seq<Position>): nat
    requires IsSquare(b) && Route(b, p, sd, w)
  {
    if |w| == 1 then SeedCost(b, p, w[0]) else Cost(b, p, sd, w[..|w| - 1]) + StepCost(b, Last(w))
  }

  ghost predicate EndRoute(b: Board, p: Piece, sd: Sides, w: seq<Position>)
    requires IsSquare(b)
  {
    Route(b, p, sd, w) && IsEnd(sd, Last(w))
  }

  ghost predicate Reachable(b: Board, p: Piece, sd: Sides)
    requires IsSquare(b)
  {
    exists w :: EndRoute(b, p, sd, w)
  }

  ghost predicate Cheapest(b: Board, p: Piece, sd: Sides, w: seq<Position>)
    requires IsSquare(b)
  {
    EndRoute(b, p, sd, w) && forall w' | EndRoute(b, p, sd, w') :: Cost(b, p, sd, w) <= Cost(b, p, sd, w')
  }

  /** Costs are natural numbers, so some route to the end edge is cheapest. */
  lemma {:induction false} CheapestExists(b: Board, p: Piece, sd: Sides, w0: seq<Position>)
    requires IsSquare(b) && EndRoute(b, p, sd, w0)
    ensures exists w :: Cheapest(b, p, sd, w)
    decreases Cost(b, p, sd, w0)
  {
    if !Cheapest(b, p, sd, w0) {
      var w1 :| EndRoute(b, p, sd, w1) && Cost(b, p, sd, w1) < Cost(b, p, sd, w0);
      CheapestExists(b, p, sd, w1);
    }
  }

  /** dijkstra's answer: the least cost of a route from the start edge to the
      end edge, or size * size when there is none. */
  ghost function MinPieces(b: Board, p: Piece, sd: Sides): int
    requires IsSquare(b)
  {
    if Reachable(b, p, sd) then
      var w0 :| EndRoute(b, p, sd, w0);
      CheapestExists(b, p, sd, w0);
      var w :| Cheapest(b, p, sd, w);
      Cost(b, p, sd, w)
    else |b| * |b|
  }

  /** A route to the end edge that no other undercuts gives MinPieces. */
  lemma MinPiecesIs(b: Board, p: Piece, sd: Sides, w0: seq<Position>)
    requires IsSquare(b) && EndRoute(b, p, sd, w0)
    requires forall w | EndRoute(b, p, sd, w) :: Cost(b, p, sd, w0) <= Cost(b, p, sd, w)
    ensures MinPieces(b, p, sd) == Cost(b, p, sd, w0)
  {
  }

  /** A chain of `p`'s own pieces between the edges needs no more pieces. */
  lemma OwnChainCostsNothing(b: Board, p: Piece, w: seq<Position>)
    requires IsSquare(b) && p != None && ColourPath(b, p, w) && w[0].row == 0 && Last(w).row == |b| - 1
    ensures MinPieces(b, p, TopBottom(|b|)) == 0
  {
    OwnChainRoute(b, p, TopBottom(|b|), w);
    MinPiecesIs(b, p, TopBottom(|b|), w);
  }

  lemma {:induction false} OwnChainRoute(b: Board, p: Piece, sd: Sides, w: seq<Position>)
    requires IsSquare(b) && p != None && ColourPath(b, p, w) && IsSeed(|b|, sd, w[0])
    ensures Route(b, p, sd, w) && Cost(b, p, sd, w) == 0
  {
    if |w| > 1 {
      var init := w[..|w| - 1];
      assert forall i | 0 <= i < |init| :: init[i] == w[i];
      WalkCells(|b|, w);
      assert IsWalk(|b|, init);
      OwnChainRoute(b, p, sd, init);
    }
  }

  /** A route extended by a step into an open neighbour. */
  lemma RouteExtend(b: Board, p: Piece, sd: Sides, w: seq<Position>, v: Position)
    requires IsSquare(b) && Route(b, p, sd, w) && Adjacent(Last(w), v) && Open(b, p, v)
    ensures Route(b, p, sd, w + [v]) && Last(w + [v]) == v
    ensures Cost(b, p, sd, w + [v]) == Cost(b, p, sd, w) + StepCost(b, v)
  {
    assert (w + [v])[..|w|] == w;
  }

  /** Every queued entry, and every entry a finished cell came from, has a
      route to its cell of exactly its distance. */
  ghost predicate Witnessed(b: Board, p: Piece, sd: Sides, wit: map<Entry, seq<Position>>)
    requires IsSquare(b)
  {
    forall e {:trigger wit[e]} | e in wit ::
      Route(b, p, sd, wit[e]) && Last(wit[e]) == e.pos && Cost(b, p, sd, wit[e]) == e.distance
  }

  /** A start cell is its own route, at its start cost. */
  lemma WitnessSeed(b: Board, p: Piece, sd: Sides, wit: map<Entry, seq<Position>>, q: Position)
    requires IsSquare(b) && Witnessed(b, p, sd, wit) && IsSeed(|b|, sd, q)
    ensures Witnessed(b, p, sd, wit[Entry(q, SeedCost(b, p, q)) := [q]])
  {
    assert Route(b, p, sd, [q]) && Cost(b, p, sd, [q]) == SeedCost(b, p, q);
  }

  /** The route of an entry, one step further into an open neighbour. */
  lemma WitnessStep(b: Board, p: Piece, sd: Sides, wit: map<Entry, seq<Position>>, cur: Entry, v: Position)
    requires IsSquare(b) && Witnessed(b, p, sd, wit) && cur in wit
    requires Adjacent(cur.pos, v) && Open(b, p, v)
    ensures Witnessed(b, p, sd, wit[Entry(v, cur.distance + StepCost(b, v)) := wit[cur] + [v]])
  {
    RouteExtend(b, p, sd, wit[cur], v);
  }

  /** A finished cell's distance is no more than any route to it costs. */
  ghost predicate Optimal(b: Board, p: Piece, sd: Sides, done: set<Position>, dist: map<Position, int>)
    requires IsSquare(b)
  {
    forall w | Route(b, p, sd, w) && Last(w) in done && Last(w) in dist :: dist[Last(w)] <= Cost(b, p, sd, w)
  }

  /** The queue holds what the search still owes: every start cell not yet
      finished is queued at its start cost, and every open neighbour v of a
      cell u that has been expanded is finished or queued at dist[u] plus
      the cost of entering v. */
  ghost predicate Covered(b: Board, p: Piece, sd: Sides, queue: multiset<Entry>,
                          expanded: set<Position>, done: set<Position>, dist: map<Position, int>)
    requires IsSquare(b)
  {
    (forall s | IsSeed(|b|, sd, s) :: s in done || Entry(s, SeedCost(b, p, s)) in queue) &&
    forall u, v | u in expanded && u in dist && Adjacent(u, v) && Open(b, p, v) ::
      v in done || Entry(v, dist[u] + StepCost(b, v)) in queue
  }

  /** Every queued entry has a route, and lies between the last finished
      distance and one more. */
  ghost predicate Queued(queue: multiset<Entry>, wit: map<Entry, seq<Position>>, last: int) {
    forall e | e in queue :: e in wit && last <= e.distance <= last + 1
  }

  /** Every finished cell is a cell of the board off the end edge, its
      distance came from an entry with a route and is no more than `last`. */
  ghost predicate Finished(n: int, sd: Sides, done: set<Position>, dist: map<Position, int>,
                           wit: map<Entry, seq<Position>>, last: int) {
    forall u | u in done :: InBounds(n, u) && u in dist && Entry(u, dist[u]) in wit &&
                            !IsEnd(sd, u) && dist[u] <= last
  }

  /** What dijkstra's loop keeps, apart from the marks. `last` is the most
      recent finished distance: finished distances never exceed it and
      queued ones never fall below it, so cells are finished in
      non-decreasing order of distance; each finished cell adds at most one
      to it. */
  ghost predicate DInv(b: Board, p: Piece, sd: Sides, queue: multiset<Entry>, done: set<Position>,
                       dist: map<Position, int>, wit: map<Entry, seq<Position>>, last: int)
    requires IsSquare(b)
  {
    Witnessed(b, p, sd, wit) && Queued(queue, wit, last) && Finished(|b|, sd, done, dist, wit, last) &&
    0 <= last <= |done| && Optimal(b, p, sd, done, dist) && Covered(b, p, sd, queue, done, done, dist)
  }

  /** Any route to a cell not yet finished costs at least some queued
      entry's distance: follow it back to its first unfinished cell. */
  lemma {:induction false} Frontier(b: Board, p: Piece, sd: Sides, queue: multiset<Entry>,
                                    done: set<Position>, dist: map<Position, int>, w: seq<Position>)
    returns (f: Entry)
    requires IsSquare(b) && Optimal(b, p, sd, done, dist) && Covered(b, p, sd, queue, done, done, dist)
    requires forall u | u in done :: u in dist
    requires Route(b, p, sd, w) && Last(w) !in done
    ensures f in queue && f.distance <= Cost(b, p, sd, w)
  {
    if |w| == 1 {
      f := Entry(w[0], SeedCost(b, p, w[0]));
    } else {
      var init := w[..|w| - 1];
      var u := Last(init);
      assert u == w[|w| - 2] && Route(b, p, sd, init);
      if u in done {
        assert dist[u] <= Cost(b, p, sd, init);
        f := Entry(Last(w), dist[u] + StepCost(b, Last(w)));
      } else {
        f := Frontier(b, p, sd, queue, done, dist, init);
      }
    }
  }

  /** The least entry of a non-empty queue: what PriorityQueue.poll returns. */
  lemma {:induction false} LeastEntry(queue: multiset<Entry>) returns (e: Entry)
    requires queue != multiset{}
    ensures e in queue && forall f | f in queue :: e.distance <= f.distance
    decreases |queue|
  {
    var x :| x in queue;
    var rest := queue - multiset{x};
    assert forall f | f in queue :: f == x || f in rest;
    if rest == multiset{} {
      e := x;
    } else {
      var m := LeastEntry(rest);
      e := if x.distance <= m.distance then x else m;
    }
  }

  /** One neighbour of the polled entry, in direction k, has been dealt with:
      it is finished, or it is queued at the entry's distance plus the cost
      of entering it (if it is an open cell at all). */
  ghost predicate Relaxed(b: Board, p: Piece, cur: Entry, k: nat, done: set<Position>, queue: multiset<Entry>)
    requires IsSquare(b) && k < 4
  {
    var v := Step(cur.pos, k);
    Open(b, p, v) ==> v in done || Entry(v, cur.distance + StepCost(b, v)) in queue
  }

  /** Directions 0 .. k-1 have been dealt with. */
  ghost predicate RelaxedFirst(b: Board, p: Piece, cur: Entry, k: nat, done: set<Position>, queue: multiset<Entry>)
    requires IsSquare(b) && k <= 4
  {
    k == 0 || (RelaxedFirst(b, p, cur, k - 1, done, queue) && Relaxed(b, p, cur, k - 1, done, queue))
  }

  lemma {:induction false} RelaxedMore(b: Board, p: Piece, cur: Entry, k: nat, done: set<Position>,
                                       q0: multiset<Entry>, q: multiset<Entry>)
    requires IsSquare(b) && k <= 4 && q0 <= q && RelaxedFirst(b, p, cur, k, done, q0)
    ensures RelaxedFirst(b, p, cur, k, done, q)
  {
    if k > 0 {
      RelaxedMore(b, p, cur, k - 1, done, q0, q);
    }
  }

  lemma AllRelaxed(b: Board, p: Piece, cur: Entry, done: set<Position>, queue: multiset<Entry>)
    requires IsSquare(b) && RelaxedFirst(b, p, cur, 4, done, queue)
    ensures forall v | Adjacent(cur.pos, v) && Open(b, p, v) ::
      v in done || Entry(v, cur.distance + StepCost(b, v)) in queue
  {
    assert RelaxedFirst(b, p, cur, 3, done, queue) && RelaxedFirst(b, p, cur, 2, done, queue) &&
           RelaxedFirst(b, p, cur, 1, done, queue);
    forall v | Adjacent(cur.pos, v) && Open(b, p, v)
      ensures v in done || Entry(v, cur.distance + StepCost(b, v)) in queue
    {
      var d := AdjacentIsStep(cur.pos, v);
      assert Relaxed(b, p, cur, d, done, queue);
    }
  }

  /** What the queue gains while a polled entry's neighbours are looked at:
      entries with routes, no cheaper than the polled one and at most one more. */
  ghost predicate Gains(b: Board, p: Piece, sd: Sides, cur: Entry, q0: multiset<Entry>, q: multiset<Entry>,
                        wit: map<Entry, seq<Position>>)
    requires IsSquare(b)
  {
    q0 <= q && Witnessed(b, p, sd, wit) &&
    forall f | f in q :: f in q0 || (f in wit && cur.distance <= f.distance <= cur.distance + 1)
  }

  /** One neighbour of the polled cell: when it is in bounds, not finished
      and not the opponent's, it is offered at the polled distance, plus one
      when it is empty. */
  method Relax(g: Grid, visited: array2<bool>, piece: Piece, cur: Entry, k: nat, queue: multiset<Entry>,
               ghost b: Board, ghost sd: Sides, ghost done: set<Position>, ghost wit: map<Entry, seq<Position>>)
    returns (queue': multiset<Entry>, ghost wit': map<Entry, seq<Position>>)
    requires g.Valid() && g.board == b && visited.Length0 == g.size && visited.Length1 == g.size && k < 4
    requires Mirrors(visited, done) && Witnessed(b, piece, sd, wit) && cur in wit
    ensures Gains(b, piece, sd, cur, queue, queue', wit') && wit.Keys <= wit'.Keys
    ensures Relaxed(b, piece, cur, k, done, queue')
    ensures queue' == (if Open(b, piece, Step(cur.pos, k)) && Step(cur.pos, k) !in done
                       then queue + multiset{Entry(Step(cur.pos, k), cur.distance + StepCost(b, Step(cur.pos, k)))}
                       else queue)
  {
    var n := g.GetSize();
    var next := Step(cur.pos, k);
    queue', wit' := queue, wit;
    if 0 <= next.row < n && 0 <= next.col < n && !visited[next.row, next.col] {
      var neighbour := g.GetPiece(next.row, next.col).value;
      var d := cur.distance;
      if neighbour == None {
        d := d + 1;
      } else if neighbour != piece {
        return;
      }
      var f := Entry(next, d);
      WitnessStep(b, piece, sd, wit, cur, next);
      queue' := queue + multiset{f};
      wit' := wit[f := wit[cur] + [next]];
    }
  }

  /** The neighbours of a polled cell, up, down, left, right. */
  method Expand(g: Grid, visited: array2<bool>, piece: Piece, cur: Entry, queue: multiset<Entry>,
                ghost b: Board, ghost sd: Sides, ghost done: set<Position>, ghost wit: map<Entry, seq<Position>>)
    returns (queue': multiset<Entry>, ghost wit': map<Entry, seq<Position>>)
    requires g.Valid() && g.board == b && visited.Length0 == g.size && visited.Length1 == g.size
    requires Mirrors(visited, done) && Witnessed(b, piece, sd, wit) && cur in wit
    ensures Gains(b, piece, sd, cur, queue, queue', wit') && wit.Keys <= wit'.Keys
    ensures forall v | Adjacent(cur.pos, v) && Open(b, piece, v) ::
      v in done || Entry(v, cur.distance + StepCost(b, v)) in queue'
  {
    queue', wit' := queue, wit;
    for k := 0 to 4
      invariant Gains(b, piece, sd, cur, queue, queue', wit') && wit.Keys <= wit'.Keys
      invariant RelaxedFirst(b, piece, cur, k, done, queue')
    {
      ghost var q1 := queue';
      queue', wit' := Relax(g, visited, piece, cur, k, queue', b, sd, done, wit');
      RelaxedMore(b, piece, cur, k, done, q1, queue');
    }
    AllRelaxed(b, piece, cur, done, queue');
  }

  /** The start cells among rows and columns 0 .. i-1 are queued at their
      start cost. */
  ghost predicate SeededBefore(b: Board, p: Piece, sd: Sides, queue: multiset<Entry>, i: int)
    requires IsSquare(b)
  {
    forall s | IsSeed(|b|, sd, s) && s.row < i && s.col < i :: Entry(s, SeedCost(b, p, s)) in queue
  }

  /** Row and column i bring at most the start cells (0, i) and (i, 0). */
  lemma SeededStep(b: Board, p: Piece, sd: Sides, queue: multiset<Entry>, i: int)
    requires IsSquare(b) && 0 <= i < |b| && SeededBefore(b, p, sd, queue, i)
    requires sd.startRow == 0 ==> Entry(Position(0, i), SeedCost(b, p, Position(0, i))) in queue
    requires sd.startCol == 0 ==> Entry(Position(i, 0), SeedCost(b, p, Position(i, 0))) in queue
    ensures SeededBefore(b, p, sd, queue, i + 1)
  {
    forall s | IsSeed(|b|, sd, s) && s.row < i + 1 && s.col < i + 1
      ensures Entry(s, SeedCost(b, p, s)) in queue
    {
      if !(s.row < i && s.col < i) {
        if sd.startRow == 0 && s.row == 0 {
          assert s == Position(0, i);
        } else {
          assert s == Position(i, 0);
        }
      }
    }
  }

  /** Queuing a start cell at its start cost, with the cell alone as its
      route, keeps every queued entry witnessed and no entry is lost. */
  lemma OfferSeed(b: Board, p: Piece, sd: Sides, queue: multiset<Entry>, wit: map<Entry, seq<Position>>,
                  i: int, q: Position)
    requires IsSquare(b) && IsSeed(|b|, sd, q) && Witnessed(b, p, sd, wit) && Queued(queue, wit, 0)
    requires SeededBefore(b, p, sd, queue, i)
    ensures var queue' := queue + multiset{Entry(q, SeedCost(b, p, q))};
            var wit' := wit[Entry(q, SeedCost(b, p, q)) := [q]];
            Witnessed(b, p, sd, wit') && Queued(queue', wit', 0) && SeededBefore(b, p, sd, queue', i) &&
            Entry(q, SeedCost(b, p, q)) in queue'
  {
    WitnessSeed(b, p, sd, wit, q);
  }

  /** The queue before any cell is finished. */
  lemma Seeded(b: Board, p: Piece, sd: Sides, queue: multiset<Entry>, wit: map<Entry, seq<Position>>)
    requires IsSquare(b) && Witnessed(b, p, sd, wit) && Queued(queue, wit, 0)
    requires SeededBefore(b, p, sd, queue, |b|)
    ensures DInv(b, p, sd, queue, {}, map[], wit, 0)
  {
  }

  /** One pass of the seeding loop: the start cells (0, i) and (i, 0), as
      the start sides ask, are queued. */
  method SeedRound(g: Grid, piece: Piece, startRow: int, startCol: int, i: int, queue: multiset<Entry>,
                   ghost b: Board, ghost sd: Sides, ghost wit: map<Entry, seq<Position>>)
    returns (queue': multiset<Entry>, ghost wit': map<Entry, seq<Position>>)
    requires g.Valid() && g.board == b && sd.startRow == startRow && sd.startCol == startCol && 0 <= i < g.size
    requires Witnessed(b, piece, sd, wit) && Queued(queue, wit, 0) && SeededBefore(b, piece, sd, queue, i)
    ensures Witnessed(b, piece, sd, wit') && Queued(queue', wit', 0) && SeededBefore(b, piece, sd, queue', i + 1)
  {
    queue', wit' := queue, wit;
    if startRow == 0 {
      var q := Position(startRow, i);
      var d := if g.GetPiece(startRow, i).value == piece then 0 else 1;
      OfferSeed(b, piece, sd, queue', wit', i, q);
      queue' := queue' + multiset{Entry(q, d)};
      wit' := wit'[Entry(q, d) := [q]];
    }
    ghost var q1 := queue';
    if startCol == 0 {
      var q := Position(i, startCol);
      var d := if g.GetPiece(i, startCol).value == piece then 0 else 1;
      OfferSeed(b, piece, sd, queue', wit', i, q);
      queue' := queue' + multiset{Entry(q, d)};
      wit' := wit'[Entry(q, d) := [q]];
    }
    assert startRow == 0 ==> Entry(Position(0, i), SeedCost(b, piece, Position(0, i))) in queue' by {
      assert q1 <= queue';
    }
    SeededStep(b, piece, sd, queue', i);
  }

  /** The first part of dijkstra: each start cell is queued at its start
      cost, 0 when it already holds `piece` and 1 otherwise. */
  method Seed(g: Grid, piece: Piece, startRow: int, startCol: int, ghost sd: Sides)
    returns (queue: multiset<Entry>, ghost wit: map<Entry, seq<Position>>)
    requires g.Valid() && sd.startRow == startRow && sd.startCol == startCol
    ensures DInv(g.board, piece, sd, queue, {}, map[], wit, 0)
    ensures SeededBefore(g.board, piece, sd, queue, g.size)
  {
    ghost var b := g.board;
    var n := g.GetSize();
    queue, wit := multiset{}, map[];
    for i := 0 to n
      invariant g.board == b
      invariant Witnessed(b, piece, sd, wit) && Queued(queue, wit, 0) && SeededBefore(b, piece, sd, queue, i)
    {
      queue, wit := SeedRound(g, piece, startRow, startCol, i, queue, b, sd, wit);
    }
    Seeded(b, piece, sd, queue, wit);
  }

  /** Polling an entry whose cell is already finished changes nothing else. */
  lemma PopStale(b: Board, p: Piece, sd: Sides, queue: multiset<Entry>, done: set<Position>,
                 dist: map<Position, int>, wit: map<Entry, seq<Position>>, last: int, e: Entry)
    requires IsSquare(b) && DInv(b, p, sd, queue, done, dist, wit, last)
    requires e in queue && e.pos in done
    ensures DInv(b, p, sd, queue - multiset{e}, done, dist, wit, last)
  {
  }

  /** No route to the least queued cell, not yet finished, is cheaper than
      its entry: it may be finished at that distance. */
  lemma PopOptimal(b: Board, p: Piece, sd: Sides, queue: multiset<Entry>, done: set<Position>,
                   dist: map<Position, int>, e: Entry)
    requires IsSquare(b) && Optimal(b, p, sd, done, dist) && Covered(b, p, sd, queue, done, done, dist)
    requires forall u | u in done :: u in dist
    requires e in queue && e.pos !in done && forall f | f in queue :: e.distance <= f.distance
    ensures Optimal(b, p, sd, done + {e.pos}, dist[e.pos := e.distance])
  {
    var done' := done + {e.pos};
    var dist' := dist[e.pos := e.distance];
    forall w | Route(b, p, sd, w) && Last(w) in done' && Last(w) in dist'
      ensures dist'[Last(w)] <= Cost(b, p, sd, w)
    {
      if Last(w) == e.pos {
        var f := Frontier(b, p, sd, queue, done, dist, w);
      } else {
        assert dist'[Last(w)] == dist[Last(w)];
      }
    }
  }

  /** The polled cell's neighbours are all queued, so the queue again covers
      what the search owes once that cell is finished. */
  lemma CoveredStep(b: Board, p: Piece, sd: Sides, queue: multiset<Entry>, queue2: multiset<Entry>,
                    done: set<Position>, dist: map<Position, int>, e: Entry)
    requires IsSquare(b) && Covered(b, p, sd, queue, done, done, dist)
    requires e in queue && e.pos !in done && queue - multiset{e} <= queue2
    requires forall v | Adjacent(e.pos, v) && Open(b, p, v) ::
      v in done + {e.pos} || Entry(v, e.distance + StepCost(b, v)) in queue2
    ensures Covered(b, p, sd, queue2, done + {e.pos}, done + {e.pos}, dist[e.pos := e.distance])
  {
    var done' := done + {e.pos};
    var dist' := dist[e.pos := e.distance];
    forall s | IsSeed(|b|, sd, s)
      ensures s in done' || Entry(s, SeedCost(b, p, s)) in queue2
    {
      if s !in done && Entry(s, SeedCost(b, p, s)) != e {
        assert Entry(s, SeedCost(b, p, s)) in queue - multiset{e};
      }
    }
    forall u, v | u in done' && u in dist' && Adjacent(u, v) && Open(b, p, v)
      ensures v in done' || Entry(v, dist'[u] + StepCost(b, v)) in queue2
    {
      if u != e.pos {
        assert dist'[u] == dist[u];
        if v !in done && Entry(v, dist[u] + StepCost(b, v)) != e {
          assert Entry(v, dist[u] + StepCost(b, v)) in queue - multiset{e};
        }
      }
    }
  }

  /** What stays queued lies at or above the polled distance and at most one
      above it. */
  lemma QueuedStep(queue: multiset<Entry>, queue2: multiset<Entry>, wit: map<Entry, seq<Position>>,
                   wit2: map<Entry, seq<Position>>, last: int, e: Entry)
    requires Queued(queue, wit, last) && e in queue && forall f | f in queue :: e.distance <= f.distance
    requires wit.Keys <= wit2.Keys
    requires forall f | f in queue2 :: f in queue - multiset{e} ||
                                       (f in wit2 && e.distance <= f.distance <= e.distance + 1)
    ensures Queued(queue2, wit2, e.distance)
  {
  }

  /** The polled cell joins the finished ones at its distance, the new largest. */
  lemma FinishedStep(n: int, sd: Sides, done: set<Position>, dist: map<Position, int>,
                     wit: map<Entry, seq<Position>>, wit2: map<Entry, seq<Position>>, last: int, e: Entry)
    requires Finished(n, sd, done, dist, wit, last) && wit.Keys <= wit2.Keys
    requires e in wit && InBounds(n, e.pos) && !IsEnd(sd, e.pos) && last <= e.distance
    ensures Finished(n, sd, done + {e.pos}, dist[e.pos := e.distance], wit2, e.distance)
  {
  }

  /** A round that finishes a cell off the end edge and queues its
      neighbours keeps the loop's invariant, with one more finished cell. */
  lemma FreshStep(b: Board, p: Piece, sd: Sides, queue: multiset<Entry>, done: set<Position>,
                  dist: map<Position, int>, wit: map<Entry, seq<Position>>, last: int, e: Entry,
                  queue2: multiset<Entry>, wit2: map<Entry, seq<Position>>)
    requires IsSquare(b) && DInv(b, p, sd, queue, done, dist, wit, last)
    requires e in queue && e.pos !in done && !IsEnd(sd, e.pos)
    requires forall f | f in queue :: e.distance <= f.distance
    requires Gains(b, p, sd, e, queue - multiset{e}, queue2, wit2) && wit.Keys <= wit2.Keys
    requires forall v | Adjacent(e.pos, v) && Open(b, p, v) ::
      v in done + {e.pos} || Entry(v, e.distance + StepCost(b, v)) in queue2
    ensures DInv(b, p, sd, queue2, done + {e.pos}, dist[e.pos := e.distance], wit2, e.distance)
    ensures |done + {e.pos}| == |done| + 1
  {
    assert e in wit && Route(b, p, sd, wit[e]) && Last(wit[e]) == e.pos;
    PopOptimal(b, p, sd, queue, done, dist, e);
    CoveredStep(b, p, sd, queue, queue2, done, dist, e);
    QueuedStep(queue, queue2, wit, wit2, last, e);
    FinishedStep(|b|, sd, done, dist, wit, wit2, last, e);
  }

  /** Polling the least entry of an end cell not yet finished: no route to
      any end is cheaper, so its distance is the answer. */
  lemma FoundEnd(b: Board, p: Piece, sd: Sides, queue: multiset<Entry>, done: set<Position>,
                 dist: map<Position, int>, wit: map<Entry, seq<Position>>, last: int, e: Entry)
    requires IsSquare(b) && DInv(b, p, sd, queue, done, dist, wit, last)
    requires e in queue && e.pos !in done && IsEnd(sd, e.pos)
    requires forall f | f in queue :: e.distance <= f.distance
    ensures MinPieces(b, p, sd) == e.distance
    ensures 0 <= e.distance <= |b| * |b|
  {
    var w0 := wit[e];
    forall w | EndRoute(b, p, sd, w)
      ensures Cost(b, p, sd, w0) <= Cost(b, p, sd, w)
    {
      var f := Frontier(b, p, sd, queue, done, dist, w);
    }
    MinPiecesIs(b, p, sd, w0);
    assert InBounds(|b|, e.pos);
    CellsBound(done + {e.pos}, |b|);
  }

  /** With nothing left to poll, no route reaches an end. */
  lemma Exhausted(b: Board, p: Piece, sd: Sides, done: set<Position>,
                  dist: map<Position, int>, wit: map<Entry, seq<Position>>, last: int)
    requires IsSquare(b) && DInv(b, p, sd, multiset{}, done, dist, wit, last)
    ensures MinPieces(b, p, sd) == |b| * |b|
  {
    if w :| EndRoute(b, p, sd, w) {
      var f := Frontier(b, p, sd, multiset{}, done, dist, w);
    }
  }

  /** Marks a polled cell as visited. */
  method Mark(visited: array2<bool>, q: Position, ghost done: set<Position>)
    requires 0 <= q.row < visited.Length0 && 0 <= q.col < visited.Length1 && Mirrors(visited, done)
    modifies visited
    ensures Mirrors(visited, done + {q})
  {
    visited[q.row, q.col] := true;
  }

  /** A polled cell off the end edge, just finished: its neighbours are
      queued. */
  method Grow(g: Grid, visited: array2<bool>, piece: Piece, e: Entry,
              queue: multiset<Entry>, ghost b: Board, ghost sd: Sides, ghost done: set<Position>,
              ghost dist: map<Position, int>, ghost wit: map<Entry, seq<Position>>, ghost last: int)
    returns (queue': multiset<Entry>, ghost wit': map<Entry, seq<Position>>)
    requires g.Valid() && g.board == b && visited.Length0 == g.size && visited.Length1 == g.size
    requires Mirrors(visited, done + {e.pos}) && DInv(b, piece, sd, queue, done, dist, wit, last)
    requires e in queue && e.pos !in done && !IsEnd(sd, e.pos) && forall f | f in queue :: e.distance <= f.distance
    ensures DInv(b, piece, sd, queue', done + {e.pos}, dist[e.pos := e.distance], wit', e.distance)
    ensures |done + {e.pos}| == |done| + 1
    ensures Gains(b, piece, sd, e, queue - multiset{e}, queue', wit') && wit.Keys <= wit'.Keys
    ensures forall v | Adjacent(e.pos, v) && Open(b, piece, v) ::
      v in done + {e.pos} || Entry(v, e.distance + StepCost(b, v)) in queue'
  {
    queue', wit' := Expand(g, visited, piece, e, queue - multiset{e}, b, sd, done + {e.pos}, wit);
    FreshStep(b, piece, sd, queue, done, dist, wit, last, e, queue', wit');
  }

  /** The second half of a round, for a polled cell not yet finished: it is
      finished, the search stops if it is an end, and else its neighbours
      are queued. */
  method Settle(g: Grid, visited: array2<bool>, piece: Piece, endRow: int, endCol: int, e: Entry,
                queue: multiset<Entry>, ghost sd: Sides, ghost done: set<Position>,
                ghost dist: map<Position, int>, ghost wit: map<Entry, seq<Position>>, ghost last: int)
    returns (finished: bool, r: int, queue': multiset<Entry>, ghost done': set<Position>,
             ghost dist': map<Position, int>, ghost wit': map<Entry, seq<Position>>)
    requires g.Valid() && visited.Length0 == g.size && visited.Length1 == g.size
    requires sd.endRow == endRow && sd.endCol == endCol
    requires Mirrors(visited, done) && DInv(g.board, piece, sd, queue, done, dist, wit, last)
    requires e in queue && e.pos !in done && forall f | f in queue :: e.distance <= f.distance
    modifies visited
    ensures finished ==> r == MinPieces(g.board, piece, sd) && 0 <= r <= g.size * g.size
    ensures !finished ==> Mirrors(visited, done') && DInv(g.board, piece, sd, queue', done', dist', wit', e.distance)
    ensures !finished ==> |done'| == |done| + 1 <= g.size * g.size
  {
    assert e in wit && InBounds(g.size, e.pos);
    Mark(visited, e.pos, done);
    done', dist' := done + {e.pos}, dist[e.pos := e.distance];
    if e.pos.row == endRow || e.pos.col == endCol {
      FoundEnd(g.board, piece, sd, queue, done, dist, wit, last, e);
      return true, e.distance, queue, done', dist', wit;
    }
    queue', wit' := Grow(g, visited, piece, e, queue, g.board, sd, done, dist, wit, last);
    CellsBound(done', g.size);
    finished, r := false, 0;
  }

  /** One round of dijkstra's loop: the least entry is polled; a finished
      cell is skipped, any other is settled. */
  method Round(g: Grid, visited: array2<bool>, piece: Piece, endRow: int, endCol: int,
               queue: multiset<Entry>, ghost sd: Sides, ghost done: set<Position>,
               ghost dist: map<Position, int>, ghost wit: map<Entry, seq<Position>>, ghost last: int)
    returns (finished: bool, r: int, queue': multiset<Entry>, ghost done': set<Position>,
             ghost dist': map<Position, int>, ghost wit': map<Entry, seq<Position>>, ghost last': int)
    requires g.Valid() && visited.Length0 == g.size && visited.Length1 == g.size
    requires sd.endRow == endRow && sd.endCol == endCol
    requires queue != multiset{} && Mirrors(visited, done) && DInv(g.board, piece, sd, queue, done, dist, wit, last)
    modifies visited
    ensures finished ==> r == MinPieces(g.board, piece, sd) && 0 <= r <= g.size * g.size
    ensures !finished ==> Mirrors(visited, done') && DInv(g.board, piece, sd, queue', done', dist', wit', last')
    ensures !finished ==> |done'| <= g.size * g.size
    ensures !finished ==> |done'| > |done| || (done' == done && |queue'| < |queue|)
  {
    ghost var e0 := LeastEntry(queue);
    var e :| e in queue && forall f | f in queue :: e.distance <= f.distance;
    assert e in wit && InBounds(g.size, e.pos);
    if visited[e.pos.row, e.pos.col] {
      PopStale(g.board, piece, sd, queue, done, dist, wit, last, e);
      CellsBound(done, g.size);
      return false, 0, queue - multiset{e}, done, dist, wit, last;
    }
    finished, r, queue', done', dist', wit' := Settle(g, visited, piece, endRow, endCol, e, queue, sd, done, dist, wit, last);
    last' := e.distance;
  }

  /** dijkstra: the fewest pieces `piece` still needs to join the start edge
      to the end edge, or size * size when the opponent blocks every route. */
  method Dijkstra(g: Grid, piece: Piece, startRow: int, startCol: int, endRow: int, endCol: int) returns (r: int)
    requires g.Valid()
    ensures r == MinPieces(g.board, piece, Sides(startRow, startCol, endRow, endCol))
    ensures 0 <= r <= g.size * g.size
  {
    ghost var sd := Sides(startRow, startCol, endRow, endCol);
    var n := g.GetSize();
    var queue, wit := Seed(g, piece, startRow, startCol, sd);
    var visited := new bool[n, n]((_, _) => false);
    ghost var done: set<Position> := {};
    ghost var dist: map<Position, int> := map[];
    ghost var last := 0;
    ghost var bound := n * n;
    while queue != multiset{}
      invariant Mirrors(visited, done) && DInv(g.board, piece, sd, queue, done, dist, wit, last)
      invariant |done| <= bound
      decreases bound - |done|, |queue|
    {
      var finished;
      finished, r, queue, done, dist, wit, last := Round(g, visited, piece, endRow, endCol, queue, sd, done, dist, wit, last);
      if finished {
        return;
      }
    }
    Exhausted(g.board, piece, sd, done, dist, wit, last);
    return n * n;
  }

  function Min(x: int, y: int): int {
    if x <= y then x else y
  }

  /** score: minus the fewer pieces the player to move needs, over the two
      orientations. */
  ghost function ScoreOf(b: Board, p: Piece): int
    requires IsSquare(b)
  {
    -Min(MinPieces(b, p, TopBottom(|b|)), MinPieces(b, p, LeftRight(|b|)))
  }

  /** MinPieces is never negative. */
  lemma MinPiecesNonNegative(b: Board, p: Piece, sd: Sides)
    requires IsSquare(b)
    ensures MinPieces(b, p, sd) >= 0
  {
  }

  /** A player who already joins two opposite edges scores 0, the best score. */
  lemma ConnectedScoresZero(b: Board, p: Piece)
    requires IsSquare(b) && p != None && Connects(b, p)
    ensures ScoreOf(b, p) == 0
  {
    MinPiecesNonNegative(b, p, TopBottom(|b|));
    MinPiecesNonNegative(b, p, LeftRight(|b|));
    if TopToBottomPath(b, p) {
      var w: seq<Position> :| ColourPath(b, p, w) && w[0].row == 0 && Last(w).row == |b| - 1;
      OwnChainRoute(b, p, TopBottom(|b|), w);
      MinPiecesIs(b, p, TopBottom(|b|), w);
    } else {
      var w: seq<Position> :| ColourPath(b, p, w) && w[0].col == 0 && Last(w).col == |b| - 1;
      OwnChainRoute(b, p, LeftRight(|b|), w);
      MinPiecesIs(b, p, LeftRight(|b|), w);
    }
  }

  /** score: both searches on a copy of the board, for the player to move. */
  method Score(game: Game) returns (s: int)
    requires game.Valid()
    ensures s == ScoreOf(game.grid.board, game.currentPlayer)
    ensures -(game.grid.size * game.grid.size) <= s <= 0
  {
    var grid := game.GetGrid();
    var player := game.CurrentPlayer();
    var n := grid.GetSize();
    var t := Dijkstra(grid, player, 0, -1, n - 1, -1);
    var l := Dijkstra(grid, player, -1, 0, -1, n - 1);
    s := -Min(t, l);
  }
}
