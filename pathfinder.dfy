/** PathFinder: does a colour join two opposite edges? A multi-source
    breadth-first search over same-coloured 4-adjacent cells. */
module PathFinder {
  import opened Boards
  import opened Grids

  /** A walk each of whose steps joins two cells of the same colour: the
      moves findPath makes, since it follows a neighbour only when its colour
      equals the current cell's. */
  ghost predicate MonoWalk(b: Board, w: seq<Position>)
    requires IsSquare(b)
  {
    |w| > 0 && InBounds(|b|, w[|w| - 1]) &&
    (|w| > 1 ==>
      MonoWalk(b, w[..|w| - 1]) && InBounds(|b|, w[|w| - 2]) &&
      Adjacent(w[|w| - 2], w[|w| - 1]) && At(b, w[|w| - 2]) == At(b, w[|w| - 1]))
  }

  /** A walk all of whose cells hold `p`. */
  ghost predicate ColourPath(b: Board, p: Piece, w: seq<Position>)
    requires IsSquare(b)
  {
    IsWalk(|b|, w) && forall i | 0 <= i < |w| :: InBounds(|b|, w[i]) && At(b, w[i]) == p
  }

  /** A same-colour walk is a path in the colour of its first cell, and back. */
  lemma {:induction false} MonoIsColourPath(b: Board, w: seq<Position>)
    requires IsSquare(b) && |w| > 0 && InBounds(|b|, w[0])
    ensures MonoWalk(b, w) <==> ColourPath(b, At(b, w[0]), w)
  {
    if |w| > 1 {
      var init := w[..|w| - 1];
      MonoIsColourPath(b, init);
      assert forall i | 0 <= i < |init| :: init[i] == w[i];
      if ColourPath(b, At(b, w[0]), w) {
        assert ColourPath(b, At(b, w[0]), init);
      }
    }
  }

  /** `p` has a chain of 4-adjacent pieces from row 0 to row size-1. */
  ghost predicate TopToBottomPath(b: Board, p: Piece)
    requires IsSquare(b)
  {
    exists w: seq<Position> :: ColourPath(b, p, w) && w[0].row == 0 && Last(w).row == |b| - 1
  }

  /** `p` has a chain of 4-adjacent pieces from column 0 to column size-1. */
  ghost predicate LeftToRightPath(b: Board, p: Piece)
    requires IsSquare(b)
  {
    exists w: seq<Position> :: ColourPath(b, p, w) && w[0].col == 0 && Last(w).col == |b| - 1
  }

  /** The cells of `row` that hold `piece`, by increasing column. */
  method GetOnRow(g: Grid, row: int, piece: Piece) returns (ps: seq<Position>)
    requires g.Valid() && 0 <= row < g.size
    ensures forall q :: q in ps <==> q.row == row && InBounds(g.size, q) && At(g.board, q) == piece
    ensures forall i, j | 0 <= i < j < |ps| :: ps[i].col < ps[j].col
  {
    ps := [];
    for col := 0 to g.GetSize()
      invariant forall q :: q in ps <==> q.row == row && 0 <= q.col < col && At(g.board, q) == piece
      invariant forall i | 0 <= i < |ps| :: ps[i].col < col
      invariant forall i, j | 0 <= i < j < |ps| :: ps[i].col < ps[j].col
    {
      if g.GetPiece(row, col).value == piece {
        ps := ps + [Position(row, col)];
      }
    }
  }

  /** The cells of `col` that hold `piece`, by increasing row. */
  method GetOnCol(g: Grid, col: int, piece: Piece) returns (ps: seq<Position>)
    requires g.Valid() && 0 <= col < g.size
    ensures forall q :: q in ps <==> q.col == col && InBounds(g.size, q) && At(g.board, q) == piece
    ensures forall i, j | 0 <= i < j < |ps| :: ps[i].row < ps[j].row
  {
    ps := [];
    for row := 0 to g.GetSize()
      invariant forall q :: q in ps <==> q.col == col && 0 <= q.row < row && At(g.board, q) == piece
      invariant forall i | 0 <= i < |ps| :: ps[i].row < row
      invariant forall i, j | 0 <= i < j < |ps| :: ps[i].row < ps[j].row
    {
      if g.GetPiece(row, col).value == piece {
        ps := ps + [Position(row, col)];
      }
    }
  }

  /** The search's closure: from every cell of `done`, each in-bounds neighbour
      of the same colour has been visited. */
  ghost predicate Closed(b: Board, done: set<Position>, visited: set<Position>)
    requires IsSquare(b)
  {
    (forall u | u in done :: InBounds(|b|, u)) &&
    forall u, v | u in done && Adjacent(u, v) && InBounds(|b|, u) && InBounds(|b|, v) && At(b, v) == At(b, u) ::
      v in visited
  }

  /** A same-colour walk that starts in a set closed under same-colour steps
      never leaves it. */
  lemma {:induction false} WalkStaysInside(b: Board, s: set<Position>, w: seq<Position>)
    requires IsSquare(b) && MonoWalk(b, w) && w[0] in s && Closed(b, s, s)
    ensures Last(w) in s
  {
    if |w| > 1 {
      var init := w[..|w| - 1];
      WalkStaysInside(b, s, init);
    }
  }

  /** The marks array mirrors the set of visited cells. */
  ghost predicate Mirrors(visited: array2<bool>, seen: set<Position>)
    reads visited
  {
    forall r, c {:trigger visited[r, c]} | 0 <= r < visited.Length0 && 0 <= c < visited.Length1 ::
      visited[r, c] <==> Position(r, c) in seen
  }

  /** Every visited cell is in bounds and is the end of a same-colour walk,
      recorded in `via`, that begins at a start. */
  ghost predicate Reached(b: Board, starts: seq<Position>, seen: set<Position>, via: map<Position, seq<Position>>)
    requires IsSquare(b)
  {
    (forall v | v in seen :: InBounds(|b|, v) && v in via) &&
    forall v {:trigger via[v]} | v in seen && v in via ::
      MonoWalk(b, via[v]) && via[v][0] in starts && Last(via[v]) == v
  }

  /** A visited cell's same-colour neighbour is reached by extending the
      cell's walk by one step. */
  lemma ReachedStep(b: Board, starts: seq<Position>, seen: set<Position>, via: map<Position, seq<Position>>,
                    cur: Position, next: Position)
    requires IsSquare(b) && Reached(b, starts, seen, via) && cur in seen
    requires Adjacent(cur, next) && InBounds(|b|, next) && At(b, next) == At(b, cur)
    ensures Reached(b, starts, seen + {next}, via[next := via[cur] + [next]])
  {
    var w := via[cur] + [next];
    assert w[..|w| - 1] == via[cur];
    assert w[0] == via[cur][0];
  }

  /** The cells a queue holds. */
  ghost function Elems(q: seq<Position>): set<Position> {
    if q == [] then {} else Elems(q[..|q| - 1]) + {q[|q| - 1]}
  }

  lemma {:induction false} ElemsConcat(a: seq<Position>, c: seq<Position>)
    ensures Elems(a + c) == Elems(a) + Elems(c)
  {
    if c != [] {
      var k := |c| - 1;
      ElemsConcat(a, c[..k]);
      assert (a + c)[..|a + c| - 1] == a + c[..k];
      assert (a + c)[|a + c| - 1] == c[k];
    } else {
      assert a + c == a;
    }
  }

  lemma {:induction false} ElemsHead(q: seq<Position>)
    requires q != []
    ensures q[0] in Elems(q)
  {
    if |q| > 1 {
      ElemsHead(q[..|q| - 1]);
    }
  }

  lemma {:induction false} ElemsIn(q: seq<Position>)
    ensures forall x :: x in Elems(q) <==> x in q
  {
    if q != [] {
      var init := q[..|q| - 1];
      ElemsIn(init);
      assert q == init + [q[|q| - 1]];
    }
  }

  /** The neighbour of `cur` in direction d has been taken if it is an
      in-bounds cell of cur's colour. */
  ghost predicate Took(b: Board, cur: Position, d: nat, seen: set<Position>)
    requires IsSquare(b) && InBounds(|b|, cur) && d < 4
  {
    InBounds(|b|, Step(cur, d)) && At(b, Step(cur, d)) == At(b, cur) ==> Step(cur, d) in seen
  }

  /** Directions 0 .. k-1 have all been taken. */
  ghost predicate TookFirst(b: Board, cur: Position, k: nat, seen: set<Position>)
    requires IsSquare(b) && InBounds(|b|, cur) && k <= 4
  {
    k == 0 || (TookFirst(b, cur, k - 1, seen) && Took(b, cur, k - 1, seen))
  }

  /** Visiting more cells keeps the directions already taken. */
  lemma {:induction false} TookMore(b: Board, cur: Position, k: nat, s0: set<Position>, s: set<Position>)
    requires IsSquare(b) && InBounds(|b|, cur) && k <= 4 && s0 <= s
    requires TookFirst(b, cur, k, s0)
    ensures TookFirst(b, cur, k, s)
  {
    if k > 0 {
      TookMore(b, cur, k - 1, s0, s);
    }
  }

  /** Taking every direction covers every same-colour neighbour. */
  lemma AllDirections(b: Board, cur: Position, seen: set<Position>)
    requires IsSquare(b) && InBounds(|b|, cur)
    requires TookFirst(b, cur, 4, seen)
    ensures forall v | Adjacent(cur, v) && InBounds(|b|, v) && At(b, v) == At(b, cur) :: v in seen
  {
    assert TookFirst(b, cur, 3, seen) && TookFirst(b, cur, 2, seen) && TookFirst(b, cur, 1, seen);
    forall v | Adjacent(cur, v) && InBounds(|b|, v) && At(b, v) == At(b, cur)
      ensures v in seen
    {
      var d := AdjacentIsStep(cur, v);
      assert Took(b, cur, d, seen);
    }
  }

  /** What findPath enqueues for direction k: the neighbour there when it is
      in bounds, not yet visited and of cur's colour, and nothing otherwise. */
  ghost predicate Takes(b: Board, cur: Position, k: nat, seen: set<Position>, more: seq<Position>)
    requires IsSquare(b) && InBounds(|b|, cur) && k < 4
  {
    more == (if InBounds(|b|, Step(cur, k)) && Step(cur, k) !in seen && At(b, Step(cur, k)) == At(b, cur)
             then [Step(cur, k)] else [])
  }

  /** findPath's test on a neighbour `next` of `cur`: it is taken exactly
      when it is on the board, not yet visited and of cur's colour. */
  method Joins(g: Grid, visited: array2<bool>, cur: Position, next: Position, ghost seen: set<Position>)
    returns (take: bool)
    requires g.Valid() && visited.Length0 == g.size && visited.Length1 == g.size
    requires InBounds(g.size, cur) && Mirrors(visited, seen)
    ensures take <==> InBounds(g.size, next) && next !in seen && At(g.board, next) == At(g.board, cur)
  {
    var n := g.GetSize();
    take := 0 <= next.row < n && 0 <= next.col < n && !visited[next.row, next.col] &&
            g.GetPiece(next.row, next.col).value == g.GetPiece(cur.row, cur.col).value;
  }

  /** One neighbour of findPath's dequeued cell `cur`, the one in direction
      k: when it is in bounds, unmarked and of cur's colour it is marked and
      returned for the queue; otherwise nothing changes. */
  method Visit(g: Grid, visited: array2<bool>, cur: Position, k: nat,
               ghost starts: seq<Position>, ghost seen0: set<Position>, ghost via0: map<Position, seq<Position>>)
    returns (more: seq<Position>, ghost seen: set<Position>, ghost via: map<Position, seq<Position>>)
    requires g.Valid() && visited.Length0 == g.size && visited.Length1 == g.size && k < 4
    requires cur in seen0 && Mirrors(visited, seen0) && Reached(g.board, starts, seen0, via0)
    modifies visited
    ensures Mirrors(visited, seen) && Reached(g.board, starts, seen, via)
    ensures seen == seen0 + Elems(more) && |seen| == |seen0| + |more|
    ensures Took(g.board, cur, k, seen)
    ensures Takes(g.board, cur, k, seen0, more)
  {
    var next := Step(cur, k);
    more, seen, via := [], seen0, via0;
    var take := Joins(g, visited, cur, next, seen0);
    if take {
      seen, via := Mark(g, visited, cur, next, starts, seen0, via0);
      assert Elems([next]) == Elems([]) + {next};
      more := [next];
    }
  }

  /** Marking a taken neighbour visited: it joins the visited cells, reached
      by cur's walk extended by one step. */
  method Mark(g: Grid, visited: array2<bool>, cur: Position, next: Position,
              ghost starts: seq<Position>, ghost seen0: set<Position>, ghost via0: map<Position, seq<Position>>)
    returns (ghost seen: set<Position>, ghost via: map<Position, seq<Position>>)
    requires g.Valid() && visited.Length0 == g.size && visited.Length1 == g.size
    requires cur in seen0 && Mirrors(visited, seen0) && Reached(g.board, starts, seen0, via0)
    requires Adjacent(cur, next) && InBounds(g.size, next) && At(g.board, next) == At(g.board, cur)
    modifies visited
    ensures seen == seen0 + {next}
    ensures Mirrors(visited, seen) && Reached(g.board, starts, seen, via)
  {
    ReachedStep(g.board, starts, seen0, via0, cur, next);
    visited[next.row, next.col] := true;
    seen := seen0 + {next};
    via := via0[next := via0[cur] + [next]];
  }

  /** The body of findPath's loop for one dequeued cell: its neighbours are
      visited in the order up, down, left, right, and those taken are
      returned, in that order, for the caller to append to the queue. */
  method Expand(g: Grid, visited: array2<bool>, cur: Position,
                ghost starts: seq<Position>, ghost seen0: set<Position>, ghost via0: map<Position, seq<Position>>)
    returns (added: seq<Position>, ghost seen: set<Position>, ghost via: map<Position, seq<Position>>)
    requires g.Valid() && visited.Length0 == g.size && visited.Length1 == g.size
    requires cur in seen0 && Mirrors(visited, seen0) && Reached(g.board, starts, seen0, via0)
    modifies visited
    ensures Mirrors(visited, seen) && Reached(g.board, starts, seen, via)
    ensures seen == seen0 + Elems(added) && |seen| == |seen0| + |added|
    ensures forall v | Adjacent(cur, v) && InBounds(g.size, v) && At(g.board, v) == At(g.board, cur) ::
      v in seen
  {
    ghost var b := g.board;
    added, seen, via := [], seen0, via0;
    for k := 0 to 4
      invariant Mirrors(visited, seen) && Reached(b, starts, seen, via)
      invariant seen == seen0 + Elems(added) && |seen| == |seen0| + |added|
      invariant TookFirst(b, cur, k, seen)
    {
      added, seen, via := VisitNext(g, visited, cur, k, starts, seen0, added, seen, via);
    }
    AllDirections(b, cur, seen);
  }

  /** One pass of Expand's loop: direction k visited, its cell appended. */
  method VisitNext(g: Grid, visited: array2<bool>, cur: Position, k: nat, ghost starts: seq<Position>,
                   ghost seen0: set<Position>, added: seq<Position>, ghost seen1: set<Position>,
                   ghost via1: map<Position, seq<Position>>)
    returns (added': seq<Position>, ghost seen: set<Position>, ghost via: map<Position, seq<Position>>)
    requires g.Valid() && visited.Length0 == g.size && visited.Length1 == g.size && k < 4
    requires cur in seen1 && Mirrors(visited, seen1) && Reached(g.board, starts, seen1, via1)
    requires seen1 == seen0 + Elems(added) && |seen1| == |seen0| + |added|
    requires TookFirst(g.board, cur, k, seen1)
    modifies visited
    ensures Mirrors(visited, seen) && Reached(g.board, starts, seen, via)
    ensures seen == seen0 + Elems(added') && |seen| == |seen0| + |added'|
    ensures TookFirst(g.board, cur, k + 1, seen)
  {
    var more;
    more, seen, via := Visit(g, visited, cur, k, starts, seen1, via1);
    TookMore(g.board, cur, k, seen1, seen);
    ElemsConcat(added, more);
    added' := added + more;
  }

  /** Finishing a cell keeps the closure: its same-colour neighbours are all
      visited, and visiting more cells never breaks it. */
  lemma ClosedExtend(b: Board, done: set<Position>, s0: set<Position>, s: set<Position>, u: Position)
    requires IsSquare(b) && Closed(b, done, s0) && s0 <= s && InBounds(|b|, u)
    requires forall v | Adjacent(u, v) && InBounds(|b|, v) && At(b, v) == At(b, u) :: v in s
    ensures Closed(b, done + {u}, s)
  {
  }

  /** When the search stops without finding an end, no same-colour walk
      leads from a start to an end: the visited cells contain every start,
      are closed under same-colour steps, and contain no end. */
  lemma NoWayOut(b: Board, starts: seq<Position>, ends: seq<Position>, seen: set<Position>)
    requires IsSquare(b) && Closed(b, seen, seen) && Elems(starts) <= seen
    requires forall u | u in seen :: u !in ends
    ensures forall w | MonoWalk(b, w) && w[0] in starts :: Last(w) !in ends
  {
    ElemsIn(starts);
    forall w | MonoWalk(b, w) && w[0] in starts
      ensures Last(w) !in ends
    {
      WalkStaysInside(b, seen, w);
    }
  }

  /** What findPath's loop keeps, apart from the marks: every visited cell is
      reached from a start, the starts were all visited, the queue holds
      visited cells, every visited cell is either finished (`done`) or still
      queued, finished cells are closed under same-colour steps and are not
      ends. */
  ghost predicate SearchInv(b: Board, starts: seq<Position>, ends: seq<Position>, queue: seq<Position>,
                            seen: set<Position>, done: set<Position>, via: map<Position, seq<Position>>)
    requires IsSquare(b)
  {
    Reached(b, starts, seen, via) && Elems(starts) <= seen &&
    Elems(queue) <= seen && seen <= done + Elems(queue) &&
    done <= seen && Closed(b, done, seen) &&
    forall u | u in done :: u !in ends
  }

  /** One round of findPath's loop keeps SearchInv: the head of the queue is
      finished once its same-colour neighbours are visited and appended. */
  lemma SearchStep(b: Board, starts: seq<Position>, ends: seq<Position>, queue: seq<Position>, cur: Position,
                   seen0: set<Position>, done: set<Position>, via0: map<Position, seq<Position>>,
                   added: seq<Position>, seen: set<Position>, via: map<Position, seq<Position>>)
    requires IsSquare(b) && SearchInv(b, starts, ends, queue, seen0, done, via0)
    requires queue != [] && cur == queue[0] && cur in seen0 && cur !in ends
    requires Reached(b, starts, seen, via) && seen == seen0 + Elems(added)
    requires forall v | Adjacent(cur, v) && InBounds(|b|, v) && At(b, v) == At(b, cur) :: v in seen
    ensures SearchInv(b, starts, ends, queue[1..] + added, seen, done + {cur}, via)
  {
    ElemsConcat([cur], queue[1..]);
    assert queue == [cur] + queue[1..];
    assert Elems([cur]) == Elems([]) + {cur};
    ClosedExtend(b, done, seen0, seen, cur);
    ElemsConcat(queue[1..], added);
  }

  /** The first part of findPath: every start is queued, in order, and
      marked; each start is reached by the one-cell walk to itself. */
  method Seed(g: Grid, starts: seq<Position>, ghost ends: seq<Position>)
    returns (queue: seq<Position>, visited: array2<bool>, ghost seen: set<Position>,
             ghost via: map<Position, seq<Position>>)
    requires g.Valid()
    requires forall s | s in starts :: InBounds(g.size, s)
    ensures fresh(visited) && visited.Length0 == g.size && visited.Length1 == g.size
    ensures queue == starts && Mirrors(visited, seen)
    ensures SearchInv(g.board, starts, ends, queue, seen, {}, via)
  {
    ghost var b := g.board;
    var n := g.GetSize();
    queue := [];
    visited := new bool[n, n]((_, _) => false);
    seen, via := {}, map[];
    for i := 0 to |starts|
      invariant queue == starts[..i] && seen == Elems(queue)
      invariant Mirrors(visited, seen)
      invariant forall v | v in seen :: v in via && via[v] == [v]
    {
      var s := starts[i];
      assert s in starts;
      assert starts[..i + 1] == starts[..i] + [s];
      ElemsConcat(queue, [s]);
      queue := queue + [s];
      visited[s.row, s.col] := true;
      seen := seen + {s};
      via := via[s := [s]];
    }
    assert queue == starts;
    ElemsIn(starts);
    assert Reached(b, starts, seen, via);
  }

  /** One round of findPath's loop: the head of the queue is dequeued; if it
      is an end the search succeeds, otherwise its unmarked same-colour
      neighbours are marked and queued. Each round either visits new cells
      or shortens the queue. */
  method Round(g: Grid, visited: array2<bool>, queue: seq<Position>,
               ghost starts: seq<Position>, ends: seq<Position>, ghost seen: set<Position>,
               ghost done: set<Position>, ghost via: map<Position, seq<Position>>)
    returns (found: bool, queue': seq<Position>, ghost seen': set<Position>,
             ghost done': set<Position>, ghost via': map<Position, seq<Position>>)
    requires g.Valid() && visited.Length0 == g.size && visited.Length1 == g.size
    requires queue != [] && Mirrors(visited, seen) && SearchInv(g.board, starts, ends, queue, seen, done, via)
    modifies visited
    ensures found <==> queue[0] in ends
    ensures found ==> exists w :: MonoWalk(g.board, w) && w[0] in starts && Last(w) in ends
    ensures !found ==> Mirrors(visited, seen') && SearchInv(g.board, starts, ends, queue', seen', done', via')
    ensures !found ==> |seen'| <= g.size * g.size
    ensures !found ==> |seen'| > |seen| || (seen' == seen && |queue'| < |queue|)
  {
    ghost var b := g.board;
    var cur := queue[0];
    ElemsHead(queue);
    if cur in ends {
      assert via[cur][0] in starts;
      return true, queue, seen, done, via;
    }
    var added;
    found := false;
    added, seen', via' := Expand(g, visited, cur, starts, seen, via);
    assert g.board == b;
    SearchStep(b, starts, ends, queue, cur, seen, done, via, added, seen', via');
    queue' := queue[1..] + added;
    done' := done + {cur};
    CellsBound(seen', g.size);
  }

  /** findPath: true iff some same-coloured 4-adjacent walk leads from a start
      to an end. Every cell is enqueued at most once (it is marked on enqueue),
      and every enqueued cell shares the colour of the start it came from. */
  method FindPath(g: Grid, starts: seq<Position>, ends: seq<Position>) returns (found: bool)
    requires g.Valid()
    requires forall s | s in starts :: InBounds(g.size, s)
    ensures found <==> exists w :: MonoWalk(g.board, w) && w[0] in starts && Last(w) in ends
  {
    var queue, visited, seen, via := Seed(g, starts, ends);
    ghost var done: set<Position> := {};
    ghost var bound := g.size * g.size;
    CellsBound(seen, g.size);
    while queue != []
      invariant Mirrors(visited, seen) && SearchInv(g.board, starts, ends, queue, seen, done, via)
      invariant |seen| <= bound
      decreases bound - |seen|, |queue|
    {
      found, queue, seen, done, via := Round(g, visited, queue, starts, ends, seen, done, via);
      if found {
        return;
      }
    }
    NoWayOut(g.board, starts, ends, seen);
    return false;
  }

  /** topToBottom: `player` joins row 0 to row size-1. */
  method TopToBottom(g: Grid, player: Piece) returns (found: bool)
    requires g.Valid()
    ensures found <==> TopToBottomPath(g.board, player)
  {
    ghost var b := g.board;
    var starts := GetOnRow(g, 0, player);
    var ends := GetOnRow(g, g.GetSize() - 1, player);
    found := FindPath(g, starts, ends);
    if found {
      ghost var w: seq<Position> :| MonoWalk(b, w) && w[0] in starts && Last(w) in ends;
      MonoIsColourPath(b, w);
    } else {
      forall w: seq<Position> | ColourPath(b, player, w) && w[0].row == 0
        ensures Last(w).row != |b| - 1
      {
        MonoIsColourPath(b, w);
        assert w[0] in starts;
      }
    }
  }

  /** leftToRight: `player` joins column 0 to column size-1. */
  method LeftToRight(g: Grid, player: Piece) returns (found: bool)
    requires g.Valid()
    ensures found <==> LeftToRightPath(g.board, player)
  {
    ghost var b := g.board;
    var starts := GetOnCol(g, 0, player);
    var ends := GetOnCol(g, g.GetSize() - 1, player);
    found := FindPath(g, starts, ends);
    if found {
      ghost var w: seq<Position> :| MonoWalk(b, w) && w[0] in starts && Last(w) in ends;
      MonoIsColourPath(b, w);
    } else {
      forall w: seq<Position> | ColourPath(b, player, w) && w[0].col == 0
        ensures Last(w).col != |b| - 1
      {
        MonoIsColourPath(b, w);
        assert w[0] in starts;
      }
    }
  }

  /** With no `p` piece on row 0 there is no top-to-bottom chain. */
  lemma NoStartNoPath(b: Board, p: Piece)
    requires IsSquare(b) && |b| > 0
    requires forall c | 0 <= c < |b| :: b[0][c] != p
    ensures !TopToBottomPath(b, p)
  {
  }

  /** On a 1 x 1 board the single cell is both edges: `p` connects (either
      way) exactly when it holds that cell. */
  lemma OneByOne(b: Board, p: Piece)
    requires IsSquare(b) && |b| == 1
    ensures TopToBottomPath(b, p) <==> b[0][0] == p
    ensures LeftToRightPath(b, p) <==> b[0][0] == p
  {
    var w := [Position(0, 0)];
    if b[0][0] == p {
      assert ColourPath(b, p, w);
    }
    if w': seq<Position> :| ColourPath(b, p, w') && w'[0].row == 0 && Last(w').row == 0 {
      assert InBounds(1, w'[0]) && At(b, w'[0]) == p;
    }
    if w': seq<Position> :| ColourPath(b, p, w') && w'[0].col == 0 && Last(w').col == 0 {
      assert InBounds(1, w'[0]) && At(b, w'[0]) == p;
    }
  }
}
