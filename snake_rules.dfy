/** The game's rules as pure functions: coordinates and headings, the
    per-tick step of the snake, heading changes, what a full redraw puts in
    each cell, and the candidate list that food placement draws from. The
    engine in module Snake is proved against these definitions. */
module SnakeRules {
  import opened Pixels

  datatype Pos = Pos(x: int, y: int)

  datatype Direction = Up | Down | Left | Right

  predicate InBounds(p: Pos, w: int, h: int) {
    0 <= p.x < w && 0 <= p.y < h
  }

  function Opposite(d: Direction): Direction {
    match d
    case Up => Down
    case Down => Up
    case Left => Right
    case Right => Left
  }

  /** No cell appears twice. */
  predicate Distinct(s: seq<Pos>) {
    forall i, j :: 0 <= i < j < |s| ==> s[i] != s[j]
  }

  /** Every cell of the w x h grid is in s. */
  ghost predicate Covers(s: seq<Pos>, w: int, h: int) {
    forall x, y :: 0 <= x < w && 0 <= y < h ==> Pos(x, y) in s
  }

  // ---------------------------------------------------------------------
  // Moving the head
  // ---------------------------------------------------------------------

  /** The cell one step from p in direction d on a torus: each coordinate is
      shifted, then brought back into range by adding the size and taking the
      remainder (Python's % agrees with Dafny's here: both operands are
      non-negative). */
  function NextHead(p: Pos, d: Direction, w: int, h: int): (q: Pos)
    requires w > 0 && h > 0 && InBounds(p, w, h)
    ensures InBounds(q, w, h)
    ensures d == Left ==> q == Pos(if p.x == 0 then w - 1 else p.x - 1, p.y)
    ensures d == Right ==> q == Pos(if p.x == w - 1 then 0 else p.x + 1, p.y)
    ensures d == Up ==> q == Pos(p.x, if p.y == 0 then h - 1 else p.y - 1)
    ensures d == Down ==> q == Pos(p.x, if p.y == h - 1 then 0 else p.y + 1)
    ensures w > 1 && h > 1 ==> q != p
  {
    var dx := if d == Left then -1 else if d == Right then 1 else 0;
    var dy := if d == Up then -1 else if d == Down then 1 else 0;
    WrapStep(p.x + dx, w);
    WrapStep(p.y + dy, h);
    assert w > 1 && (d == Left || d == Right) ==> (p.x + dx + w) % w != p.x;
    assert h > 1 && (d == Up || d == Down) ==> (p.y + dy + h) % h != p.y;
    Pos((p.x + dx + w) % w, (p.y + dy + h) % h)
  }

  /** Adding the size and taking the remainder brings a coordinate that has
      left the grid by one step back in on the opposite edge. */
  lemma WrapStep(v: int, n: int)
    requires n > 0 && -1 <= v <= n
    ensures (v + n) % n == if v == -1 then n - 1 else if v == n then 0 else v
  {
    var r := if v == -1 then n - 1 else if v == n then 0 else v;
    var q := if v == -1 then 0 else if v == n then 2 else 1;
    assert v + n == q * n + r;
    ModUnique(v + n, n, q, r);
  }

  lemma ModUnique(a: int, n: int, q: int, r: int)
    requires n > 0 && a == q * n + r && 0 <= r < n
    ensures a % n == r
  {
    var q', r' := a / n, a % n;
    assert a == q' * n + r' && 0 <= r' < n;
    if q' < q {
      assert (q - q') * n == r' - r;
      MulAtLeast(q - q', n);
    } else if q < q' {
      assert (q' - q) * n == r - r';
      MulAtLeast(q' - q, n);
    }
  }

  lemma {:induction false} MulAtLeast(k: int, n: int)
    requires k >= 1 && n > 0
    ensures k * n >= n
  {
    if k > 1 {
      MulAtLeast(k - 1, n);
      assert k * n == (k - 1) * n + n;
    }
  }

  /** A step followed by a step back returns to the starting cell, so the
      wrap-around loses no cell. */
  lemma NextHeadOpposite(p: Pos, d: Direction, w: int, h: int)
    requires w > 0 && h > 0 && InBounds(p, w, h)
    ensures NextHead(NextHead(p, d, w, h), Opposite(d), w, h) == p
  {
  }

  // ---------------------------------------------------------------------
  // The body
  // ---------------------------------------------------------------------

  /** The body after an ordinary move: the new head in front and every
      segment taking its predecessor's cell, so the last one drops off. */
  function Advanced(body: seq<Pos>, head: Pos): (r: seq<Pos>)
    requires |body| > 0
    ensures |r| == |body| && r[0] == head
    ensures forall k :: 1 <= k < |r| ==> r[k] == body[k - 1]
  {
    [head] + body[..|body| - 1]
  }

  /** What a full redraw leaves in cell p: the head colour on the first
      segment, the body colour on every other segment, the food colour on
      the food cell unless a segment already sits there, and empty elsewhere. */
  function RenderCell(snake: seq<Pos>, food: Pos, p: Pos): (c: Cell)
    requires |snake| > 0
    ensures c.occupied <==> p in snake || p == food
    ensures c.color == Head <==> p == snake[0]
    ensures c.color == Body <==> p != snake[0] && p in snake
    ensures c.color == Food <==> p == food && p !in snake
  {
    if p == snake[0] then Cell(true, Head)
    else if p in snake then Cell(true, Body)
    else if p == food then Cell(true, Food)
    else Empty
  }

  // ---------------------------------------------------------------------
  // The game state and the per-tick rule
  // ---------------------------------------------------------------------

  /** The engine's fields: snake is head first; moved is the flag that lets
      the next heading change through. */
  datatype Game = Game(snake: seq<Pos>, direction: Direction, food: Pos,
                       paused: bool, over: bool, moved: bool)

  /** Every segment and the food lie on the grid and no two segments share
      a cell. The food may sit under a segment: the redraw then hides it. */
  predicate WellFormed(g: Game, w: int, h: int) {
    |g.snake| > 0 && Distinct(g.snake) && InBounds(g.food, w, h) &&
    forall p :: p in g.snake ==> InBounds(p, w, h)
  }

  /** The cell the head moves into on the next tick. */
  function Ahead(g: Game, w: int, h: int): Pos
    requires w > 0 && h > 0 && |g.snake| > 0 && InBounds(g.snake[0], w, h)
  {
    NextHead(g.snake[0], g.direction, w, h)
  }

  datatype Outcome = Outcome(game: Game, score: int)

  /** One tick, given the cell `seen` that the engine reads at the target.
      The flag moved is set first, even when the game is over or paused;
      a body-coloured target ends the game (-1), any other occupied target
      is eaten and the snake grows (+1), an empty one is an ordinary move (0).
      The food is left as it was: replacing it is a separate, random step. */
  function Tick(g: Game, w: int, h: int, seen: Cell): (o: Outcome)
    requires w > 0 && h > 0 && |g.snake| > 0 && InBounds(g.snake[0], w, h)
    ensures o.game.moved && o.game.direction == g.direction
    ensures o.game.paused == g.paused && o.game.food == g.food
    ensures -1 <= o.score <= 1
    ensures o.game.over <==> g.over || o.score == -1
    ensures |o.game.snake| == |g.snake| + (if o.score == 1 then 1 else 0)
    ensures o.game.snake == g.snake || o.game.snake[0] == Ahead(g, w, h)
    ensures g.over || g.paused ==> o == Outcome(g.(moved := true), 0)
    ensures !g.over && !g.paused ==>
              (o.score == -1 <==> seen.occupied && seen.color == Body) &&
              (o.score == 1 <==> seen.occupied && seen.color != Body)
    ensures o.score == -1 ==> o.game == g.(moved := true, over := true)
  {
    var g := g.(moved := true);
    if g.over || g.paused then Outcome(g, 0)
    else
      var t := Ahead(g, w, h);
      if seen.occupied then
        if seen.color == Body then Outcome(g.(over := true), -1)
        else Outcome(g.(snake := [t] + g.snake), 1)
      else Outcome(g.(snake := Advanced(g.snake, t)), 0)
  }

  /** The cell the engine reads when the grid shows the current state. */
  function SeenAhead(g: Game, w: int, h: int): Cell
    requires w > 0 && h > 0 && |g.snake| > 0 && InBounds(g.snake[0], w, h)
  {
    RenderCell(g.snake, g.food, Ahead(g, w, h))
  }

  /** On a grid that shows the state, a running game ends exactly when the
      head moves onto another segment (the tail included, although the tail
      would have moved away), grows exactly when it moves onto the uncovered
      food, and otherwise slides forward. */
  lemma TickOnRenderedGrid(g: Game, w: int, h: int)
    requires w > 1 && h > 1 && WellFormed(g, w, h)
    requires !g.over && !g.paused
    ensures var o := Tick(g, w, h, SeenAhead(g, w, h));
            var t := Ahead(g, w, h);
            (o.score == -1 <==> t in g.snake) &&
            (o.score == -1 ==> o.game == g.(moved := true, over := true)) &&
            (o.score == 1 <==> t == g.food && t !in g.snake) &&
            (o.score == 1 ==> o.game.snake == [t] + g.snake) &&
            (o.score == 0 ==> o.game.snake == Advanced(g.snake, t) && t != g.food)
  {
    var t := Ahead(g, w, h);
    assert t != g.snake[0];
  }

  /** The first tick of a new game: from the seeded snake heading left, the
      head enters (19,20), and the snake grows exactly when the cell read there
      is occupied. */
  lemma FirstTick(g: Game, w: int, h: int, seen: Cell)
    requires w > 21 && h > 21 && g.snake == [Pos(20, 20), Pos(21, 20)]
    requires g.direction == Left && !g.over && !g.paused && seen.color != Body
    ensures var s := Tick(g, w, h, seen).game.snake;
            (s == [Pos(19, 20), Pos(20, 20)] || s == [Pos(19, 20), Pos(20, 20), Pos(21, 20)]) &&
            (|s| == 3 <==> seen.occupied)
  {
    assert Ahead(g, w, h) == Pos(19, 20);
  }

  /** The quirk of deciding by colour: moving onto the current tail cell ends
      the game even though the tail would have left that cell. */
  lemma TailBiteEndsGame(g: Game, w: int, h: int)
    requires w > 1 && h > 1 && WellFormed(g, w, h)
    requires !g.over && !g.paused && |g.snake| >= 2
    requires Ahead(g, w, h) == g.snake[|g.snake| - 1]
    ensures Tick(g, w, h, SeenAhead(g, w, h)) == Outcome(g.(moved := true, over := true), -1)
  {
    var t := Ahead(g, w, h);
    assert t != g.snake[0];
    assert t in g.snake;
  }

  /** When the snake covers the whole grid (the only case in which no food
      can be placed) the next running tick ends the game. */
  lemma FullGridEndsGame(g: Game, w: int, h: int)
    requires w > 1 && h > 1 && WellFormed(g, w, h) && Covers(g.snake, w, h)
    requires !g.over && !g.paused
    ensures Tick(g, w, h, SeenAhead(g, w, h)).score == -1
  {
    var t := Ahead(g, w, h);
    assert t in g.snake;
    TickOnRenderedGrid(g, w, h);
  }

  /** A tick keeps every segment on the grid and all segments distinct. */
  lemma {:induction false} TickKeepsWellFormed(g: Game, w: int, h: int)
    requires w > 1 && h > 1 && WellFormed(g, w, h)
    ensures WellFormed(Tick(g, w, h, SeenAhead(g, w, h)).game, w, h)
  {
    if !g.over && !g.paused {
      var t := Ahead(g, w, h);
      var o := Tick(g, w, h, SeenAhead(g, w, h));
      TickOnRenderedGrid(g, w, h);
      if o.score == 1 {
        GrownDistinct(g.snake, t);
      } else if o.score == 0 {
        AdvancedDistinct(g.snake, t);
      }
    }
  }

  lemma GrownDistinct(s: seq<Pos>, t: Pos)
    requires Distinct(s) && t !in s
    ensures Distinct([t] + s)
  {
    var r := [t] + s;
    forall i, j | 0 <= i < j < |r| ensures r[i] != r[j] {
      if i == 0 {
        assert r[j] == s[j - 1];
      } else {
        assert r[i] == s[i - 1] && r[j] == s[j - 1];
      }
    }
  }

  lemma AdvancedDistinct(s: seq<Pos>, t: Pos)
    requires |s| > 0 && Distinct(s) && t !in s
    ensures Distinct(Advanced(s, t))
    ensures forall p :: p in Advanced(s, t) ==> p == t || p in s
  {
    var r := Advanced(s, t);
    forall i, j | 0 <= i < j < |r| ensures r[i] != r[j] {
      if i == 0 {
        assert r[j] == s[j - 1];
      } else {
        assert r[i] == s[i - 1] && r[j] == s[j - 1];
      }
    }
    forall p | p in r ensures p == t || p in s {
      var k :| 0 <= k < |r| && r[k] == p;
      if k > 0 {
        assert p == s[k - 1];
      }
    }
  }

  /** After a growth the food is replaced: either by a cell the new snake does
      not cover, or, when the snake covers the whole grid, it stays where it
      was (now under the head). */
  ghost predicate Replenished(snake: seq<Pos>, oldFood: Pos, food: Pos, w: int, h: int) {
    (InBounds(food, w, h) && food !in snake) || (food == oldFood && Covers(snake, w, h))
  }

  // ---------------------------------------------------------------------
  // Heading changes
  // ---------------------------------------------------------------------

  /** A heading change goes through when the key is pressed, the new heading
      is perpendicular to the current one, the previous change has been
      consumed by a tick, and the game is neither paused nor over. */
  predicate CanTurn(g: Game, d: Direction, holding: bool) {
    g.direction != d && g.direction != Opposite(d) &&
    g.moved && !g.paused && !g.over && holding
  }

  function Turn(g: Game, d: Direction, holding: bool): (g': Game)
    ensures g'.direction != Opposite(g.direction)
    ensures g' == g || (g.moved && !g'.moved && g'.direction == d)
    ensures !CanTurn(g, d, holding) ==> g' == g
    ensures CanTurn(g, d, holding) ==> g'.direction == d && !g'.moved
    ensures g'.snake == g.snake && g'.food == g.food
    ensures g'.paused == g.paused && g'.over == g.over
  {
    if CanTurn(g, d, holding) then g.(direction := d, moved := false) else g
  }

  /** Between two ticks at most one heading change is accepted. */
  lemma OneTurnPerTick(g: Game, d1: Direction, d2: Direction, h1: bool, h2: bool)
    requires CanTurn(g, d1, h1)
    ensures !CanTurn(Turn(g, d1, h1), d2, h2)
  {
  }

  // ---------------------------------------------------------------------
  // Food placement helpers
  // ---------------------------------------------------------------------

  /** The cells (i, 0), ..., (i, h - 1). */
  function Column(i: int, h: nat): (r: seq<Pos>)
    ensures |r| == h
    ensures forall k :: 0 <= k < h ==> r[k] == Pos(i, k)
  {
    if h == 0 then [] else Column(i, h - 1) + [Pos(i, h - 1)]
  }

  /** Every cell of a w x h grid, column by column: (0,0), (0,1), ..., (w-1,h-1). */
  function AllCells(w: nat, h: nat): seq<Pos> {
    if w == 0 then [] else AllCells(w - 1, h) + Column(w - 1, h)
  }

  /** The candidate list holds each grid cell exactly once. */
  lemma {:induction false} AllCellsSpec(w: nat, h: nat)
    ensures |AllCells(w, h)| == w * h
    ensures Distinct(AllCells(w, h))
    ensures forall p :: p in AllCells(w, h) <==> InBounds(p, w, h)
  {
    if w > 0 {
      AllCellsSpec(w - 1, h);
      var a, c := AllCells(w - 1, h), Column(w - 1, h);
      assert AllCells(w, h) == a + c;
      assert |a + c| == (w - 1) * h + h == w * h;
      forall i, j | 0 <= i < j < |a + c| ensures (a + c)[i] != (a + c)[j] {
        if j >= |a| {
          assert (a + c)[j] == Pos(w - 1, j - |a|);
          if i < |a| {
            assert (a + c)[i] in a;
          }
        }
      }
      forall p ensures p in a + c <==> InBounds(p, w, h) {
        if InBounds(p, w, h) && p.x == w - 1 {
          assert c[p.y] == p;
        }
      }
    }
  }

  /** Python's list.remove: drops the first occurrence of x. */
  function RemoveFirst(s: seq<Pos>, x: Pos): (r: seq<Pos>)
    requires x in s
    ensures |r| == |s| - 1
    ensures forall p :: p in r ==> p in s
    ensures forall p :: p in s && p != x ==> p in r
  {
    assert s == [s[0]] + s[1..];
    if s[0] == x then s[1..] else [s[0]] + RemoveFirst(s[1..], x)
  }

  /** On a list without repetitions, removing the value found at index k
      removes exactly index k, and the rest keeps its order. */
  lemma {:induction false} RemoveFirstAt(s: seq<Pos>, k: int)
    requires Distinct(s) && 0 <= k < |s|
    ensures RemoveFirst(s, s[k]) == s[..k] + s[k + 1..]
  {
    if k > 0 {
      var t := s[1..];
      TailDistinct(s);
      assert t[k - 1] == s[k] && s[0] != s[k];
      RemoveFirstAt(t, k - 1);
      calc {
        RemoveFirst(s, s[k]);
        [s[0]] + RemoveFirst(t, s[k]);
        [s[0]] + (t[..k - 1] + t[k..]);
        { assert t[..k - 1] == s[1..k] && t[k..] == s[k + 1..]; }
        [s[0]] + s[1..k] + s[k + 1..];
        { assert [s[0]] + s[1..k] == s[..k]; }
        s[..k] + s[k + 1..];
      }
    }
  }

  /** Removing a value from a list without repetitions leaves a list without
      repetitions holding every other value. */
  lemma {:induction false} RemoveFirstMembers(s: seq<Pos>, x: Pos)
    requires Distinct(s) && x in s
    ensures Distinct(RemoveFirst(s, x))
    ensures x !in RemoveFirst(s, x)
  {
    TailDistinct(s);
    if s[0] != x {
      var r := RemoveFirst(s[1..], x);
      RemoveFirstMembers(s[1..], x);
      assert s[0] !in r;
      GrownDistinct(r, s[0]);
    }
  }

  lemma TailDistinct(s: seq<Pos>)
    requires Distinct(s) && |s| > 0
    ensures Distinct(s[1..]) && s[0] !in s[1..]
  {
    var t := s[1..];
    forall i | 0 <= i < |t| ensures t[i] == s[i + 1] && t[i] != s[0] {
    }
    forall i, j | 0 <= i < j < |t| ensures t[i] != t[j] {
      assert t[i] == s[i + 1] && t[j] == s[j + 1];
    }
  }
}
