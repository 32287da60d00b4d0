/** The snake engine: it owns the body, the heading, the food cell and the
    pause/over/moved flags, and draws itself onto a pixel manager that it
    reads back to detect collisions. */
module Snake {
  import opened Pixels
  import opened SnakeRules

  /** The candidate list that food placement starts from: every cell,
      column by column. */
  method CellList(width: nat, height: nat) returns (pos: seq<Pos>)
    ensures pos == AllCells(width, height)
  {
    pos := [];
    var i := 0;
    while i < width
      invariant 0 <= i <= width
      invariant pos == AllCells(i, height)
    {
      var j := 0;
      while j < height
        invariant 0 <= j <= height
        invariant pos == AllCells(i, height) + Column(i, j)
      {
        pos := pos + [Pos(i, j)];
        j := j + 1;
      }
      i := i + 1;
    }
  }

  /** The ordinary move: walking from the tail to the neck, each segment
      takes its predecessor's cell, then the head takes the new cell. */
  method ShiftBody(body: seq<Pos>, head: Pos) returns (r: seq<Pos>)
    requires |body| > 0
    ensures r == Advanced(body, head)
  {
    r := body;
    var i := |r| - 1;
    while i > 0
      invariant 0 <= i < |r| == |body|
      invariant forall k :: 0 <= k <= i ==> r[k] == body[k]
      invariant forall k :: i < k < |r| ==> r[k] == body[k - 1]
    {
      r := r[i := r[i - 1]];
      i := i - 1;
    }
    r := r[0 := head];
    assert forall k :: 0 <= k < |r| ==> r[k] == Advanced(body, head)[k];
  }

  class GameSnake {
    const pix: PixelManager
    const width: nat
    const height: nat
    var snake: seq<Pos>
    var direction: Direction
    var food: Pos
    var paused: bool
    var over: bool
    var moved: bool
    /** Where the constructor's food placement put the first food (proof only). */
    ghost var firstFood: Pos

    /** The engine's fields as one value of the rules' state. */
    function State(): Game
      reads this
    {
      Game(snake, direction, food, paused, over, moved)
    }

    /** The grid matches the engine's size (which exceeds 21 in both
        dimensions) and the snake and the food are well formed. */
    ghost predicate Structural()
      reads this
    {
      pix.Valid() && pix.width == width && pix.height == height &&
      width > 21 && height > 21 && WellFormed(State(), width, height)
    }

    /** The grid shows exactly what a redraw of the current state leaves. */
    ghost predicate Rendered()
      requires Structural()
      reads this, pix.cells
    {
      forall x, y :: 0 <= x < width && 0 <= y < height ==>
        pix.cells[x, y] == RenderCell(snake, food, Pos(x, y))
    }

    /** The object invariant between calls. */
    ghost predicate Valid()
      reads this, pix.cells
    {
      Structural() && Rendered()
    }

    /** The grid holds nothing but the food. */
    ghost predicate FoodOnly()
      requires Structural()
      reads this, pix.cells
    {
      forall x, y :: 0 <= x < width && 0 <= y < height ==>
        pix.cells[x, y] == if Pos(x, y) == food then Cell(true, Food) else Empty
    }

    /** Where the constructor's first tick starts from: food placed, the snake
        not drawn yet, and the head not about to enter its own body. */
    ghost predicate Seeded()
      requires Structural()
      reads this, pix.cells
    {
      FoodOnly() && !over && !paused && Ahead(State(), width, height) !in snake
    }

    /** The states from which a tick is safe: the invariant, or the seeded state. */
    ghost predicate Ready()
      reads this, pix.cells
    {
      Structural() && (Rendered() || Seeded())
    }

    /** The cell a tick reads before deciding. */
    ghost function CellAhead(): Cell
      requires Structural()
      reads this, pix.cells
    {
      var t := Ahead(State(), width, height);
      pix.cells[t.x, t.y]
    }

    /** Seeds the snake at (20,20) with its tail at (21,20), heading left,
        places the first food on the blank grid (which cannot fail, and may
        pick a cell the snake is about to cover) and runs one tick, so the head
        ends on (19,20), grown exactly when the food was there. */
    constructor (pix: PixelManager, width: nat, height: nat)
      requires width > 21 && height > 21
      requires pix.Valid() && pix.width == width && pix.height == height && pix.Blank()
      modifies pix.cells
      ensures Valid() && this.pix == pix && this.width == width && this.height == height
      ensures direction == Left && !over && !paused && moved
      ensures snake == [Pos(19, 20), Pos(20, 20)] || snake == [Pos(19, 20), Pos(20, 20), Pos(21, 20)]
      ensures InBounds(firstFood, width, height)
      ensures |snake| == 3 <==> firstFood == Pos(19, 20)
      ensures |snake| == 2 ==> food == firstFood
    {
      this.pix := pix;
      this.width := width;
      this.height := height;
      snake := [Pos(20, 20), Pos(21, 20)];
      direction := Left;
      food := Pos(0, 0);
      paused, over, moved := false, false, false;
      new;
      assert !pix.cells[0, 0].occupied;
      var ok := GenFood();
      assert ok;
      assert Ahead(State(), width, height) == Pos(19, 20);
      var t := Pos(19, 20);
      assert pix.cells[t.x, t.y].color != Body;
      assert pix.cells[t.x, t.y].occupied <==> food == t;
      ghost var placed, g0, seen := food, State(), CellAhead();
      var _ := Update();
      FirstTick(g0, width, height, seen);
      firstFood := placed;
    }

    /** Every grid cell outside pos is occupied: the candidates already
        rejected. */
    ghost predicate OccupiedOutside(pos: seq<Pos>)
      requires Structural()
      reads this, pix.cells
    {
      forall x, y :: 0 <= x < width && 0 <= y < height && Pos(x, y) !in pos ==> pix.cells[x, y].occupied
    }

    /** Places food on a free cell. Every draw picks an index into the
        remaining candidates (any index the random source may return);
        a candidate whose cell is occupied is removed and the pool shrinks by
        one. Fails, changing nothing, only when every cell was rejected. */
    method GenFood() returns (ok: bool)
      requires Structural()
      modifies this`food, pix.cells
      ensures Structural()
      ensures ok <==> !old(pix.Full())
      ensures ok ==> var f := food; !old(pix.cells[f.x, f.y]).occupied && pix.cells[f.x, f.y] == Cell(true, Food)
      ensures !ok ==> food == old(food)
      ensures forall x, y :: 0 <= x < width && 0 <= y < height && (!ok || Pos(x, y) != food) ==>
                pix.cells[x, y] == old(pix.cells[x, y])
    {
      var maxn := width * height - 1;
      var choice :| 0 <= choice <= maxn;
      var pos := CellList(width, height);
      AllCellsSpec(width, height);
      while true
        invariant food == old(food) && 0 <= choice <= maxn && |pos| == maxn + 1
        invariant Distinct(pos) && forall p :: p in pos ==> InBounds(p, width, height)
        invariant unchanged(pix.cells) && OccupiedOutside(pos)
        decreases maxn
      {
        var c := pos[choice];
        assert c in pos;
        var placed := pix.AddPixel(c.x, c.y, Food, false);
        if placed {
          food := c;
          return true;
        }
        RemoveFirstMembers(pos, c);
        pos := RemoveFirst(pos, c);
        maxn := maxn - 1;
        if maxn < 0 {
          assert |pos| == 0;
          assert pix.Full() by {
            forall x, y | 0 <= x < width && 0 <= y < height ensures pix.cells[x, y].occupied {
              assert Pos(x, y) !in pos;
            }
          }
          return false;
        }
        choice :| 0 <= choice <= maxn;
      }
    }

    /** One tick of the game, as the rules' Tick given the cell read at the
        target; after a growth the food is replaced (or stays under the head
        when the snake fills the grid). */
    method Update() returns (score: int)
      requires Ready()
      modifies this, pix.cells
      ensures Valid()
      ensures var o := Tick(old(State()), width, height, old(CellAhead()));
              score == o.score && State().(food := o.game.food) == o.game &&
              if o.score == 1 then Replenished(snake, old(food), food, width, height)
              else food == old(food)
      ensures old(over) || old(paused) || score == -1 ==> unchanged(pix.cells)
    {
      moved := true;
      var head := snake[0];
      if over || paused {
        return 0;
      }
      var t := NextHead(head, direction, width, height);
      var seen := pix.Query(t.x, t.y);
      ReadAhead(seen);
      if seen.occupied {
        if seen.color == Body {
          over := true;
          return -1;
        }
        Eat(t);
        return 1;
      }
      AdvancedDistinct(snake, t);
      snake := ShiftBody(snake, t);
      Draw();
      return 0;
    }

    /** What the cell read ahead reveals on a grid a tick may start from:
        a body colour occurs only on a drawn grid, any other occupied cell is
        the food, and neither it nor an empty cell belongs to the snake. */
    lemma ReadAhead(seen: Cell)
      requires Ready() && !over && !paused && seen == CellAhead()
      ensures seen.occupied && seen.color == Body ==> Rendered()
      ensures seen.occupied && seen.color != Body ==>
                Ahead(State(), width, height) == food && food !in snake
      ensures !seen.occupied ==> Ahead(State(), width, height) !in snake
    {
      var t := Ahead(State(), width, height);
      assert t != snake[0];
      if !Rendered() {
        assert seen == if t == food then Cell(true, Food) else Empty;
      }
    }

    /** The growth path: the new head goes in front of the whole old body,
        the eaten pixel is removed, the grid is redrawn (its food write fails
        silently, the head now covering the old food cell), and new food is
        placed, its result ignored. */
    method Eat(t: Pos)
      requires Structural() && t == food && t !in snake
      modifies this`snake, this`food, pix.cells
      ensures Valid()
      ensures snake == [t] + old(snake) && Replenished(snake, old(food), food, width, height)
    {
      GrownDistinct(snake, t);
      snake := [t] + snake;
      var _ := pix.RemovePixel(t.x, t.y);
      Draw();
      label drawn:
      var _ := GenFood();
      forall x, y | 0 <= x < width && 0 <= y < height
        ensures pix.cells[x, y] == RenderCell(snake, food, Pos(x, y))
      {
        if Pos(x, y) != food {
          assert pix.cells[x, y] == old@drawn(pix.cells[x, y]);
        }
      }
    }

    /** Clears the grid, writes every segment (the head in its own colour;
        each write is asserted to succeed, which holds because no two
        segments share a cell), then writes the food unless a segment covers
        its cell. */
    method Draw()
      requires Structural()
      modifies pix.cells
      ensures Rendered()
    {
      pix.Clear();
      var k := 0;
      while k < |snake|
        invariant 0 <= k <= |snake|
        invariant forall x, y :: 0 <= x < width && 0 <= y < height ==>
                    pix.cells[x, y] == if Pos(x, y) in snake[..k]
                                       then Cell(true, if Pos(x, y) == snake[0] then Head else Body)
                                       else Empty
      {
        var item := snake[k];
        assert item in State().snake;
        assert item !in snake[..k];
        assert snake[..k + 1] == snake[..k] + [item];
        if item == snake[0] {
          var ok := pix.AddPixel(item.x, item.y, Head, false);
          assert ok;
        } else {
          var ok := pix.AddPixel(item.x, item.y, Body, false);
          assert ok;
        }
        k := k + 1;
      }
      assert snake[..k] == snake;
      var _ := pix.AddPixel(food.x, food.y, Food, false);
    }

    /** The shared shape of the four arrow-key handlers. */
    method Steer(d: Direction, holding: bool) returns (ok: bool)
      requires Valid()
      modifies this`direction, this`moved
      ensures Valid()
      ensures ok == CanTurn(old(State()), d, holding)
      ensures State() == Turn(old(State()), d, holding)
    {
      if direction != d && direction != Opposite(d) && moved && !paused && !over && holding {
        direction := d;
        moved := false;
        return true;
      }
      return false;
    }

    method MoveUp(holding: bool) returns (ok: bool)
      requires Valid()
      modifies this`direction, this`moved
      ensures Valid()
      ensures ok == CanTurn(old(State()), Up, holding)
      ensures State() == Turn(old(State()), Up, holding)
    {
      ok := Steer(Up, holding);
    }

    method MoveDown(holding: bool) returns (ok: bool)
      requires Valid()
      modifies this`direction, this`moved
      ensures Valid()
      ensures ok == CanTurn(old(State()), Down, holding)
      ensures State() == Turn(old(State()), Down, holding)
    {
      ok := Steer(Down, holding);
    }

    method MoveLeft(holding: bool) returns (ok: bool)
      requires Valid()
      modifies this`direction, this`moved
      ensures Valid()
      ensures ok == CanTurn(old(State()), Left, holding)
      ensures State() == Turn(old(State()), Left, holding)
    {
      ok := Steer(Left, holding);
    }

    method MoveRight(holding: bool) returns (ok: bool)
      requires Valid()
      modifies this`direction, this`moved
      ensures Valid()
      ensures ok == CanTurn(old(State()), Right, holding)
      ensures State() == Turn(old(State()), Right, holding)
    {
      ok := Steer(Right, holding);
    }

    /** The space-bar hook: accepts nothing. */
    method FunKey(holding: bool) returns (ok: bool)
      ensures !ok
    {
      ok := false;
    }

    /** Pauses a running game; fails when already paused or over. */
    method Pause() returns (ok: bool)
      requires Valid()
      modifies this`paused
      ensures Valid()
      ensures ok == (!old(paused) && !over)
      ensures paused == (old(paused) || ok)
    {
      if !paused && !over {
        paused := true;
        return true;
      }
      return false;
    }

    /** Resumes a paused game; fails when not paused or over. */
    method Resume() returns (ok: bool)
      requires Valid()
      modifies this`paused
      ensures Valid()
      ensures ok == (old(paused) && !over)
      ensures paused == (old(paused) && !ok)
    {
      if paused && !over {
        paused := false;
        return true;
      }
      return false;
    }
  }
}
