/** The game state and its transitions: one movement tick (`Crawl`, with the
    eating step and the grid part of drawing folded in), key handling, and a
    whole game as a sequence of ticks and key events. */
module Game {
  import opened Geometry
  import opened Grid
  import opened Keys

  datatype Option<T> = None | Some(value: T)

  /** The snake: body cells head first, target length, held direction, the
      food cell once placed, the last removed tail cell, and the marks. */
  datatype Snake = Snake(
    body: seq<Cell>,
    len: int,
    dir: int,
    food: Option<Cell>,
    discard: Option<Cell>,
    coords: Coords)

  /** The result of one movement tick. */
  datatype Outcome = Moved(next: Snake) | Ate(next: Snake) | GameOver(score: int)

  /** The result of one key event. */
  datatype KeyResult = Steered(next: Snake) | Over(score: int)

  /** The score shown on screen and printed at the end. */
  function Score(s: Snake): int {
    s.len - 1
  }

  function Last(body: seq<Cell>): Cell
    requires |body| >= 1
  {
    body[|body| - 1]
  }

  function Cells(body: seq<Cell>): set<Cell> {
    set c | c in body
  }

  function CellsOf(o: Option<Cell>): set<Cell> {
    if o.Some? then {o.value} else {}
  }

  predicate Distinct(body: seq<Cell>) {
    forall i, j :: 0 <= i < j < |body| ==> body[i] != body[j]
  }

  /** Shape invariant: the body has exactly the target length and the
      direction is one of the four codes. */
  ghost predicate Wellformed(s: Snake) {
    |s.body| >= 1 && |s.body| == s.len && IsDir(s.dir)
  }

  /** Every body cell lies in the playing area and the food in its range. */
  ghost predicate OnBoard(s: Snake, b: Board) {
    && ValidBoard(b)
    && (forall i :: 0 <= i < |s.body| ==> InPlay(b, s.body[i]))
    && (s.food.Some? ==> InFoodRange(b, s.food.value))
  }

  /** The intended grid invariant: the marks are exactly the body cells plus
      the food cell, the body never crosses itself and the food lies off the
      body. It holds from `InitMarkingHead`, not from the start-up state as
      built (`Init`), which marks the wrong cell; see `MarksAsBuilt`. */
  ghost predicate Mirrors(s: Snake) {
    && Marked(s.coords) == Cells(s.body) + CellsOf(s.food)
    && Distinct(s.body)
    && (s.food.Some? ==> s.food.value !in s.body)
  }

  /** Grid invariant of the game as built. Apart from the start cell, the
      marks are exactly the body cells, the food and the origin. The start
      cell may lie in the body unmarked: the first head is never marked; when
      the head later moves onto that unmarked cell while it is still in the
      body, the cell occurs twice, and popping the older copy unmarks the
      newer one. So the start cell is marked only while it is in the body or
      is the food, and surely marked when it is the food or occurs twice; it
      occurs at most twice and every other cell at most once; the food lies
      off the body; and no body cell lies in column 0, where the origin is. */
  ghost predicate MarksAsBuilt(s: Snake) {
    && Marked(s.coords) - {Start} == (Cells(s.body) + CellsOf(s.food) + {Origin}) - {Start}
    && (Start in Marked(s.coords) ==> Start in s.body || s.food == Some(Start))
    && (multiset(s.body)[Start] == 2 || s.food == Some(Start) ==> Start in Marked(s.coords))
    && multiset(s.body)[Start] <= 2
    && (forall c :: c != Start ==> multiset(s.body)[c] <= 1)
    && (s.food.Some? ==> s.food.value !in s.body && s.food.value.x >= 1)
    && (forall i :: 0 <= i < |s.body| ==> s.body[i].x >= 1)
  }

  /** The cell the constructor starts from, and marks. */
  const Origin := Cell(0, 2)

  /** The first head: the constructor moves the origin one step right before
      the snake is built, so the start cell is never the marked one. */
  const Start := Cell(1, 2)

  /** The state built at start-up: a one-cell snake heading right. The head
      is the origin moved once to the right, but the mark goes on the origin
      itself, so the head starts out unmarked. */
  function Init(b: Board): (s: Snake)
    ensures Wellformed(s)
    ensures s.body == [Start] && Marked(s.coords) == {Origin}
    ensures MarksAsBuilt(s) && !Mirrors(s)
    ensures s.dir == Right && s.food.None? && s.discard.None? && Score(s) == 0
  {
    NoMarksIsEmpty();
    Snake([Move(Right, Origin, b)], 1, Right, None, None, SetCoord(NoMarks, Origin))
  }

  /** The snake starts in column 1, not in the constructor's column 0: `k`
      rightward moves of the start head reach column `k + 1` while
      `k <= columns - 2`, and move `columns - 1` wraps back to the start cell.
      `TicksFromStart` turns moves into ticks. */
  lemma StartColumnAfter(b: Board, k: nat)
    requires ValidBoard(b)
    ensures k <= b.columns - 2 ==> MoveN(Right, Init(b).body[0], b, k) == Cell(k + 1, 2)
    ensures k == b.columns - 1 ==> MoveN(Right, Init(b).body[0], b, k) == Start
  {
    var m := b.columns - 1;
    RightIsCyclic(Start, b, k);
    if k < m {
      ModUnique(k, 0, k, m);
    } else if k == m {
      ModUnique(k, 1, 0, m);
    }
  }

  /** The start-up state with the mark on the head instead of the origin. */
  function InitMarkingHead(b: Board): (s: Snake)
    ensures Wellformed(s) && Mirrors(s)
    ensures s.body == [Start] && Marked(s.coords) == {Start}
    ensures s == Init(b).(coords := s.coords)
  {
    NoMarksIsEmpty();
    var head := Move(Right, Origin, b);
    Snake([head], 1, Right, None, None, SetCoord(NoMarks, head))
  }

  /** Where the head goes on the next tick. */
  function NextHead(s: Snake, b: Board): Cell
    requires |s.body| >= 1
  {
    Move(s.dir, s.body[0], b)
  }

  /** The food of this tick: the existing one, or the freshly picked cell. */
  function FoodFor(s: Snake, pick: Cell): Cell {
    if s.food.Some? then s.food.value else pick
  }

  /** The mark the tick adds for food placed on it, if any. */
  function FoodPlaced(s: Snake, pick: Cell): set<Cell> {
    if s.food.None? then {pick} else {}
  }

  /** One tick. Food is placed (and marked) first when there is none; the
      head then moves. Landing on the food grows the snake by the food cell
      and clears the food. Otherwise a marked cell ends the game; else the
      head is marked, the tail is popped when the body has reached the target
      length, the head is pushed, and the last popped tail is unmarked. */
  function Crawl(s: Snake, b: Board, pick: Cell): (o: Outcome)
    requires |s.body| >= 1
    requires InFoodRange(b, pick)
    ensures o.Ate? <==> NextHead(s, b) == FoodFor(s, pick)
    ensures o.GameOver? <==>
              NextHead(s, b) != FoodFor(s, pick) && NextHead(s, b) in Marked(s.coords)
    ensures o.GameOver? ==> o.score == Score(s)
    ensures !o.GameOver? ==> o.next.dir == s.dir && |o.next.body| >= 1
    ensures o.Ate? ==>
              && o.next.body == [FoodFor(s, pick)] + s.body
              && o.next.len == s.len + 1
              && o.next.food.None?
              && o.next.discard == s.discard
              && Marked(o.next.coords) == Marked(s.coords) + FoodPlaced(s, pick)
    ensures o.Moved? ==>
              && o.next.body[0] == NextHead(s, b)
              && o.next.len == s.len
              && o.next.food == Some(FoodFor(s, pick))
    ensures o.Moved? && |s.body| == s.len ==>
              && o.next.body == [NextHead(s, b)] + s.body[..|s.body| - 1]
              && o.next.discard == Some(Last(s.body))
              && Marked(o.next.coords)
                 == (Marked(s.coords) + FoodPlaced(s, pick) + {NextHead(s, b)}) - {Last(s.body)}
    ensures o.Moved? && |s.body| != s.len ==>
              && o.next.body == [NextHead(s, b)] + s.body
              && o.next.discard == s.discard
  {
    var food := FoodFor(s, pick);
    var placed := if s.food.Some? then s.coords else SetCoord(s.coords, pick);
    var head := NextHead(s, b);
    if head == food then
      Ate(OnEat(s.(food := Some(food), coords := placed)))
    else if IsMarked(placed, head) then
      GameOver(Score(s))
    else
      var marked := SetCoord(placed, head);
      var popped := |s.body| == s.len;
      var rest := if popped then s.body[..|s.body| - 1] else s.body;
      var discard := if popped then Some(Last(s.body)) else s.discard;
      Moved(Draw(s.(body := [head] + rest, food := Some(food), discard := discard, coords := marked)))
  }

  /** The eating step: the food cell becomes the new head, the target length
      and the score go up by one, and the food is used up. The food's mark
      turns into the head's, so the marked cells need no change. */
  function OnEat(s: Snake): (r: Snake)
    requires s.food.Some?
    ensures |r.body| == |s.body| + 1 && r.body[0] == s.food.value && r.body[1..] == s.body
    ensures r.len == s.len + 1 && Score(r) == Score(s) + 1
    ensures r.food.None?
    ensures Cells(r.body) + CellsOf(r.food) == Cells(s.body) + CellsOf(s.food)
    ensures r == s.(body := r.body, len := r.len, food := r.food)
  {
    var r := s.(body := [s.food.value] + s.body, len := s.len + 1, food := None);
    CellsCons(s.food.value, s.body);
    assert r.body[1..] == s.body;
    r
  }

  /** The grid part of drawing: the last removed tail cell, when there is
      one, is unmarked. Nothing else changes. */
  function Draw(s: Snake): (r: Snake)
    ensures Marked(r.coords) == Marked(s.coords) - CellsOf(s.discard)
    ensures r == s.(coords := r.coords)
  {
    if s.discard.Some? then s.(coords := ClearCoord(s.coords, s.discard.value)) else s
  }

  /** One key event: ctrl+c ends the game with the current score; a steering
      key goes through the direction guard; nothing but the direction ever
      changes. */
  function HandleKey(s: Snake, k: KeyPress): (r: KeyResult)
    ensures r.Over? <==> KeyAction(k).Quit?
    ensures r.Over? ==> r.score == Score(s)
    ensures r.Steered? ==> r.next == s.(dir := r.next.dir)
    ensures r.Steered? && IsDir(s.dir) ==> IsDir(r.next.dir)
    ensures r.Steered? && KeyAction(k).Ignore? ==> r.next == s
    ensures KeyAction(k).Steer? && IsDir(s.dir) ==>
              && r.Steered?
              && (r.next.dir == s.dir || r.next.dir == KeyAction(k).dir)
              && (r.next.dir == KeyAction(k).dir <==> KeyAction(k).dir != Opposite(s.dir))
  {
    match KeyAction(k)
    case Quit => Over(Score(s))
    case Steer(n) => Steered(s.(dir := SetDir(s.dir, n)))
    case Ignore => Steered(s)
  }

  // ---------------------------------------------------------------------
  // One tick preserves the invariants

  /** Every surviving tick keeps the body at the target length; hence the
      length test always pops the tail on a tick that does not eat. */
  lemma CrawlKeepsWellformed(s: Snake, b: Board, pick: Cell)
    requires Wellformed(s) && InFoodRange(b, pick)
    ensures !Crawl(s, b, pick).GameOver? ==> Wellformed(Crawl(s, b, pick).next)
    ensures Crawl(s, b, pick).Moved? ==>
              Crawl(s, b, pick).next.discard == Some(Last(s.body))
              && Crawl(s, b, pick).next.body[1..] == s.body[..|s.body| - 1]
  {
  }

  /** A moving tick that pops nothing (the body is still short of `len`)
      marks the food placed and the head, and unmarks the previously removed
      tail again, since drawing clears `discard` whenever it is set. */
  lemma UnpoppedTickMarks(s: Snake, b: Board, pick: Cell)
    requires |s.body| >= 1 && InFoodRange(b, pick)
    requires Crawl(s, b, pick).Moved? && |s.body| != s.len
    ensures Marked(Crawl(s, b, pick).next.coords)
            == (Marked(s.coords) + FoodPlaced(s, pick) + {NextHead(s, b)}) - CellsOf(s.discard)
  {
  }

  /** Eating grows the body and the score by exactly one, removes no tail
      and unmarks nothing. */
  lemma EatingGrowsByOne(s: Snake, b: Board, pick: Cell)
    requires Wellformed(s) && InFoodRange(b, pick)
    requires NextHead(s, b) == FoodFor(s, pick)
    ensures Crawl(s, b, pick).Ate?
    ensures |Crawl(s, b, pick).next.body| == |s.body| + 1
    ensures Score(Crawl(s, b, pick).next) == Score(s) + 1
    ensures Crawl(s, b, pick).next.body[1..] == s.body
    ensures Marked(s.coords) <= Marked(Crawl(s, b, pick).next.coords)
  {
  }

  /** Food appears only when there is none, and stays put until eaten. */
  lemma FoodPersists(s: Snake, b: Board, pick: Cell)
    requires |s.body| >= 1 && InFoodRange(b, pick)
    ensures s.food.Some? && Crawl(s, b, pick).Moved? ==> Crawl(s, b, pick).next.food == s.food
    ensures s.food.None? && Crawl(s, b, pick).Moved? ==> Crawl(s, b, pick).next.food == Some(pick)
    ensures Crawl(s, b, pick).Ate? ==> Crawl(s, b, pick).next.body[0] == FoodFor(s, pick)
  {
  }

  /** The snake never leaves the playing area and never enters the score row. */
  lemma CrawlStaysOnBoard(s: Snake, b: Board, pick: Cell)
    requires Wellformed(s) && OnBoard(s, b) && InFoodRange(b, pick)
    ensures !Crawl(s, b, pick).GameOver? ==> OnBoard(Crawl(s, b, pick).next, b)
  {
  }

  lemma CellsCons(h: Cell, t: seq<Cell>)
    ensures Cells([h] + t) == {h} + Cells(t)
  {
    assert forall c :: c in [h] + t <==> c == h || c in t;
  }

  // ---------------------------------------------------------------------
  // The intended grid invariant, which holds from `InitMarkingHead`

  /** With food placed off the body, every surviving tick keeps the marks
      equal to the body cells plus the food, the body free of repeats, and
      the food off the body. */
  lemma CrawlKeepsMirror(s: Snake, b: Board, pick: Cell)
    requires Wellformed(s) && Mirrors(s) && InFoodRange(b, pick)
    requires s.food.None? ==> pick !in s.body
    ensures !Crawl(s, b, pick).GameOver? ==> Mirrors(Crawl(s, b, pick).next)
  {
    var o := Crawl(s, b, pick);
    if o.Ate? {
      AteKeepsMirror(s, b, pick);
    } else if o.Moved? {
      MovedKeepsMirror(s, b, pick);
    }
  }

  /** The eating case of `CrawlKeepsMirror`. */
  lemma AteKeepsMirror(s: Snake, b: Board, pick: Cell)
    requires Wellformed(s) && Mirrors(s) && InFoodRange(b, pick)
    requires s.food.None? ==> pick !in s.body
    requires Crawl(s, b, pick).Ate?
    ensures Mirrors(Crawl(s, b, pick).next)
  {
  }

  /** The moving case of `CrawlKeepsMirror`. */
  lemma MovedKeepsMirror(s: Snake, b: Board, pick: Cell)
    requires Wellformed(s) && Mirrors(s) && InFoodRange(b, pick)
    requires s.food.None? ==> pick !in s.body
    requires Crawl(s, b, pick).Moved?
    ensures Mirrors(Crawl(s, b, pick).next)
  {
  }

  /** Under the grid invariant the game ends exactly when the new head hits a
      body cell; the food's own mark never ends it. */
  lemma CollisionIsBodyHit(s: Snake, b: Board, pick: Cell)
    requires Wellformed(s) && Mirrors(s) && InFoodRange(b, pick)
    requires s.food.None? ==> pick !in s.body
    ensures Crawl(s, b, pick).GameOver? <==> NextHead(s, b) in s.body
  {
  }

  /** The tail is unmarked only after the collision test, so steering the
      head into the current tail cell ends the game. */
  lemma TailIsFatal(s: Snake, b: Board, pick: Cell)
    requires Wellformed(s) && Mirrors(s) && InFoodRange(b, pick)
    requires s.food.None? ==> pick !in s.body
    requires NextHead(s, b) == Last(s.body)
    ensures Crawl(s, b, pick) == GameOver(Score(s))
  {
    CollisionIsBodyHit(s, b, pick);
  }

  /** Food placed under the snake, once reached, is eaten and leaves the same
      cell twice in the body: the off-body assumption above is needed. */
  lemma FoodUnderBodyRepeatsCell(s: Snake, b: Board, pick: Cell)
    requires Wellformed(s) && InFoodRange(b, pick)
    requires s.food.None? && pick in s.body
    requires NextHead(s, b) == pick
    ensures Crawl(s, b, pick).Ate?
    ensures !Distinct(Crawl(s, b, pick).next.body)
  {
  }

  /** On a 2-column terminal the snake never gets anywhere: moving right
      from column 1 wraps back to column 1, and the start cell is unmarked
      at first and unmarked again by each tick's own pop. So the first tick
      moves onto the same cell, and every later tick leaves the state as it
      is: when the first food is not placed on the start cell, the game never
      ends by itself. */
  lemma TwoColumnsStandStill(b: Board, pick: Cell, pick2: Cell)
    requires b.columns == 2 && InFoodRange(b, pick) && InFoodRange(b, pick2)
    requires pick.y != 2
    ensures Crawl(Init(b), b, pick).Moved?
    ensures Crawl(Init(b), b, pick).next.body == [Start]
    ensures Crawl(Crawl(Init(b), b, pick).next, b, pick2) == Moved(Crawl(Init(b), b, pick).next)
  {
  }

  /** On a 2-column terminal with the first food placed on the start cell,
      the first tick eats it, leaving the start cell twice in the body and
      marked. When the second food lands elsewhere, the next tick moves onto
      the start cell and ends the game with score 1; when it lands on the
      start cell again, the next tick eats it again. */
  lemma TwoColumnsFoodAtStart(b: Board, pick2: Cell)
    requires b.columns == 2 && InFoodRange(b, Start) && InFoodRange(b, pick2)
    ensures Crawl(Init(b), b, Start).Ate?
    ensures Crawl(Init(b), b, Start).next.body == [Start, Start]
    ensures pick2 != Start ==> Crawl(Crawl(Init(b), b, Start).next, b, pick2) == GameOver(1)
    ensures pick2 == Start ==> Crawl(Crawl(Init(b), b, Start).next, b, pick2).Ate?
  {
  }

  // ---------------------------------------------------------------------
  // The grid invariant of the game as built

  /** Under the invariant as built, a tick ends the game exactly when the new
      head is a body cell, except that the start cell may be entered while
      it is unmarked. */
  lemma CollisionAsBuilt(s: Snake, b: Board, pick: Cell)
    requires Wellformed(s) && MarksAsBuilt(s) && InFoodRange(b, pick)
    requires s.food.None? ==> pick !in s.body
    ensures Crawl(s, b, pick).GameOver? <==>
              NextHead(s, b) in s.body && (NextHead(s, b) != Start || Start in Marked(s.coords))
  {
    var h := NextHead(s, b);
    assert h != Origin;
    if h != Start {
      OffStart(s, h);
    }
  }

  /** Moving onto the current tail ends the game, unless the tail is the
      start cell and still unmarked. */
  lemma TailAsBuilt(s: Snake, b: Board, pick: Cell)
    requires Wellformed(s) && MarksAsBuilt(s) && InFoodRange(b, pick)
    requires s.food.None? ==> pick !in s.body
    requires NextHead(s, b) == Last(s.body)
    ensures Crawl(s, b, pick) == GameOver(Score(s)) <==>
              Last(s.body) != Start || Start in Marked(s.coords)
  {
    assert Last(s.body) in s.body;
    CollisionAsBuilt(s, b, pick);
  }

  /** With food placed off the body, every surviving tick keeps the grid
      invariant as built. */
  lemma CrawlKeepsMarksAsBuilt(s: Snake, b: Board, pick: Cell)
    requires Wellformed(s) && MarksAsBuilt(s) && InFoodRange(b, pick)
    requires s.food.None? ==> pick !in s.body
    ensures !Crawl(s, b, pick).GameOver? ==> MarksAsBuilt(Crawl(s, b, pick).next)
  {
    var o := Crawl(s, b, pick);
    if o.Ate? {
      AteKeepsMarksAsBuilt(s, b, pick);
    } else if o.Moved? {
      MovedKeepsMarksAsBuilt(s, b, pick);
    }
  }

  /** The eating case of `CrawlKeepsMarksAsBuilt`. */
  lemma AteKeepsMarksAsBuilt(s: Snake, b: Board, pick: Cell)
    requires Wellformed(s) && MarksAsBuilt(s) && InFoodRange(b, pick)
    requires s.food.None? ==> pick !in s.body
    requires Crawl(s, b, pick).Ate?
    ensures MarksAsBuilt(Crawl(s, b, pick).next)
  {
    var n := Crawl(s, b, pick).next;
    var f := FoodFor(s, pick);
    assert multiset(n.body) == multiset{f} + multiset(s.body);
    CellsCons(f, s.body);
    assert Marked(n.coords) == Marked(s.coords) + FoodPlaced(s, pick);
    assert CellsOf(s.food) + FoodPlaced(s, pick) == {f};
    forall c | c != Start
      ensures c in Marked(n.coords) <==> c in Cells(n.body) + {Origin}
    {
      OffStart(s, c);
    }
    SameOffStart(Marked(n.coords), Cells(n.body) + {Origin});
  }

  /** The first clause of the invariant, read for one cell. */
  lemma OffStart(s: Snake, c: Cell)
    requires MarksAsBuilt(s) && c != Start
    ensures c in Marked(s.coords) <==> c in Cells(s.body) + CellsOf(s.food) + {Origin}
  {
    assert c in Marked(s.coords) <==> c in Marked(s.coords) - {Start};
  }

  lemma SameOffStart(a: set<Cell>, b: set<Cell>)
    requires forall c :: c != Start ==> (c in a <==> c in b)
    ensures a - {Start} == b - {Start}
  {
  }

  /** The moving case of `CrawlKeepsMarksAsBuilt`. */
  lemma MovedKeepsMarksAsBuilt(s: Snake, b: Board, pick: Cell)
    requires Wellformed(s) && MarksAsBuilt(s) && InFoodRange(b, pick)
    requires s.food.None? ==> pick !in s.body
    requires Crawl(s, b, pick).Moved?
    ensures MarksAsBuilt(Crawl(s, b, pick).next)
  {
    MovedMarksOffStart(s, b, pick);
    MovedStartCell(s, b, pick);
    MovedRepeats(s, b, pick);
    MovedFoodOff(s, b, pick);
  }

  /** A moving tick, away from the start cell: the head is marked and the
      popped tail unmarked, and the tail occurs nowhere else. */
  lemma MovedMarksOffStart(s: Snake, b: Board, pick: Cell)
    requires Wellformed(s) && MarksAsBuilt(s) && InFoodRange(b, pick)
    requires s.food.None? ==> pick !in s.body
    requires Crawl(s, b, pick).Moved?
    ensures var n := Crawl(s, b, pick).next;
            Marked(n.coords) - {Start} == (Cells(n.body) + CellsOf(n.food) + {Origin}) - {Start}
  {
    var n := Crawl(s, b, pick).next;
    var h := NextHead(s, b);
    var rest := s.body[..|s.body| - 1];
    var tail := Last(s.body);
    var m0 := Marked(s.coords) + FoodPlaced(s, pick);
    assert s.body == rest + [tail];
    assert CellsOf(s.food) + FoodPlaced(s, pick) == CellsOf(n.food);
    assert Marked(n.coords) == (m0 + {h}) - {tail};
    assert n.body == [h] + rest;
    forall c | c != Start
      ensures c in m0 <==> c in Cells(s.body) + CellsOf(n.food) + {Origin}
    {
      OffStart(s, c);
    }
    if tail != Start {
      assert multiset(s.body) == multiset(rest) + multiset{tail};
      assert multiset(s.body)[tail] <= 1;
      assert multiset(rest)[tail] == 0;
      OffStart(s, tail);
    }
    PushPopOffStart(m0, rest, tail, h, CellsOf(n.food));
  }

  /** The set algebra of a moving tick: pushing `h` and popping `tail` moves
      the marks in step with the body, away from the start cell, as long as
      the popped tail occurs nowhere else. */
  lemma PushPopOffStart(m0: set<Cell>, rest: seq<Cell>, tail: Cell, h: Cell, food: set<Cell>)
    requires forall c :: c != Start ==> (c in m0 <==> c in Cells(rest + [tail]) + food + {Origin})
    requires tail != Start ==> tail !in rest && tail != h && tail !in food && tail != Origin
    ensures (m0 + {h}) - {tail} - {Start} == (Cells([h] + rest) + food + {Origin}) - {Start}
  {
    CellsCons(h, rest);
    assert Cells(rest + [tail]) == Cells(rest) + {tail};
    forall c | c != Start
      ensures c in (m0 + {h}) - {tail} <==> c in Cells([h] + rest) + food + {Origin}
    {
    }
    SameOffStart((m0 + {h}) - {tail}, Cells([h] + rest) + food + {Origin});
  }

  /** A moving tick, at the start cell: entering it while unmarked marks it
      and makes it occur twice; popping it unmarks it. */
  lemma MovedStartCell(s: Snake, b: Board, pick: Cell)
    requires Wellformed(s) && MarksAsBuilt(s) && InFoodRange(b, pick)
    requires s.food.None? ==> pick !in s.body
    requires Crawl(s, b, pick).Moved?
    ensures var n := Crawl(s, b, pick).next;
            && (Start in Marked(n.coords) ==> Start in n.body || n.food == Some(Start))
            && (multiset(n.body)[Start] == 2 || n.food == Some(Start) ==> Start in Marked(n.coords))
            && multiset(n.body)[Start] <= 2
  {
    var n := Crawl(s, b, pick).next;
    var h := NextHead(s, b);
    var rest := s.body[..|s.body| - 1];
    var tail := Last(s.body);
    assert s.body == rest + [tail];
    assert multiset(s.body) == multiset(rest) + multiset{tail};
    assert multiset(n.body) == multiset{h} + multiset(rest);
    assert Start in rest ==> Start in n.body;
  }

  /** A moving tick repeats no cell but the start cell. */
  lemma MovedRepeats(s: Snake, b: Board, pick: Cell)
    requires Wellformed(s) && MarksAsBuilt(s) && InFoodRange(b, pick)
    requires s.food.None? ==> pick !in s.body
    requires Crawl(s, b, pick).Moved?
    ensures forall c :: c != Start ==> multiset(Crawl(s, b, pick).next.body)[c] <= 1
  {
    var n := Crawl(s, b, pick).next;
    var h := NextHead(s, b);
    var rest := s.body[..|s.body| - 1];
    var tail := Last(s.body);
    assert s.body == rest + [tail];
    assert multiset(s.body) == multiset(rest) + multiset{tail};
    assert multiset(n.body) == multiset{h} + multiset(rest);
    if h != Start {
      OffStart(s, h);
      assert multiset(s.body)[h] == 0;
    }
    forall c | c != Start
      ensures multiset(n.body)[c] <= 1
    {
      assert multiset(s.body)[c] <= 1;
    }
  }

  /** A moving tick keeps the food off the body and the body out of
      column 0. */
  lemma MovedFoodOff(s: Snake, b: Board, pick: Cell)
    requires Wellformed(s) && MarksAsBuilt(s) && InFoodRange(b, pick)
    requires s.food.None? ==> pick !in s.body
    requires Crawl(s, b, pick).Moved?
    ensures var n := Crawl(s, b, pick).next;
            && (n.food.Some? ==> n.food.value !in n.body && n.food.value.x >= 1)
            && (forall i :: 0 <= i < |n.body| ==> n.body[i].x >= 1)
  {
    var n := Crawl(s, b, pick).next;
    var h := NextHead(s, b);
    var rest := s.body[..|s.body| - 1];
    assert n.body == [h] + rest;
    assert forall c :: c in rest ==> c in s.body;
  }

  // ---------------------------------------------------------------------
  // A whole game

  /** One input to the game: a timer tick with the cell the random food
      placement would pick, or a key event. */
  datatype Event = Tick(pick: Cell) | Press(key: KeyPress)

  datatype Final = Playing(state: Snake) | Ended(score: int)

  predicate PicksInRange(b: Board, evs: seq<Event>) {
    forall i :: 0 <= i < |evs| && evs[i].Tick? ==> InFoodRange(b, evs[i].pick)
  }

  lemma PicksInRangeTail(b: Board, evs: seq<Event>)
    requires |evs| > 0 && PicksInRange(b, evs)
    ensures PicksInRange(b, evs[1..])
  {
    forall i | 0 <= i < |evs[1..]| && evs[1..][i].Tick?
      ensures InFoodRange(b, evs[1..][i].pick)
    {
      assert evs[1..][i] == evs[i + 1];
    }
  }

  /** Runs the events in order until the game ends or they run out. */
  function Play(s: Snake, b: Board, evs: seq<Event>): (r: Final)
    requires |s.body| >= 1 && PicksInRange(b, evs)
    ensures r.Playing? ==> |r.state.body| >= 1
    ensures |evs| == 0 ==> r == Playing(s)
    decreases |evs|
  {
    if |evs| == 0 then Playing(s)
    else
      PicksInRangeTail(b, evs);
      match evs[0]
      case Tick(p) =>
        (match Crawl(s, b, p)
         case GameOver(score) => Ended(score)
         case Moved(n) => Play(n, b, evs[1..])
         case Ate(n) => Play(n, b, evs[1..]))
      case Press(k) =>
        (match HandleKey(s, k)
         case Over(score) => Ended(score)
         case Steered(n) => Play(n, b, evs[1..]))
  }

  /** Every food cell the game picks while no food exists lies off the body. */
  ghost predicate FairPicks(s: Snake, b: Board, evs: seq<Event>)
    requires |s.body| >= 1 && PicksInRange(b, evs)
    decreases |evs|
  {
    if |evs| == 0 then true
    else
      PicksInRangeTail(b, evs);
      match evs[0]
      case Tick(p) =>
        && (s.food.None? ==> p !in s.body)
        && (match Crawl(s, b, p)
            case GameOver(_) => true
            case Moved(n) => FairPicks(n, b, evs[1..])
            case Ate(n) => FairPicks(n, b, evs[1..]))
      case Press(k) =>
        (match HandleKey(s, k)
         case Over(_) => true
         case Steered(n) => FairPicks(n, b, evs[1..]))
  }

  /** Any game keeps the body at the target length, on the board, and ends
      with a non-negative score. */
  lemma {:induction false} PlayKeepsShape(s: Snake, b: Board, evs: seq<Event>)
    requires Wellformed(s) && OnBoard(s, b) && PicksInRange(b, evs)
    ensures Play(s, b, evs).Playing? ==>
              Wellformed(Play(s, b, evs).state) && OnBoard(Play(s, b, evs).state, b)
    ensures Play(s, b, evs).Ended? ==> Play(s, b, evs).score == |s.body| - 1 + Grown(s, b, evs)
    ensures Play(s, b, evs).Playing? ==> Play(s, b, evs).state.len == s.len + Grown(s, b, evs)
    decreases |evs|
  {
    if |evs| > 0 {
      PicksInRangeTail(b, evs);
      match evs[0]
      case Tick(p) =>
        assert InFoodRange(b, evs[0].pick);
        CrawlKeepsWellformed(s, b, p);
        CrawlStaysOnBoard(s, b, p);
        match Crawl(s, b, p) {
          case GameOver(_) =>
          case Moved(n) => PlayKeepsShape(n, b, evs[1..]);
          case Ate(n) => PlayKeepsShape(n, b, evs[1..]);
        }
      case Press(k) =>
        match HandleKey(s, k) {
          case Over(_) =>
          case Steered(n) => PlayKeepsShape(n, b, evs[1..]);
        }
    }
  }

  /** How many food cells the game eats before it ends or the events run out. */
  function Grown(s: Snake, b: Board, evs: seq<Event>): nat
    requires |s.body| >= 1 && PicksInRange(b, evs)
    decreases |evs|
  {
    if |evs| == 0 then 0
    else
      PicksInRangeTail(b, evs);
      match evs[0]
      case Tick(p) =>
        (match Crawl(s, b, p)
         case GameOver(_) => 0
         case Moved(n) => Grown(n, b, evs[1..])
         case Ate(n) => 1 + Grown(n, b, evs[1..]))
      case Press(k) =>
        (match HandleKey(s, k)
         case Over(_) => 0
         case Steered(n) => Grown(n, b, evs[1..]))
  }

  /** With every food placed off the body, any game keeps the marks equal to
      the body cells plus the food, and the body free of repeats. */
  lemma {:induction false} PlayKeepsMirror(s: Snake, b: Board, evs: seq<Event>)
    requires Wellformed(s) && Mirrors(s) && PicksInRange(b, evs)
    requires FairPicks(s, b, evs)
    ensures Play(s, b, evs).Playing? ==> Mirrors(Play(s, b, evs).state)
    decreases |evs|
  {
    if |evs| > 0 {
      PicksInRangeTail(b, evs);
      match evs[0]
      case Tick(p) =>
        assert InFoodRange(b, evs[0].pick);
        CrawlKeepsWellformed(s, b, p);
        CrawlKeepsMirror(s, b, p);
        match Crawl(s, b, p) {
          case GameOver(_) =>
          case Moved(n) => PlayKeepsMirror(n, b, evs[1..]);
          case Ate(n) => PlayKeepsMirror(n, b, evs[1..]);
        }
      case Press(k) =>
        match HandleKey(s, k) {
          case Over(_) =>
          case Steered(n) => PlayKeepsMirror(n, b, evs[1..]);
        }
    }
  }

  /** With every food cell placed off the body, any game keeps the grid
      invariant as built. */
  lemma {:induction false} PlayKeepsMarksAsBuilt(s: Snake, b: Board, evs: seq<Event>)
    requires Wellformed(s) && MarksAsBuilt(s) && PicksInRange(b, evs)
    requires FairPicks(s, b, evs)
    ensures Play(s, b, evs).Playing? ==> MarksAsBuilt(Play(s, b, evs).state)
    decreases |evs|
  {
    if |evs| > 0 {
      PicksInRangeTail(b, evs);
      match evs[0]
      case Tick(p) =>
        assert InFoodRange(b, evs[0].pick);
        CrawlKeepsWellformed(s, b, p);
        CrawlKeepsMarksAsBuilt(s, b, p);
        match Crawl(s, b, p) {
          case GameOver(_) =>
          case Moved(n) => PlayKeepsMarksAsBuilt(n, b, evs[1..]);
          case Ate(n) => PlayKeepsMarksAsBuilt(n, b, evs[1..]);
        }
      case Press(k) =>
        match HandleKey(s, k) {
          case Over(_) =>
          case Steered(n) => PlayKeepsMarksAsBuilt(n, b, evs[1..]);
        }
    }
  }

  /** Every game from start-up keeps the body at the target length and on the
      board and, with food placed off the body, keeps the grid invariant as
      built; so a running game's head may lie on a body cell only at the
      start cell. */
  lemma GameFromStart(b: Board, evs: seq<Event>)
    requires ValidBoard(b) && PicksInRange(b, evs)
    requires FairPicks(Init(b), b, evs)
    ensures Play(Init(b), b, evs).Playing? ==>
              && Wellformed(Play(Init(b), b, evs).state)
              && OnBoard(Play(Init(b), b, evs).state, b)
              && MarksAsBuilt(Play(Init(b), b, evs).state)
  {
    PlayKeepsShape(Init(b), b, evs);
    PlayKeepsMarksAsBuilt(Init(b), b, evs);
  }

  /** With the start-up mark on the head, every game with food placed off the
      body keeps the marks equal to the body plus the food, so the collision
      and tail lemmas under `Mirrors` apply throughout. */
  lemma GameFromMarkedStart(b: Board, evs: seq<Event>)
    requires PicksInRange(b, evs)
    requires FairPicks(InitMarkingHead(b), b, evs)
    ensures Play(InitMarkingHead(b), b, evs).Playing? ==>
              Mirrors(Play(InitMarkingHead(b), b, evs).state)
  {
    PlayKeepsMirror(InitMarkingHead(b), b, evs);
  }

  /** The events of `StartCellPassedOver`: eat the food at (2, 2), turn up
      and then left, and tick once more. */
  function TurnBackEvents(): (evs: seq<Event>)
    ensures PicksInRange(Board(10, 10), evs)
  {
    [Tick(Cell(2, 2)), Press(Key("up", false)), Press(Key("left", false)), Tick(Cell(5, 5))]
  }

  /** The head may move onto its own tail when that tail is the start cell:
      after `TurnBackEvents` the last tick moves the head back onto (1, 2),
      the tail, and the game goes on, with the start cell unmarked although
      it is the head. */
  lemma StartCellPassedOver()
    ensures var b := Board(10, 10);
            && Play(Init(b), b, TurnBackEvents()).Playing?
            && Play(Init(b), b, TurnBackEvents()).state.body == [Start, Cell(2, 2)]
            && Start !in Marked(Play(Init(b), b, TurnBackEvents()).state.coords)
  {
    var b := Board(10, 10);
    var evs := TurnBackEvents();
    var s3 := Crawl(Init(b), b, Cell(2, 2)).next.(dir := Left);
    assert Play(Init(b), b, evs) == Play(s3, b, evs[3..]) by {
      TurnBackTurns(Init(b), b);
    }
    var o := Crawl(s3, b, Cell(5, 5));
    assert o.Moved? && o.next.body == [Start, Cell(2, 2)] && Start !in Marked(o.next.coords) by {
      assert s3.body == [Cell(2, 2), Start];
      assert Marked(s3.coords) == {Origin, Cell(2, 2)};
      assert NextHead(s3, b) == Start;
    }
    assert Play(s3, b, evs[3..]) == Playing(o.next);
  }

  /** With the mark on the head at start-up, the same events end the game
      with score 1: the head hits its own marked tail. */
  lemma MarkedStartCatchesTail()
    ensures var b := Board(10, 10);
            Play(InitMarkingHead(b), b, TurnBackEvents()) == Ended(1)
  {
    var b := Board(10, 10);
    var evs := TurnBackEvents();
    var s3 := Crawl(InitMarkingHead(b), b, Cell(2, 2)).next.(dir := Left);
    assert Play(InitMarkingHead(b), b, evs) == Play(s3, b, evs[3..]) by {
      TurnBackTurns(InitMarkingHead(b), b);
    }
    assert Crawl(s3, b, Cell(5, 5)) == GameOver(1) by {
      assert Marked(s3.coords) == {Start, Cell(2, 2)};
      assert NextHead(s3, b) == Start;
    }
  }

  /** The first three events of `TurnBackEvents` from a one-cell snake at the
      start cell heading right: it eats at (2, 2), and the two key presses
      leave it heading left. */
  lemma TurnBackTurns(s0: Snake, b: Board)
    requires b == Board(10, 10) && s0.body == [Start] && s0.len == 1 && s0.dir == Right
    requires s0.food.None? && Cell(2, 2) !in Marked(s0.coords)
    ensures Crawl(s0, b, Cell(2, 2)).Ate?
    ensures Play(s0, b, TurnBackEvents())
            == Play(Crawl(s0, b, Cell(2, 2)).next.(dir := Left), b, TurnBackEvents()[3..])
  {
    var evs := TurnBackEvents();
    assert NextHead(s0, b) == Cell(2, 2);
    var s1 := Crawl(s0, b, Cell(2, 2)).next;
    assert Play(s0, b, evs) == Play(s1, b, evs[1..]);
    UpThenLeft(s1, b, evs[1..]);
  }

  /** Pressing up and then left, while heading right, leaves the snake
      heading left. */
  lemma UpThenLeft(s: Snake, b: Board, evs: seq<Event>)
    requires |s.body| >= 1 && s.dir == Right && PicksInRange(b, evs)
    requires |evs| >= 2 && evs[0] == Press(Key("up", false)) && evs[1] == Press(Key("left", false))
    ensures Play(s, b, evs) == Play(s.(dir := Left), b, evs[2..])
  {
    PicksInRangeTail(b, evs);
    assert Play(s, b, evs) == Play(s.(dir := Up), b, evs[1..]);
    assert evs[1..][1..] == evs[2..];
  }

  predicate AllTicks(evs: seq<Event>) {
    forall i :: 0 <= i < |evs| ==> evs[i].Tick?
  }

  /** With no key pressed, the head after a run of ticks is where that many
      moves in the held direction take it, whether or not food is eaten. */
  lemma {:induction false} TicksFollowMoveN(s: Snake, b: Board, evs: seq<Event>)
    requires |s.body| >= 1 && PicksInRange(b, evs) && AllTicks(evs)
    ensures Play(s, b, evs).Playing? ==>
              Play(s, b, evs).state.body[0] == MoveN(s.dir, s.body[0], b, |evs|)
    decreases |evs|
  {
    if |evs| > 0 {
      PicksInRangeTail(b, evs);
      assert AllTicks(evs[1..]) by {
        forall i | 0 <= i < |evs[1..]|
          ensures evs[1..][i].Tick?
        {
          assert evs[1..][i] == evs[i + 1];
        }
      }
      assert evs[0].Tick?;
      var p := evs[0].pick;
      assert InFoodRange(b, p);
      match Crawl(s, b, p) {
        case GameOver(_) =>
        case Moved(n) => TicksFollowMoveN(n, b, evs[1..]);
        case Ate(n) => TicksFollowMoveN(n, b, evs[1..]);
      }
    }
  }

  /** With no key pressed, k ticks from start-up take the head to column
      k + 1 while k <= columns - 2, and tick columns - 1 brings it back to
      the start cell, whatever food is eaten on the way. */
  lemma TicksFromStart(b: Board, evs: seq<Event>)
    requires ValidBoard(b) && PicksInRange(b, evs) && AllTicks(evs)
    ensures Play(Init(b), b, evs).Playing? && |evs| <= b.columns - 2 ==>
              Play(Init(b), b, evs).state.body[0] == Cell(|evs| + 1, 2)
    ensures Play(Init(b), b, evs).Playing? && |evs| == b.columns - 1 ==>
              Play(Init(b), b, evs).state.body[0] == Start
  {
    TicksFollowMoveN(Init(b), b, evs);
    StartColumnAfter(b, |evs|);
  }
}
