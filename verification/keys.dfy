/** Keyboard input: the direction guard and the mapping from decoded key
    events to actions. */
module Keys {
  import opened Geometry

  function Abs(v: int): nat {
    if v < 0 then -v else v
  }

  /** The direction after requesting `n` while heading `dir`: the request is
      dropped when the two codes differ by at most one. */
  function SetDir(dir: int, n: int): (r: int)
    ensures r == dir || r == n
    ensures IsDir(dir) && IsDir(n) ==> IsDir(r)
  {
    if Abs(n - dir) <= 1 then dir else n
  }

  /** Over the four codes {0, 1, 3, 4} the numeric guard rejects exactly two
      requests: the current direction and its exact reversal. Every
      perpendicular turn is accepted. */
  lemma TurnAcceptedExactly(dir: int, n: int)
    requires IsDir(dir) && IsDir(n)
    ensures SetDir(dir, n) == n <==> n != Opposite(dir)
    ensures SetDir(dir, n) == dir <==> n == dir || n == Opposite(dir)
  {
  }

  /** Repeating a request changes nothing further. */
  lemma SetDirIdempotent(dir: int, n: int)
    ensures SetDir(SetDir(dir, n), n) == SetDir(dir, n)
  {
  }

  /** The guard only looks at the held direction, so two requests before the
      next move can reverse the snake: first a perpendicular turn, then the
      reversal of the original heading. */
  lemma TwoRequestsReverse(dir: int)
    requires IsDir(dir)
    ensures var p := if dir == Left || dir == Right then Up else Left;
            SetDir(dir, p) == p && SetDir(p, Opposite(dir)) == Opposite(dir)
  {
  }

  /** A decoded key event; `NoKey` is an event without key information. */
  datatype KeyPress = NoKey | Key(name: string, ctrl: bool)

  /** What a key event asks of the game. */
  datatype Action = Ignore | Quit | Steer(dir: int)

  /** The key names that steer: the arrow keys and their vi aliases. */
  const SteeringNames: set<string> := {"left", "h", "up", "k", "right", "l", "down", "j"}

  /** Arrow keys and their vi aliases h/j/k/l steer; ctrl+c quits; anything
      else, including a plain `c`, is ignored. */
  function KeyAction(k: KeyPress): (a: Action)
    ensures a.Steer? ==> IsDir(a.dir)
    ensures a.Quit? <==> k.Key? && k.name == "c" && k.ctrl
    ensures k.NoKey? ==> a.Ignore?
    ensures a.Steer? ==> k.Key? && k.name in SteeringNames
    ensures k.Key? && k.name !in SteeringNames && k.name != "c" ==> a.Ignore?
  {
    match k
    case NoKey => Ignore
    case Key(name, ctrl) =>
      if name == "c" then (if ctrl then Quit else Ignore)
      else if name == "left" || name == "h" then Steer(Left)
      else if name == "up" || name == "k" then Steer(Up)
      else if name == "right" || name == "l" then Steer(Right)
      else if name == "down" || name == "j" then Steer(Down)
      else Ignore
  }

  /** The ctrl modifier matters for the `c` key only, and each vi alias
      acts exactly like its arrow key. */
  lemma ModifierAndAliases(name: string, ctrl: bool)
    ensures name != "c" ==> KeyAction(Key(name, ctrl)) == KeyAction(Key(name, !ctrl))
    ensures KeyAction(Key("h", ctrl)) == KeyAction(Key("left", ctrl)) == Steer(Left)
    ensures KeyAction(Key("l", ctrl)) == KeyAction(Key("right", ctrl)) == Steer(Right)
    ensures KeyAction(Key("k", ctrl)) == KeyAction(Key("up", ctrl)) == Steer(Up)
    ensures KeyAction(Key("j", ctrl)) == KeyAction(Key("down", ctrl)) == Steer(Down)
  {
  }
}
