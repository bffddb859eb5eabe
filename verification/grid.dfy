/** The occupancy marks (`coords`): for each row `y` that was ever touched,
    the set of columns `x` currently marked in it. */
module Grid {
  import opened Geometry

  type Coords = map<int, set<int>>

  /** The cells the marks stand for. */
  ghost function Marked(g: Coords): set<Cell> {
    set y, x | y in g && x in g[y] :: Cell(x, y)
  }

  /** No marks at all, as at program start. */
  const NoMarks: Coords := map[]

  lemma NoMarksIsEmpty()
    ensures Marked(NoMarks) == {}
  {
  }

  /** Marks `c`, creating its row on first use; every other mark is kept. */
  function SetCoord(g: Coords, c: Cell): (r: Coords)
    ensures Marked(r) == Marked(g) + {c}
    ensures c.y in r
  {
    var r := if c.y in g then g[c.y := g[c.y] + {c.x}] else g[c.y := {c.x}];
    assert Marked(r) == Marked(g) + {c} by {
      forall p | p in Marked(r) ensures p in Marked(g) + {c} {
        if p.y != c.y { assert p.y in g && p.x in g[p.y]; }
      }
      forall p | p in Marked(g) + {c} ensures p in Marked(r) {
        assert p.y in r && p.x in r[p.y];
      }
    }
    r
  }

  /** Unmarks `c`; a row that was never created is left alone. */
  function ClearCoord(g: Coords, c: Cell): (r: Coords)
    ensures Marked(r) == Marked(g) - {c}
    ensures r.Keys == g.Keys
  {
    var r := if c.y in g then g[c.y := g[c.y] - {c.x}] else g;
    assert Marked(r) == Marked(g) - {c} by {
      forall p | p in Marked(r) ensures p in Marked(g) - {c} {
        assert p.y in g && p.x in g[p.y];
      }
      forall p | p in Marked(g) - {c} ensures p in Marked(r) {
        assert p.y in r && p.x in r[p.y];
      }
    }
    r
  }

  /** The collision probe: is `c` marked? */
  predicate IsMarked(g: Coords, c: Cell)
    ensures IsMarked(g, c) <==> c in Marked(g)
  {
    assert c.y in g && c.x in g[c.y] ==> Cell(c.x, c.y) in Marked(g);
    c.y in g && c.x in g[c.y]
  }
}
