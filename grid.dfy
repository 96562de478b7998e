/**
 * `adjust_xy` (geohex.py): folding a grid index back into the band
 * |x - y| <= M of a level, where M = 3^(level + 2) is the largest number of
 * hexagon steps between x and y that the level's grid holds.
 */
module Grid {
  import opened Builtins
  import opened Ternary

  /** The source's result dictionary {'x', 'y', 'rev'}; `rev` is 1 exactly when true. */
  datatype Adjusted = Adjusted(x: int, y: int, rev: bool)

  /** `max_h_steps`, 3^(level + 2). */
  function MaxSteps(level: nat): nat
  {
    Pow3(level + 2)
  }

  /**
   * What the fold does, stated directly: on the exact boundary with x > y the
   * pair is swapped; past the boundary both coordinates move M towards each
   * other; everything else is left alone.
   */
  function Adjust(x: int, y: int, level: nat): (a: Adjusted)
  {
    var m := MaxSteps(level);
    if Abs(x - y) == m && x > y then Adjusted(y, x, true)
    else if x - y > m then Adjusted(x - m, y + m, false)
    else if y - x > m then Adjusted(x + m, y - m, false)
    else Adjusted(x, y, false)
  }

  /**
   * `adjust_xy(x, y, level)` as the source computes it: splitting the excess
   * `dif` into two halves, offsetting to the edge, swapping the edge
   * coordinates and offsetting back.
   */
  method AdjustXY(x0: int, y0: int, level: nat) returns (r: Adjusted)
    ensures r == Adjust(x0, y0, level)
  {
    var x, y := x0, y0;
    var rev := false;
    var maxSteps := MaxSteps(level);
    var steps := Abs(x - y);
    if steps == maxSteps && x > y {
      var tmp := x;
      x := y;
      y := tmp;
      rev := true;
    } else if steps > maxSteps {
      var dif := steps - maxSteps;
      var difX := dif / 2;
      var difY := dif - difX;
      if x > y {
        var edgeX := x - difX;
        var edgeY := y + difY;
        var hxy := edgeX;
        edgeX := edgeY;
        edgeY := hxy;
        x := edgeX + difX;
        y := edgeY - difY;
      } else if y > x {
        var edgeX := x + difX;
        var edgeY := y - difY;
        var hxy := edgeX;
        edgeX := edgeY;
        edgeY := hxy;
        x := edgeX - difX;
        y := edgeY + difY;
      }
    }
    return Adjusted(x, y, rev);
  }

  /** The fold moves along the line x + y = const, and `rev` marks exactly the boundary swap. */
  lemma AdjustKeepsSum(x: int, y: int, level: nat)
    ensures Adjust(x, y, level).x + Adjust(x, y, level).y == x + y
    ensures Adjust(x, y, level).rev <==> Abs(x - y) == MaxSteps(level) && x > y
  {
  }

  /** An index inside the band, or on its edge with x <= y, is left as it is. */
  lemma AdjustFixes(x: int, y: int, level: nat)
    ensures Adjust(x, y, level) == Adjusted(x, y, false)
            <==> Abs(x - y) < MaxSteps(level) || (Abs(x - y) == MaxSteps(level) && x <= y)
  {
  }

  /** One fold lands in the band exactly when the index was less than three band widths off. */
  lemma AdjustLandsInBand(x: int, y: int, level: nat)
    ensures Abs(Adjust(x, y, level).x - Adjust(x, y, level).y) <= MaxSteps(level)
            <==> Abs(x - y) <= 3 * MaxSteps(level)
  {
  }

  /**
   * A second fold leaves the coordinates of the first alone exactly when
   * -3M <= x - y < 3M; in particular whenever |x - y| < 3M.  (At x - y = 3M the
   * first fold lands on the boundary with x > y, which the second swaps.)
   */
  lemma AdjustIdempotent(x: int, y: int, level: nat)
    ensures var a := Adjust(x, y, level);
      Adjust(a.x, a.y, level) == Adjusted(a.x, a.y, false)
      <==> -3 * MaxSteps(level) <= x - y < 3 * MaxSteps(level)
  {
  }
}
