/**
 * The integer half of `get_zone_by_xy` (geohex.py): from a grid index and a
 * level to the hexagon's code.
 */
module Encoder {
  import opened Builtins
  import opened Radix
  import opened Ternary
  import opened Grid
  import opened Codes

  /**
   * Whether the seam correction rewrites the first trit pair: only when the
   * longitude test holds, the first pair is (2, 1) or (1, 0), and the second
   * and third pairs each have equal x and y trits.
   */
  predicate SeamFires(tx: seq<int>, ty: seq<int>, east: bool)
    requires |tx| >= 3 && |ty| >= 3
  {
    && east
    && ((tx[0] == 2 && ty[0] == 1) || (tx[0] == 1 && ty[0] == 0))
    && tx[1] == ty[1] && tx[2] == ty[2]
  }

  /** The x trits after the correction: a firing correction lowers the first x trit by one. */
  function CorrectedX(tx: seq<int>, ty: seq<int>, east: bool): seq<int>
    requires |tx| >= 3 && |ty| >= 3
  {
    if SeamFires(tx, ty, east) then tx[0 := tx[0] - 1] else tx
  }

  /** The y trits after the correction: a firing correction raises the first y trit by one. */
  function CorrectedY(tx: seq<int>, ty: seq<int>, east: bool): seq<int>
    requires |tx| >= 3 && |ty| >= 3
  {
    if SeamFires(tx, ty, east) then ty[0 := ty[0] + 1] else ty
  }

  /**
   * The correction keeps lengths, trits and everything after the first pair;
   * when it fires it turns the pair (2, 1) into (1, 2) and (1, 0) into (0, 1).
   */
  lemma SeamCorrectionShape(tx: seq<int>, ty: seq<int>, east: bool)
    requires |tx| >= 3 && |ty| >= 3 && IsTrits(tx) && IsTrits(ty)
    ensures var cx, cy := CorrectedX(tx, ty, east), CorrectedY(tx, ty, east);
      && |cx| == |tx| && |cy| == |ty| && IsTrits(cx) && IsTrits(cy)
      && cx[1..] == tx[1..] && cy[1..] == ty[1..]
      && (SeamFires(tx, ty, east) && tx[0] == 2 ==> cx[0] == 1 && cy[0] == 2)
      && (SeamFires(tx, ty, east) && tx[0] == 1 ==> cx[0] == 0 && cy[0] == 1)
  {
    var cx, cy := CorrectedX(tx, ty, east), CorrectedY(tx, ty, east);
    assert cx[1..] == tx[1..] && cy[1..] == ty[1..];
  }

  /** When the correction fires, x loses 3^(n-1) and y gains it. */
  lemma SeamCorrectionShift(tx: seq<int>, ty: seq<int>, east: bool)
    requires |tx| >= 3 && |ty| >= 3
    requires SeamFires(tx, ty, east)
    ensures Value(CorrectedX(tx, ty, east)) == Value(tx) - Pow3(|tx| - 1)
    ensures Value(CorrectedY(tx, ty, east)) == Value(ty) + Pow3(|ty| - 1)
  {
    ValueFirstDown(tx);
    ValueFirstUp(ty);
  }

  /** The correction reads and writes only the first three pairs, so trits appended later pass through. */
  lemma SeamCorrectionSnoc(tx: seq<int>, ty: seq<int>, east: bool, a: int, b: int)
    requires |tx| >= 3 && |ty| >= 3
    ensures CorrectedX(tx + [a], ty + [b], east) == CorrectedX(tx, ty, east) + [a]
    ensures CorrectedY(tx + [a], ty + [b], east) == CorrectedY(tx, ty, east) + [b]
  {
    assert (tx + [a])[0 := tx[0] - 1] == tx[0 := tx[0] - 1] + [a];
    assert (ty + [b])[0 := ty[0] + 1] == ty[0 := ty[0] + 1] + [b];
  }

  /** The seam swap of lines 355-359: on the band's edge the larger coordinate goes second. */
  function SeamSwapped(x: int, y: int, level: nat): (int, int)
  {
    if Abs(x - y) == MaxSteps(level) && x > y then (y, x) else (x, y)
  }

  /** The trits the greedy loop produces for an index component: those of its clamped value. */
  function GreedyTrits(v: int, level: nat): (ts: seq<int>)
  {
    Trits(Clamp(v, level + 3), level + 3)
  }

  /**
   * The code of grid index (x, y) at `level`.  `eastOrSeam` stands for the
   * floating-point test `z_loc_x == -180 or z_loc_x >= 0` on the cell's
   * longitude; on the band's edge the source forces the longitude to -180.
   */
  function Encoding(x: int, y: int, level: nat, eastOrSeam: bool): string
  {
    var (sx, sy) := SeamSwapped(x, y, level);
    var east := eastOrSeam || Abs(x - y) == MaxSteps(level);
    Coded(GreedyTrits(sx, level), GreedyTrits(sy, level), east)
  }

  /** The code the source writes for the digit loop's trits: corrected, packed and lettered. */
  function Coded(gx: seq<int>, gy: seq<int>, east: bool): string
    requires |gx| == |gy| >= 3 && IsTrits(gx) && IsTrits(gy)
  {
    SeamCorrectionShape(gx, gy, east);
    Lettered(Pack(CorrectedX(gx, gy, east), CorrectedY(gx, gy, east)))
  }

  lemma PackSnoc(tx: seq<int>, ty: seq<int>, j: int)
    requires |tx| == |ty| && IsTrits(tx) && IsTrits(ty) && 0 <= j < |tx|
    ensures Pack(tx[..j + 1], ty[..j + 1]) == Pack(tx[..j], ty[..j]) + [NonaryChar(tx[j], ty[j])]
  {
  }

  /**
   * One component's part of the digit loop's invariant: the greedy trits `ts`
   * written so far account for `hv` up to `residual`, which stays within what
   * the remaining trits can express.
   */
  ghost predicate Greedy(hv: int, ts: seq<int>, n: nat, residual: int)
    requires |ts| <= n
  {
    && IsTrits(ts)
    && hv == Scaled(ts, n - |ts|) + residual
    && GreedyResidual(residual, hv - Clamp(hv, n), n - |ts|)
  }

  lemma GreedyMove(hv: int, ts: seq<int>, n: nat, residual: int)
    requires |ts| < n && Greedy(hv, ts, n, residual)
    ensures var p := Pow3(n - |ts| - 1);
      && 0 <= GreedyTrit(residual, p) <= 2
      && Greedy(hv, ts + [GreedyTrit(residual, p)], n, GreedyRest(residual, p))
  {
    var k := n - |ts| - 1;
    var p := Pow3(k);
    var d := GreedyTrit(residual, p);
    assert n - |ts| == k + 1 && n - |ts + [d]| == k;
    GreedyStep(residual, hv - Clamp(hv, n), k);
    ScaledSnoc(ts, d, k);
    TritsSnoc(ts, d);
  }

  /**
   * The other part: the lists the source builds are the greedy trits, and
   * from the third pair on they carry the seam correction.
   */
  ghost predicate Listed(gx: seq<int>, gy: seq<int>, cx: seq<int>, cy: seq<int>, east: bool)
    requires |gx| == |gy|
  {
    && (|gx| < 3 ==> cx == gx && cy == gy)
    && (|gx| >= 3 ==> cx == CorrectedX(gx, gy, east) && cy == CorrectedY(gx, gy, east))
  }

  /** When the loop ends, the greedy trits are the reference trits of the clamped component. */
  lemma GreedyDone(hv: int, ts: seq<int>, n: nat, residual: int)
    requires |ts| == n && Greedy(hv, ts, n, residual)
    ensures ts == Trits(Clamp(hv, n), n)
  {
    TritsUnique(ts, Clamp(hv, n));
  }

  /** When the loop ends after n >= 3 rounds, the lists are the corrected reference trits. */
  lemma TritLoopDone(hx: int, hy: int, level: nat, east: bool, gx: seq<int>, gy: seq<int>,
                     cx: seq<int>, cy: seq<int>, modX: int, modY: int)
    requires |gx| == level + 3 && |gy| == level + 3
    requires Greedy(hx, gx, level + 3, modX) && Greedy(hy, gy, level + 3, modY)
    requires Listed(gx, gy, cx, cy, east)
    ensures cx == CorrectedX(GreedyTrits(hx, level), GreedyTrits(hy, level), east)
    ensures cy == CorrectedY(GreedyTrits(hx, level), GreedyTrits(hy, level), east)
    ensures |cx| == level + 3 && |cy| == level + 3
  {
    GreedyDone(hx, gx, level + 3, modX);
    GreedyDone(hy, gy, level + 3, modY);
    SeamCorrectionShape(gx, gy, east);
  }

  lemma ListedMove(gx: seq<int>, gy: seq<int>, cx: seq<int>, cy: seq<int>, east: bool, dx: int, dy: int)
    requires |gx| == |gy| && Listed(gx, gy, cx, cy, east)
    ensures |gx| == 2 && east ==> Listed(gx + [dx], gy + [dy], CorrectedX(cx + [dx], cy + [dy], true), CorrectedY(cx + [dx], cy + [dy], true), east)
    ensures !(|gx| == 2 && east) ==> Listed(gx + [dx], gy + [dy], cx + [dx], cy + [dy], east)
  {
    if |gx| >= 3 {
      SeamCorrectionSnoc(gx, gy, east, dx, dy);
    }
  }

  /**
   * One round of the source's three-way test for one component, at weight
   * 3^k: it writes a trit, takes its weight off the residual, and leaves a
   * residual the remaining k trits can express whenever k + 1 trits could
   * express the one it was given.  The trit is 2 exactly when the residual
   * is more than k trits can express, and 0 exactly when it is less.
   */
  method ChooseTrit(mod: int, hPow: int, ghost k: nat) returns (d: int, rest: int)
    requires hPow == Pow3(k)
    ensures 0 <= d <= 2 && rest == mod - (d - 1) * hPow
    ensures (d == 2 <==> mod > Span(k)) && (d == 0 <==> mod < -Span(k))
    ensures -Span(k + 1) <= mod <= Span(k + 1) ==> -Span(k) <= rest <= Span(k)
    ensures d == GreedyTrit(mod, hPow) && rest == GreedyRest(mod, hPow)
  {
    SpanStep(k);
    var threshold := (hPow + 1) / 2;
    assert threshold == Span(k) + 1;
    if mod >= threshold {
      d, rest := 2, mod - hPow;
    } else if mod <= -threshold {
      d, rest := 0, mod + hPow;
    } else {
      d, rest := 1, mod;
    }
  }

  /** `ChooseTrit` for both components, passing on only its link to `GreedyTrit` and `GreedyRest`; keeps the loop's proof context small. */
  method TritRound(modX: int, modY: int, hPow: int, ghost k: nat) returns (dx: int, restX: int, dy: int, restY: int)
    requires hPow == Pow3(k)
    ensures dx == GreedyTrit(modX, hPow) && restX == GreedyRest(modX, hPow)
    ensures dy == GreedyTrit(modY, hPow) && restY == GreedyRest(modY, hPow)
  {
    dx, restX := ChooseTrit(modX, hPow, k);
    dy, restY := ChooseTrit(modY, hPow, k);
  }

  /** The rewrite of the first trit pair once three pairs are known (the test on longitude is the caller's). */
  method CorrectSeam(code3x: seq<int>, code3y: seq<int>) returns (cx: seq<int>, cy: seq<int>)
    requires |code3x| >= 3 && |code3y| >= 3
    ensures cx == CorrectedX(code3x, code3y, true) && cy == CorrectedY(code3x, code3y, true)
  {
    cx, cy := code3x, code3y;
    if cx[0] == 2 && cy[0] == 1 && cx[1] == cy[1] && cx[2] == cy[2] {
      cx := cx[0 := 1];
      cy := cy[0 := 2];
    } else if cx[0] == 1 && cy[0] == 0 && cx[1] == cy[1] && cx[2] == cy[2] {
      cx := cx[0 := 0];
      cy := cy[0 := 1];
    }
  }

  /** The invariant of the digit loop: both components' greedy state and the lists built so far. */
  ghost predicate TritLoopInv(hx: int, hy: int, n: nat, east: bool, gx: seq<int>, gy: seq<int>,
                              cx: seq<int>, cy: seq<int>, modX: int, modY: int)
  {
    && |gx| == |gy| <= n
    && Greedy(hx, gx, n, modX) && Greedy(hy, gy, n, modY)
    && Listed(gx, gy, cx, cy, east)
  }

  lemma TritLoopStart(hx: int, hy: int, n: nat, east: bool)
    ensures TritLoopInv(hx, hy, n, east, [], [], [], [], hx, hy)
  {
  }

  /** One round of the digit loop keeps its invariant; the third round also applies the correction. */
  lemma TritLoopStep(hx: int, hy: int, n: nat, east: bool, gx: seq<int>, gy: seq<int>,
                     cx: seq<int>, cy: seq<int>, modX: int, modY: int)
    requires TritLoopInv(hx, hy, n, east, gx, gy, cx, cy, modX, modY) && |gx| < n
    ensures var p := Pow3(n - |gx| - 1);
      var dx, dy := GreedyTrit(modX, p), GreedyTrit(modY, p);
      var gx', gy', mx, my := gx + [dx], gy + [dy], GreedyRest(modX, p), GreedyRest(modY, p);
      && (|gx| == 2 && east ==>
            |cx + [dx]| >= 3 && |cy + [dy]| >= 3 &&
            TritLoopInv(hx, hy, n, east, gx', gy', CorrectedX(cx + [dx], cy + [dy], true), CorrectedY(cx + [dx], cy + [dy], true), mx, my))
      && (!(|gx| == 2 && east) ==> TritLoopInv(hx, hy, n, east, gx', gy', cx + [dx], cy + [dy], mx, my))
  {
    var p := Pow3(n - |gx| - 1);
    GreedyMove(hx, gx, n, modX);
    GreedyMove(hy, gy, n, modY);
    ListedMove(gx, gy, cx, cy, east, GreedyTrit(modX, p), GreedyTrit(modY, p));
  }

  /**
   * The digit loop of `get_zone_by_xy` (lines 370-397): the greedy balanced
   * ternary digits of both components, most significant first, with the seam
   * correction made in the third round when `east` holds.
   */
  method TritLoop(hx: int, hy: int, level: nat, east: bool) returns (code3x: seq<int>, code3y: seq<int>)
    ensures |code3x| == level + 3 && |code3y| == level + 3
    ensures code3x == CorrectedX(GreedyTrits(hx, level), GreedyTrits(hy, level), east)
    ensures code3y == CorrectedY(GreedyTrits(hx, level), GreedyTrits(hy, level), east)
  {
    var n := level + 3;
    code3x, code3y := [], [];
    var modX, modY := hx, hy;
    ghost var gx: seq<int>, gy: seq<int> := [], [];
    var i := 0;
    TritLoopStart(hx, hy, n, east);
    while i < n
      invariant 0 <= i <= n && |gx| == i
      invariant TritLoopInv(hx, hy, n, east, gx, gy, code3x, code3y, modX, modY)
    {
      var hPow := Pow3(level + 2 - i);
      assert hPow == Pow3(n - |gx| - 1);
      TritLoopStep(hx, hy, n, east, gx, gy, code3x, code3y, modX, modY);
      var dx, dy;
      dx, modX, dy, modY := TritRound(modX, modY, hPow, level + 2 - i);
      gx, gy := gx + [dx], gy + [dy];
      code3x, code3y := code3x + [dx], code3y + [dy];
      if i == 2 && east {
        code3x, code3y := CorrectSeam(code3x, code3y);
      }
      i := i + 1;
    }
    TritLoopDone(hx, hy, level, east, gx, gy, code3x, code3y, modX, modY);
  }

  /** The packing loop (lines 399-404): each trit pair becomes one base-9 digit character. */
  method PackLoop(code3x: seq<int>, code3y: seq<int>) returns (hCode: string)
    requires |code3x| == |code3y| && IsTrits(code3x) && IsTrits(code3y)
    ensures hCode == Pack(code3x, code3y)
  {
    hCode := "";
    var j := 0;
    while j < |code3x|
      invariant 0 <= j <= |code3x|
      invariant hCode == Pack(code3x[..j], code3y[..j])
    {
      PackSnoc(code3x, code3y, j);
      hCode := hCode + [NonaryChar(code3x[j], code3y[j])];
      j := j + 1;
    }
    assert code3x[..j] == code3x && code3y[..j] == code3y;
  }

  /**
   * `get_zone_by_xy(x, y, level)` without its floating-point geometry: the
   * zone keeps the index it was given and carries the index's code.
   */
  method GetZoneByXY(x: int, y: int, level: nat, eastOrSeam: bool) returns (zone: Zone)
    ensures zone == Zone(x, y, Encoding(x, y, level, eastOrSeam))
  {
    var hx, hy := x, y;
    var east := eastOrSeam;
    var maxSteps := MaxSteps(level);
    var steps := Abs(hx - hy);
    if steps == maxSteps {
      if hx > hy {
        var tmp := hx;
        hx := hy;
        hy := tmp;
      }
      east := true;
    }
    SeamCorrectionShape(GreedyTrits(hx, level), GreedyTrits(hy, level), east);
    var code3x, code3y := TritLoop(hx, hy, level, east);
    var hCode := PackLoop(code3x, code3y);
    PackNumeral(code3x, code3y);
    var h2 := hCode[3..];
    var h1 := hCode[..3];
    ParseThree(h1);
    var a1 := Parse(h1, 10) / 30;
    var a2 := Parse(h1, 10) % 30;
    HKeyAt(a1);
    HKeyAt(a2);
    hCode := [HKey[a1], HKey[a2]] + h2;
    return Zone(x, y, hCode);
  }
}
