/** Why the integer line loop (kernel/src/graphics/api/gpipe_prim.c: gpipe_line) draws the line it should:
    arithmetic of the error term, with `ix` and `iy` the steps taken so far along each axis and
    `a`, `b` the distances to cover. */
module LineSpec {
  import opened Bytes

  function Abs(v: int): nat { if v < 0 then -v else v }
  function Max2(a: nat, b: nat): nat { if a > b then a else b }

  /** Signed distance from the ideal line, scaled. */
  function Off(a: int, b: int, ix: int, iy: int): int { iy * a - ix * b }

  /** At most half a pixel away from the ideal line, along the minor axis. */
  ghost predicate Near(a: nat, b: nat, ix: int, iy: int) {
    2 * Abs(Off(a, b, ix, iy)) <= Max2(a, b)
  }

  lemma OffSteps(a: int, b: int, ix: int, iy: int)
    ensures Off(a, b, ix + 1, iy) == Off(a, b, ix, iy) - b
    ensures Off(a, b, ix, iy + 1) == Off(a, b, ix, iy) + a
    ensures Off(a, b, ix + 1, iy + 1) == Off(a, b, ix, iy) - b + a
  {
    assert (ix + 1) * b == ix * b + b;
    assert (iy + 1) * a == iy * a + a;
  }

  /** A point near the line whose major step count is within its distance has its minor step count
      within its own, and has arrived on the minor axis when it has on the major one. */
  lemma MinorBound(a: nat, b: nat, ix: nat, iy: nat)
    requires a >= b && a > 0 && ix <= a && Near(a, b, ix, iy)
    ensures iy <= b && (ix == a ==> iy == b)
  {
    if iy > b {
      MulGap(b, iy, a);
      MulMono(ix, a, b);
    }
    if ix == a && iy < b {
      MulGap(iy, b, a);
    }
  }

  lemma OffSwap(a: int, b: int, ix: int, iy: int)
    ensures Off(a, b, ix, iy) == -Off(b, a, iy, ix)
  {
  }

  /** Both directions at once: the state of the loop after `t` steps. */
  ghost predicate OnLine(a: nat, b: nat, t: nat, ix: int, iy: int) {
    && 0 <= ix <= a && 0 <= iy <= b && Near(a, b, ix, iy)
    && (a >= b ==> ix == t) && (b >= a ==> iy == t)
  }

  lemma Arrived(a: nat, b: nat, t: nat, ix: int, iy: int)
    requires OnLine(a, b, t, ix, iy)
    ensures t <= Max2(a, b) && (t == Max2(a, b) <==> ix == a && iy == b)
  {
    if a >= b && a > 0 {
      MinorBound(a, b, ix, iy);
    } else if b > a {
      OffSwap(a, b, ix, iy);
      MinorBound(b, a, iy, ix);
    }
  }

  /** The loop's two decisions and the error it carries on. */
  function NextX(b: int, ix: int, err: int): int { if 2 * err >= -b then ix + 1 else ix }
  function NextY(a: int, iy: int, err: int): int { if 2 * err <= a then iy + 1 else iy }
  function NextErr(a: int, b: int, err: int): int {
    err - (if 2 * err >= -b then b else 0) + (if 2 * err <= a then a else 0)
  }

  /** One pass of the loop, short of the end: it steps along the major axis every time, along the minor
      axis when the error asks for it, and stays within half a pixel of the line. */
  lemma StepStaysOnLine(a: nat, b: nat, t: nat, ix: int, iy: int, err: int)
    requires OnLine(a, b, t, ix, iy) && !(ix == a && iy == b) && err == a - b + Off(a, b, ix, iy)
    ensures OnLine(a, b, t + 1, NextX(b, ix, err), NextY(a, iy, err))
    ensures NextErr(a, b, err) == a - b + Off(a, b, NextX(b, ix, err), NextY(a, iy, err))
  {
    hide Off;
    OffSteps(a, b, ix, iy);
    Arrived(a, b, t, ix, iy);
    var jx, jy := NextX(b, ix, err), NextY(a, iy, err);
    OffSwap(a, b, jx, jy);
    if a >= b {
      MinorBound(a, b, jx, jy);
    }
    if b >= a {
      MinorBound(b, a, jy, jx);
    }
  }

  /** The doubled error stays within three times the longer distance, so that 32 bits hold it whenever they hold
      that. */
  lemma ErrorBound(a: nat, b: nat, t: nat, ix: int, iy: int)
    requires OnLine(a, b, t, ix, iy)
    ensures Abs(2 * (a - b + Off(a, b, ix, iy))) <= 3 * Max2(a, b)
  {
    hide Off;
  }

  lemma LineStart(a: nat, b: nat)
    ensures OnLine(a, b, 0, 0, 0) && Off(a, b, 0, 0) == 0
  {
  }

  lemma LineBounds(a: nat, b: nat, t: nat, ix: int, iy: int)
    requires OnLine(a, b, t, ix, iy)
    ensures 0 <= ix <= a && 0 <= iy <= b && t <= Max2(a, b) && (t == Max2(a, b) <==> ix == a && iy == b)
    ensures Abs(2 * (a - b + Off(a, b, ix, iy))) <= 3 * Max2(a, b)
    ensures t == 0 ==> ix == 0 && iy == 0
  {
    Arrived(a, b, t, ix, iy);
    ErrorBound(a, b, t, ix, iy);
    if t == 0 {
      OffSwap(a, b, ix, iy);
      NearStart(a, b, ix, iy);
    }
  }

  lemma NearStart(a: nat, b: nat, ix: int, iy: int)
    requires OnLine(a, b, 0, ix, iy)
    ensures ix == 0 && iy == 0
  {
    if iy > 0 && a >= b {
      MulGap(0, iy, a);
    }
    if ix > 0 && b >= a {
      MulGap(0, ix, b);
    }
  }
}
