/** The double-buffer protocol of the graphics pipe: one dirty rectangle, taken by the compositor and
    presented row by row while other tasks go on drawing
    (kernel/src/graphics/api/gpipe.c, kernel/src/main.c). */
module GpipeSpec {
  datatype Rect = Rect(x: int, y: int, w: int, h: int) {
    predicate Has(px: int, py: int) { x <= px < x + w && y <= py < y + h }
    predicate Empty() { w <= 0 || h <= 0 }
    predicate Inside(width: nat, height: nat) {
      0 <= x && 0 <= y && 0 <= w && 0 <= h && x + w <= width && y + h <= height
    }
  }

  const NOTHING := Rect(0, 0, 0, 0)

  function Clamp(v: int, lo: int, hi: int): int { if v < lo then lo else if v > hi then hi else v }
  function Min(a: int, b: int): int { if a < b then a else b }
  function Max(a: int, b: int): int { if a > b then a else b }

  /** The visible part of a rectangle; NOTHING when there is none. */
  function Clip(r: Rect, width: nat, height: nat): (c: Rect)
    ensures c.Inside(width, height)
    ensures forall px, py :: 0 <= px < width && 0 <= py < height ==> (c.Has(px, py) <==> r.Has(px, py))
    ensures c == NOTHING || !c.Empty()
  {
    if r.w <= 0 || r.h <= 0 then NOTHING
    else
      var x0, y0 := Clamp(r.x, 0, width), Clamp(r.y, 0, height);
      var x1, y1 := Clamp(r.x + r.w, 0, width), Clamp(r.y + r.h, 0, height);
      if x1 <= x0 || y1 <= y0 then NOTHING else Rect(x0, y0, x1 - x0, y1 - y0)
  }

  /** The smallest rectangle around two. */
  function Hull(a: Rect, b: Rect): (r: Rect)
    requires !a.Empty() && !b.Empty()
    ensures forall px, py :: a.Has(px, py) || b.Has(px, py) ==> r.Has(px, py)
    ensures !r.Empty()
  {
    var x0, y0 := Min(a.x, b.x), Min(a.y, b.y);
    Rect(x0, y0, Max(a.x + a.w, b.x + b.w) - x0, Max(a.y + a.h, b.y + b.h) - y0)
  }

  /** The dirty rectangle after marking `r`: it keeps all it had and gains the visible part of `r`. */
  function Marked(dirty: Rect, r: Rect, width: nat, height: nat): (d: Rect)
    requires dirty.Inside(width, height)
    ensures d.Inside(width, height)
    ensures forall px, py :: dirty.Has(px, py) ==> d.Has(px, py)
    ensures forall px, py :: 0 <= px < width && 0 <= py < height && r.Has(px, py) ==> d.Has(px, py)
  {
    var c := Clip(r, width, height);
    if c == NOTHING then dirty else if dirty.Empty() then c else Hull(dirty, c)
  }

  /** No smaller rectangle will do: one that has what was dirty and the visible part of `r` has it all. */
  lemma MarkedLeast(dirty: Rect, r: Rect, width: nat, height: nat, q: Rect)
    requires dirty.Inside(width, height)
    requires forall px, py :: dirty.Has(px, py) ==> q.Has(px, py)
    requires forall px, py :: 0 <= px < width && 0 <= py < height && r.Has(px, py) ==> q.Has(px, py)
    ensures forall px, py :: Marked(dirty, r, width, height).Has(px, py) ==> q.Has(px, py)
  {
    var c := Clip(r, width, height);
    Corners(dirty, q);
    Corners(c, q);
  }

  /** A rectangle inside another: its corners are. */
  lemma Corners(a: Rect, q: Rect)
    requires forall px, py :: a.Has(px, py) ==> q.Has(px, py)
    ensures !a.Empty() ==> q.x <= a.x && q.y <= a.y && a.x + a.w <= q.x + q.w && a.y + a.h <= q.y + q.h
  {
    if !a.Empty() {
      assert a.Has(a.x, a.y) && a.Has(a.x + a.w - 1, a.y + a.h - 1);
    }
  }

  /** A picture: a colour for every visible pixel. */
  type Picture = (int, int) -> int

  datatype Present = Idle | Rows(rect: Rect, row: int)

  /** Both buffers, the dirty rectangle, the compositor's progress, and the rectangles of drawing calls
      that have begun to write but have not marked yet. */
  datatype State = State(width: nat, height: nat, back: Picture, fb: Picture,
                         dirty: Rect, present: Present, owed: seq<Rect>)
  {
    ghost predicate Visible(px: int, py: int) { 0 <= px < width && 0 <= py < height }

    ghost predicate Owes(px: int, py: int) { exists i :: 0 <= i < |owed| && owed[i].Has(px, py) }

    /** Rows of the taken rectangle that have not been copied yet. */
    ghost predicate Pending(px: int, py: int) {
      present.Rows? && present.rect.Has(px, py) && present.row <= py
    }
  }

  datatype Step =
    | Begin(r: Rect)              // a drawing call has computed the rectangle it will write
    | Write(i: nat, to: Picture)  // it writes some pixels of that rectangle
    | Mark(i: nat)                // it marks the rectangle dirty and is done
    | Take                        // gpipe_take_dirty
    | CopyRow                     // one row of gpipe_present_rect

  /** `to` differs from `from` at most inside `r`, as far as one can see. */
  ghost predicate ChangedWithin(s: State, to: Picture, r: Rect) {
    forall px, py :: s.Visible(px, py) && !r.Has(px, py) ==> to(px, py) == s.back(px, py)
  }

  ghost predicate Next(s: State, step: Step, t: State) {
    match step
    case Begin(r) => t == s.(owed := s.owed + [r])
    case Write(i, to) => i < |s.owed| && ChangedWithin(s, to, s.owed[i]) && t == s.(back := to)
    case Mark(i) =>
      && i < |s.owed| && s.dirty.Inside(s.width, s.height)
      && t == s.(dirty := Marked(s.dirty, s.owed[i], s.width, s.height), owed := s.owed[..i] + s.owed[i + 1..])
    case Take =>
      && s.present.Idle? && !s.dirty.Empty()
      && t == s.(dirty := NOTHING, present := Rows(s.dirty, s.dirty.y))
    case CopyRow =>
      && s.present.Rows? && s.present.row < s.present.rect.y + s.present.rect.h
      && t.width == s.width && t.height == s.height && t.back == s.back && t.dirty == s.dirty && t.owed == s.owed
      && (forall px, py :: t.fb(px, py) ==
            if s.present.rect.Has(px, py) && py == s.present.row then s.back(px, py) else s.fb(px, py))
      && t.present == if s.present.row + 1 < s.present.rect.y + s.present.rect.h
                      then Rows(s.present.rect, s.present.row + 1) else Idle
  }

  /** Every visible difference between the buffers is due to be shown. */
  ghost predicate NothingLost(s: State) {
    && s.dirty.Inside(s.width, s.height)
    && forall px, py :: s.Visible(px, py) && s.fb(px, py) != s.back(px, py) ==>
      s.dirty.Has(px, py) || s.Pending(px, py) || s.Owes(px, py)
  }

  /** After a full-screen mark nothing is lost, whatever the buffers hold. */
  lemma FullMark(s: State)
    requires s.dirty == Rect(0, 0, s.width, s.height)
    ensures NothingLost(s)
  {
  }

  lemma StepKeeps(s: State, step: Step, t: State)
    requires NothingLost(s) && Next(s, step, t)
    ensures NothingLost(t)
  {
    forall px, py | t.Visible(px, py) && t.fb(px, py) != t.back(px, py)
      ensures t.dirty.Has(px, py) || t.Pending(px, py) || t.Owes(px, py)
    {
      match step
      case Begin(r) =>
        if s.Owes(px, py) {
          var i :| 0 <= i < |s.owed| && s.owed[i].Has(px, py);
          assert t.owed[i].Has(px, py);
        }
      case Write(i, to) =>
        if s.owed[i].Has(px, py) {
          assert t.Owes(px, py);
        } else {
          assert to(px, py) == s.back(px, py);
        }
      case Mark(i) =>
        if s.Owes(px, py) {
          var k :| 0 <= k < |s.owed| && s.owed[k].Has(px, py);
          assert k < i ==> t.owed[k].Has(px, py);
          assert k > i ==> t.owed[k - 1].Has(px, py);
        }
      case Take =>
      case CopyRow =>
        assert t.fb(px, py) ==
          (if s.present.rect.Has(px, py) && py == s.present.row then s.back(px, py) else s.fb(px, py));
    }
  }

  /** An uninterrupted drawing call that changes the back buffer within `r` and marks `r` is three steps. */
  lemma DrawIsThreeSteps(s: State, to: Picture, r: Rect)
    requires s.dirty.Inside(s.width, s.height) && ChangedWithin(s, to, r)
    ensures var begun := s.(owed := s.owed + [r]);
            var written := begun.(back := to);
            var done := s.(back := to, dirty := Marked(s.dirty, r, s.width, s.height));
            Next(s, Begin(r), begun) && Next(begun, Write(|s.owed|, to), written) && Next(written, Mark(|s.owed|), done)
  {
    var owed := s.owed + [r];
    assert owed[..|s.owed|] + owed[|s.owed| + 1..] == s.owed;
  }

  /** A run: states joined by steps. */
  ghost predicate IsRun(states: seq<State>, steps: seq<Step>) {
    |states| == |steps| + 1 && forall i :: 0 <= i < |steps| ==> Next(states[i], steps[i], states[i + 1])
  }

  /** No interleaving of drawing, taking and row copying loses an update. */
  lemma {:induction false} RunKeeps(states: seq<State>, steps: seq<Step>, n: nat)
    requires IsRun(states, steps) && n < |states|
    requires states[0].dirty == Rect(0, 0, states[0].width, states[0].height)
    ensures NothingLost(states[n])
  {
    if n == 0 {
      FullMark(states[0]);
    } else {
      RunKeeps(states, steps, n - 1);
      StepKeeps(states[n - 1], steps[n - 1], states[n]);
    }
  }

  /** Once nothing is drawing, dirty or being copied, the screen shows the back buffer. */
  lemma QuietShowsAll(states: seq<State>, steps: seq<Step>, n: nat)
    requires IsRun(states, steps) && n < |states|
    requires states[0].dirty == Rect(0, 0, states[0].width, states[0].height)
    requires var s := states[n]; s.dirty.Empty() && s.present.Idle? && s.owed == []
    ensures forall px, py :: states[n].Visible(px, py) ==> states[n].fb(px, py) == states[n].back(px, py)
  {
    RunKeeps(states, steps, n);
  }

  /** gpipe_mark_dirty stores x, y, w and h one after the other: the rectangle after `k` of the stores that turn
      `from` into `to`. */
  function Stored(from: Rect, to: Rect, k: nat): Rect {
    Rect(if k > 0 then to.x else from.x, if k > 1 then to.y else from.y,
         if k > 2 then to.w else from.w, if k > 3 then to.h else from.h)
  }

  /** A take after `k` of the stores gets `Stored(dirty, marked, k)`, and the other stores then go over an empty
      rectangle. It is harmless if whatever was dirty or is being marked is taken or left. */
  ghost predicate TakeHarmless(k: nat) {
    forall dirty: Rect, r: Rect, width: nat, height: nat, px: int, py: int ::
      && Tears(dirty, r, width, height, k) && 0 <= px < width && 0 <= py < height
      && (dirty.Has(px, py) || r.Has(px, py)) ==>
        var marked := Marked(dirty, r, width, height);
        Stored(dirty, marked, k).Has(px, py) || Rest(marked, k).Has(px, py)
  }

  /** The mark stores something and the take finds something. */
  ghost predicate Tears(dirty: Rect, r: Rect, width: nat, height: nat, k: nat) {
    && dirty.Inside(width, height) && Clip(r, width, height) != NOTHING
    && !Stored(dirty, Marked(dirty, r, width, height), k).Empty()
  }

  /** What the stores after the first `k` leave in a rectangle that was just emptied. */
  function Rest(to: Rect, k: nat): Rect { Stored(to, NOTHING, k) }

  /** A take loses nothing if and only if it does not come between the stores of a mark. */
  lemma TornMark(k: nat)
    requires k <= 4
    ensures TakeHarmless(k) <==> k == 0 || k == 4
  {
    if k == 0 || k == 4 {
      hide Marked, Clip;
      forall dirty: Rect, r: Rect, width: nat, height: nat, px: int, py: int |
        Tears(dirty, r, width, height, k) && 0 <= px < width && 0 <= py < height && (dirty.Has(px, py) || r.Has(px, py))
        ensures var marked := Marked(dirty, r, width, height);
          Stored(dirty, marked, k).Has(px, py) || Rest(marked, k).Has(px, py)
      {
      }
    } else {
      LostSquare(k);
    }
  }

  /** A square of five pixels at (10, 10) is dirty and the pixel at (5, 5) is being marked: a take in between
      loses the far corner of the square. */
  lemma LostSquare(k: nat)
    requires 0 < k < 4
    ensures var dirty, r := Rect(10, 10, 5, 5), Rect(5, 5, 1, 1);
      var marked := Marked(dirty, r, 20, 20);
      && Tears(dirty, r, 20, 20, k) && dirty.Has(14, 14)
      && !Stored(dirty, marked, k).Has(14, 14) && !Rest(marked, k).Has(14, 14)
    ensures !TakeHarmless(k)
  {
    assert Marked(Rect(10, 10, 5, 5), Rect(5, 5, 1, 1), 20, 20) == Rect(5, 5, 10, 10);
  }
}
