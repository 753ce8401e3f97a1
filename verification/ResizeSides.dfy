/** The title-bar repair beyond the top edge: what becomes of a resize that drags a side or a corner. */
module ResizeSides {
  import opened Geometry
  import opened Options
  import opened TitleBar
  import opened RestrictedResize

  // ---------------------------------------------------------------- a way back

  /** What one frame on the way back shows: whether its title bar can be reached, and how many
      pixels of it are visible. */
  datatype Sight = Sight(found: bool, pixels: int)

  /** What was visible before, or `last` where the walk begins. */
  function Before(way: seq<Sight>, from: nat, last: int, j: nat): int
    requires j < |way|
  {
    if j <= from then last else way[j - 1].pixels
  }

  predicate HoldsAt(way: seq<Sight>, from: nat, last: int, j: nat) {
    j < |way| && way[j].pixels >= Before(way, from, last, j)
  }

  predicate GainsAt(way: seq<Sight>, from: nat, last: int, j: nat) {
    j < |way| && way[j].pixels > Before(way, from, last, j)
  }

  /** The title bar is found `k` pixels back, and from pixel `from` on none before that loses some of it. */
  predicate HoldsUntilFound(way: seq<Sight>, from: nat, last: int, k: nat) {
    from <= k < |way| && way[k].found && forall j | from <= j < k :: HoldsAt(way, from, last, j)
  }

  /** The same, but the first pixel that does not gain may lose. */
  predicate ForgivesUntilFound(way: seq<Sight>, from: nat, last: int, k: nat) {
    && from <= k < |way| && way[k].found
    && forall i, j | from <= i < j < k :: GainsAt(way, from, last, i) || HoldsAt(way, from, last, j)
  }

  ghost predicate Holds(way: seq<Sight>, from: nat, last: int) { exists k: nat :: HoldsUntilFound(way, from, last, k) }

  ghost predicate Forgives(way: seq<Sight>, from: nat, last: int) { exists k: nat :: ForgivesUntilFound(way, from, last, k) }

  lemma HoldsFromNext(way: seq<Sight>, from: nat, last: int)
    requires from < |way| && !way[from].found && HoldsAt(way, from, last, from)
    ensures Holds(way, from, last) <==> Holds(way, from + 1, way[from].pixels)
  {
    var next, here := from + 1, way[from].pixels;
    if k: nat :| HoldsUntilFound(way, from, last, k) {
      forall j | next <= j < k ensures HoldsAt(way, next, here, j) {
        assert HoldsAt(way, from, last, j);
      }
      assert HoldsUntilFound(way, next, here, k);
    }
    if k: nat :| HoldsUntilFound(way, next, here, k) {
      forall j | from < j < k ensures HoldsAt(way, from, last, j) {
        assert HoldsAt(way, next, here, j);
      }
      assert HoldsUntilFound(way, from, last, k);
    }
  }

  lemma LossEnds(way: seq<Sight>, from: nat, last: int)
    requires from < |way| && !way[from].found && !HoldsAt(way, from, last, from)
    ensures !Holds(way, from, last)
  {
  }

  lemma ForgivesFromNext(way: seq<Sight>, from: nat, last: int)
    requires from < |way| && !way[from].found && GainsAt(way, from, last, from)
    ensures Forgives(way, from, last) <==> Forgives(way, from + 1, way[from].pixels)
  {
    var next, here := from + 1, way[from].pixels;
    if k: nat :| ForgivesUntilFound(way, from, last, k) {
      forall i, j | next <= i < j < k ensures GainsAt(way, next, here, i) || HoldsAt(way, next, here, j) {
        assert GainsAt(way, from, last, i) || HoldsAt(way, from, last, j);
      }
      assert ForgivesUntilFound(way, next, here, k);
    }
    if k: nat :| ForgivesUntilFound(way, next, here, k) {
      forall i, j | from <= i < j < k ensures GainsAt(way, from, last, i) || HoldsAt(way, from, last, j) {
        if i > from {
          assert GainsAt(way, next, here, i) || HoldsAt(way, next, here, j);
        }
      }
      assert ForgivesUntilFound(way, from, last, k);
    }
  }

  /** The pixel that did not gain is tried again, and from then on none may lose. */
  lemma FirstLossIsForgiven(way: seq<Sight>, from: nat, last: int)
    requires from < |way| && !way[from].found && !GainsAt(way, from, last, from)
    ensures Forgives(way, from, last) <==> Holds(way, from, way[from].pixels)
  {
    var here := way[from].pixels;
    assert HoldsAt(way, from, here, from);
    assert forall j: nat | j > from :: HoldsAt(way, from, last, j) <==> HoldsAt(way, from, here, j);
    if k: nat :| ForgivesUntilFound(way, from, last, k) {
      assert HoldsUntilFound(way, from, here, k);
    }
    if k: nat :| HoldsUntilFound(way, from, here, k) {
      assert ForgivesUntilFound(way, from, last, k);
    }
  }

  // ---------------------------------------------------------------- the sides

  /** One repair: the visible area, the title bar of the requested frame, how much of it must be visible,
      and the frame before the motion event. */
  datatype Task = Task(desk: Desk, title: Rect, required: int, previous: Rect) {

    function Real(g: Rect): int { RealPixels(desk, title, g) }

    lemma RealIsNotNegative(g: Rect)
      requires IsRegion(desk.available) && title.Width() >= 0 && title.Height() >= 1
      ensures Real(g) >= 0
    {
      VisibleCounts(desk.available, title.Translated(g.left, g.top), false);
    }

    predicate Found(g: Rect) { Reached(desk, title, required, g) }

    function Repaired(s: Repair): Rect { RepairTitle(desk, title, required, previous, s) }

    function SideDistance(g: Rect): nat { Abs(previous.left - g.left) + Abs(previous.right - g.right) }

    /** The frame `k` pixels on the way back at the sides: the left edge goes first. */
    function SideBack(g: Rect, k: nat): Rect {
      var dl := Abs(previous.left - g.left);
      if k <= dl then g.(left := g.left + k * Sign(previous.left - g.left))
      else g.(left := previous.left, right := g.right + (k - dl) * Sign(previous.right - g.right))
    }

    /** All that the sides show on their way back. */
    function SideWay(g: Rect): (way: seq<Sight>)
      ensures |way| == SideDistance(g) + 1
      ensures forall k | 0 <= k < |way| :: way[k] == Sight(Found(SideBack(g, k)), Real(SideBack(g, k)))
    {
      seq(SideDistance(g) + 1, k requires k >= 0 => Sight(Found(SideBack(g, k)), Real(SideBack(g, k))))
    }

    lemma SideStep(g: Rect, k: nat, titleFailed: bool)
      requires k <= SideDistance(g) && (titleFailed || g.top == previous.top)
      ensures OneEdgeBack(SideBack(g, k), previous, titleFailed)
           == if k < SideDistance(g) then Some(SideBack(g, k + 1)) else None
    {
      var dl, dr := previous.left - g.left, previous.right - g.right;
      assert dl >= 0 ==> Sign(dl) * Abs(dl) == dl;
      assert dl < 0 ==> Abs(dl) * Sign(dl) == dl;
    }

    /** Once the title edge was given up, the sides go on until a pixel loses. */
    lemma {:induction false} FailedSides(g: Rect, from: nat, last: int, lastTry: Rect)
      requires from <= SideDistance(g)
      ensures Found(Repaired(Repair(SideBack(g, from), last, lastTry, true))) <==> Holds(SideWay(g), from, last)
      decreases SideDistance(g) - from
    {
      var way, at := SideWay(g), SideBack(g, from);
      assert way[from] == Sight(Found(at), Real(at));
      if Found(at) {
        assert HoldsUntilFound(way, from, last, from);
      } else if Real(at) < last {
        LossEnds(way, from, last);
      } else {
        RepairStep(desk, title, required, previous, Repair(at, last, lastTry, true));
        SideStep(g, from, true);
        HoldsFromNext(way, from, last);
        if from < SideDistance(g) {
          FailedSides(g, from + 1, Real(at), at);
        }
      }
    }

    /** The sides with the top edge in place and nothing given up yet. */
    lemma {:induction false} FreshSides(g: Rect, from: nat, last: int, lastTry: Rect)
      requires g.top == previous.top && from <= SideDistance(g)
      requires if from > 0 then lastTry == SideBack(g, from - 1) else Real(g) > last
      ensures Found(Repaired(Repair(SideBack(g, from), last, lastTry, false))) <==> Forgives(SideWay(g), from, last)
      decreases SideDistance(g) - from
    {
      var way, at := SideWay(g), SideBack(g, from);
      assert way[from] == Sight(Found(at), Real(at));
      assert from == 0 ==> at == g;
      if Found(at) {
        assert ForgivesUntilFound(way, from, last, from);
      } else if Real(at) > last {
        ForgivesFromNext(way, from, last);
        SideGains(g, from, last, lastTry);
      } else {
        SideStep(g, from - 1, true);
        RepairStep(desk, title, required, previous, Repair(at, last, lastTry, false));
        FailedSides(g, from, Real(at), lastTry);
        FirstLossIsForgiven(way, from, last);
      }
    }

    lemma {:induction false} SideGains(g: Rect, from: nat, last: int, lastTry: Rect)
      requires g.top == previous.top && from <= SideDistance(g)
      requires !Found(SideBack(g, from)) && Real(SideBack(g, from)) > last
      ensures
        var at := SideBack(g, from);
        Found(Repaired(Repair(at, last, lastTry, false))) <==> Forgives(SideWay(g), from + 1, Real(at))
      decreases SideDistance(g) - from, 0
    {
      var at := SideBack(g, from);
      RepairStep(desk, title, required, previous, Repair(at, last, lastTry, false));
      SideStep(g, from, false);
      if from < SideDistance(g) {
        FreshSides(g, from + 1, Real(at), at);
      }
    }

    /** The repair of a dragged left or right edge ends with a reachable title bar exactly if it is reached
        on the way back before a pixel loses some of it; one first pixel without a gain is forgiven. */
    lemma SideDragRepaired(g: Rect)
      requires g.top == previous.top
      requires IsRegion(desk.available) && title.Width() >= 0 && title.Height() >= 1
      ensures Found(Repaired(Repair(g, -1, g, false))) <==> Forgives(SideWay(g), 0, -1)
    {
      RealIsNotNegative(g);
      assert SideBack(g, 0) == g;
      FreshSides(g, 0, -1, g);
    }

    // -------------------------------------------------------------- corners

    function Above(g: Rect, j: nat): Rect { TopBack(g, previous, j) }

    function TopDistance(g: Rect): nat { Abs(previous.top - g.top) }

    /** What was visible one pixel before the `j`-th at the top. */
    function Seen(g: Rect, j: nat): int { if j == 0 then -1 else Real(Above(g, j - 1)) }

    /** The pixel does not find the title bar, but shows more of it. */
    predicate TopGains(g: Rect, j: nat) { !Found(Above(g, j)) && Real(Above(g, j)) > Seen(g, j) }

    predicate GainsUpTo(g: Rect, j: nat) {
      j <= TopDistance(g) && forall i: nat | i < j :: TopGains(g, i)
    }

    /** The state of the loop `j` pixels down, while every pixel gains. */
    function Gaining(g: Rect, j: nat): Repair {
      Repair(Above(g, j), Seen(g, j), if j == 0 then g else Above(g, j - 1), false)
    }

    lemma {:induction false} TopPhase(g: Rect, j: nat)
      requires GainsUpTo(g, j)
      ensures Repaired(Repair(g, -1, g, false)) == Repaired(Gaining(g, j))
      decreases j
    {
      if j > 0 {
        TopPhase(g, j - 1);
        assert TopGains(g, j - 1);
        RepairStep(desk, title, required, previous, Gaining(g, j - 1));
        TopStep(g, j - 1);
      } else {
        assert Above(g, 0) == g;
      }
    }

    lemma TopStep(g: Rect, j: nat)
      requires j < TopDistance(g)
      ensures OneEdgeBack(Above(g, j), previous, false) == Some(Above(g, j + 1))
    {
    }

    /** A corner drag, first case: the title bar is found while every pixel at the top gains. */
    lemma FoundAtTop(g: Rect, j: nat)
      requires GainsUpTo(g, j) && Found(Above(g, j))
      ensures Repaired(Repair(g, -1, g, false)) == Above(g, j)
    {
      TopPhase(g, j);
    }

    /** Second case: a pixel at the top does not gain. It is taken back, and the sides go on from there. */
    lemma TopGivenUp(g: Rect, j: nat)
      requires GainsUpTo(g, j) && j > 0 && !Found(Above(g, j)) && !TopGains(g, j)
      ensures Found(Repaired(Repair(g, -1, g, false))) <==> Holds(SideWay(Above(g, j - 1)), 1, Real(Above(g, j)))
    {
      TopPhase(g, j);
      var back := Above(g, j - 1);
      assert TopGains(g, j - 1);
      RepairStep(desk, title, required, previous, Gaining(g, j));
      assert SideBack(back, 0) == back;
      SideStep(back, 0, true);
      if SideDistance(back) > 0 {
        FailedSides(back, 1, Real(Above(g, j)), back);
      }
    }

    /** Third case: the top edge gains all the way and is back in place. The sides go on from there. */
    lemma TopBackInPlace(g: Rect)
      requires GainsUpTo(g, TopDistance(g)) && TopGains(g, TopDistance(g))
      ensures
        var at := Above(g, TopDistance(g));
        Found(Repaired(Repair(g, -1, g, false))) <==> Forgives(SideWay(at), 1, Real(at))
    {
      var d := TopDistance(g);
      var at := Above(g, d);
      TopPhase(g, d);
      assert at == g.(top := previous.top);
      assert SideBack(at, 0) == at;
      SideGains(at, 0, Seen(g, d), if d == 0 then g else Above(g, d - 1));
    }

    /** There is no other case. */
    lemma TopPhaseEnds(g: Rect) returns (j: nat)
      requires IsRegion(desk.available) && title.Width() >= 0 && title.Height() >= 1
      ensures GainsUpTo(g, j)
      ensures Found(Above(g, j)) || (j > 0 && !TopGains(g, j)) || (j == TopDistance(g) && TopGains(g, j))
    {
      assert Above(g, 0) == g;
      RealIsNotNegative(g);
      j := 0;
      while j < TopDistance(g) && TopGains(g, j)
        invariant GainsUpTo(g, j)
      {
        j := j + 1;
      }
    }
  }

}
