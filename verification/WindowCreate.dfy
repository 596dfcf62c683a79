/** Creating a window: on an empty display, or by splitting the window whose split
    costs most. */
module WindowCreate {
  import opened Optional
  import opened Tiling
  import opened WindowChoice
  import opened WindowCleanup
  import opened WindowOps
  import opened WindowSizes
  import opened WindowTree

  /** Looks at all windows below `w`, after those seen before. */
  method FindWindowToSplit(c: Chooser<Node>, w: Node, ghost t: Tree<Node>, ghost nodes: set<Node>, lim: Node -> Limits,
                           want: Limits, general: int)
    requires Ids(t) <= nodes
    requires c.Valid() && w == t.id && Is(t, w.parent) && Bounded(want) && AllBounded(t, lim)
    modifies c
    ensures c.Valid() && c.seen == old(c.seen) + Candidates(t, lim, want, general)
    decreases t
  {
    hide Is, IsIn, Best, Ways, Chooser.Valid;
    IsParts(t, w.parent);
    if w.isSplit {
      FindWindowToSplit(c, w.top, t.top, nodes, lim, want, general);
      FindWindowToSplit(c, w.bottom, t.bottom, nodes, lim, want, general);
      assert (old(c.seen) + Candidates(t.top, lim, want, general)) + Candidates(t.bottom, lim, want, general)
          == old(c.seen) + (Candidates(t.top, lim, want, general) + Candidates(t.bottom, lim, want, general));
    } else {
      c.ConsiderWindow(w, w.viewPort, lim(w), want, general);
    }
  }

  /** What the search sees on the displays below number `n`. */
  ghost function Seen(f: seq<Option<Tree<Node>>>, n: int, lim: Node -> Limits, want: Limits, general: int)
    : seq<Candidate<Node>>
    requires 0 <= n <= |f| && Bounded(want) && AllLimited(f, lim)
  {
    if n == 0 then []
    else
      var o := f[n - 1];
      Seen(f, n - 1, lim, want, general) + if o.Some? then Candidates(o.value, lim, want, general) else []
  }

  ghost predicate AllLimited(f: seq<Option<Tree<Node>>>, lim: Node -> Limits) {
    forall i :: 0 <= i < |f| && f[i].Some? ==> AllBounded(f[i].value, lim)
  }

  /** Looks at all windows of all displays. */
  method SearchAll(m: WindowManager, c: Chooser<Node>, ghost nodes: set<Node>, lim: Node -> Limits, want: Limits,
          general: int)
    requires m.Valid() && nodes == AllIds(m.forest)
    requires Bounded(want) && AllLimited(m.forest, lim)
    modifies c
    ensures m.Valid() && c.Valid() && c.seen == Seen(m.forest, |m.forest|, lim, want, general)
  {
    hide Is, IsIn, Best, Chooser.Valid, Candidates, WindowManager.ValidBut, AllBounded;
    SizeOf(m);
    c.Reset();
    for i := 0 to m.rootWindow.Length
      invariant m.Valid() && i <= |m.forest| && c.Valid() && c.seen == Seen(m.forest, i, lim, want, general)
    {
      m.RootOf(i);
      RootIs(m, i);
      if m.rootWindow[i] != null {
        FindWindowToSplit(c, m.rootWindow[i], m.forest[i].value, nodes, lim, want, general);
      } else {
        assert c.seen + [] == c.seen;
      }
    }
  }

  lemma SizeOf(m: WindowManager)
    requires m.Valid()
    ensures |m.forest| == m.rootWindow.Length == |m.screens|
  {
  }

  /** A chosen window is a window of some display, and promises what it should. */
  lemma {:induction false} SeenPromise(f: seq<Option<Tree<Node>>>, n: int, lim: Node -> Limits, want: Limits,
          general: int, k: int)
      returns (d: int)
    requires 0 <= n <= |f| && Bounded(want) && AllLimited(f, lim) && AllGood(f)
    requires 0 <= k < |Seen(f, n, lim, want, general)|
    ensures 0 <= d < n && f[d].Some? && Promises(f[d].value, Seen(f, n, lim, want, general)[k], lim, want)
    decreases n
  {
    hide Promises, Candidates;
    var before := |Seen(f, n - 1, lim, want, general)|;
    if k < before {
      d := SeenPromise(f, n - 1, lim, want, general, k);
    } else {
      d := n - 1;
      CandidatesPromise(f[d].value, lim, want, general, k - before);
    }
  }

  // ----- which window is chosen -----

  /** The rectangle of a node, on whichever display it is. */
  ghost function RectOf(f: seq<Option<Tree<Node>>>, n: Node): Rect
    requires n in AllIds(f)
  {
    var d :| 0 <= d < |f| && n in IdsOn(f[d]);
    Sub(f[d].value, n).r
  }

  lemma RectIs(f: seq<Option<Tree<Node>>>, n: Node, d: int)
    requires Apart(f) && 0 <= d < |f| && n in IdsOn(f[d])
    ensures n in AllIds(f) && RectOf(f, n) == Sub(f[d].value, n).r
  {
    assert forall e :: 0 <= e < |f| && n in IdsOn(f[e]) ==> e == d;
  }

  /** The cost of everything that is seen. */
  lemma {:induction false} SeenCost(f: seq<Option<Tree<Node>>>, n: int, lim: Node -> Limits, want: Limits,
          general: int, k: int)
    requires 0 <= n <= |f| && Bounded(want) && AllLimited(f, lim) && AllGood(f) && Apart(f)
    requires 0 <= k < |Seen(f, n, lim, want, general)|
    ensures var c := Seen(f, n, lim, want, general)[k];
            c.id in AllIds(f) && c.cost == CostOf(RectOf(f, c.id), c, lim(c.id), want)
    decreases n
  {
    hide CostOf, Candidates, RectOf, Apart;
    var before := |Seen(f, n - 1, lim, want, general)|;
    if k < before {
      SeenCost(f, n - 1, lim, want, general, k);
    } else {
      CandidateCost(f[n - 1].value, lim, want, general, k - before);
      RectIs(f, Seen(f, n, lim, want, general)[k].id, n - 1);
    }
  }

  /** Everything with room is seen. */
  lemma {:induction false} RoomIsSeen(f: seq<Option<Tree<Node>>>, n: int, lim: Node -> Limits, want: Limits,
          general: int, d: int, w: Node) returns (k: int)
    requires 0 <= d < n <= |f| && Bounded(want) && AllLimited(f, lim) && AllGood(f)
    requires w in IdsOn(f[d]) && Sub(f[d].value, w).Leaf? && Ordered(lim(w)) && Ordered(want)
    requires HasRoom(Sub(f[d].value, w).r, lim(w), want, general)
    ensures 0 <= k < |Seen(f, n, lim, want, general)| && Seen(f, n, lim, want, general)[k].id == w
    decreases n
  {
    hide HasRoom, Candidates, Ordered;
    if d == n - 1 {
      k := RoomIsOffered(f[d].value, lim, want, general, w);
      k := k + |Seen(f, n - 1, lim, want, general)|;
    } else {
      k := RoomIsSeen(f, n - 1, lim, want, general, d, w);
    }
  }

  /** Areas that do not reach into the range of the costs for full new windows. */
  ghost predicate OrdinaryRect(r: Rect) {
    r.width >= 0 && r.height >= 0 && Area(r) < 0x0c00_0000
  }

  /** Where no new window would get its maximum the largest window is split, and a
      split that gives the new window its maximum comes before all that do not. */
  lemma CostliestIs(f: seq<Option<Tree<Node>>>, lim: Node -> Limits, want: Limits, general: int, c: Candidate<Node>,
          k: int)
    requires Bounded(want) && AllLimited(f, lim) && AllGood(f) && Apart(f)
    requires var cs := Seen(f, |f|, lim, want, general); Best(cs, Some(c)) && 0 <= k < |cs|
    ensures var b := Seen(f, |f|, lim, want, general)[k];
            && c.id in AllIds(f) && b.id in AllIds(f)
            && var r, q := RectOf(f, c.id), RectOf(f, b.id);
               && (!Full(r, c, want) && !Full(q, b, want) ==> Area(q) <= Area(r))
               && (Full(q, b, want) && OrdinaryRect(r) && OrdinaryRect(q) ==> Full(r, c, want))
  {
    hide Seen, RectOf, Full;
    var cs := Seen(f, |f|, lim, want, general);
    var i :| 0 <= i < |cs| && cs[i] == c;
    SeenCost(f, |f|, lim, want, general, i);
    SeenCost(f, |f|, lim, want, general, k);
  }

  /** If the chosen split does not give the new window its maximum, the window that is
      split is the largest of all windows that have room for the new one. */
  lemma LargestIsCut(f: seq<Option<Tree<Node>>>, lim: Node -> Limits, want: Limits, general: int, c: Candidate<Node>,
          d: int, w: Node)
    requires Bounded(want) && AllLimited(f, lim) && AllGood(f) && Apart(f)
    requires Best(Seen(f, |f|, lim, want, general), Some(c))
    requires 0 <= d < |f| && w in IdsOn(f[d]) && Sub(f[d].value, w).Leaf?
    requires Ordered(lim(w)) && Ordered(want) && HasRoom(Sub(f[d].value, w).r, lim(w), want, general)
    ensures c.id in AllIds(f) && w in AllIds(f)
    ensures !Full(RectOf(f, c.id), c, want) && OrdinaryRect(RectOf(f, c.id)) && OrdinaryRect(RectOf(f, w)) ==>
              Area(RectOf(f, w)) <= Area(RectOf(f, c.id))
  {
    hide Seen, RectOf, Full, OrdinaryRect, Area, HasRoom, Ordered, Best;
    var k := RoomIsSeen(f, |f|, lim, want, general, d, w);
    CostliestIs(f, lim, want, general, c, k);
  }

  /** SplitWindow does not split the window that was chosen. */
  ghost predicate Refused(f: seq<Option<Tree<Node>>>, c: Candidate<Node>) {
    exists d :: 0 <= d < |f| && c.id in IdsOn(f[d]) && !CutAllowed(Sub(f[d].value, c.id).r, c.pos, c.horizontal)
  }

  lemma RefusedIs(m: WindowManager, c: Candidate<Node>)
    requires m.Valid() && c.id in AllIds(m.forest)
    ensures Refused(m.forest, c) <==> !CutAllowed(c.id.viewPort, c.pos, c.horizontal)
  {
    hide Is, IsIn, Tiled, Distinct;
    var d := m.DisplayOf(c.id);
    m.InForest(c.id, d);
    m.ValidIsGood();
  }

  /** The best candidate of all displays, if there is one, is split for `w`, unless
      SplitWindow refuses. */
  method CreateBySplitting(m: WindowManager, w: Node, c: Chooser<Node>, ghost nodes: set<Node>, lim: Node -> Limits,
          general: int)
      returns (ok: bool, ghost up: Node?)
    requires m.Valid() && !w.isSplit && nodes == AllIds(m.forest) && w !in nodes
    requires Bounded(lim(w)) && AllLimited(m.forest, lim)
    modifies m, m.rootWindow, nodes, w, c
    ensures m.Valid() && c.Valid() && c.seen == Seen(old(m.forest), |old(m.forest)|, lim, lim(w), general)
    ensures ok <==> c.Chosen().Some? && !Refused(old(m.forest), c.Chosen().value)
    ensures !ok ==> m.forest == old(m.forest)
    ensures ok ==>
              up != null && fresh(up)
              && var b := c.Chosen().value;
                 m.forest == SplitResult(old(m.forest), b.id, b.pos, b.horizontal, false, w, up,
                                         old(w.viewPort), old(m.unacceptablySmallWindowExists))
  {
    hide Is, IsIn, Best, Candidates, WindowManager.ValidBut, AllIds, SplitResult, Seen, Promises, AllLimited, Refused;
    ghost var f := m.forest;
    m.ValidIsGood();
    SearchAll(m, c, nodes, lim, lim(w), general);
    up, ok := null, false;
    if c.bestWindowToSplit.Some? {
      ChosenIsThere(f, lim, lim(w), general, c.Chosen().value);
      RefusedIs(m, c.Chosen().value);
      ok, up := m.SplitWindow(c.bestWindowToSplit.value, c.bestSplitPosition, c.bestSplitDirection, false, w);
    }
  }

  /** The first empty display, if there is one, is filled; otherwise a window is
      split. */
  method CreateWindow(m: WindowManager, w: Node, c: Chooser<Node>, lim: Node -> Limits, general: int)
      returns (i: nat, ok: bool, ghost up: Node?)
    requires m.Valid() && !w.isSplit && w !in AllIds(m.forest) && Bounded(lim(w)) && AllLimited(m.forest, lim)
    modifies m, m.rootWindow, AllIds(m.forest), w, c
    ensures m.Valid() && i <= |old(m.forest)| && forall j :: 0 <= j < i ==> old(m.forest)[j].Some?
    ensures i < |old(m.forest)| ==>
              ok && old(m.forest)[i].None? && m.forest == old(m.forest)[i := Some(Leaf(w, m.screens[i]))]
    ensures i == |old(m.forest)| ==>
              c.Valid() && c.seen == Seen(old(m.forest), i, lim, lim(w), general)
              && (ok <==> c.Chosen().Some? && !Refused(old(m.forest), c.Chosen().value))
    ensures !ok ==> m.forest == old(m.forest)
    ensures i == |old(m.forest)| && ok ==>
              up != null && fresh(up)
              && var b := c.Chosen().value;
                 m.forest == SplitResult(old(m.forest), b.id, b.pos, b.horizontal, false, w, up,
                                         old(w.viewPort), old(m.unacceptablySmallWindowExists))
  {
    hide Is, IsIn, Best, Candidates, WindowManager.ValidBut, AllIds, SplitResult, Seen, AllLimited, Refused;
    SizeOf(m);
    ghost var nodes := AllIds(m.forest);
    i := m.CreateOnEmptyDisplay(w);
    SizeOf(m);
    ok, up := true, null;
    if i == |m.screens| {
      ok, up := CreateBySplitting(m, w, c, nodes, lim, general);
    }
  }

  lemma ChosenIsThere(f: seq<Option<Tree<Node>>>, lim: Node -> Limits, want: Limits, general: int, c: Candidate<Node>)
    requires Bounded(want) && AllLimited(f, lim) && AllGood(f) && Best(Seen(f, |f|, lim, want, general), Some(c))
    ensures c.id in AllIds(f)
  {
    hide Seen;
    var cs := Seen(f, |f|, lim, want, general);
    var k :| 0 <= k < |cs| && cs[k] == c;
    var d := SeenPromise(f, |f|, lim, want, general, k);
    assert c.id in IdsOn(f[d]);
  }
}
