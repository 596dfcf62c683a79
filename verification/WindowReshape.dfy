/** Reshaping a window with the mouse: it is taken off its display, a rectangle is
    dragged, and the smallest node around the rectangle is split for it. */
module WindowReshape {
  import opened Optional
  import opened Tiling
  import opened WindowChoice
  import opened WindowCleanup
  import opened WindowOps
  import opened WindowTree

  /** The container of a drag on one display. */
  ghost function ContainerOn(o: Option<Tree<Node>>, d: Drag): (c: Option<Tree<Node>>)
    ensures c.Some? ==> Holds(c.value.r, d)
  {
    if o.None? then None
    else
      ContainerHolds(o.value, d);
      WindowChoice.FindContainer(o.value, d)
  }

  lemma {:induction false} ContainerHolds<N>(w: Tree<N>, d: Drag)
    ensures var c := WindowChoice.FindContainer(w, d);
            c.Some? ==> Holds(c.value.r, d) && c.value.id in Ids(w) && (Distinct(w) ==> c.value == Sub(w, c.value.id))
    decreases w
  {
    if w.Split? {
      ContainerHolds(w.top, d);
      ContainerHolds(w.bottom, d);
    }
  }

  /** Takes the window under the cursor off its display to reshape it, if a
      process is running in it. */
  method Reshape(manager: WindowManager, cursorWindow: Node?, running: bool) returns (reshapee: Node?)
    requires manager.Valid()
    requires cursorWindow != null && !cursorWindow.deleted && cursorWindow !in AllIds(manager.forest) ==>
               !cursorWindow.isSplit && !cursorWindow.visible
    modifies manager, manager.rootWindow, AllIds(manager.forest), if cursorWindow == null then {} else {cursorWindow}
    ensures manager.Valid()
    ensures reshapee == if cursorWindow != null && !cursorWindow.isSplit && running then cursorWindow else null
    ensures reshapee == null ==> manager.forest == old(manager.forest)
    ensures reshapee != null ==>
              manager.forest == DeleteAll(old(manager.forest), reshapee) && reshapee !in AllIds(manager.forest)
  {
    hide DeleteAll, AllIds, WindowManager.ValidBut;
    reshapee := null;
    if cursorWindow != null && !cursorWindow.isSplit && running {
      reshapee := cursorWindow;
      manager.DeleteWindow(reshapee);
      manager.NotDeleted(reshapee);
    }
  }

  /** The smallest node below `w` around the drag, on the linked nodes. */
  function FindContainer(w: Node?, d: Drag, ghost o: Option<Tree<Node>>): (c: Node?)
    requires w == null <==> o.None?
    requires w != null ==> w == o.value.id
    reads w, if o.None? then {} else Ids(o.value)
    requires w != null ==> Is(o.value, w.parent)
    ensures var s := ContainerOn(o, d);
            (c == null <==> s.None?) && (c != null ==> c == s.value.id && c in IdsOn(o) && c.viewPort == s.value.r)
    decreases if o.None? then 0 else Size(o.value)
  {
    if w == null then null
    else
      IsParts(o.value, w.parent);
      if w.viewPort.top > d.top || w.viewPort.left > d.left || w.viewPort.top + w.viewPort.height <= d.bottom
         || w.viewPort.left + w.viewPort.width <= d.right then null
      else if w.isSplit then
        var above := FindContainer(w.top, d, Some(o.value.top));
        if above != null then above
        else
          var below := FindContainer(w.bottom, d, Some(o.value.bottom));
          if below != null then below else w
      else w
  }

  /** Whether the split that ends a drag in the container `r` is carried out. */
  predicate Accepted(r: Rect, d: Drag)
    requires Holds(r, d) && d.left <= d.right && d.top <= d.bottom
  {
    if ChooseCut(r, d).horizontal then d.bottom > r.top else d.right > r.left
  }

  /** Ends the drag at its second corner: the container, if there is one, is split
      as ChooseCut says, and the window is back unless the split is refused. */
  method FinishReshape(manager: WindowManager, reshapee: Node, cursorDisplay: nat, x0: int, y0: int, x: int, y: int)
    returns (shown: bool, ghost up: Node?)
    requires manager.Valid() && cursorDisplay < |manager.forest|
    requires !reshapee.isSplit && reshapee !in AllIds(manager.forest)
    modifies manager, manager.rootWindow, AllIds(manager.forest), reshapee
    ensures manager.Valid()
    ensures var d := DragOf(x0, y0, x, y); var o := ContainerOn(old(manager.forest[cursorDisplay]), d);
            shown <==> o.Some? && Accepted(o.value.r, d)
    ensures !shown ==> manager.forest == old(manager.forest)
    ensures shown ==>
              var d := DragOf(x0, y0, x, y); var c := ContainerOn(old(manager.forest[cursorDisplay]), d).value;
              var cut := ChooseCut(c.r, d);
              && up != null && fresh(up)
              && manager.forest == SplitResult(old(manager.forest), c.id, cut.pos, cut.horizontal, cut.above, reshapee,
                 up,
                                               old(reshapee.viewPort), old(manager.unacceptablySmallWindowExists))
  {
    hide AllIds, Is, IsIn, Ids, WindowChoice.FindContainer, SplitResult, WindowManager.ValidBut;
    var left, right, top, bottom;
    if x < x0 {
      left, right := x, x0;
    } else {
      left, right := x0, x;
    }
    if y < y0 {
      top, bottom := y, y0;
    } else {
      top, bottom := y0, y;
    }
    shown, up := false, null;
    RootIs(manager, cursorDisplay);
    var target := FindContainer(manager.rootWindow[cursorDisplay], Drag(left, right, top, bottom),
        manager.forest[cursorDisplay]);
    if target != null {
      var pos, horizontal, cutAbove;
      if (bottom - top) * 1000 / target.viewPort.height > (right - left) * 1000 / target.viewPort.width {
        horizontal := false;
        if left - target.viewPort.left < target.viewPort.left + target.viewPort.width - right {
          pos, cutAbove := right, true;
        } else {
          pos, cutAbove := left, false;
        }
      } else {
        horizontal := true;
        if top - target.viewPort.top < target.viewPort.top + target.viewPort.height - bottom {
          pos, cutAbove := bottom, true;
        } else {
          pos, cutAbove := top, false;
        }
      }
      CutAccepted(target.viewPort, Drag(left, right, top, bottom));
      shown, up := manager.SplitWindow(target, pos, horizontal, cutAbove, reshapee);
    }
  }

  /** The corners of a drag are those where it began and ended, in order. */
  lemma DragIs(x0: int, y0: int, x: int, y: int)
    ensures var d := DragOf(x0, y0, x, y);
            && d.left <= d.right && {d.left, d.right} == {x0, x} && d.top <= d.bottom && {d.top, d.bottom} == {y0, y}
  {
  }

  // ----- what a finished drag shows -----

  /** The layout of one display when the cut that ends a drag has been made. */
  lemma DragInserted<N>(t: Tree<N>, d: Drag, p: N, up: N)
    requires Tiled(t) && Distinct(t) && p !in Ids(t) && up !in Ids(t) && p != up
    requires d.left <= d.right && d.top <= d.bottom && WindowChoice.FindContainer(t, d).Some?
    ensures var c := WindowChoice.FindContainer(t, d).value;
            Holds(c.r, d) && c.id in Ids(t) && c == Sub(t, c.id)
            && var cut := ChooseCut(c.r, d); var u := Insert(t, c.id, cut.pos, cut.horizontal, cut.above, p, up);
               && Tiled(u) && Distinct(u) && Ids(u) == Ids(t) + {p, up} && Shows(u, p, d)
  {
    ContainerHolds(t, d);
    var c := WindowChoice.FindContainer(t, d).value;
    var cut := ChooseCut(c.r, d);
    InsertKeeps(t, c.id, cut.pos, cut.horizontal, cut.above, p, up);
    SubOfSubst(t, c.id, Cut(c, cut.pos, cut.horizontal, cut.above, p, up), p);
    CutCoversDrag(c.r, d);
  }

  /** The window is shown in every pixel of the drag but its last column and row. */
  ghost predicate Shows<N>(t: Tree<N>, p: N, d: Drag) {
    && p in Ids(t) && Sub(t, p).Leaf?
    && forall x, y :: d.left <= x < d.right && d.top <= y < d.bottom ==> Covers(Sub(t, p).r, x, y)
  }

  /** An accepted drag that makes no window too small puts the window where it was
      drawn, on that display, adds nothing else but a split node, takes no window
      away and leaves the other displays alone. */
  lemma DragIsShown(f: seq<Option<Tree<Node>>>, k: int, d: Drag, p: Node, up: Node, before: Rect, flag: bool)
    requires AllGood(f) && Apart(f) && 0 <= k < |f| && p !in AllIds(f) && up !in AllIds(f) && p != up
    requires d.left <= d.right && d.top <= d.bottom && ContainerOn(f[k], d).Some?
    requires var c := ContainerOn(f[k], d).value; var cut := ChooseCut(c.r, d);
             AllFit(InsertAll(f, c.id, cut.pos, cut.horizontal, cut.above, p, up))
    ensures var c := ContainerOn(f[k], d).value; var cut := ChooseCut(c.r, d);
            var g := SplitResult(f, c.id, cut.pos, cut.horizontal, cut.above, p, up, before, flag);
            && |g| == |f| && (forall i :: 0 <= i < |f| && i != k ==> g[i] == f[i])
            && g[k].Some? && IdsOn(g[k]) == IdsOn(f[k]) + {p, up} && Shows(g[k].value, p, d)
  {
    hide Sub, Insert, Ids, Tiled, Distinct, Shows, ChooseCut, WindowChoice.FindContainer, CutRaises, FitsOn, DropSmall,
         Holds;
    assert IdsOn(f[k]) <= AllIds(f);
    DragInserted(f[k].value, d, p, up);
    var c := ContainerOn(f[k], d).value;
    var cut := ChooseCut(c.r, d);
    var m := InsertAll(f, c.id, cut.pos, cut.horizontal, cut.above, p, up);
    forall i | 0 <= i < |f| ensures Good(m[i]) && (i != k ==> m[i] == f[i]) {
      assert c.id in IdsOn(f[k]);
    }
    PassAllKeeps(m);
  }
}
