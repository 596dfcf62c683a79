/** The window layout as a value: a binary tree of rectangles, and what each
    window operation does to it. Extents are signed; minimum sizes are a
    separate predicate. `N` is whatever identifies a node. */
module Tiling {
  datatype Rect = Rect(top: int, left: int, width: int, height: int)

  /** A horizontal split puts `top` above `bottom`, a vertical one to its left;
      `at` is the coordinate where they meet. */
  datatype Tree<N> =
    | Leaf(id: N, r: Rect)
    | Split(id: N, r: Rect, at: int, horizontal: bool, top: Tree<N>, bottom: Tree<N>)

  const MIN_WINDOW_WIDTH := 40
  const MIN_WINDOW_HEIGHT := 50

  predicate Small(r: Rect) {
    r.width < MIN_WINDOW_WIDTH || r.height < MIN_WINDOW_HEIGHT
  }

  predicate Covers(r: Rect, x: int, y: int) {
    r.left <= x < r.left + r.width && r.top <= y < r.top + r.height
  }

  // ----- identities -----

  ghost function Ids<N>(t: Tree<N>): set<N> {
    if t.Leaf? then {t.id} else {t.id} + Ids(t.top) + Ids(t.bottom)
  }

  ghost predicate Distinct<N>(t: Tree<N>) {
    t.Split? ==>
      && t.id !in Ids(t.top) && t.id !in Ids(t.bottom) && Ids(t.top) !! Ids(t.bottom)
      && Distinct(t.top) && Distinct(t.bottom)
  }

  function Size<N>(t: Tree<N>): nat {
    if t.Leaf? then 1 else 1 + Size(t.top) + Size(t.bottom)
  }

  /** The subtree at node `n`. */
  ghost function Sub<N>(t: Tree<N>, n: N): (s: Tree<N>)
    requires n in Ids(t)
    ensures s.id == n && Ids(s) <= Ids(t)
  {
    if t.id == n then t else if n in Ids(t.top) then Sub(t.top, n) else Sub(t.bottom, n)
  }

  /** The tree with the subtree at `n` replaced by `s`. */
  ghost function Subst<N>(t: Tree<N>, n: N, s: Tree<N>): Tree<N> {
    if t.id == n then s
    else if t.Leaf? then t
    else t.(top := Subst(t.top, n, s), bottom := Subst(t.bottom, n, s))
  }

  // ----- tiling -----

  function TopPart(r: Rect, at: int, horizontal: bool): Rect {
    if horizontal then r.(height := at - r.top) else r.(width := at - r.left)
  }

  function BottomPart(r: Rect, at: int, horizontal: bool): Rect {
    if horizontal then r.(top := at, height := r.top + r.height - at)
    else r.(left := at, width := r.left + r.width - at)
  }

  /** The children of every split fill its rectangle and meet at its split value. */
  predicate Tiled<N>(t: Tree<N>) {
    t.Split? ==>
      && t.top.r == TopPart(t.r, t.at, t.horizontal)
      && t.bottom.r == BottomPart(t.r, t.at, t.horizontal)
      && Tiled(t.top) && Tiled(t.bottom)
  }

  /** The tree laid out afresh in `r` from its split values alone. */
  function Layout<N>(t: Tree<N>, r: Rect): (s: Tree<N>)
    ensures s.id == t.id && s.r == r && Tiled(s) && s.Split? == t.Split?
    decreases t
  {
    if t.Leaf? then Leaf(t.id, r)
    else Split(t.id, r, t.at, t.horizontal,
               Layout(t.top, TopPart(r, t.at, t.horizontal)), Layout(t.bottom, BottomPart(r, t.at, t.horizontal)))
  }

  lemma {:induction false} TiledIsLayout<N>(t: Tree<N>)
    requires Tiled(t)
    ensures t == Layout(t, t.r)
  {
    if t.Split? {
      TiledIsLayout(t.top);
      TiledIsLayout(t.bottom);
    }
  }

  lemma {:induction false} Relayout<N>(t: Tree<N>, r: Rect, q: Rect)
    ensures Layout(Layout(t, r), q) == Layout(t, q)
    decreases t
  {
    if t.Split? {
      Relayout(t.top, TopPart(r, t.at, t.horizontal), TopPart(q, t.at, t.horizontal));
      Relayout(t.bottom, BottomPart(r, t.at, t.horizontal), BottomPart(q, t.at, t.horizontal));
    }
  }

  lemma {:induction false} LayoutIds<N>(t: Tree<N>, r: Rect)
    ensures Ids(Layout(t, r)) == Ids(t) && Size(Layout(t, r)) == Size(t)
    ensures Distinct(t) ==> Distinct(Layout(t, r))
    decreases t
  {
    if t.Split? {
      LayoutIds(t.top, TopPart(r, t.at, t.horizontal));
      LayoutIds(t.bottom, BottomPart(r, t.at, t.horizontal));
    }
  }

  // ----- moving an edge -----

  function Moved(r: Rect, dl: int, dt: int, dw: int, dh: int): Rect {
    Rect(r.top + dt, r.left + dl, r.width + dw, r.height + dh)
  }

  /** The recursive edge mover, with the source's own choice of children. */
  function Adjust<N>(t: Tree<N>, dl: int, dt: int, dw: int, dh: int): Tree<N> {
    if t.Leaf? then Leaf(t.id, Moved(t.r, dl, dt, dw, dh))
    else
      var here, across := if t.horizontal then dt else dl, if t.horizontal then dw else dh;
      Split(t.id, Moved(t.r, dl, dt, dw, dh), t.at, t.horizontal,
            if here != 0 || across != 0 then Adjust(t.top, dl, dt, dw, dh) else t.top,
            if here == 0 || across != 0 then Adjust(t.bottom, dl, dt, dw, dh) else t.bottom)
  }

  /** Whether the edge mover meets a window that it leaves too small. */
  predicate Flags<N>(t: Tree<N>, dl: int, dt: int, dw: int, dh: int) {
    if t.Leaf? then Moved(t.r, dl, dt, dw, dh) != t.r && Small(Moved(t.r, dl, dt, dw, dh))
    else
      var here, across := if t.horizontal then dt else dl, if t.horizontal then dw else dh;
      || ((here != 0 || across != 0) && Flags(t.top, dl, dt, dw, dh))
      || ((here == 0 || across != 0) && Flags(t.bottom, dl, dt, dw, dh))
  }

  /** Only the left, right, top or bottom edge moves. */
  predicate OneEdge(dl: int, dt: int, dw: int, dh: int) {
    || (dt == dh == 0 && (dl == 0 || dw == -dl))
    || (dl == dw == 0 && (dt == 0 || dh == -dt))
  }

  lemma PartsMove(r: Rect, at: int, horizontal: bool, dl: int, dt: int, dw: int, dh: int)
    requires OneEdge(dl, dt, dw, dh)
    ensures var here, across := if horizontal then dt else dl, if horizontal then dw else dh;
            var q, a, b := Moved(r, dl, dt, dw, dh), TopPart(r, at, horizontal), BottomPart(r, at, horizontal);
            && TopPart(q, at, horizontal) == (if here != 0 || across != 0 then Moved(a, dl, dt, dw, dh) else a)
            && BottomPart(q, at, horizontal) == (if here == 0 || across != 0 then Moved(b, dl, dt, dw, dh) else b)
  {
  }

  /** Moving one edge incrementally gives what laying out afresh gives. */
  lemma {:induction false} AdjustIsLayout<N>(t: Tree<N>, dl: int, dt: int, dw: int, dh: int)
    requires Tiled(t) && OneEdge(dl, dt, dw, dh)
    ensures Adjust(t, dl, dt, dw, dh) == Layout(t, Moved(t.r, dl, dt, dw, dh))
    decreases t
  {
    hide TopPart, BottomPart, Moved, OneEdge;
    if t.Split? {
      PartsMove(t.r, t.at, t.horizontal, dl, dt, dw, dh);
      AdjustIsLayout(t.top, dl, dt, dw, dh);
      AdjustIsLayout(t.bottom, dl, dt, dw, dh);
      TiledIsLayout(t.top);
      TiledIsLayout(t.bottom);
    }
  }

  /** No node is below the minimum size. */
  predicate Fits<N>(t: Tree<N>) {
    !Small(t.r) && (t.Split? ==> Fits(t.top) && Fits(t.bottom))
  }

  /** That is: every node is at least 40 wide and 50 high. */
  lemma {:induction false} FitsMeans<N>(t: Tree<N>)
    requires Distinct(t)
    ensures Fits(t) <==> forall n :: n in Ids(t) ==> Sub(t, n).r.width >= 40 && Sub(t, n).r.height >= 50
    decreases t
  {
    assert t.id in Ids(t) && Sub(t, t.id) == t;
    if t.Split? {
      FitsMeans(t.top);
      FitsMeans(t.bottom);
      assert forall n :: n in Ids(t.top) ==> n in Ids(t) && Sub(t, n) == Sub(t.top, n);
      assert forall n :: n in Ids(t.bottom) ==> n in Ids(t) && Sub(t, n) == Sub(t.bottom, n);
    }
  }

  predicate LeavesFit<N>(t: Tree<N>) {
    if t.Leaf? then !Small(t.r) else LeavesFit(t.top) && LeavesFit(t.bottom)
  }

  lemma {:induction false} FittingLeaves<N>(t: Tree<N>)
    requires Tiled(t)
    ensures LeavesFit(t) <==> Fits(t)
  {
    if t.Split? {
      FittingLeaves(t.top);
      FittingLeaves(t.bottom);
    }
  }

  /** When every window was large enough before the edge moved, the flag tells
      exactly whether one is too small afterwards. */
  lemma {:induction false} FlagsExact<N>(t: Tree<N>, dl: int, dt: int, dw: int, dh: int)
    requires LeavesFit(t)
    ensures Flags(t, dl, dt, dw, dh) <==> !LeavesFit(Adjust(t, dl, dt, dw, dh))
    decreases t
  {
    if t.Split? {
      FlagsExact(t.top, dl, dt, dw, dh);
      FlagsExact(t.bottom, dl, dt, dw, dh);
    }
  }

  lemma {:induction false} AdjustIds<N>(t: Tree<N>, dl: int, dt: int, dw: int, dh: int)
    ensures var a := Adjust(t, dl, dt, dw, dh); a.id == t.id && Ids(a) == Ids(t) && (Distinct(t) ==> Distinct(a))
    decreases t
  {
    if t.Split? {
      AdjustIds(t.top, dl, dt, dw, dh);
      AdjustIds(t.bottom, dl, dt, dw, dh);
    }
  }

  /** The edge moves so that the window `n` gets another rectangle, a small one. */
  ghost predicate TurnsSmall<N>(t: Tree<N>, n: N, dl: int, dt: int, dw: int, dh: int) {
    && n in Ids(t) && n in Ids(Adjust(t, dl, dt, dw, dh)) && Sub(t, n).Leaf?
    && var r := Sub(Adjust(t, dl, dt, dw, dh), n).r; r != Sub(t, n).r && Small(r)
  }

  /** Whatever the windows were before, the flag tells exactly whether some window
      changes and is too small then. */
  lemma {:induction false} FlagsMean<N>(t: Tree<N>, dl: int, dt: int, dw: int, dh: int)
    requires Distinct(t)
    ensures Flags(t, dl, dt, dw, dh) <==> exists n :: n in Ids(t) && TurnsSmall(t, n, dl, dt, dw, dh)
    decreases t
  {
    hide Moved, Small;
    if t.Leaf? {
      assert Flags(t, dl, dt, dw, dh) <==> TurnsSmall(t, t.id, dl, dt, dw, dh);
    } else {
      FlagsMean(t.top, dl, dt, dw, dh);
      FlagsMean(t.bottom, dl, dt, dw, dh);
      AdjustIds(t.top, dl, dt, dw, dh);
      AdjustIds(t.bottom, dl, dt, dw, dh);
      var here, across := if t.horizontal then dt else dl, if t.horizontal then dw else dh;
      forall n | n in Ids(t)
        ensures TurnsSmall(t, n, dl, dt, dw, dh)
                <==> ((here != 0 || across != 0) && n in Ids(t.top) && TurnsSmall(t.top, n, dl, dt, dw, dh))
                     || ((here == 0 || across != 0) && n in Ids(t.bottom) && TurnsSmall(t.bottom, n, dl, dt, dw, dh))
      {
      }
    }
  }

  // ----- the windows partition the display -----

  function LeavesAt<N>(t: Tree<N>, x: int, y: int): nat {
    if t.Leaf? then (if Covers(t.r, x, y) then 1 else 0) else LeavesAt(t.top, x, y) + LeavesAt(t.bottom, x, y)
  }

  predicate LeavesNonNegative<N>(t: Tree<N>) {
    if t.Leaf? then t.r.width >= 0 && t.r.height >= 0 else LeavesNonNegative(t.top) && LeavesNonNegative(t.bottom)
  }

  lemma {:induction false} NonNegative<N>(t: Tree<N>)
    requires Tiled(t) && LeavesNonNegative(t)
    ensures t.r.width >= 0 && t.r.height >= 0
  {
    if t.Split? {
      NonNegative(t.top);
      NonNegative(t.bottom);
    }
  }

  /** Every point of the display is in exactly one window, every other point in none. */
  lemma {:induction false} Partition<N>(t: Tree<N>, x: int, y: int)
    requires Tiled(t) && LeavesNonNegative(t)
    ensures LeavesAt(t, x, y) == if Covers(t.r, x, y) then 1 else 0
    decreases t
  {
    if t.Split? {
      Partition(t.top, x, y);
      Partition(t.bottom, x, y);
      NonNegative(t.top);
      NonNegative(t.bottom);
    }
  }

  /** The node under the cursor: a window, or the split whose border it is on. */
  function Descend<N>(t: Tree<N>, x: int, y: int, border: int): Tree<N> {
    if t.Leaf? then t
    else
      var diff := t.at - if t.horizontal then y else x;
      if diff < -border then Descend(t.bottom, x, y, border)
      else if diff >= border then Descend(t.top, x, y, border)
      else t
  }

  /** A descent that reaches a window reaches the one window at the point. */
  lemma {:induction false} DescendFinds<N>(t: Tree<N>, x: int, y: int, border: int)
    requires Tiled(t) && Covers(t.r, x, y) && border >= 1
    ensures var d := Descend(t, x, y, border);
            && d.id in Ids(t) && Covers(d.r, x, y)
            && (d.Split? ==> -border <= d.at - (if d.horizontal then y else x) < border)
            && (LeavesNonNegative(t) ==> LeavesAt(t, x, y) == 1)
    decreases t
  {
    if t.Split? {
      var diff := t.at - if t.horizontal then y else x;
      if diff < -border {
        DescendFinds(t.bottom, x, y, border);
      } else if diff >= border {
        DescendFinds(t.top, x, y, border);
      }
    }
    if LeavesNonNegative(t) {
      Partition(t, x, y);
    }
  }

  lemma {:induction false} SubOfDescend<N>(t: Tree<N>, x: int, y: int, border: int)
    requires Distinct(t)
    ensures var d := Descend(t, x, y, border); d.id in Ids(t) && Sub(t, d.id) == d
    decreases t
  {
    if t.Split? {
      SubOfDescend(t.top, x, y, border);
      SubOfDescend(t.bottom, x, y, border);
    }
  }

  /** The point lies on the border that node `n` keeps between its parts. */
  ghost predicate OnBorder<N>(t: Tree<N>, n: N, x: int, y: int, border: int) {
    && n in Ids(t) && Sub(t, n).Split? && Covers(Sub(t, n).r, x, y)
    && -border <= Sub(t, n).at - (if Sub(t, n).horizontal then y else x) < border
  }

  lemma {:induction false} SubCovers<N>(t: Tree<N>, n: N, x: int, y: int)
    requires Tiled(t) && LeavesNonNegative(t) && n in Ids(t) && Covers(Sub(t, n).r, x, y)
    ensures Covers(t.r, x, y)
    decreases t
  {
    if t.id != n {
      NonNegative(t.top);
      NonNegative(t.bottom);
      SubCovers(if n in Ids(t.top) then t.top else t.bottom, n, x, y);
    }
  }

  /** The descent stops at the outermost border the point lies on: it ends in a
      window exactly if the point is on no border, and otherwise in the split around
      all others on whose border the point is. */
  lemma {:induction false} DescendStops<N>(t: Tree<N>, x: int, y: int, border: int)
    requires Tiled(t) && Distinct(t) && LeavesNonNegative(t) && Covers(t.r, x, y) && border >= 1
    ensures var d := Descend(t, x, y, border);
            && (d.Leaf? <==> forall n :: n in Ids(t) ==> !OnBorder(t, n, x, y, border))
            && (d.Split? ==> OnBorder(t, d.id, x, y, border) && d == Sub(t, d.id))
            && forall n :: n in Ids(t) && OnBorder(t, n, x, y, border) ==> n in Ids(d)
    decreases t
  {
    hide Covers, OnBorder;
    if t.Split? {
      var diff := t.at - if t.horizontal then y else x;
      HeadBorder(t, x, y, border);
      if diff < -border || diff >= border {
        var child, other := if diff < 0 then t.bottom else t.top, if diff < 0 then t.top else t.bottom;
        OneChildCovers(t, x, y);
        DescendStops(child, x, y, border);
        forall n | n in Ids(t)
          ensures OnBorder(t, n, x, y, border) <==> n in Ids(child) && OnBorder(child, n, x, y, border)
        {
          BorderBelow(t, child, other, n, x, y, border);
        }
      }
    } else {
      HeadBorder(t, x, y, border);
    }
  }

  lemma HeadBorder<N>(t: Tree<N>, x: int, y: int, border: int)
    requires Covers(t.r, x, y)
    ensures t.id in Ids(t) && Sub(t, t.id) == t
    ensures OnBorder(t, t.id, x, y, border)
            <==> t.Split? && -border <= t.at - (if t.horizontal then y else x) < border
  {
  }

  lemma OneChildCovers<N>(t: Tree<N>, x: int, y: int)
    requires Tiled(t) && LeavesNonNegative(t) && Covers(t.r, x, y) && t.Split?
    ensures Covers(t.top.r, x, y) <==> t.at > if t.horizontal then y else x
    ensures Covers(t.bottom.r, x, y) <==> t.at <= if t.horizontal then y else x
  {
    NonNegative(t.top);
    NonNegative(t.bottom);
  }

  /** Borders below a split are borders of the part that holds the point. */
  lemma BorderBelow<N>(t: Tree<N>, child: Tree<N>, other: Tree<N>, n: N, x: int, y: int, border: int)
    requires Tiled(t) && Distinct(t) && LeavesNonNegative(t) && t.Split? && n in Ids(t)
    requires (child == t.top && other == t.bottom) || (child == t.bottom && other == t.top)
    requires !Covers(other.r, x, y) && !OnBorder(t, t.id, x, y, border)
    ensures OnBorder(t, n, x, y, border) <==> n in Ids(child) && OnBorder(child, n, x, y, border)
    ensures n in Ids(child) ==> Sub(t, n) == Sub(child, n)
  {
    hide Covers, Tiled;
    if n in Ids(other) && Covers(Sub(other, n).r, x, y) {
      TiledParts(t);
      SubCovers(other, n, x, y);
    }
  }

  lemma TiledParts<N>(t: Tree<N>)
    requires Tiled(t) && t.Split?
    ensures Tiled(t.top) && Tiled(t.bottom)
  {
  }

  // ----- substitution -----

  lemma {:induction false} SubstAbsent<N>(t: Tree<N>, n: N, s: Tree<N>)
    requires n !in Ids(t)
    ensures Subst(t, n, s) == t
    decreases t
  {
    if t.Split? {
      SubstAbsent(t.top, n, s);
      SubstAbsent(t.bottom, n, s);
    }
  }

  /** Replacing a subtree by a tiled one with the same rectangle keeps the tiling. */
  lemma {:induction false} SubstTiled<N>(t: Tree<N>, n: N, s: Tree<N>)
    requires Tiled(t) && Distinct(t) && n in Ids(t) && Tiled(s) && s.r == Sub(t, n).r
    ensures Tiled(Subst(t, n, s)) && Subst(t, n, s).r == t.r
    decreases t
  {
    if t.id != n {
      if n in Ids(t.top) {
        SubstTiled(t.top, n, s);
        SubstAbsent(t.bottom, n, s);
      } else {
        SubstTiled(t.bottom, n, s);
        SubstAbsent(t.top, n, s);
      }
    }
  }

  lemma {:induction false} SubDistinct<N>(t: Tree<N>, n: N)
    requires Distinct(t) && n in Ids(t)
    ensures Distinct(Sub(t, n)) && (Tiled(t) ==> Tiled(Sub(t, n))) && Size(Sub(t, n)) <= Size(t)
    ensures Subst(t, n, Sub(t, n)) == t
    decreases t
  {
    if t.id != n {
      if n in Ids(t.top) {
        SubDistinct(t.top, n);
        SubstAbsent(t.bottom, n, Sub(t.top, n));
      } else {
        SubDistinct(t.bottom, n);
        SubstAbsent(t.top, n, Sub(t.bottom, n));
      }
    }
  }

  lemma {:induction false} SubstIds<N>(t: Tree<N>, n: N, s: Tree<N>)
    requires Distinct(t) && n in Ids(t) && Distinct(s) && Ids(s) !! (Ids(t) - Ids(Sub(t, n)))
    ensures Distinct(Subst(t, n, s))
    ensures Ids(Subst(t, n, s)) == Ids(t) - Ids(Sub(t, n)) + Ids(s)
    ensures Size(Subst(t, n, s)) == Size(t) - Size(Sub(t, n)) + Size(s)
    decreases t
  {
    if t.id != n {
      var inTop := n in Ids(t.top);
      var child, other := if inTop then t.top else t.bottom, if inTop then t.bottom else t.top;
      assert Ids(child) - Ids(Sub(t, n)) <= Ids(t) - Ids(Sub(t, n));
      SubstIds(child, n, s);
      SubstAbsent(other, n, s);
      SubProper(t, n);
      var u := Subst(t, n, s);
      hide Sub, Subst;
      WithChild(t, u, if inTop then u.top else u.bottom, other);
    }
  }

  /** The parts of a split of which one child has been replaced. */
  lemma WithChild<N>(t: Tree<N>, u: Tree<N>, c: Tree<N>, other: Tree<N>)
    requires t.Split? && u.Split? && u.id == t.id && Distinct(t) && (other == t.top || other == t.bottom)
    requires if other == t.bottom then u.top == c && u.bottom == other else u.top == other && u.bottom == c
    ensures var was := if other == t.bottom then t.top else t.bottom;
            && Ids(t) == {t.id} + Ids(was) + Ids(other) && Ids(was) !! Ids(other)
            && t.id !in Ids(was) && t.id !in Ids(other)
            && Ids(u) == {t.id} + Ids(c) + Ids(other)
            && (Distinct(c) && t.id !in Ids(c) && Ids(c) !! Ids(other) ==> Distinct(u))
            && Size(t) == 1 + Size(was) + Size(other) && Size(u) == 1 + Size(c) + Size(other)
  {
  }

  lemma {:induction false} SubOfSubst<N>(t: Tree<N>, n: N, s: Tree<N>, p: N)
    requires Distinct(t) && n in Ids(t) && p in Ids(s) && p !in Ids(t)
    ensures p in Ids(Subst(t, n, s)) && Sub(Subst(t, n, s), p) == Sub(s, p)
    decreases t
  {
    if t.id != n {
      if n in Ids(t.top) {
        SubOfSubst(t.top, n, s, p);
        SubstAbsent(t.bottom, n, s);
      } else {
        SubOfSubst(t.bottom, n, s, p);
        SubstAbsent(t.top, n, s);
      }
    }
  }

  lemma {:induction false} SubstSubst<N>(t: Tree<N>, n: N, s: Tree<N>, u: Tree<N>)
    requires Distinct(t) && n in Ids(t)
    requires Ids(s) !! (Ids(t) - Ids(Sub(t, n)))
    ensures Subst(Subst(t, n, s), s.id, u) == Subst(t, n, u)
    ensures s.id in Ids(Subst(t, n, s)) && Sub(Subst(t, n, s), s.id) == s
    decreases t
  {
    if t.id != n {
      assert t.id in Ids(t) - Ids(Sub(t, n)) by { SubProper(t, n); }
      if n in Ids(t.top) {
        assert Ids(t.top) - Ids(Sub(t, n)) <= Ids(t) - Ids(Sub(t, n));
        SubstSubst(t.top, n, s, u);
        SubstAbsent(t.bottom, n, s);
        assert s.id !in Ids(t.bottom);
        SubstAbsent(t.bottom, s.id, u);
        SubstAbsent(t.bottom, n, u);
      } else {
        assert Ids(t.bottom) - Ids(Sub(t, n)) <= Ids(t) - Ids(Sub(t, n));
        SubstSubst(t.bottom, n, s, u);
        SubstAbsent(t.top, n, s);
        assert s.id !in Ids(t.top);
        SubstAbsent(t.top, s.id, u);
        SubstAbsent(t.top, n, u);
      }
    }
  }

  lemma SubProper<N>(t: Tree<N>, n: N)
    requires Distinct(t) && n in Ids(t) && n != t.id
    ensures t.id !in Ids(Sub(t, n))
  {
  }
}
