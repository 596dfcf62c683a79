/** What splitting, moving, deleting and cleaning up do to the layouts of all
    displays, and which of these undo each other. */
module WindowOps {
  import opened Tiling

  // ----- delete -----

  /** The split node that holds `n`. */
  ghost function Parent<N>(t: Tree<N>, n: N): (p: N)
    requires n in Ids(t) && n != t.id
    ensures p in Ids(t)
  {
    if t.top.id == n || t.bottom.id == n then t.id
    else if n in Ids(t.top) then Parent(t.top, n) else Parent(t.bottom, n)
  }

  ghost predicate ChildOf<N>(p: Tree<N>, n: N) {
    p.Split? && (p.top.id == n || p.bottom.id == n)
  }

  lemma {:induction false} ParentHolds<N>(t: Tree<N>, n: N)
    requires Distinct(t) && n in Ids(t) && n != t.id
    ensures ChildOf(Sub(t, Parent(t, n)), n)
    ensures var p := Sub(t, Parent(t, n)); Sub(t, n) == if p.top.id == n then p.top else p.bottom
    decreases t
  {
    if t.top.id != n && t.bottom.id != n {
      if n in Ids(t.top) {
        ParentHolds(t.top, n);
      } else {
        ParentHolds(t.bottom, n);
      }
    }
  }

  ghost function Sibling<N>(p: Tree<N>, n: N): Tree<N>
    requires ChildOf(p, n)
  {
    if p.top.id == n then p.bottom else p.top
  }

  /** The sibling of `n`, its near edge moved over the room of `n`. */
  ghost function Joined<N>(p: Tree<N>, n: N): Tree<N>
    requires ChildOf(p, n)
  {
    if p.top.id == n then
      if p.horizontal then Adjust(p.bottom, 0, -p.top.r.height, 0, p.top.r.height)
      else Adjust(p.bottom, -p.top.r.width, 0, p.top.r.width, 0)
    else
      if p.horizontal then Adjust(p.top, 0, 0, 0, p.bottom.r.height)
      else Adjust(p.top, 0, 0, p.bottom.r.width, 0)
  }

  ghost function Delete<N>(t: Tree<N>, n: N): Tree<N>
    requires Distinct(t) && n in Ids(t) && n != t.id
  {
    ParentHolds(t, n);
    Subst(t, Parent(t, n), Joined(Sub(t, Parent(t, n)), n))
  }

  lemma JoinedIsLayout<N>(p: Tree<N>, n: N)
    requires Tiled(p) && ChildOf(p, n)
    ensures Joined(p, n) == Layout(Sibling(p, n), p.r)
  {
    if p.top.id == n {
      if p.horizontal {
        AdjustIsLayout(p.bottom, 0, -p.top.r.height, 0, p.top.r.height);
      } else {
        AdjustIsLayout(p.bottom, -p.top.r.width, 0, p.top.r.width, 0);
      }
    } else {
      if p.horizontal {
        AdjustIsLayout(p.top, 0, 0, 0, p.bottom.r.height);
      } else {
        AdjustIsLayout(p.top, 0, 0, p.bottom.r.width, 0);
      }
    }
  }

  lemma JoinedKeeps<N>(p: Tree<N>, n: N)
    requires Tiled(p) && Distinct(p) && ChildOf(p, n)
    ensures var j := Joined(p, n); var c, o := if p.top.id == n then p.top else p.bottom, Sibling(p, n);
            && Tiled(j) && Distinct(j) && j.r == p.r && Ids(j) == Ids(o) && Size(j) == Size(o)
            && Ids(p) == {p.id} + Ids(c) + Ids(o) && p.id !in Ids(c) && p.id !in Ids(o) && Ids(c) !! Ids(o)
            && Size(p) == 1 + Size(c) + Size(o)
  {
    hide Joined, Adjust;
    JoinedIsLayout(p, n);
    LayoutIds(Sibling(p, n), p.r);
  }

  /** Deleting takes out the subtree at `n` and the split that held it, and the
      rest still tiles the same display. */
  lemma DeleteKeeps<N>(t: Tree<N>, n: N)
    requires Tiled(t) && Distinct(t) && n in Ids(t) && n != t.id
    ensures var d := Delete(t, n);
            && Tiled(d) && Distinct(d) && d.r == t.r
            && Ids(d) == Ids(t) - Ids(Sub(t, n)) - {Parent(t, n)}
            && Size(d) == Size(t) - Size(Sub(t, n)) - 1
  {
    hide Tiled, Distinct, Joined, Sibling, ChildOf, Ids, Size, Sub, Subst, Parent;
    ParentHolds(t, n);
    var p := Sub(t, Parent(t, n));
    SubDistinct(t, p.id);
    JoinedKeeps(p, n);
    SubstTiled(t, p.id, Joined(p, n));
    SubstIds(t, p.id, Joined(p, n));
  }

  // ----- move -----

  predicate Near(d: int) {
    -3 <= d <= 3
  }

  /** A split node with its split value moved to `to`, both children adjusted. */
  function MovedSplit<N>(s: Tree<N>, to: int): Tree<N>
    requires s.Split?
  {
    var d := to - s.at;
    if s.horizontal then
      s.(at := to, top := Adjust(s.top, 0, 0, 0, d), bottom := Adjust(s.bottom, 0, d, 0, -d))
    else
      s.(at := to, top := Adjust(s.top, 0, 0, d, 0), bottom := Adjust(s.bottom, d, 0, -d, 0))
  }

  predicate MoveFlags<N>(s: Tree<N>, to: int)
    requires s.Split?
  {
    var d := to - s.at;
    if s.horizontal then Flags(s.top, 0, 0, 0, d) || Flags(s.bottom, 0, d, 0, -d)
    else Flags(s.top, 0, 0, d, 0) || Flags(s.bottom, d, 0, -d, 0)
  }

  lemma MovedIsLayout<N>(s: Tree<N>, to: int)
    requires s.Split? && Tiled(s)
    ensures MovedSplit(s, to) == Layout(s.(at := to), s.r)
  {
    hide Adjust;
    var d := to - s.at;
    if s.horizontal {
      AdjustIsLayout(s.top, 0, 0, 0, d);
      AdjustIsLayout(s.bottom, 0, d, 0, -d);
    } else {
      AdjustIsLayout(s.top, 0, 0, d, 0);
      AdjustIsLayout(s.bottom, d, 0, -d, 0);
    }
  }

  /** Whether a request to move node `n` to (x, y) does anything. */
  ghost predicate Moves<N>(t: Tree<N>, n: N, x: int, y: int) {
    n in Ids(t) && var s := Sub(t, n); s.Split? && !Near((if s.horizontal then y else x) - s.at)
  }

  ghost function Target<N>(s: Tree<N>, x: int, y: int): int
    requires s.Split?
  {
    if s.horizontal then y else x
  }

  ghost function Move<N>(t: Tree<N>, n: N, x: int, y: int): Tree<N> {
    if Moves(t, n, x, y) then Subst(t, n, MovedSplit(Sub(t, n), Target(Sub(t, n), x, y))) else t
  }

  lemma MovedIds<N>(s: Tree<N>, to: int)
    requires s.Split? && Tiled(s) && Distinct(s)
    ensures var m := MovedSplit(s, to);
            Tiled(m) && Distinct(m) && Ids(m) == Ids(s) && Size(m) == Size(s) && m.r == s.r && m.id == s.id
  {
    MovedIsLayout(s, to);
    LayoutIds(s.(at := to), s.r);
  }

  lemma MoveKeeps<N>(t: Tree<N>, n: N, x: int, y: int)
    requires Tiled(t) && Distinct(t)
    ensures var m := Move(t, n, x, y); Tiled(m) && Distinct(m) && m.r == t.r && Ids(m) == Ids(t) && Size(m) == Size(t)
  {
    if Moves(t, n, x, y) {
      var s := Sub(t, n);
      SubDistinct(t, n);
      MovedIds(s, Target(s, x, y));
      SubstTiled(t, n, MovedSplit(s, Target(s, x, y)));
      SubstIds(t, n, MovedSplit(s, Target(s, x, y)));
    }
  }

  /** Moving a split away and back restores every rectangle. */
  lemma MoveBack<N>(t: Tree<N>, n: N, x: int, y: int)
    requires Tiled(t) && Distinct(t) && Moves(t, n, x, y)
    ensures var at := Sub(t, n).at; Move(Move(t, n, x, y), n, at, at) == t
    ensures var m := Move(t, n, x, y);
            && n in Ids(m) && Sub(m, n) == MovedSplit(Sub(t, n), Target(Sub(t, n), x, y))
            && Moves(m, n, Sub(t, n).at, Sub(t, n).at)
  {
    var s := Sub(t, n);
    var to := Target(s, x, y);
    SubDistinct(t, n);
    MovedIds(s, to);
    MovedIsLayout(s, to);
    SubstSubst(t, n, MovedSplit(s, to), MovedSplit(MovedSplit(s, to), s.at));
    MovedIsLayout(MovedSplit(s, to), s.at);
    var away := s.(at := to);
    Relayout(s.top, TopPart(s.r, to, s.horizontal), TopPart(s.r, s.at, s.horizontal));
    Relayout(s.bottom, BottomPart(s.r, to, s.horizontal), BottomPart(s.r, s.at, s.horizontal));
    TiledIsLayout(s);
  }

  /** The border goes to the new `y` if the parts lie one above the other and to the
      new `x` if they lie side by side, unless that is within three pixels; nodes that
      are no splits stay. */
  lemma MoveGoesTo<N>(t: Tree<N>, n: N, x: int, y: int)
    requires Tiled(t) && Distinct(t) && n in Ids(t)
    ensures Sub(t, n).Leaf? ==> Move(t, n, x, y) == t
    ensures Sub(t, n).Split? ==>
              var s := Sub(t, n); var to := if s.horizontal then y else x; var m := Move(t, n, x, y);
              && (-3 <= to - s.at <= 3 ==> m == t)
              && (!(-3 <= to - s.at <= 3) ==>
                    && n in Ids(m) && Sub(m, n) == Layout(s.(at := to), s.r)
                    && m == Subst(t, n, Layout(s.(at := to), s.r)))
  {
    var s := Sub(t, n);
    if Moves(t, n, x, y) {
      MoveBack(t, n, x, y);
      SubDistinct(t, n);
      MovedIsLayout(s, Target(s, x, y));
    }
  }

  // ----- split -----

  /** What the node itself becomes when it is cut at `pos`. */
  function CutRest<N>(s: Tree<N>, pos: int, horizontal: bool, above: bool): Tree<N> {
    var q := NewRect(s.r, pos, horizontal, above);
    if horizontal then
      (if above then Adjust(s, 0, q.height, 0, -q.height) else Adjust(s, 0, 0, 0, -q.height))
    else
      (if above then Adjust(s, q.width, 0, -q.width, 0) else Adjust(s, 0, 0, -q.width, 0))
  }

  /** A node cut in two at `pos`: the new window `p` on one side, the node itself,
      its edge moved, on the other, both below the new split node `up`. */
  function Cut<N>(s: Tree<N>, pos: int, horizontal: bool, above: bool, p: N, up: N): Tree<N> {
    var q := Leaf(p, NewRect(s.r, pos, horizontal, above));
    var rest := CutRest(s, pos, horizontal, above);
    if above then Split(up, s.r, pos, horizontal, q, rest) else Split(up, s.r, pos, horizontal, rest, q)
  }

  function NewRect(r: Rect, pos: int, horizontal: bool, above: bool): Rect {
    if above then TopPart(r, pos, horizontal) else BottomPart(r, pos, horizontal)
  }

  function RestRect(r: Rect, pos: int, horizontal: bool, above: bool): Rect {
    NewRect(r, pos, horizontal, !above)
  }

  predicate CutFlags<N>(s: Tree<N>, pos: int, horizontal: bool, above: bool) {
    var q := NewRect(s.r, pos, horizontal, above);
    if horizontal then
      (if above then Flags(s, 0, q.height, 0, -q.height) else Flags(s, 0, 0, 0, -q.height))
    else
      (if above then Flags(s, q.width, 0, -q.width, 0) else Flags(s, 0, 0, -q.width, 0))
  }

  /** Whether a split raises the flag: for the new window, whose rectangle was
      `before`, or for the node that is cut. */
  predicate SplitFlags<N>(s: Tree<N>, pos: int, horizontal: bool, above: bool, before: Rect) {
    var r := NewRect(s.r, pos, horizontal, above);
    (r != before && Small(r)) || CutFlags(s, pos, horizontal, above)
  }

  /** The split position must lie past the near edge. */
  predicate CutAllowed(r: Rect, pos: int, horizontal: bool) {
    pos > if horizontal then r.top else r.left
  }

  lemma CutIsLayout<N>(s: Tree<N>, pos: int, horizontal: bool, above: bool, p: N, up: N)
    requires Tiled(s)
    ensures var rest := Layout(s, RestRect(s.r, pos, horizontal, above));
            var q := Leaf(p, NewRect(s.r, pos, horizontal, above));
            Cut(s, pos, horizontal, above, p, up)
            == if above then Split(up, s.r, pos, horizontal, q, rest) else Split(up, s.r, pos, horizontal, rest, q)
  {
    hide Adjust, Layout, Tiled;
    var q := NewRect(s.r, pos, horizontal, above);
    var dl, dw := if above && !horizontal then q.width else 0, if horizontal then 0 else -q.width;
    var dt, dh := if above && horizontal then q.height else 0, if horizontal then -q.height else 0;
    AdjustIsLayout(s, dl, dt, dw, dh);
    assert CutRest(s, pos, horizontal, above) == Adjust(s, dl, dt, dw, dh);
    assert RestRect(s.r, pos, horizontal, above) == Moved(s.r, dl, dt, dw, dh);
  }

  lemma CutIds<N>(s: Tree<N>, pos: int, horizontal: bool, above: bool, p: N, up: N)
    requires Tiled(s) && Distinct(s) && p !in Ids(s) && up !in Ids(s) && p != up
    ensures var c := Cut(s, pos, horizontal, above, p, up);
            && Tiled(c) && Distinct(c) && c.r == s.r && c.id == up
            && Ids(c) == Ids(s) + {p, up} && Size(c) == Size(s) + 2
  {
    hide Adjust, Layout, Cut;
    CutIsLayout(s, pos, horizontal, above, p, up);
    LayoutIds(s, RestRect(s.r, pos, horizontal, above));
  }

  ghost function Insert<N>(t: Tree<N>, n: N, pos: int, horizontal: bool, above: bool, p: N, up: N): Tree<N>
    requires n in Ids(t)
  {
    Subst(t, n, Cut(Sub(t, n), pos, horizontal, above, p, up))
  }

  lemma InsertKeeps<N>(t: Tree<N>, n: N, pos: int, horizontal: bool, above: bool, p: N, up: N)
    requires Tiled(t) && Distinct(t) && n in Ids(t) && p !in Ids(t) && up !in Ids(t) && p != up
    ensures var c := Insert(t, n, pos, horizontal, above, p, up);
            Tiled(c) && Distinct(c) && c.r == t.r && Ids(c) == Ids(t) + {p, up} && Size(c) == Size(t) + 2
  {
    var s := Sub(t, n);
    SubDistinct(t, n);
    CutIds(s, pos, horizontal, above, p, up);
    SubstTiled(t, n, Cut(s, pos, horizontal, above, p, up));
    SubstIds(t, n, Cut(s, pos, horizontal, above, p, up));
  }

  /** The new window gets the room on its side of `pos`, the node that was cut is
      laid out afresh in the room on the other side. */
  lemma InsertPlaces<N>(t: Tree<N>, n: N, pos: int, horizontal: bool, above: bool, p: N, up: N)
    requires Tiled(t) && Distinct(t) && n in Ids(t) && p !in Ids(t) && up !in Ids(t) && p != up
    ensures var r := Sub(t, n).r; var c := Insert(t, n, pos, horizontal, above, p, up);
            var first := if horizontal then Rect(r.top, r.left, r.width, pos - r.top)
                         else Rect(r.top, r.left, pos - r.left, r.height);
            var second := if horizontal then Rect(pos, r.left, r.width, r.top + r.height - pos)
                          else Rect(r.top, pos, r.left + r.width - pos, r.height);
            && p in Ids(c) && n in Ids(c)
            && Sub(c, p) == Leaf(p, if above then first else second)
            && Sub(c, n) == Layout(Sub(t, n), if above then second else first)
  {
    hide Layout, Cut, Tiled, Distinct, Subst, Ids, Sub;
    var s := Sub(t, n);
    var cut := Cut(s, pos, horizontal, above, p, up);
    SubDistinct(t, n);
    CutPlaces(s, pos, horizontal, above, p, up);
    InsertKeeps(t, n, pos, horizontal, above, p, up);
    SubOfSubst(t, n, cut, p);
    SubOfSubst(t, n, cut, up);
    SubBelow(Insert(t, n, pos, horizontal, above, p, up), up, n);
  }

  lemma CutPlaces<N>(s: Tree<N>, pos: int, horizontal: bool, above: bool, p: N, up: N)
    requires Tiled(s) && Distinct(s) && p !in Ids(s) && up !in Ids(s) && p != up
    ensures var r, c := s.r, Cut(s, pos, horizontal, above, p, up);
            var first := if horizontal then Rect(r.top, r.left, r.width, pos - r.top)
                         else Rect(r.top, r.left, pos - r.left, r.height);
            var second := if horizontal then Rect(pos, r.left, r.width, r.top + r.height - pos)
                          else Rect(r.top, pos, r.left + r.width - pos, r.height);
            && p in Ids(c) && up in Ids(c) && s.id in Ids(c) && Sub(c, up) == c
            && Sub(c, p) == Leaf(p, if above then first else second)
            && Sub(c, s.id) == Layout(s, if above then second else first)
  {
    hide Layout, Cut, Tiled;
    CutIsLayout(s, pos, horizontal, above, p, up);
    LayoutIds(s, RestRect(s.r, pos, horizontal, above));
    HeadIn(s);
  }

  lemma HeadIn<N>(t: Tree<N>)
    ensures t.id in Ids(t)
  {
  }

  lemma {:induction false} SubBelow<N>(t: Tree<N>, m: N, n: N)
    requires Distinct(t) && m in Ids(t) && n in Ids(Sub(t, m))
    ensures n in Ids(t) && Sub(t, n) == Sub(Sub(t, m), n)
    decreases t
  {
    if t.id != m {
      var child := if m in Ids(t.top) then t.top else t.bottom;
      SubBelow(child, m, n);
    }
  }

  /** Deleting the new window right after the split restores the whole tree. */
  lemma InsertThenDelete<N>(t: Tree<N>, n: N, pos: int, horizontal: bool, above: bool, p: N, up: N)
    requires Tiled(t) && Distinct(t) && n in Ids(t) && p !in Ids(t) && up !in Ids(t) && p != up
    ensures var c := Insert(t, n, pos, horizontal, above, p, up);
            p in Ids(c) && p != c.id && Distinct(c) && Delete(c, p) == t
  {
    var s := Sub(t, n);
    var cut := Cut(s, pos, horizontal, above, p, up);
    var c := Insert(t, n, pos, horizontal, above, p, up);
    InsertKeeps(t, n, pos, horizontal, above, p, up);
    SubDistinct(t, n);
    CutIds(s, pos, horizontal, above, p, up);
    CutIsLayout(s, pos, horizontal, above, p, up);
    assert p != c.id;
    SubstSubst(t, n, cut, s);
    ParentHolds(c, p);
    OnlyParent(c, p, up);
    JoinedIsLayout(cut, p);
    Relayout(s, RestRect(s.r, pos, horizontal, above), s.r);
    TiledIsLayout(s);
  }

  lemma ChildProper<N>(t: Tree<N>, n: N, p: N)
    requires Distinct(t) && p in Ids(t) && ChildOf(Sub(t, p), n)
    ensures n in Ids(t) && n != t.id
  {
    SubDistinct(t, p);
    if p != t.id {
      SubProper(t, p);
    }
  }

  lemma {:induction false} OnlyParent<N>(t: Tree<N>, n: N, p: N)
    requires Distinct(t) && n in Ids(t) && n != t.id && p in Ids(t) && ChildOf(Sub(t, p), n)
    ensures Parent(t, n) == p
    decreases t
  {
    if t.id != p {
      ChildProper(if p in Ids(t.top) then t.top else t.bottom, n, p);
      if p in Ids(t.top) {
        OnlyParent(t.top, n, p);
      } else {
        OnlyParent(t.bottom, n, p);
      }
    }
  }
}
