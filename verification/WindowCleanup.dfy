/** Removing windows that an operation left too small: one pass, the loop that
    repeats passes, and exactly when a single pass is enough. */
module WindowCleanup {
  import opened Optional
  import opened Tiling
  import opened WindowOps

  /** The first node in preorder that is too small. */
  ghost function FirstSmall<N>(t: Tree<N>): Option<N> {
    if Small(t.r) then Some(t.id)
    else if t.Leaf? then None
    else if FirstSmall(t.top).Some? then FirstSmall(t.top)
    else FirstSmall(t.bottom)
  }

  lemma {:induction false} FirstSmallNone<N>(t: Tree<N>)
    ensures FirstSmall(t).None? <==> Fits(t)
    decreases t
  {
    if t.Split? {
      FirstSmallNone(t.top);
      FirstSmallNone(t.bottom);
    }
  }

  /** The nodes of a layout, every split before its parts and the upper or left part
      before the other one. */
  ghost function Preorder<N>(t: Tree<N>): seq<N> {
    [t.id] + if t.Leaf? then [] else Preorder(t.top) + Preorder(t.bottom)
  }

  lemma {:induction false} PreorderIds<N>(t: Tree<N>, i: nat)
    requires i < |Preorder(t)|
    ensures Preorder(t)[i] in Ids(t)
    decreases t
  {
    if i > 0 {
      if i <= |Preorder(t.top)| {
        PreorderIds(t.top, i - 1);
      } else {
        PreorderIds(t.bottom, i - 1 - |Preorder(t.top)|);
      }
    }
  }

  /** The node that is deleted is too small and none before it is. */
  lemma {:induction false} FirstSmallIsFirst<N>(t: Tree<N>) returns (k: nat)
    requires FirstSmall(t).Some? && Distinct(t)
    ensures k < |Preorder(t)| && Preorder(t)[k] == FirstSmall(t).value
    ensures forall i :: 0 <= i <= k ==> Preorder(t)[i] in Ids(t) && (Small(Sub(t, Preorder(t)[i]).r) <==> i == k)
    decreases t
  {
    if Small(t.r) {
      k := 0;
    } else {
      var n := |Preorder(t.top)|;
      if FirstSmall(t.top).Some? {
        k := FirstSmallIsFirst(t.top);
        assert forall i :: 0 < i <= k + 1 ==> Preorder(t)[i] == Preorder(t.top)[i - 1];
        k := k + 1;
      } else {
        k := FirstSmallIsFirst(t.bottom);
        forall i | 0 < i <= n
          ensures Preorder(t)[i] in Ids(t) && !Small(Sub(t, Preorder(t)[i]).r)
        {
          assert Preorder(t)[i] == Preorder(t.top)[i - 1];
          PreorderIds(t.top, i - 1);
          FirstSmallNone(t.top);
          FittingParts(t.top, Preorder(t)[i]);
        }
        assert forall i :: n < i <= k + n + 1 ==> Preorder(t)[i] == Preorder(t.bottom)[i - 1 - n];
        k := k + n + 1;
      }
    }
  }

  lemma {:induction false} FittingParts<N>(t: Tree<N>, n: N)
    requires Fits(t) && n in Ids(t)
    ensures !Small(Sub(t, n).r)
    decreases t
  {
    if t.id != n {
      FittingParts(if n in Ids(t.top) then t.top else t.bottom, n);
    }
  }

  lemma {:induction false} FirstSmallIsSmall<N>(t: Tree<N>)
    requires FirstSmall(t).Some? && Distinct(t)
    ensures var n := FirstSmall(t).value;
            n in Ids(t) && Small(Sub(t, n).r) && (n == t.id <==> Small(t.r))
    decreases t
  {
    if t.Split? && !Small(t.r) {
      if FirstSmall(t.top).Some? {
        FirstSmallIsSmall(t.top);
      } else {
        FirstSmallIsSmall(t.bottom);
      }
    }
  }

  // ----- one display -----

  ghost predicate Good<N>(o: Option<Tree<N>>) {
    o.Some? ==> Tiled(o.value) && Distinct(o.value)
  }

  ghost function DeleteOn<N>(o: Option<Tree<N>>, n: N): Option<Tree<N>>
    requires Good(o)
  {
    if o.None? || n !in Ids(o.value) then o
    else if n == o.value.id then None
    else Some(Delete(o.value, n))
  }

  /** What one clean-up pass does to one display. */
  ghost function DropSmall<N>(o: Option<Tree<N>>): Option<Tree<N>>
    requires Good(o)
  {
    if o.None? || FirstSmall(o.value).None? then o else DeleteOn(o, FirstSmall(o.value).value)
  }

  ghost predicate FitsOn<N>(o: Option<Tree<N>>) {
    o.Some? ==> Fits(o.value)
  }

  ghost function SizeOn<N>(o: Option<Tree<N>>): nat {
    if o.None? then 0 else Size(o.value)
  }

  ghost function IdsOn<N>(o: Option<Tree<N>>): set<N> {
    if o.None? then {} else Ids(o.value)
  }

  lemma DeleteOnKeeps<N>(o: Option<Tree<N>>, n: N)
    requires Good(o)
    ensures var d := DeleteOn(o, n);
            && Good(d) && IdsOn(d) <= IdsOn(o) && (d.Some? ==> o.Some? && d.value.r == o.value.r)
            && n !in IdsOn(d) && SizeOn(d) <= SizeOn(o) && (n in IdsOn(o) ==> SizeOn(d) < SizeOn(o))
  {
    if o.Some? && n in Ids(o.value) && n != o.value.id {
      DeleteKeeps(o.value, n);
    }
  }

  lemma DropSmallShrinks<N>(o: Option<Tree<N>>)
    requires Good(o)
    ensures var d := DropSmall(o);
            && Good(d) && IdsOn(d) <= IdsOn(o)
            && (FitsOn(o) ==> d == o) && (!FitsOn(o) ==> SizeOn(d) < SizeOn(o))
            && (d.Some? ==> o.Some? && d.value.r == o.value.r)
            && (o.Some? && !Small(o.value.r) ==> d.Some?)
  {
    if o.Some? {
      FirstSmallNone(o.value);
      if FirstSmall(o.value).Some? {
        FirstSmallIsSmall(o.value);
        DeleteOnKeeps(o, FirstSmall(o.value).value);
      }
    }
  }

  /** Passes repeated until one finds nothing. */
  ghost function Cleaned<N>(o: Option<Tree<N>>): Option<Tree<N>>
    requires Good(o)
    decreases SizeOn(o)
  {
    DropSmallShrinks(o);
    if FitsOn(o) then o else Cleaned(DropSmall(o))
  }

  /** The repeated passes end with every remaining node large enough, the same
      display still tiled, nothing new, and nothing gone unless something had to
      go; a display that is itself large enough never ends up empty. */
  lemma {:induction false} CleanedKeeps<N>(o: Option<Tree<N>>)
    requires Good(o)
    ensures var c := Cleaned(o);
            && Good(c) && FitsOn(c) && IdsOn(c) <= IdsOn(o)
            && (FitsOn(o) ==> c == o) && (!FitsOn(o) ==> SizeOn(c) < SizeOn(o))
            && (c.Some? ==> o.Some? && c.value.r == o.value.r)
            && (o.Some? && !Small(o.value.r) ==> c.Some?)
    decreases SizeOn(o)
  {
    DropSmallShrinks(o);
    if !FitsOn(o) {
      CleanedKeeps(DropSmall(o));
    }
  }

  lemma {:induction false} CleanedDrop<N>(o: Option<Tree<N>>)
    requires Good(o)
    ensures Good(DropSmall(o)) && Cleaned(DropSmall(o)) == Cleaned(o)
  {
    DropSmallShrinks(o);
  }

  // ----- moving a split, with the clean-up loop -----

  ghost predicate MoveFlagged<N>(t: Tree<N>, n: N, x: int, y: int) {
    Moves(t, n, x, y) && MoveFlags(Sub(t, n), Target(Sub(t, n), x, y))
  }

  /** The whole operation on the display that holds `n`. */
  ghost function MoveAndClean<N>(t: Tree<N>, n: N, x: int, y: int): Option<Tree<N>>
    requires Tiled(t) && Distinct(t)
  {
    MoveKeeps(t, n, x, y);
    if MoveFlagged(t, n, x, y) then Cleaned(Some(Move(t, n, x, y))) else Some(Move(t, n, x, y))
  }

  lemma {:induction false} FitsSubst<N>(t: Tree<N>, n: N, s: Tree<N>)
    requires Distinct(t) && n in Ids(t) && s.r == Sub(t, n).r && Fits(t)
    ensures Fits(Subst(t, n, s)) <==> Fits(s)
    ensures Fits(Sub(t, n))
    decreases t
  {
    if t.id != n {
      if n in Ids(t.top) {
        FitsSubst(t.top, n, s);
        SubstAbsent(t.bottom, n, s);
      } else {
        FitsSubst(t.bottom, n, s);
        SubstAbsent(t.top, n, s);
      }
    }
  }

  /** With all windows large enough beforehand, the flag is raised exactly when
      the move leaves a window too small. */
  lemma MoveFlagsExact<N>(t: Tree<N>, n: N, x: int, y: int)
    requires Tiled(t) && Distinct(t) && Fits(t)
    ensures MoveFlagged(t, n, x, y) <==> !Fits(Move(t, n, x, y))
  {
    hide MoveFlags, MovedSplit, Fits;
    if Moves(t, n, x, y) {
      var s := Sub(t, n);
      var to := Target(s, x, y);
      SubDistinct(t, n);
      MovedIds(s, to);
      FitsSubst(t, n, MovedSplit(s, to));
      SplitFlagsExact(s, to);
    }
  }

  lemma SplitFlagsExact<N>(s: Tree<N>, to: int)
    requires s.Split? && Tiled(s) && Distinct(s) && Fits(s)
    ensures MoveFlags(s, to) <==> !Fits(MovedSplit(s, to))
  {
    hide Adjust, Flags, Layout;
    var d := to - s.at;
    MovedIds(s, to);
    FittingLeaves(s.top);
    FittingLeaves(s.bottom);
    FittingLeaves(MovedSplit(s, to));
    if s.horizontal {
      FlagsExact(s.top, 0, 0, 0, d);
      FlagsExact(s.bottom, 0, d, 0, -d);
    } else {
      FlagsExact(s.top, 0, 0, d, 0);
      FlagsExact(s.bottom, d, 0, -d, 0);
    }
  }

  /** Every window large enough before a move is followed by every remaining
      window large enough, and the display still tiled, after it. */
  lemma MoveAndCleanFits<N>(t: Tree<N>, n: N, x: int, y: int)
    requires Tiled(t) && Distinct(t) && Fits(t)
    ensures var m := MoveAndClean(t, n, x, y);
            m.Some? && Good(m) && Fits(m.value) && m.value.r == t.r && Ids(m.value) <= Ids(t)
  {
    MoveKeeps(t, n, x, y);
    MoveFlagsExact(t, n, x, y);
    CleanedKeeps(Some(Move(t, n, x, y)));
  }

  /** Moving away and back restores the display exactly when the move away
      leaves no window too small. */
  lemma MoveBackExact<N>(t: Tree<N>, n: N, x: int, y: int)
    requires Tiled(t) && Distinct(t) && Fits(t) && Moves(t, n, x, y)
    ensures var m := MoveAndClean(t, n, x, y); var at := Sub(t, n).at;
            m.Some? && Good(m)
            && (MoveAndClean(m.value, n, at, at) == Some(t) <==> Fits(Move(t, n, x, y)))
  {
    var m := Move(t, n, x, y);
    var at := Sub(t, n).at;
    MoveAndCleanFits(t, n, x, y);
    MoveFlagsExact(t, n, x, y);
    MoveKeeps(t, n, x, y);
    if Fits(m) {
      MoveBack(t, n, x, y);
      MoveFlagsExact(m, n, at, at);
    } else {
      var c := MoveAndClean(t, n, x, y).value;
      CleanedKeeps(Some(m));
      MoveKeeps(c, n, at, at);
      CleanedKeeps(Some(Move(c, n, at, at)));
    }
  }

  // ----- splitting, with its single pass -----

  /** Deleting inside a child is deleting from that child. */
  lemma {:induction false} DeleteInside<N>(t: Tree<N>, n: N)
    requires Distinct(t) && t.Split?
    requires (n in Ids(t.top) && n != t.top.id) || (n in Ids(t.bottom) && n != t.bottom.id)
    ensures n in Ids(t) && n != t.id
    ensures Delete(t, n) == if n in Ids(t.top) then t.(top := Delete(t.top, n)) else t.(bottom := Delete(t.bottom, n))
  {
    var inTop := n in Ids(t.top);
    var child, other := if inTop then t.top else t.bottom, if inTop then t.bottom else t.top;
    var p := Parent(child, n);
    ParentHolds(child, n);
    ParentHolds(t, n);
    assert other.id in Ids(other) && child.id != n && other.id != n;
    assert Parent(t, n) == p;
    SubstAbsent(other, p, Joined(Sub(child, p), n));
  }

  /** Whether the tree `t`, laid out in a rectangle `q` that is itself large
      enough, needs at most one node dropped. A dropped child leaves `q` to its
      sibling, which then has to fit there. */
  predicate OneDropEnough<N>(t: Tree<N>, q: Rect) {
    t.Split? ==>
      var a, b := TopPart(q, t.at, t.horizontal), BottomPart(q, t.at, t.horizontal);
      if Small(a) then Fits(Layout(t.bottom, q))
      else if !Fits(Layout(t.top, a)) then OneDropEnough(t.top, a) && Fits(Layout(t.bottom, b))
      else if Small(b) then Fits(Layout(t.top, q))
      else OneDropEnough(t.bottom, b)
  }

  lemma {:induction false} OneDrop<N>(t: Tree<N>, q: Rect)
    requires Distinct(t) && !Small(q) && FirstSmall(Layout(t, q)).Some?
    ensures var u := Layout(t, q); var m := FirstSmall(u).value;
            Distinct(u) && m in Ids(u) && m != u.id && (Fits(Delete(u, m)) <==> OneDropEnough(t, q))
    decreases t
  {
    var u := Layout(t, q);
    var m := FirstSmall(u).value;
    LayoutIds(t, q);
    FirstSmallIsSmall(u);
    FirstSmallNone(u.top);
    FirstSmallNone(u.bottom);
    var inTop := FirstSmall(u.top).Some?;
    var child := if inTop then u.top else u.bottom;
    FirstSmallIsSmall(child);
    if Small(child.r) {
      JoinedIsLayout(u, m);
      Relayout(if inTop then t.bottom else t.top, if inTop then u.bottom.r else u.top.r, q);
    } else {
      DeleteInside(u, m);
      OneDrop(if inTop then t.top else t.bottom, child.r);
    }
  }

  lemma {:induction false} SubstSmall<N>(t: Tree<N>, n: N, s: Tree<N>)
    requires Distinct(t) && n in Ids(t) && s.r == Sub(t, n).r && Fits(t)
    ensures FirstSmall(Subst(t, n, s)) == FirstSmall(s)
    decreases t
  {
    if t.id != n {
      var child, other := if n in Ids(t.top) then t.top else t.bottom, if n in Ids(t.top) then t.bottom else t.top;
      SubstSmall(child, n, s);
      SubstAbsent(other, n, s);
      FirstSmallNone(other);
    }
  }

  lemma {:induction false} SubstDelete<N>(t: Tree<N>, n: N, s: Tree<N>, m: N)
    requires Distinct(t) && n in Ids(t) && Distinct(s) && Ids(s) !! (Ids(t) - Ids(Sub(t, n)))
    requires m in Ids(s) && m != s.id
    ensures var c := Subst(t, n, s);
            Distinct(c) && m in Ids(c) && m != c.id && Delete(c, m) == Subst(t, n, Delete(s, m))
    decreases t
  {
    SubstIds(t, n, s);
    if t.id != n {
      var inTop := n in Ids(t.top);
      var child, other := if inTop then t.top else t.bottom, if inTop then t.bottom else t.top;
      assert Ids(child) - Ids(Sub(t, n)) <= Ids(t) - Ids(Sub(t, n));
      SubstDelete(child, n, s, m);
      SubstAbsent(other, n, s);
      SubstAbsent(other, n, Delete(s, m));
      assert m !in Ids(other) by { assert Ids(other) <= Ids(t) - Ids(Sub(t, n)); }
      DeleteInside(Subst(t, n, s), m);
    }
  }

  /** The guard under which one pass after a split is enough: the node that was
      cut fits in the room that is left to it, or needs just one drop while the
      new window needs none; a piece that is visited first, or alone, and is too
      small as a whole simply gives its room back. */
  predicate OnePassEnough<N>(s: Tree<N>, pos: int, horizontal: bool, above: bool) {
    var q, rest := NewRect(s.r, pos, horizontal, above), RestRect(s.r, pos, horizontal, above);
    || Small(if above then q else rest)
    || Fits(Layout(s, rest))
    || (above && Small(rest))
    || (!Small(q) && OneDropEnough(s, rest))
  }

  lemma CutOnePass<N>(s: Tree<N>, pos: int, horizontal: bool, above: bool, p: N, up: N)
    requires Tiled(s) && Distinct(s) && Fits(s) && p !in Ids(s) && up !in Ids(s) && p != up
    requires FirstSmall(Cut(s, pos, horizontal, above, p, up)).Some?
    ensures var cut := Cut(s, pos, horizontal, above, p, up); var m := FirstSmall(cut).value;
            && Distinct(cut) && m in Ids(cut) && m != up
            && (Fits(Delete(cut, m)) <==> OnePassEnough(s, pos, horizontal, above))
  {
    var cut := Cut(s, pos, horizontal, above, p, up);
    var q, rest := NewRect(s.r, pos, horizontal, above), RestRect(s.r, pos, horizontal, above);
    CutIds(s, pos, horizontal, above, p, up);
    TiledIsLayout(cut);
    OneDrop(cut, s.r);
    FirstSmallNone(cut);
    CutAsLayout(s, pos, horizontal, above, p, up);
  }

  lemma CutAsLayout<N>(s: Tree<N>, pos: int, horizontal: bool, above: bool, p: N, up: N)
    requires Tiled(s) && Fits(s) && !Fits(Cut(s, pos, horizontal, above, p, up))
    ensures OneDropEnough(Cut(s, pos, horizontal, above, p, up), s.r) <==> OnePassEnough(s, pos, horizontal, above)
  {
    hide Adjust;
    var rest := RestRect(s.r, pos, horizontal, above);
    CutIsLayout(s, pos, horizontal, above, p, up);
    Relayout(s, rest, rest);
    Relayout(s, rest, s.r);
    TiledIsLayout(s);
    OneDropRelaid(s, rest, rest);
  }

  lemma {:induction false} OneDropRelaid<N>(t: Tree<N>, r: Rect, q: Rect)
    ensures OneDropEnough(Layout(t, r), q) == OneDropEnough(t, q)
    decreases t
  {
    if t.Split? {
      var a, b := TopPart(q, t.at, t.horizontal), BottomPart(q, t.at, t.horizontal);
      var a0, b0 := TopPart(r, t.at, t.horizontal), BottomPart(r, t.at, t.horizontal);
      Relayout(t.top, a0, a);
      Relayout(t.top, a0, q);
      Relayout(t.bottom, b0, b);
      Relayout(t.bottom, b0, q);
      OneDropRelaid(t.top, a0, a);
      OneDropRelaid(t.bottom, b0, b);
    }
  }

  /** After a split of a display whose windows were all large enough, the single
      pass leaves them all large enough exactly under that guard. */
  lemma SplitOnePassExact<N>(t: Tree<N>, n: N, pos: int, horizontal: bool, above: bool, p: N, up: N)
    requires Tiled(t) && Distinct(t) && Fits(t) && n in Ids(t) && p !in Ids(t) && up !in Ids(t) && p != up
    ensures var c := Some(Insert(t, n, pos, horizontal, above, p, up));
            Good(c) && (FitsOn(DropSmall(c)) <==> OnePassEnough(Sub(t, n), pos, horizontal, above))
  {
    hide Adjust, Layout, Cut;
    var s := Sub(t, n);
    var cut := Cut(s, pos, horizontal, above, p, up);
    InsertKeeps(t, n, pos, horizontal, above, p, up);
    SubDistinct(t, n);
    CutIds(s, pos, horizontal, above, p, up);
    SubstSmall(t, n, cut);
    FitsSubst(t, n, cut);
    FirstSmallNone(cut);
    CutIsLayout(s, pos, horizontal, above, p, up);
    if FirstSmall(cut).Some? {
      var m := FirstSmall(cut).value;
      CutOnePass(s, pos, horizontal, above, p, up);
      SubstDelete(t, n, cut, m);
      DeleteKeeps(cut, m);
      FitsSubst(t, n, Delete(cut, m));
      var c := Insert(t, n, pos, horizontal, above, p, up);
      FirstSmallIsSmall(c);
    }
  }

  /** A split after which one pass is not enough: cutting the lower 30 rows off a
      column of two windows leaves both the new window and the lower of the two
      too small, and the pass deletes only the latter. */
  lemma SplitOnePassFails()
    ensures var t := Split(0, Rect(0, 0, 100, 120), 50, true, Leaf(1, Rect(0, 0, 100, 50)),
            Leaf(2, Rect(50, 0, 100, 70)));
            && Tiled(t) && Distinct(t) && Fits(t)
            && var c := Some(Insert(t, 0, 90, true, false, 3, 4));
            Good(c) && !FitsOn(DropSmall(c))
  {
    var t := Split(0, Rect(0, 0, 100, 120), 50, true, Leaf(1, Rect(0, 0, 100, 50)), Leaf(2, Rect(50, 0, 100, 70)));
    SplitOnePassExact(t, 0, 90, true, false, 3, 4);
    assert !Fits(Layout(t, Rect(0, 0, 100, 90)));
  }
}
