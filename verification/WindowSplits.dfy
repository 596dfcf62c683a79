/** What a whole SplitWindow does, its single clean-up pass included: when it leaves
    every window large enough, and when deleting the new window undoes it. */
module WindowSplits {
  import opened Optional
  import opened Tiling
  import opened WindowCleanup
  import opened WindowOps
  import opened WindowTree

  // ----- one display -----

  lemma CutRestIs<N>(s: Tree<N>, pos: int, horizontal: bool, above: bool, p: N, up: N)
    requires Tiled(s)
    ensures CutRest(s, pos, horizontal, above) == Layout(s, RestRect(s.r, pos, horizontal, above))
  {
    CutIsLayout(s, pos, horizontal, above, p, up);
  }

  /** If its windows were large enough, cutting a node raises the flag exactly if
      they do not all fit in the room that is left. */
  lemma CutFlagsExact<N>(s: Tree<N>, pos: int, horizontal: bool, above: bool)
    requires Tiled(s) && Fits(s)
    ensures CutFlags(s, pos, horizontal, above) <==> !Fits(Layout(s, RestRect(s.r, pos, horizontal, above)))
  {
    hide Flags, Adjust, Layout;
    CutRestIs(s, pos, horizontal, above, s.id, s.id);
    var q := NewRect(s.r, pos, horizontal, above);
    FittingLeaves(s);
    FittingLeaves(CutRest(s, pos, horizontal, above));
    if horizontal {
      FlagsExact(s, 0, if above then q.height else 0, 0, -q.height);
    } else {
      FlagsExact(s, if above then q.width else 0, 0, -q.width, 0);
    }
  }

  /** The display of the split node afterwards. `before` is the rectangle that the
      new window had, `flag` whether some window was known to be too small. */
  ghost function SplitOn<N>(t: Tree<N>, n: N, pos: int, horizontal: bool, above: bool, p: N, up: N, before: Rect,
          flag: bool)
    : Option<Tree<N>>
    requires Tiled(t) && Distinct(t) && n in Ids(t) && p !in Ids(t) && up !in Ids(t) && p != up
  {
    InsertKeeps(t, n, pos, horizontal, above, p, up);
    var c := Some(Insert(t, n, pos, horizontal, above, p, up));
    if flag || SplitFlags(Sub(t, n), pos, horizontal, above, before) then DropSmall(c) else c
  }

  /** The guard under which a split leaves all windows large enough: one drop
      repairs what was cut, and a new window that is too small is noticed. It is
      not if it had the same rectangle before and nothing else is too small. */
  predicate SplitLeavesFitting<N>(s: Tree<N>, pos: int, horizontal: bool, above: bool, before: Rect, flag: bool) {
    var q := NewRect(s.r, pos, horizontal, above);
    && OnePassEnough(s, pos, horizontal, above)
    && (Small(q) ==> flag || q != before || CutFlags(s, pos, horizontal, above))
  }

  lemma SplitExact<N>(t: Tree<N>, n: N, pos: int, horizontal: bool, above: bool, p: N, up: N, before: Rect, flag: bool)
    requires Tiled(t) && Distinct(t) && Fits(t) && n in Ids(t) && p !in Ids(t) && up !in Ids(t) && p != up
    ensures FitsOn(SplitOn(t, n, pos, horizontal, above, p, up, before, flag))
            <==> SplitLeavesFitting(Sub(t, n), pos, horizontal, above, before, flag)
  {
    hide CutFlags, Layout, OneDropEnough, DropSmall, Insert;
    SubDistinct(t, n);
    InsertFits(t, n, pos, horizontal, above, p, up);
    FitsSubst(t, n, Sub(t, n));
    CutFlagsExact(Sub(t, n), pos, horizontal, above);
    SplitOnePassExact(t, n, pos, horizontal, above, p, up);
  }

  /** Before any cleaning up. */
  lemma InsertFits<N>(t: Tree<N>, n: N, pos: int, horizontal: bool, above: bool, p: N, up: N)
    requires Tiled(t) && Distinct(t) && Fits(t) && n in Ids(t) && p !in Ids(t) && up !in Ids(t) && p != up
    ensures var s := Sub(t, n);
            Fits(Insert(t, n, pos, horizontal, above, p, up))
            <==> !Small(NewRect(s.r, pos, horizontal, above)) && Fits(Layout(s, RestRect(s.r, pos, horizontal, above)))
  {
    hide Layout;
    var s := Sub(t, n);
    SubDistinct(t, n);
    FitsSubst(t, n, Cut(s, pos, horizontal, above, p, up));
    CutIsLayout(s, pos, horizontal, above, p, up);
  }

  /** Making the same split twice: the first time the new window is too small and
      dropped again, the second time it already has its rectangle, nobody notices,
      and it stays. */
  lemma SecondSplitFails(before: Rect, flag: bool)
    requires before != Rect(0, 0, 100, 30)
    ensures var t := Leaf(0, Rect(0, 0, 100, 200));
            && SplitOn(t, 0, 30, true, true, 1, 2, before, flag) == Some(t)
            && OnePassEnough(t, 30, true, true)
            && !FitsOn(SplitOn(t, 0, 30, true, true, 1, 2, Rect(0, 0, 100, 30), false))
  {
    var t := Leaf(0, Rect(0, 0, 100, 200));
    SplitExact(t, 0, 30, true, true, 1, 2, Rect(0, 0, 100, 30), false);
    InsertThenDelete(t, 0, 30, true, true, 1, 2);
  }

  // ----- all displays -----

  /** A split on display `d` is the split of its layout, followed by a pass over the
      other displays if it raises the flag. */
  lemma SplitResultIs(f: seq<Option<Tree<Node>>>, d: int, n: Node, pos: int, horizontal: bool, above: bool, p: Node,
          up: Node,
                      before: Rect, flag: bool)
    requires AllGood(f) && Apart(f) && 0 <= d < |f| && n in IdsOn(f[d])
    requires p !in AllIds(f) && up !in AllIds(f) && p != up
    ensures p !in IdsOn(f[d]) && up !in IdsOn(f[d])
    ensures var g := SplitResult(f, n, pos, horizontal, above, p, up, before, flag);
            && |g| == |f| && g[d] == SplitOn(f[d].value, n, pos, horizontal, above, p, up, before, flag)
            && forall i :: 0 <= i < |f| && i != d ==>
                 g[i] == if flag || SplitFlags(Sub(f[d].value, n), pos, horizontal, above, before) then DropSmall(f[i])
                     else f[i]
  {
    hide Ids, Sub, SplitFlags, Insert, DropSmall, Tiled, Distinct;
    assert IdsOn(f[d]) <= AllIds(f);
    forall i | 0 <= i < |f| && i != d ensures n !in IdsOn(f[i]) {
    }
    InsertKeeps(f[d].value, n, pos, horizontal, above, p, up);
    assert CutRaises(f, n, pos, horizontal, above, before)
        <==> SplitFlags(Sub(f[d].value, n), pos, horizontal, above, before);
  }

  /** Over all displays: windows that were large enough are so after a split
      exactly under that guard. */
  lemma SplitResultFits(f: seq<Option<Tree<Node>>>, d: int, n: Node, pos: int, horizontal: bool, above: bool, p: Node,
          up: Node,
                        before: Rect, flag: bool)
    requires AllGood(f) && AllFit(f) && Apart(f) && 0 <= d < |f| && n in IdsOn(f[d])
    requires p !in AllIds(f) && up !in AllIds(f) && p != up
    ensures AllFit(SplitResult(f, n, pos, horizontal, above, p, up, before, flag))
            <==> SplitLeavesFitting(Sub(f[d].value, n), pos, horizontal, above, before, flag)
  {
    hide SplitOn, SplitLeavesFitting, SplitFlags, SplitResult, DropSmall, Tiled, Distinct, Ids, Sub, Fits, Apart,
         AllIds;
    var g := SplitResult(f, n, pos, horizontal, above, p, up, before, flag);
    SplitResultIs(f, d, n, pos, horizontal, above, p, up, before, flag);
    SplitExact(f[d].value, n, pos, horizontal, above, p, up, before, flag);
    forall i | 0 <= i < |f| && i != d ensures FitsOn(g[i]) {
      DropSmallShrinks(f[i]);
    }
  }

  // ----- splitting and deleting the new window -----

  /** What a pass drops first, if anything, is `p`. */
  ghost predicate DropsOnly<N>(o: Option<Tree<N>>, p: N) {
    o.None? || FirstSmall(o.value).None? || FirstSmall(o.value) == Some(p)
  }

  lemma DropThenDelete<N>(t: Tree<N>, n: N, pos: int, horizontal: bool, above: bool, p: N, up: N)
    requires Tiled(t) && Distinct(t) && n in Ids(t) && p !in Ids(t) && up !in Ids(t) && p != up
    ensures var c := Some(Insert(t, n, pos, horizontal, above, p, up));
            Good(c) && Good(DropSmall(c)) && (DeleteOn(DropSmall(c), p) == Some(t) <==> DropsOnly(c, p))
  {
    hide Tiled, Delete, FirstSmall, Insert;
    var c := Insert(t, n, pos, horizontal, above, p, up);
    InsertKeeps(t, n, pos, horizontal, above, p, up);
    InsertThenDelete(t, n, pos, horizontal, above, p, up);
    DropSmallShrinks(Some(c));
    if FirstSmall(c).Some? {
      var m := FirstSmall(c).value;
      FirstSmallIsSmall(c);
      DeleteOnKeeps(Some(c), m);
      DeleteOnKeeps(DropSmall(Some(c)), p);
      if m == up {
        UpHolds(t, n, pos, horizontal, above, p, up);
        GoneBelow(c, up, n);
      }
    }
  }

  /** Below the new split node lies the node that was cut. */
  lemma UpHolds<N>(t: Tree<N>, n: N, pos: int, horizontal: bool, above: bool, p: N, up: N)
    requires Tiled(t) && Distinct(t) && n in Ids(t) && p !in Ids(t) && up !in Ids(t) && p != up
    ensures var c := Insert(t, n, pos, horizontal, above, p, up); up in Ids(c) && n in Ids(Sub(c, up))
  {
    var s := Sub(t, n);
    var cut := Cut(s, pos, horizontal, above, p, up);
    SubDistinct(t, n);
    CutIds(s, pos, horizontal, above, p, up);
    SubstSubst(t, n, cut, s);
  }

  lemma GoneBelow<N>(c: Tree<N>, m: N, n: N)
    requires Tiled(c) && Distinct(c) && m in Ids(c) && n in Ids(Sub(c, m))
    ensures n !in IdsOn(DeleteOn(Some(c), m))
  {
    if m != c.id {
      DeleteKeeps(c, m);
    }
  }

  lemma OtherDisplay<N>(o: Option<Tree<N>>, p: N)
    requires Good(o) && p !in IdsOn(o)
    ensures Good(DropSmall(o)) && DeleteOn(o, p) == o && (DeleteOn(DropSmall(o), p) == o <==> DropsOnly(o, p))
  {
    hide Delete, FirstSmall;
    DropSmallShrinks(o);
    if o.Some? && FirstSmall(o.value).Some? {
      FirstSmallIsSmall(o.value);
      DeleteOnKeeps(o, FirstSmall(o.value).value);
      DeleteOnKeeps(DropSmall(o), p);
    }
  }

  /** Splitting one display and deleting the new window. */
  lemma OwnDisplay<N>(t: Tree<N>, n: N, pos: int, horizontal: bool, above: bool, p: N, up: N, before: Rect, flag: bool)
    requires Tiled(t) && Distinct(t) && n in Ids(t) && p !in Ids(t) && up !in Ids(t) && p != up
    ensures var o := SplitOn(t, n, pos, horizontal, above, p, up, before, flag);
            var c := Some(Insert(t, n, pos, horizontal, above, p, up));
            Good(o) && (DeleteOn(o, p) == Some(t)
                        <==> (flag || SplitFlags(Sub(t, n), pos, horizontal, above, before) ==> DropsOnly(c, p)))
  {
    hide SplitFlags, DropsOnly, DropSmall, Delete, Tiled, Sub;
    DropThenDelete(t, n, pos, horizontal, above, p, up);
    InsertKeeps(t, n, pos, horizontal, above, p, up);
    InsertThenDelete(t, n, pos, horizontal, above, p, up);
  }

  /** Over all displays: splitting and deleting the new window gives back every
      layout if and only if no pass was run, or none that dropped anything but the
      new window. */
  lemma SplitThenDelete(f: seq<Option<Tree<Node>>>, d: int, n: Node, pos: int, horizontal: bool, above: bool, p: Node,
          up: Node,
                        before: Rect, flag: bool)
    requires AllGood(f) && Apart(f) && 0 <= d < |f| && n in IdsOn(f[d])
    requires p !in AllIds(f) && up !in AllIds(f) && p != up
    ensures var g := InsertAll(f, n, pos, horizontal, above, p, up);
            DeleteAll(SplitResult(f, n, pos, horizontal, above, p, up, before, flag), p) == f
            <==> (flag || SplitFlags(Sub(f[d].value, n), pos, horizontal, above, before)
                  ==> forall i :: 0 <= i < |g| ==> DropsOnly(g[i], p))
  {
    hide SplitOn, SplitFlags, SplitResult, DropSmall, DropsOnly, DeleteOn, Tiled, Distinct, Insert, Sub;
    var t := f[d].value;
    var g := InsertAll(f, n, pos, horizontal, above, p, up);
    var h := SplitResult(f, n, pos, horizontal, above, p, up, before, flag);
    var raised := flag || SplitFlags(Sub(t, n), pos, horizontal, above, before);
    SplitResultIs(f, d, n, pos, horizontal, above, p, up, before, flag);
    OwnDisplay(t, n, pos, horizontal, above, p, up, before, flag);
    forall i | 0 <= i < |f|
      ensures Good(h[i]) && (DeleteOn(h[i], p) == f[i] <==> (raised ==> DropsOnly(g[i], p)))
    {
      if i != d {
        assert IdsOn(f[i]) <= AllIds(f) && n !in IdsOn(f[i]);
        OtherDisplay(f[i], p);
      }
    }
  }

  /** If all windows were large enough: if and only if those of the node that was
      cut fit in the room left to them, or the new window comes first and is itself
      the one that is dropped. */
  lemma SplitThenDeleteFits(f: seq<Option<Tree<Node>>>, d: int, n: Node, pos: int, horizontal: bool, above: bool,
          p: Node, up: Node,
                            before: Rect, flag: bool)
    requires AllGood(f) && AllFit(f) && Apart(f) && 0 <= d < |f| && n in IdsOn(f[d])
    requires p !in AllIds(f) && up !in AllIds(f) && p != up
    ensures var s := Sub(f[d].value, n);
            DeleteAll(SplitResult(f, n, pos, horizontal, above, p, up, before, flag), p) == f
            <==> (|| Fits(Layout(s, RestRect(s.r, pos, horizontal, above)))
                  || (above && Small(NewRect(s.r, pos, horizontal, above))))
  {
    hide SplitFlags, SplitResult, DropsOnly, FirstSmall, Tiled, Distinct, Insert, Sub, Layout, Fits;
    var t := f[d].value;
    var s := Sub(t, n);
    var g := InsertAll(f, n, pos, horizontal, above, p, up);
    SplitThenDelete(f, d, n, pos, horizontal, above, p, up, before, flag);
    assert IdsOn(f[d]) <= AllIds(f);
    assert FitsOn(f[d]);
    CutDropsOnly(t, n, pos, horizontal, above, p, up, before);
    forall i | 0 <= i < |f| && i != d ensures DropsOnly(g[i], p) {
      assert n !in IdsOn(f[i]) && FitsOn(f[i]);
      FitDropsNothing(f[i], p);
    }
    assert g[d] == Some(Insert(t, n, pos, horizontal, above, p, up));
    assert DropsOnly(g[d], p) <==> forall i :: 0 <= i < |g| ==> DropsOnly(g[i], p);
  }

  lemma FitDropsNothing<N>(o: Option<Tree<N>>, p: N)
    requires FitsOn(o)
    ensures DropsOnly(o, p)
  {
    if o.Some? {
      FirstSmallNone(o.value);
    }
  }

  lemma CutDropsOnly<N>(t: Tree<N>, n: N, pos: int, horizontal: bool, above: bool, p: N, up: N, before: Rect)
    requires Tiled(t) && Distinct(t) && Fits(t) && n in Ids(t) && p !in Ids(t) && up !in Ids(t) && p != up
    ensures var s := Sub(t, n); var rest := Layout(s, RestRect(s.r, pos, horizontal, above));
            var c := Some(Insert(t, n, pos, horizontal, above, p, up));
            && (!SplitFlags(s, pos, horizontal, above, before) ==> Fits(rest))
            && (DropsOnly(c, p) <==> Fits(rest) || (above && Small(NewRect(s.r, pos, horizontal, above))))
  {
    hide Layout, CutFlags;
    var s := Sub(t, n);
    var cut := Cut(s, pos, horizontal, above, p, up);
    SubDistinct(t, n);
    FitsSubst(t, n, s);
    CutFlagsExact(s, pos, horizontal, above);
    CutIds(s, pos, horizontal, above, p, up);
    SubstSmall(t, n, cut);
    CutIsLayout(s, pos, horizontal, above, p, up);
    var rest := Layout(s, RestRect(s.r, pos, horizontal, above));
    FirstSmallNone(rest);
    FirstSmallIn(rest);
    LayoutIds(s, RestRect(s.r, pos, horizontal, above));
  }

  lemma FirstSmallIn<N>(t: Tree<N>)
    ensures FirstSmall(t).Some? ==> FirstSmall(t).value in Ids(t)
  {
  }
}
