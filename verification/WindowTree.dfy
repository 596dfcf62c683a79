/** The window tree as the window manager keeps it: nodes linked by parent and
    child pointers, edited in place. Every operation is proved against what
    WindowOps and WindowCleanup say it does to the layouts of all displays. */
module WindowTree {
  import opened Optional
  import opened Tiling
  import opened WindowCleanup
  import opened WindowOps

  /** A window or a split node; which of the two never changes. */
  class Node {
    const isSplit: bool
    var viewPort: Rect
    var deleted: bool
    var visible: bool
    var parent: Node?
    var top: Node?
    var bottom: Node?
    var splitValue: int
    var splitHorizontally: bool

    constructor Window()
      ensures !isSplit && !visible && !deleted && parent == null
    {
      isSplit := false;
      viewPort := Rect(0, 0, 0, 0);
      deleted, visible := false, false;
      parent, top, bottom := null, null, null;
    }

    constructor SplitNode()
      ensures isSplit && !deleted && parent == null
    {
      isSplit := true;
      viewPort := Rect(0, 0, 0, 0);
      deleted, visible := false, false;
      parent, top, bottom := null, null, null;
    }
  }

  // ----- what a layout means in the heap -----

  datatype Fields = Fields(isSplit: bool, viewPort: Rect, deleted: bool, visible: bool, parent: Node?,
                           top: Node?, bottom: Node?, splitValue: int, splitHorizontally: bool)

  ghost function FieldsOf(m: Node): Fields
    reads m
  {
    Fields(m.isSplit, m.viewPort, m.deleted, m.visible, m.parent, m.top, m.bottom, m.splitValue, m.splitHorizontally)
  }

  ghost function Snapshot(s: set<Node>): map<Node, Fields>
    reads s
  {
    map m | m in s :: FieldsOf(m)
  }

  /** The linked nodes below `t.id` are exactly the layout `t`. */
  ghost predicate IsIn(t: Tree<Node>, parent: Node?, h: map<Node, Fields>) {
    && t.id in h
    && var n := h[t.id];
    && n.parent == parent && !n.deleted && n.viewPort == t.r
    && if t.Leaf? then !n.isSplit && n.visible
       else
         && n.isSplit && n.splitValue == t.at && n.splitHorizontally == t.horizontal
         && n.top == t.top.id && n.bottom == t.bottom.id
         && IsIn(t.top, t.id, h) && IsIn(t.bottom, t.id, h)
  }

  lemma {:induction false} SameIsIn(t: Tree<Node>, parent: Node?, h: map<Node, Fields>, k: map<Node, Fields>)
    requires IsIn(t, parent, h) && forall m :: m in Ids(t) ==> m in h && m in k && k[m] == h[m]
    ensures IsIn(t, parent, k)
    decreases t
  {
    if t.Split? {
      SameIsIn(t.top, t.id, h, k);
      SameIsIn(t.bottom, t.id, h, k);
    }
  }

  ghost predicate Is(t: Tree<Node>, parent: Node?)
    reads Ids(t)
  {
    IsIn(t, parent, Snapshot(Ids(t)))
  }

  lemma IsSnapshot(t: Tree<Node>, parent: Node?, h: map<Node, Fields>)
    requires forall m :: m in Ids(t) ==> m in h && h[m] == FieldsOf(m)
    ensures Is(t, parent) <==> IsIn(t, parent, h)
  {
    if IsIn(t, parent, h) {
      SameIsIn(t, parent, h, Snapshot(Ids(t)));
    }
    if Is(t, parent) {
      SameIsIn(t, parent, Snapshot(Ids(t)), h);
    }
  }

  lemma IsParts(t: Tree<Node>, parent: Node?)
    ensures Is(t, parent) <==>
            && t.id.parent == parent && !t.id.deleted && t.id.viewPort == t.r && t.id.isSplit == t.Split?
            && (t.Leaf? ==> t.id.visible)
            && (t.Split? ==>
                  && t.id.splitValue == t.at && t.id.splitHorizontally == t.horizontal
                  && t.id.top == t.top.id && t.id.bottom == t.bottom.id
                  && Is(t.top, t.id) && Is(t.bottom, t.id))
    ensures Is(t, parent) && t.Split? ==> t.top.id.parent == t.id && t.bottom.id.parent == t.id
  {
    if t.Split? {
      IsSnapshot(t.top, t.id, Snapshot(Ids(t)));
      IsSnapshot(t.bottom, t.id, Snapshot(Ids(t)));
    }
  }

  lemma {:induction false} SubIn(t: Tree<Node>, parent: Node?, n: Node, h: map<Node, Fields>)
    requires Distinct(t) && IsIn(t, parent, h) && n in Ids(t)
    ensures n in h && h[n].parent == if n == t.id then parent else Parent(t, n)
    ensures IsIn(Sub(t, n), h[n].parent, h)
    decreases t
  {
    if n != t.id {
      if n in Ids(t.top) {
        SubIn(t.top, t.id, n, h);
      } else {
        SubIn(t.bottom, t.id, n, h);
      }
    }
  }

  lemma SubIs(t: Tree<Node>, parent: Node?, n: Node)
    requires Distinct(t) && Is(t, parent) && n in Ids(t)
    ensures Is(Sub(t, n), n.parent)
    ensures n.parent == if n == t.id then parent else Parent(t, n)
  {
    SubIn(t, parent, n, Snapshot(Ids(t)));
    IsSnapshot(Sub(t, n), n.parent, Snapshot(Ids(t)));
  }

  ghost function Repointed(f: Fields, n: Node, s: Node): Fields {
    f.(top := if f.top == n then s else f.top, bottom := if f.bottom == n then s else f.bottom)
  }

  /** Outside `inner`, the two snapshots differ only in where `q` points. */
  ghost predicate Around(outer: set<Node>, inner: set<Node>, n: Node, s: Node, q: Node?,
                         h: map<Node, Fields>, k: map<Node, Fields>)
  {
    forall m :: m in outer && m !in inner ==>
      m in h && m in k && k[m] == if m == q then Repointed(h[m], n, s) else h[m]
  }

  /** Putting `s` in the place of `n` in the heap, and pointing the parent `q` of
      `n` at it, is Subst on the layout. */
  lemma {:induction false} SubstIsIn(t: Tree<Node>, parent: Node?, n: Node, s: Tree<Node>, q: Node?,
                                     h: map<Node, Fields>, k: map<Node, Fields>)
    requires Distinct(t) && IsIn(t, parent, h) && n in Ids(t) && n in h && h[n].parent == q && IsIn(s, q, k)
    requires Around(Ids(t), Ids(Sub(t, n)), n, s.id, q, h, k)
    ensures IsIn(Subst(t, n, s), parent, k)
    decreases t
  {
    SubIn(t, parent, n, h);
    if n != t.id {
      SubProper(t, n);
      var inTop := n in Ids(t.top);
      var child, other := if inTop then t.top else t.bottom, if inTop then t.bottom else t.top;
      SubIn(child, t.id, n, h);
      OtherChild(t, n, other, s, q, h, k);
      SubstIsIn(child, t.id, n, s, q, h, k);
      HeadRepointed(t, parent, n, s, q, h, k);
    }
  }

  /** The head of the layout after the subtree at `n` has been replaced. */
  lemma HeadRepointed(t: Tree<Node>, parent: Node?, n: Node, s: Tree<Node>, q: Node?,
                      h: map<Node, Fields>, k: map<Node, Fields>)
    requires Distinct(t) && IsIn(t, parent, h) && n in Ids(t) && n != t.id && q == Parent(t, n)
    requires t.id !in Ids(Sub(t, n)) && Around(Ids(t), Ids(Sub(t, n)), n, s.id, q, h, k)
    ensures var u := Subst(t, n, s);
            && u.Split? && u.id == t.id && u.r == t.r && u.at == t.at && u.horizontal == t.horizontal
            && u.top == Subst(t.top, n, s) && u.bottom == Subst(t.bottom, n, s)
            && t.id in k && k[t.id] == h[t.id].(top := u.top.id, bottom := u.bottom.id)
  {
    hide IsIn;
    ChildrenIn(t, parent, h);
  }

  lemma ChildrenIn(t: Tree<Node>, parent: Node?, h: map<Node, Fields>)
    requires IsIn(t, parent, h) && t.Split?
    ensures t.id in h && h[t.id].top == t.top.id && h[t.id].bottom == t.bottom.id
  {
  }

  lemma OtherChild(t: Tree<Node>, n: Node, other: Tree<Node>, s: Tree<Node>, q: Node?,
                   h: map<Node, Fields>, k: map<Node, Fields>)
    requires Distinct(t) && t.Split? && n in Ids(t) && n != t.id && (other == t.top || other == t.bottom)
             && n !in Ids(other)
    requires IsIn(other, t.id, h) && Around(Ids(t), Ids(Sub(t, n)), n, s.id, q, h, k) && q !in Ids(other)
    ensures IsIn(other, t.id, k) && Subst(other, n, s) == other
  {
    SubstAbsent(other, n, s);
    forall m | m in Ids(other) ensures m in h && m in k && k[m] == h[m] {
      assert m in Ids(t) && m !in Ids(Sub(t, n));
    }
    SameIsIn(other, t.id, h, k);
  }

  // ----- the window manager -----

  ghost function AllIds(f: seq<Option<Tree<Node>>>): set<Node> {
    set i, n | 0 <= i < |f| && n in IdsOn(f[i]) :: n
  }

  /** The layouts of all displays after deleting `n`, wherever it is. */
  ghost function DeleteAll(f: seq<Option<Tree<Node>>>, n: Node): seq<Option<Tree<Node>>>
  {
    seq(|f|, i requires 0 <= i < |f| => if Good(f[i]) then DeleteOn(f[i], n) else f[i])
  }

  /** Whether joining the sibling over the room of `n` raises the flag. */
  ghost predicate JoinFlags<N>(p: Tree<N>, n: N)
    requires ChildOf(p, n)
  {
    if p.top.id == n then
      if p.horizontal then Flags(p.bottom, 0, -p.top.r.height, 0, p.top.r.height)
      else Flags(p.bottom, -p.top.r.width, 0, p.top.r.width, 0)
    else
      if p.horizontal then Flags(p.top, 0, 0, 0, p.bottom.r.height)
      else Flags(p.top, 0, 0, p.bottom.r.width, 0)
  }

  ghost predicate DeleteFlags(o: Option<Tree<Node>>, n: Node)
    requires Good(o)
  {
    o.Some? && n in Ids(o.value) && n != o.value.id
    && (ParentHolds(o.value, n); JoinFlags(Sub(o.value, Parent(o.value, n)), n))
  }

  ghost predicate DeleteRaises(f: seq<Option<Tree<Node>>>, n: Node) {
    exists i :: 0 <= i < |f| && Good(f[i]) && DeleteFlags(f[i], n)
  }

  lemma DeleteAllKeeps(f: seq<Option<Tree<Node>>>, n: Node)
    ensures AllIds(DeleteAll(f, n)) <= AllIds(f) && TotalSize(DeleteAll(f, n)) <= TotalSize(f)
    ensures (exists i :: 0 <= i < |f| && Good(f[i]) && n in IdsOn(f[i])) ==> TotalSize(DeleteAll(f, n)) < TotalSize(f)
  {
    var g := DeleteAll(f, n);
    forall i | 0 <= i < |f|
      ensures IdsOn(g[i]) <= IdsOn(f[i]) && SizeOn(g[i]) <= SizeOn(f[i])
      ensures Good(f[i]) && n in IdsOn(f[i]) ==> SizeOn(g[i]) < SizeOn(f[i])
    {
      if Good(f[i]) {
        DeleteOnKeeps(f[i], n);
      }
    }
    SmallerTotal(g, f);
  }

  /** The number of nodes on all displays. */
  ghost function TotalSize(f: seq<Option<Tree<Node>>>): nat {
    if f == [] then 0 else SizeOn(f[0]) + TotalSize(f[1..])
  }

  lemma {:induction false} SmallerTotal(g: seq<Option<Tree<Node>>>, f: seq<Option<Tree<Node>>>)
    requires |g| == |f| && forall i :: 0 <= i < |f| ==> SizeOn(g[i]) <= SizeOn(f[i])
    ensures TotalSize(g) <= TotalSize(f)
    ensures (exists i :: 0 <= i < |f| && SizeOn(g[i]) < SizeOn(f[i])) ==> TotalSize(g) < TotalSize(f)
    decreases |f|
  {
    if f != [] {
      SmallerTotal(g[1..], f[1..]);
      if i :| 0 <= i < |f| && SizeOn(g[i]) < SizeOn(f[i]) {
        assert i > 0 ==> g[1..][i - 1] == g[i] && f[1..][i - 1] == f[i];
      }
    }
  }

  /** One clean-up pass over all displays. */
  ghost function PassAll(f: seq<Option<Tree<Node>>>): seq<Option<Tree<Node>>> {
    seq(|f|, i requires 0 <= i < |f| => if Good(f[i]) then DropSmall(f[i]) else f[i])
  }

  /** Passes over all displays until nothing is too small. */
  ghost function CleanAll(f: seq<Option<Tree<Node>>>): seq<Option<Tree<Node>>> {
    seq(|f|, i requires 0 <= i < |f| => if Good(f[i]) then Cleaned(f[i]) else f[i])
  }

  ghost predicate AllFit(f: seq<Option<Tree<Node>>>) {
    forall i :: 0 <= i < |f| ==> FitsOn(f[i])
  }

  ghost predicate AllGood(f: seq<Option<Tree<Node>>>) {
    forall i :: 0 <= i < |f| ==> Good(f[i])
  }

  ghost function MoveAll(f: seq<Option<Tree<Node>>>, n: Node, x: int, y: int): seq<Option<Tree<Node>>> {
    seq(|f|, i requires 0 <= i < |f| => if f[i].Some? then Some(Move(f[i].value, n, x, y)) else None)
  }

  ghost predicate MovesAny(f: seq<Option<Tree<Node>>>, n: Node, x: int, y: int) {
    exists i :: 0 <= i < |f| && f[i].Some? && Moves(f[i].value, n, x, y)
  }

  ghost predicate MoveRaises(f: seq<Option<Tree<Node>>>, n: Node, x: int, y: int) {
    exists i :: 0 <= i < |f| && f[i].Some? && MoveFlagged(f[i].value, n, x, y)
  }

  /** What MoveSplit makes of all displays. */
  ghost function MoveResult(f: seq<Option<Tree<Node>>>, n: Node, x: int, y: int): seq<Option<Tree<Node>>> {
    var m := MoveAll(f, n, x, y);
    if MoveRaises(f, n, x, y) then CleanAll(m) else m
  }

  ghost function InsertAll(f: seq<Option<Tree<Node>>>, n: Node, pos: int, horizontal: bool, above: bool, p: Node,
          up: Node)
    : seq<Option<Tree<Node>>>
  {
    seq(|f|, i requires 0 <= i < |f| =>
      if n in IdsOn(f[i]) then Some(Insert(f[i].value, n, pos, horizontal, above, p, up)) else f[i])
  }

  /** Whether a split raises the flag: for the node that was cut, or for the new
      window, whose rectangle was `before`. */
  ghost predicate CutRaises(f: seq<Option<Tree<Node>>>, n: Node, pos: int, horizontal: bool, above: bool,
          before: Rect) {
    exists i :: 0 <= i < |f| && n in IdsOn(f[i]) && SplitFlags(Sub(f[i].value, n), pos, horizontal, above, before)
  }

  /** What SplitWindow makes of all displays. */
  ghost function SplitResult(f: seq<Option<Tree<Node>>>, n: Node, pos: int, horizontal: bool, above: bool, p: Node,
          up: Node,
                             before: Rect, flag: bool): seq<Option<Tree<Node>>>
  {
    var g := InsertAll(f, n, pos, horizontal, above, p, up);
    if flag || CutRaises(f, n, pos, horizontal, above, before) then PassAll(g) else g
  }

  lemma PassAllKeeps(f: seq<Option<Tree<Node>>>)
    requires AllGood(f)
    ensures CleanAll(PassAll(f)) == CleanAll(f) && AllGood(PassAll(f))
    ensures AllFit(f) ==> PassAll(f) == f && CleanAll(f) == f
    ensures !AllFit(f) ==> TotalSize(PassAll(f)) < TotalSize(f)
  {
    var g := PassAll(f);
    forall i | 0 <= i < |f|
      ensures Good(g[i]) && Cleaned(g[i]) == Cleaned(f[i]) && SizeOn(g[i]) <= SizeOn(f[i])
      ensures FitsOn(f[i]) ==> g[i] == f[i] && Cleaned(f[i]) == f[i]
      ensures !FitsOn(f[i]) ==> SizeOn(g[i]) < SizeOn(f[i])
    {
      DropSmallShrinks(f[i]);
      CleanedDrop(f[i]);
    }
    SmallerTotal(g, f);
  }

  lemma DeleteAllAbsent(f: seq<Option<Tree<Node>>>, n: Node)
    requires n !in AllIds(f)
    ensures DeleteAll(f, n) == f && !DeleteRaises(f, n)
  {
    assert forall i :: 0 <= i < |f| ==> n !in IdsOn(f[i]);
  }

  /** No two displays share a node. */
  ghost predicate Apart(f: seq<Option<Tree<Node>>>) {
    forall i, j :: 0 <= i < j < |f| ==> IdsOn(f[i]) !! IdsOn(f[j])
  }

  class WindowManager {
    const rootWindow: array<Node?>
    const screens: seq<Rect>
    var unacceptablySmallWindowExists: bool
    ghost var forest: seq<Option<Tree<Node>>>

    /** Display `i` holds the layout `o`, tiled over its whole screen. */
    ghost predicate SlotIs(i: int, o: Option<Tree<Node>>)
      requires 0 <= i < rootWindow.Length == |screens|
      reads rootWindow, IdsOn(o)
    {
      if o.None? then rootWindow[i] == null
      else
        var t := o.value;
        rootWindow[i] == t.id && Is(t, null) && Tiled(t) && Distinct(t) && t.r == screens[i]
    }

    /** Every display but `d` holds its layout. */
    ghost predicate ValidBut(d: int)
      reads this`forest, rootWindow, AllIds(forest)
    {
      && |forest| == rootWindow.Length == |screens|
      && (forall i :: 0 <= i < |forest| ==> IdsOn(forest[i]) <= AllIds(forest))
      && (forall i :: 0 <= i < |forest| && i != d ==> SlotIs(i, forest[i]))
      && Apart(forest)
    }

    ghost predicate Valid()
      reads this`forest, rootWindow, AllIds(forest)
    {
      ValidBut(-1)
    }

    constructor (screens: seq<Rect>)
      ensures Valid() && this.screens == screens && forest == seq(|screens|, i => None)
    {
      rootWindow := new Node?[|screens|](i => null);
      this.screens := screens;
      unacceptablySmallWindowExists := false;
      forest := seq(|screens|, i => None);
    }

    method AdjustWindow(w: Node, dl: int, dt: int, dw: int, dh: int, ghost t: Tree<Node>)
      requires w == t.id && Is(t, w.parent) && Distinct(t)
      modifies Ids(t)`viewPort, this`unacceptablySmallWindowExists
      ensures Is(Adjust(t, dl, dt, dw, dh), w.parent)
      ensures unacceptablySmallWindowExists == (old(unacceptablySmallWindowExists) || Flags(t, dl, dt, dw, dh))
      decreases t, 1
    {
      hide IsIn;
      IsParts(t, w.parent);
      if !w.isSplit {
        SetWindowSize(w, Moved(w.viewPort, dl, dt, dw, dh));
      } else {
        AdjustIds(t.top, dl, dt, dw, dh);
        AdjustIds(t.bottom, dl, dt, dw, dh);
        w.viewPort := Moved(w.viewPort, dl, dt, dw, dh);
        assert Snapshot(Ids(t.top)) == old(Snapshot(Ids(t.top)));
        assert Snapshot(Ids(t.bottom)) == old(Snapshot(Ids(t.bottom)));
        if w.splitHorizontally {
          AdjustChildren(w, dt != 0 || dw != 0, dt == 0 || dw != 0, dl, dt, dw, dh, t);
        } else {
          AdjustChildren(w, dl != 0 || dh != 0, dl == 0 || dh != 0, dl, dt, dw, dh, t);
        }
      }
      IsParts(Adjust(t, dl, dt, dw, dh), w.parent);
    }

    /** The children that the moved edge touches. */
    method AdjustChildren(w: Node, doTop: bool, doBottom: bool, dl: int, dt: int, dw: int, dh: int, ghost t: Tree<Node>)
      requires t.Split? && w == t.id && Distinct(t) && w.top == t.top.id && w.bottom == t.bottom.id
      requires Is(t.top, w) && Is(t.bottom, w)
      modifies (Ids(t.top) + Ids(t.bottom))`viewPort, this`unacceptablySmallWindowExists
      ensures Is(if doTop then Adjust(t.top, dl, dt, dw, dh) else t.top, w)
      ensures Is(if doBottom then Adjust(t.bottom, dl, dt, dw, dh) else t.bottom, w)
      ensures unacceptablySmallWindowExists == (old(unacceptablySmallWindowExists)
                                                || (doTop && Flags(t.top, dl, dt, dw, dh))
                                                || (doBottom && Flags(t.bottom, dl, dt, dw, dh)))
      decreases t, 0
    {
      hide IsIn, Adjust, Flags;
      IsParts(t.top, w);
      IsParts(t.bottom, w);
      AdjustIds(t.top, dl, dt, dw, dh);
      if doTop {
        AdjustWindow(w.top, dl, dt, dw, dh, t.top);
        assert Snapshot(Ids(t.bottom)) == old(Snapshot(Ids(t.bottom)));
      }
      label before:
      if doBottom {
        AdjustWindow(w.bottom, dl, dt, dw, dh, t.bottom);
        assert Snapshot(Ids(t.top)) == old@before(Snapshot(Ids(t.top)));
      }
    }

    method SetWindowSize(p: Node, r: Rect)
      modifies p`viewPort, this`unacceptablySmallWindowExists
      ensures p.viewPort == if p.isSplit then old(p.viewPort) else r
      ensures unacceptablySmallWindowExists
           == (old(unacceptablySmallWindowExists) || (!p.isSplit && r != old(p.viewPort) && Small(r)))
    {
      if !p.isSplit && p.viewPort != r {
        p.viewPort := r;
        if r.width < MIN_WINDOW_WIDTH || r.height < MIN_WINDOW_HEIGHT {
          unacceptablySmallWindowExists := true;
        }
      }
    }

    lemma InForest(w: Node, d: int)
      requires Valid() && 0 <= d < |forest| && w in IdsOn(forest[d])
      ensures var t := forest[d].value;
              && Is(Sub(t, w), w.parent) && Distinct(Sub(t, w)) && Tiled(Sub(t, w))
              && w.parent == (if w == t.id then null else Parent(t, w))
              && !w.deleted && w.isSplit == Sub(t, w).Split? && (!w.isSplit ==> w.visible)
              && w.viewPort == Sub(t, w).r && w in AllIds(forest)
              && (w.isSplit ==> w.top == Sub(t, w).top.id && w.bottom == Sub(t, w).bottom.id
                                && w.splitValue == Sub(t, w).at && w.splitHorizontally == Sub(t, w).horizontal)
    {
      var t := forest[d].value;
      SubIs(t, null, w);
      SubDistinct(t, w);
      IsParts(Sub(t, w), w.parent);
    }

    lemma NotDeleted(w: Node)
      requires Valid() && w.deleted
      ensures w !in AllIds(forest)
    {
      forall d | 0 <= d < |forest| ensures w !in IdsOn(forest[d]) {
        if w in IdsOn(forest[d]) {
          InForest(w, d);
        }
      }
    }

    /** The roots are the heads of the layouts, so no other node is one. */
    lemma RootsAreHeads(w: Node, d: int)
      requires Valid() && 0 <= d < |forest| && w in IdsOn(forest[d])
      ensures forall j :: 0 <= j < rootWindow.Length && rootWindow[j] == w ==> j == d && w == forest[d].value.id
    {
      hide Is, Tiled, Distinct, AllIds;
      forall j | 0 <= j < rootWindow.Length && rootWindow[j] == w
        ensures j == d && w == forest[d].value.id
      {
        assert SlotIs(j, forest[j]);
        assert w in IdsOn(forest[j]);
      }
    }

    method FindRoot(w: Node) returns (i: nat)
      ensures i <= rootWindow.Length && (i < rootWindow.Length ==> rootWindow[i] == w)
      ensures forall j :: 0 <= j < i ==> rootWindow[j] != w
    {
      i := 0;
      while i < rootWindow.Length && rootWindow[i] != w
        invariant i <= rootWindow.Length
        invariant forall j :: 0 <= j < i ==> rootWindow[j] != w
      {
        i := i + 1;
      }
    }

    ghost predicate AllDeleted(s: set<Node>)
      reads s
    {
      forall m :: m in s ==> m.deleted && (!m.isSplit ==> !m.visible)
    }

    /** `w` heads the intact layout `s` below a split that is being deleted. */
    ghost predicate InDeleted(w: Node, s: Tree<Node>)
      reads Ids(s), w, w.parent
    {
      w == s.id && w.parent != null && w.parent.deleted && w.parent !in Ids(s) && Is(s, w.parent) && Distinct(s)
    }

    /** Marks `w` and everything below it as deleted, and hides the windows. */
    method Mark(w: Node, ghost s: Tree<Node>) returns (isVisible: bool)
      requires w == s.id && Distinct(s) && (Is(s, w.parent) || (s.Leaf? && !w.isSplit))
      requires forall j :: 0 <= j < rootWindow.Length && rootWindow[j] != null && rootWindow[j] in Ids(s) ==>
                 rootWindow[j] == w
      modifies Ids(s)`deleted, Ids(s)`visible
      ensures AllDeleted(Ids(s))
      ensures isVisible == old(w.isSplit || w.visible)
      decreases s, 0
    {
      hide IsIn, Ids, Distinct;
      IsParts(s, w.parent);
      isVisible := true;
      if s.Leaf? {
        LeafIds(s);
      } else {
        SplitSets(s);
      }
      w.deleted := true;
      if w.isSplit {
        assert Snapshot(Ids(s.top)) == old(Snapshot(Ids(s.top)));
        DeleteNested(w.top, s.top);
        assert Snapshot(Ids(s.bottom)) == old(Snapshot(Ids(s.bottom)));
        DeleteNested(w.bottom, s.bottom);
        assert Ids(s) == {w} + Ids(s.top) + Ids(s.bottom);
      } else {
        isVisible := w.visible;
        w.visible := false;
      }
    }

    /** DeleteWindow called for a child of the split that is being deleted: it
        finds the parent already deleted, and unlinks nothing. */
    method DeleteNested(w: Node, ghost s: Tree<Node>)
      requires InDeleted(w, s)
      requires forall j :: 0 <= j < rootWindow.Length && rootWindow[j] != null ==> rootWindow[j] !in Ids(s)
      modifies Ids(s)`deleted, Ids(s)`visible
      ensures AllDeleted(Ids(s))
      decreases s, 1
    {
      var isVisible := Mark(w, s);
      label marked:
      var i := FindRoot(w);
      assert Snapshot(Ids(s)) == old@marked(Snapshot(Ids(s)));
      assert forall m :: m in Ids(s) ==> m in Snapshot(Ids(s)) && Snapshot(Ids(s))[m] == FieldsOf(m);
      var p := w.parent;
      assert i == rootWindow.Length && p.deleted;
    }

    /** The links of display `d` are those of `h`, except below `w`. */
    ghost predicate UnlinkReady(t: Tree<Node>, w: Node, h: map<Node, Fields>)
      reads Ids(t)
    {
      && Tiled(t) && Distinct(t) && IsIn(t, null, h) && w in Ids(t) && w != t.id && w.viewPort == Sub(t, w).r
      && forall m :: m in Ids(t) && m !in Ids(Sub(t, w)) ==> m in h && h[m] == FieldsOf(m)
    }

    lemma ParentReady(t: Tree<Node>, w: Node, h: map<Node, Fields>)
      requires UnlinkReady(t, w, h)
      ensures var p := Parent(t, w); var q := Sub(t, p);
              && ChildOf(q, w) && Distinct(q) && Tiled(q) && p in h && h[p] == FieldsOf(p)
              && p.isSplit && p.splitHorizontally == q.horizontal && p.top == q.top.id && p.bottom == q.bottom.id
              && p.parent == (if p == t.id then null else Parent(t, p))
              && (p.top == w <==> q.top.id == w)
              && w.viewPort == (if p.top == w then q.top.r else q.bottom.r)
              && Is(Sibling(q, w), p) && Sibling(q, w).id.parent == p
              && Ids(q) == {p} + Ids(Sub(t, w)) + Ids(Sibling(q, w)) && Ids(q) <= Ids(t)
              && Ids(Sub(t, w)) !! Ids(Sibling(q, w)) && p !in Ids(Sibling(q, w)) && p !in Ids(Sub(t, w))
    {
      var p := Parent(t, w);
      ParentHolds(t, w);
      SubDistinct(t, p);
      SubIn(t, null, p, h);
      var q := Sub(t, p);
      var sib := Sibling(q, w);
      assert Ids(q) == {p} + Ids(Sub(t, w)) + Ids(sib);
      IsSnapshot(sib, p, h);
      IsParts(sib, p);
    }

    /** The sibling of `w` grows over the room of `w`. */
    method TakeRoom(w: Node, p: Node, ghost q: Tree<Node>) returns (other: Node)
      requires p == q.id && ChildOf(q, w) && Distinct(q)
      requires p.top == q.top.id && p.bottom == q.bottom.id && p.splitHorizontally == q.horizontal
      requires w.viewPort == (if p.top == w then q.top.r else q.bottom.r)
      requires Is(Sibling(q, w), p)
      modifies Ids(Sibling(q, w))`viewPort, this`unacceptablySmallWindowExists
      ensures other == Sibling(q, w).id == Joined(q, w).id && other.parent == p && Is(Joined(q, w), p)
      ensures unacceptablySmallWindowExists == (old(unacceptablySmallWindowExists) || JoinFlags(q, w))
    {
      hide IsIn, Is, Adjust, Flags;
      IsParts(Sibling(q, w), p);
      var myWidth, myHeight := w.viewPort.width, w.viewPort.height;
      if p.top == w {
        other := p.bottom;
        if p.splitHorizontally {
          AdjustIds(q.bottom, 0, -myHeight, 0, myHeight);
          AdjustWindow(other, 0, -myHeight, 0, myHeight, q.bottom);
        } else {
          AdjustIds(q.bottom, -myWidth, 0, myWidth, 0);
          AdjustWindow(other, -myWidth, 0, myWidth, 0, q.bottom);
        }
      } else {
        other := p.top;
        if p.splitHorizontally {
          AdjustIds(q.top, 0, 0, 0, myHeight);
          AdjustWindow(other, 0, 0, 0, myHeight, q.top);
        } else {
          AdjustIds(q.top, 0, 0, myWidth, 0);
          AdjustWindow(other, 0, 0, myWidth, 0, q.top);
        }
      }
    }

    lemma JoinedIds<N>(q: Tree<N>, w: N)
      requires ChildOf(q, w)
      ensures Ids(Joined(q, w)) == Ids(Sibling(q, w)) && (Distinct(q) ==> Distinct(Joined(q, w)))
    {
      hide Adjust;
      var r := if q.top.id == w then q.top.r else q.bottom.r;
      AdjustIds(q.bottom, 0, -r.height, 0, r.height);
      AdjustIds(q.bottom, -r.width, 0, r.width, 0);
      AdjustIds(q.top, 0, 0, 0, r.height);
      AdjustIds(q.top, 0, 0, r.width, 0);
    }

    /** The heap holds the layout with `u` in the place of `p`. */
    lemma RelinkedIs(t: Tree<Node>, p: Node, u: Tree<Node>, g: Node?, h: map<Node, Fields>)
      requires Distinct(t) && IsIn(t, null, h) && p in Ids(t) && p in h && h[p].parent == g
      requires Distinct(u) && Is(u, g) && Ids(u) !! (Ids(t) - Ids(Sub(t, p)))
      requires forall m :: m in Ids(t) && m !in Ids(Sub(t, p)) ==>
                 m in h && FieldsOf(m) == if m == g then Repointed(h[m], p, u.id) else h[m]
      ensures Is(Subst(t, p, u), null)
    {
      hide IsIn, Is;
      var outer := Ids(t) - Ids(Sub(t, p));
      var k := Snapshot(outer + Ids(u));
      IsSnapshot(u, g, k);
      assert Around(Ids(t), Ids(Sub(t, p)), p, u.id, g, h, k) by {
        forall m | m in Ids(t) && m !in Ids(Sub(t, p))
          ensures m in h && m in k && k[m] == if m == g then Repointed(h[m], p, u.id) else h[m]
        {
          assert m in outer;
        }
      }
      SubstIsIn(t, null, p, u, g, h, k);
      SubstIds(t, p, u);
      IsSnapshot(Subst(t, p, u), null, k);
    }

    /** The head of a layout given a new parent. */
    lemma ReparentedIs(u: Tree<Node>, g: Node?, k: map<Node, Fields>)
      requires Distinct(u) && u.id in k && IsIn(u, k[u.id].parent, k)
      requires forall m :: m in Ids(u) ==> m in k && FieldsOf(m) == if m == u.id then k[m].(parent := g) else k[m]
      ensures Is(u, g)
    {
      if u.Split? {
        SameIsIn(u.top, u.id, k, Snapshot(Ids(u)));
        SameIsIn(u.bottom, u.id, k, Snapshot(Ids(u)));
      }
    }

    /** Hangs `other` in the place of `p`: under `g`, the parent of `p`, or as a
        root. `inner` holds the nodes below `other`, `outer` those not below `p`. */
    method Hang(p: Node, other: Node, g: Node?, ghost inner: set<Node>, ghost outer: set<Node>)
      requires inner !! outer && other in inner && (g != null ==> g in outer)
      requires g != null ==> g.top != g.bottom && (g.top == p || g.bottom == p)
      modifies other`parent, rootWindow, (if g == null then {} else {g})`top, (if g == null then {} else {g})`bottom
      ensures forall m :: m in inner ==>
                FieldsOf(m) == if m == other then old(FieldsOf(m)).(parent := g) else old(FieldsOf(m))
      ensures forall m :: m in outer ==>
                FieldsOf(m) == if m == g then Repointed(old(FieldsOf(m)), p, other) else old(FieldsOf(m))
      ensures g != null ==> rootWindow[..] == old(rootWindow[..])
      ensures g == null && old(p in rootWindow[..]) ==>
                exists i :: 0 <= i < rootWindow.Length && old(rootWindow[i]) == p
                            && rootWindow[..] == old(rootWindow[..])[i := other]
    {
      if g != null {
        if g.top == p {
          g.top := other;
        } else {
          g.bottom := other;
        }
      } else {
        var i := FindRoot(p);
        if i < rootWindow.Length {
          rootWindow[i] := other;
        }
      }
      other.parent := g;
    }

    /** `Hang` for `other` the head of a layout `u` is Subst on the layout of the
        display. `h` holds the links from before the operation, which have
        changed only below `p` so far. */
    method Relink(p: Node, other: Node, g: Node?, ghost t: Tree<Node>, ghost u: Tree<Node>, ghost d: int,
            ghost h: map<Node, Fields>)
      requires Distinct(t) && IsIn(t, null, h) && p in Ids(t) && p in h && g == h[p].parent
      requires other == u.id && Distinct(u) && Is(u, other.parent) && Ids(u) !! (Ids(t) - Ids(Sub(t, p)))
      requires forall m :: m in Ids(t) && m !in Ids(Sub(t, p)) ==> m in h && h[m] == FieldsOf(m)
      requires 0 <= d < rootWindow.Length && rootWindow[d] == t.id
      requires forall j :: 0 <= j < rootWindow.Length && rootWindow[j] in Ids(t) ==> j == d
      modifies other`parent, rootWindow, (Ids(t) - Ids(Sub(t, p)))`top, (Ids(t) - Ids(Sub(t, p)))`bottom
      ensures Is(Subst(t, p, u), null) && rootWindow[..] == old(rootWindow[..])[d := Subst(t, p, u).id]
    {
      hide IsIn, Is, Ids, Sub, Subst, Distinct, Parent;
      ghost var k := Snapshot(Ids(u));
      ghost var outer := Ids(t) - Ids(Sub(t, p));
      RelinkFacts(t, p, u, h);
      Hang(p, other, g, Ids(u), outer);
      ReparentedIs(u, g, k);
      RelinkedIs(t, p, u, g, h);
    }

    lemma RelinkFacts(t: Tree<Node>, p: Node, u: Tree<Node>, h: map<Node, Fields>)
      requires Distinct(t) && IsIn(t, null, h) && p in Ids(t) && p in h
      requires Distinct(u) && Is(u, u.id.parent) && Ids(u) !! (Ids(t) - Ids(Sub(t, p)))
      ensures var g := h[p].parent; var outer := Ids(t) - Ids(Sub(t, p));
              && u.id in Ids(u) && u.id !in outer && p !in outer
                 && Subst(t, p, u).id == (if g == null then u.id else t.id)
              && (g == null <==> p == t.id)
              && (g != null ==> g in outer && g in h && h[g].top != h[g].bottom && (h[g].top == p || h[g].bottom == p))
      ensures IsIn(u, u.id.parent, Snapshot(Ids(u)))
    {
      SubIn(t, null, p, h);
      if p != t.id {
        ParentOutside(t, p);
        ParentFields(t, p, h);
      }
    }

    lemma ParentOutside<N>(t: Tree<N>, n: N)
      requires Distinct(t) && n in Ids(t) && n != t.id
      ensures Parent(t, n) in Ids(t) && Parent(t, n) !in Ids(Sub(t, n))
    {
      ParentHolds(t, n);
      SubDistinct(t, Parent(t, n));
    }

    lemma ParentFields(t: Tree<Node>, n: Node, h: map<Node, Fields>)
      requires Distinct(t) && IsIn(t, null, h) && n in Ids(t) && n != t.id
      ensures var p := Parent(t, n); p in h && h[p].top != h[p].bottom && (h[p].top == n || h[p].bottom == n)
    {
      ParentHolds(t, n);
      SubDistinct(t, Parent(t, n));
      SubIn(t, null, Parent(t, n), h);
    }

    // ----- the displays an operation does not touch -----

    ghost function Elsewhere(d: int): set<Node>
      reads this`forest
    {
      AllIds(forest) - if 0 <= d < |forest| then IdsOn(forest[d]) else {}
    }

    /** What the other displays rely on: their links and their roots. */
    ghost predicate OthersIn(d: int, snap: map<Node, Fields>, roots: seq<Node?>)
      reads this`forest
    {
      && |forest| == |roots| == |screens|
      && forall j :: 0 <= j < |forest| && j != d ==>
           if forest[j].None? then roots[j] == null
           else
             var t := forest[j].value;
             roots[j] == t.id && IsIn(t, null, snap) && Tiled(t) && Distinct(t) && t.r == screens[j]
                 && Ids(t) <= Elsewhere(d)
    }

    lemma OthersBefore(d: int)
      requires d < |forest| && Valid()
      ensures OthersIn(d, Snapshot(Elsewhere(d)), rootWindow[..])
    {
      hide IsIn, Ids, Tiled, Distinct;
      forall j | 0 <= j < |forest| && j != d && forest[j].Some?
        ensures IsIn(forest[j].value, null, Snapshot(Elsewhere(d))) && IdsOn(forest[j]) <= Elsewhere(d)
      {
        assert SlotIs(j, forest[j]);
        assert d >= 0 ==> IdsOn(forest[j]) !! IdsOn(forest[d]);
        IsSnapshot(forest[j].value, null, Snapshot(Elsewhere(d)));
      }
    }

    lemma AllKept(snap: map<Node, Fields>, roots: seq<Node?>)
      requires |forest| == rootWindow.Length && OthersIn(-1, snap, roots) && Snapshot(Elsewhere(-1)) == snap
      requires Apart(forest) && rootWindow[..] == roots
      ensures Valid()
    {
      hide IsIn, Ids, Tiled, Distinct;
      forall j | 0 <= j < |forest| ensures SlotIs(j, forest[j]) && IdsOn(forest[j]) <= AllIds(forest) {
        assert roots[j] == rootWindow[j];
        if forest[j].Some? {
          IsSnapshot(forest[j].value, null, snap);
        }
      }
    }

    /** Display `d` gets a new layout, the others are as they were. */
    ghost method Commit(d: int, o: Option<Tree<Node>>, snap: map<Node, Fields>, roots: seq<Node?>)
      requires 0 <= d < |forest| == rootWindow.Length && OthersIn(d, snap, roots) && Snapshot(Elsewhere(d)) == snap
      requires Apart(forest)
      requires forall j :: 0 <= j < |forest| && j != d ==> rootWindow[j] == roots[j]
      requires SlotIs(d, o) && IdsOn(o) !! Elsewhere(d)
      modifies this`forest
      ensures forest == old(forest)[d := o] && Valid()
    {
      hide IsIn, Ids, Tiled, Distinct;
      forall j | 0 <= j < |forest| && j != d
        ensures SlotIs(j, forest[j]) && IdsOn(forest[j]) <= Elsewhere(d)
      {
        if forest[j].Some? {
          IsSnapshot(forest[j].value, null, snap);
        }
      }
      forest := forest[d := o];
    }

    /** The last part of DeleteWindow: the sibling takes the room of `w` and the
        place of their parent `p`. `h` holds the links from before the deletion,
        which have changed only below `w` so far. */
    method Unlink(w: Node, p: Node, ghost d: nat, ghost t: Tree<Node>, ghost h: map<Node, Fields>)
      requires d < rootWindow.Length && UnlinkReady(t, w, h) && rootWindow[d] == t.id && p == Parent(t, w)
      requires forall j :: 0 <= j < rootWindow.Length && rootWindow[j] in Ids(t) ==> j == d
      modifies this`unacceptablySmallWindowExists, rootWindow, Ids(t)
      ensures Is(Delete(t, w), null) && rootWindow[..] == old(rootWindow[..])[d := Delete(t, w).id]
      ensures unacceptablySmallWindowExists == (old(unacceptablySmallWindowExists) || DeleteFlags(Some(t), w))
      ensures w.deleted == old(w.deleted)
    {
      hide IsIn, Is, Ids, Sub, Subst, Distinct, Parent, Joined, Tiled, Sibling, ChildOf;
      ghost var q := Sub(t, p);
      UnlinkFacts(t, w, h);
      var other := TakeRoom(w, p, q);
      Relink(p, other, p.parent, t, Joined(q, w), d, h);
    }

    lemma UnlinkFacts(t: Tree<Node>, w: Node, h: map<Node, Fields>)
      requires UnlinkReady(t, w, h)
      ensures var p := Parent(t, w); var q := Sub(t, p);
              && ChildOf(q, w) && Distinct(q) && Tiled(q) && p in h && h[p] == FieldsOf(p)
              && p.splitHorizontally == q.horizontal && p.top == q.top.id && p.bottom == q.bottom.id
              && w.viewPort == (if p.top == w then q.top.r else q.bottom.r)
              && Is(Sibling(q, w), p)
              && Distinct(Joined(q, w)) && Ids(Joined(q, w)) == Ids(Sibling(q, w)) <= Ids(q) <= Ids(t)
              && w !in Ids(Sibling(q, w)) && Sibling(q, w).id in Ids(Sibling(q, w))
              && Ids(Sub(t, w)) <= Ids(q)
              && var n := Delete(t, w);
                 Tiled(n) && Distinct(n) && n.r == t.r && Ids(n) <= Ids(t) && Delete(t, w) == Subst(t, p, Joined(q, w))
    {
      ParentReady(t, w, h);
      JoinedIds(Sub(t, Parent(t, w)), w);
      DeleteKeeps(t, w);
      SubDistinct(t, w);
    }

    lemma DisplayGood(d: int)
      requires Valid() && 0 <= d < |forest|
      ensures Good(forest[d])
    {
      assert SlotIs(d, forest[d]);
    }

    lemma DeleteAllAt(d: int, w: Node)
      requires Valid() && 0 <= d < |forest| && w in IdsOn(forest[d])
      ensures DeleteAll(forest, w) == forest[d := DeleteOn(forest[d], w)]
      ensures DeleteRaises(forest, w) == DeleteFlags(forest[d], w)
      ensures IdsOn(DeleteOn(forest[d], w)) !! Elsewhere(d) && Good(DeleteOn(forest[d], w))
      ensures DeleteOn(forest[d], w).Some? ==> DeleteOn(forest[d], w).value.r == forest[d].value.r
    {
      hide Is, IsIn, Tiled, Distinct, JoinFlags, Ids;
      DisplayGood(d);
      forall j | 0 <= j < |forest| && j != d ensures w !in IdsOn(forest[j]) {
        assert IdsOn(forest[d]) !! IdsOn(forest[j]);
      }
      DeleteOnKeeps(forest[d], w);
    }

    lemma DisplayFacts(d: int)
      requires Valid() && 0 <= d < |forest| && forest[d].Some?
      ensures var t := forest[d].value;
              && Tiled(t) && Distinct(t) && t.r == screens[d] && rootWindow[d] == t.id && t.id in Ids(t)
              && IsIn(t, null, Snapshot(Ids(t))) && Ids(t) <= AllIds(forest)
      ensures forall j :: 0 <= j < rootWindow.Length && rootWindow[j] in IdsOn(forest[d]) ==> j == d
      ensures |forest| == |screens| && OthersIn(d, Snapshot(Elsewhere(d)), rootWindow[..])
    {
      assert SlotIs(d, forest[d]);
      forall j | 0 <= j < rootWindow.Length && rootWindow[j] in IdsOn(forest[d]) ensures j == d {
        RootsAreHeads(rootWindow[j], d);
      }
      OthersBefore(d);
    }

    /** `w` has been marked in the display `d`, which still holds the layout `t`. */
    ghost predicate Marked(w: Node, d: int, t: Tree<Node>, h: map<Node, Fields>)
      reads Ids(t), rootWindow
    {
      && 0 <= d < rootWindow.Length && rootWindow[d] == t.id
      && (forall j :: 0 <= j < rootWindow.Length && rootWindow[j] in Ids(t) ==> j == d)
      && Tiled(t) && Distinct(t) && IsIn(t, null, h) && w in Ids(t) && w.viewPort == Sub(t, w).r
      && w in h && w.parent == h[w].parent
      && forall m :: m in Ids(t) && m !in Ids(Sub(t, w)) ==> m in h && h[m] == FieldsOf(m)
    }

    /** Takes the marked node out of the display. */
    method Detach(w: Node, ghost d: int, ghost t: Tree<Node>, ghost h: map<Node, Fields>)
      requires Marked(w, d, t, h)
      modifies this`unacceptablySmallWindowExists, rootWindow, Ids(t)
      ensures rootWindow[..] == old(rootWindow[..])[d := if w == t.id then null else Delete(t, w).id]
      ensures w != t.id ==> Is(Delete(t, w), null)
      ensures unacceptablySmallWindowExists == (old(unacceptablySmallWindowExists) || DeleteFlags(Some(t), w))
      ensures w.deleted == old(w.deleted)
    {
      hide IsIn, Is, Ids, Sub, Tiled, Distinct, Delete, Parent, JoinFlags;
      DetachFacts(w, d, t, h);
      var i := FindRoot(w);
      if i < rootWindow.Length {
        rootWindow[i] := null;
        return;
      }
      var p := w.parent;
      if p == null || p.deleted {
        return;
      }
      Unlink(w, p, d, t, h);
    }

    lemma DetachFacts(w: Node, d: int, t: Tree<Node>, h: map<Node, Fields>)
      requires Marked(w, d, t, h)
      ensures (exists j :: 0 <= j < rootWindow.Length && rootWindow[j] == w) <==> w == t.id
      ensures w != t.id ==>
                w.parent == Parent(t, w) && Parent(t, w) in Ids(t) && !Parent(t, w).deleted && UnlinkReady(t, w, h)
    {
      SubIn(t, null, w, h);
      if w != t.id {
        ParentOutside(t, w);
        SubIn(t, null, Parent(t, w), h);
      }
    }

    method DeleteWindow(w: Node?)
      requires Valid()
      requires w != null && !w.deleted && w !in AllIds(forest) ==> !w.isSplit && !w.visible
      modifies AllIds(forest), this, rootWindow, if w == null then {} else {w}
      ensures Valid() && forest == if w == null then old(forest) else DeleteAll(old(forest), w)
      ensures unacceptablySmallWindowExists
           == (old(unacceptablySmallWindowExists) || (w != null && DeleteRaises(old(forest), w)))
      ensures w != null ==> w.deleted
    {
      hide ValidBut, IsIn, Is, Ids, Sub, Tiled, Distinct, Delete, DeleteAll, DeleteRaises, AllIds, Apart;
      if w == null {
        return;
      }
      if w.deleted {
        NotDeleted(w);
        DeleteAllAbsent(forest, w);
        return;
      }
      ghost var d, t, s := FindDisplay(w);
      ghost var roots := rootWindow[..];
      ghost var snap, h := Snapshot(Elsewhere(d)), Snapshot(Ids(t));
      var isVisible := Mark(w, s);
      if isVisible {
        Detach(w, d, t, h);
        Commit(d, if w == t.id then None else Some(Delete(t, w)), snap, roots);
      } else {
        AllKept(snap, roots);
      }
    }

    /** The display that holds `w` and the layouts there; or -1. */
    lemma FindDisplay(w: Node) returns (d: int, t: Tree<Node>, s: Tree<Node>)
      requires Valid() && !w.deleted && (w !in AllIds(forest) ==> !w.isSplit && !w.visible)
      ensures w == s.id && Distinct(s) && w in Ids(s) && Ids(s) <= Ids(t)
      ensures forall j :: 0 <= j < rootWindow.Length && rootWindow[j] != null && rootWindow[j] in Ids(s) ==>
                rootWindow[j] == w
      ensures |forest| == rootWindow.Length && OthersIn(d, Snapshot(Elsewhere(d)), rootWindow[..]) && Apart(forest)
      ensures d < 0 ==> d == -1 && s.Leaf? && Ids(t) == {w} && w !in Elsewhere(d) && !w.isSplit && !w.visible
                        && DeleteAll(forest, w) == forest && !DeleteRaises(forest, w)
      ensures d >= 0 ==> d < |forest| && Found(w, d, t, s) && DeletesAt(w, d, t)
    {
      hide Is, IsIn, Sub, DeleteAll, DeleteRaises, DeleteFlags, Tiled, OthersIn, Marked, ValidBut, Apart, AllIds,
           Snapshot;
      ValidIsGood();
      if w in AllIds(forest) {
        d := DisplayOf(w);
        t := forest[d].value;
        s := Sub(t, w);
        FoundThere(w, d);
        DeleteAllAt(d, w);
        OnlyRoot(w, d);
      } else {
        d, s := -1, Leaf(w, w.viewPort);
        t := s;
        DeleteAllAbsent(forest, w);
        OthersBefore(-1);
        NotRoot(w);
      }
    }

    lemma DisplayOf(w: Node) returns (d: int)
      requires w in AllIds(forest)
      ensures 0 <= d < |forest| && w in IdsOn(forest[d])
    {
      d :| 0 <= d < |forest| && w in IdsOn(forest[d]);
    }

    lemma NotRoot(w: Node)
      requires Valid() && w !in AllIds(forest)
      ensures forall j :: 0 <= j < rootWindow.Length ==> rootWindow[j] != w
    {
      forall j | 0 <= j < rootWindow.Length ensures rootWindow[j] != w {
        assert SlotIs(j, forest[j]);
        assert forest[j].Some? ==> rootWindow[j] in IdsOn(forest[j]);
      }
    }

    /** Where `w` is, and that the links there are intact. */
    ghost predicate Found(w: Node, d: int, t: Tree<Node>, s: Tree<Node>)
      requires 0 <= d < |forest|
      reads this, rootWindow, w, Ids(s), Ids(t)
    {
      && |forest| == |screens| && forest[d] == Some(t) && Distinct(t) && w in Ids(t) && s == Sub(t, w)
         && Is(s, w.parent)
      && Marked(w, d, t, Snapshot(Ids(t))) && (w.isSplit || w.visible) && t.r == screens[d]
      && Ids(t) <= AllIds(forest)
    }

    /** What deleting `w` from display `d` means for all displays. */
    ghost predicate DeletesAt(w: Node, d: int, t: Tree<Node>)
      requires Tiled(t) && Distinct(t) && w in Ids(t) && 0 <= d < |forest|
      reads this`forest
    {
      var o := if w == t.id then None else Some(Delete(t, w));
      && DeleteAll(forest, w) == forest[d := o] && IdsOn(o) !! Elsewhere(d)
         && DeleteRaises(forest, w) == DeleteFlags(Some(t), w)
      && (o.Some? ==> Tiled(o.value) && Distinct(o.value) && o.value.r == t.r)
    }

    lemma FoundThere(w: Node, d: int)
      requires Valid() && 0 <= d < |forest| && w in IdsOn(forest[d])
      ensures var t := forest[d].value; Found(w, d, t, Sub(t, w)) && Distinct(Sub(t, w))
      ensures OthersIn(d, Snapshot(Elsewhere(d)), rootWindow[..])
    {
      hide Is, IsIn, Ids, Sub, Tiled, Distinct, AllIds, ValidBut;
      InForest(w, d);
      DisplayFacts(d);
    }

    lemma OnlyRoot(w: Node, d: int)
      requires Valid() && 0 <= d < |forest| && w in IdsOn(forest[d])
      ensures forall j ::
                0 <= j < rootWindow.Length && rootWindow[j] != null && rootWindow[j] in Ids(Sub(forest[d].value, w)) ==>
                  rootWindow[j] == w
    {
      var t := forest[d].value;
      hide IsIn, ValidBut;
      DisplayFacts(d);
      if w != t.id {
        SubProper(t, w);
      }
    }

    // ----- cleaning up -----

    /** Deletes the first node below `w`, itself included, that is too small. */
    method DeleteNegativeWindow(w: Node?, ghost d: int, ghost o: Option<Tree<Node>>) returns (found: bool)
      requires Valid() && (w == null <==> o.None?)
      requires w != null ==> 0 <= d < |forest| && w in IdsOn(forest[d]) && o.value == Sub(forest[d].value, w)
      modifies AllIds(forest), this, rootWindow
      ensures Valid() && AllIds(forest) <= old(AllIds(forest))
      ensures found <==> o.Some? && FirstSmall(o.value).Some?
      ensures !found ==> forest == old(forest) && unacceptablySmallWindowExists == old(unacceptablySmallWindowExists)
      ensures found ==> unacceptablySmallWindowExists && forest == DeleteAll(old(forest), FirstSmall(o.value).value)
      decreases if o.None? then 0 else Size(o.value)
    {
      hide Is, AllIds, DeleteAll, Distinct, ValidBut;
      if w == null {
        return false;
      }
      InForest(w, d);
      if !w.deleted && (w.viewPort.width < MIN_WINDOW_WIDTH || w.viewPort.height < MIN_WINDOW_HEIGHT) {
        DeleteAllKeeps(forest, w);
        DeleteWindow(w);
        unacceptablySmallWindowExists := true;
        return true;
      }
      if w.isSplit {
        DisplayFacts(d);
        SubChildren(forest[d].value, w);
        found := DeleteNegativeWindow(w.top, d, Some(o.value.top));
        if !found {
          InForest(w, d);
          found := DeleteNegativeWindow(w.bottom, d, Some(o.value.bottom));
        }
        return found;
      }
      return false;
    }

    lemma {:induction false} SubChildren<N>(t: Tree<N>, n: N)
      requires Distinct(t) && n in Ids(t) && Sub(t, n).Split?
      ensures var s := Sub(t, n);
              && s.top.id in Ids(t) && Sub(t, s.top.id) == s.top
              && s.bottom.id in Ids(t) && Sub(t, s.bottom.id) == s.bottom
      decreases t
    {
      if t.id != n {
        var child := if n in Ids(t.top) then t.top else t.bottom;
        SubChildren(child, n);
        assert Sub(t, n).top.id in Ids(child) && Sub(t, n).bottom.id in Ids(child);
      }
    }

    lemma ValidIsGood()
      requires Valid()
      ensures AllGood(forest) && |forest| == rootWindow.Length == |screens| && Apart(forest)
    {
      forall i | 0 <= i < |forest| ensures Good(forest[i]) {
        assert SlotIs(i, forest[i]);
      }
    }

    /** The pass on one display. */
    method PassOn(ghost d: int, root: Node?)
      requires Valid() && 0 <= d < |forest| && d < rootWindow.Length && rootWindow[d] == root
      modifies AllIds(forest), this, rootWindow
      ensures Valid() && AllIds(forest) <= old(AllIds(forest))
      ensures Good(old(forest)[d]) && forest == old(forest)[d := DropSmall(old(forest)[d])]
      ensures unacceptablySmallWindowExists == (old(unacceptablySmallWindowExists) || !FitsOn(old(forest)[d]))
    {
      hide Is, AllIds, DeleteAll, DropSmall, Valid;
      ValidIsGood();
      RootOf(d);
      PassOne(d);
      var found := DeleteNegativeWindow(root, d, forest[d]);
    }

    /** One pass over the displays. */
    method CleanupPass()
      requires Valid()
      modifies AllIds(forest), this, rootWindow
      ensures Valid() && AllIds(forest) <= old(AllIds(forest)) && forest == PassAll(old(forest))
      ensures unacceptablySmallWindowExists == (old(unacceptablySmallWindowExists) || !AllFit(old(forest)))
    {
      hide Is, AllIds, DeleteAll, DropSmall, Valid, FitsOn;
      ghost var f := forest;
      ValidIsGood();
      for i := 0 to rootWindow.Length
        invariant Valid() && AllIds(forest) <= old(AllIds(forest)) && |forest| == |f| == rootWindow.Length
        invariant forall j :: 0 <= j < |f| ==> forest[j] == if j < i then DropSmall(f[j]) else f[j]
        invariant unacceptablySmallWindowExists
                  == (old(unacceptablySmallWindowExists) || exists j :: 0 <= j < i && !FitsOn(f[j]))
      {
        PassOn(i, rootWindow[i]);
      }
    }

    lemma RootOf(d: int)
      requires Valid() && 0 <= d < |forest|
      ensures d < rootWindow.Length && (rootWindow[d] == null <==> forest[d].None?)
      ensures forest[d].Some? ==> var t := forest[d].value; rootWindow[d] == t.id && t.id in Ids(t) && Sub(t, t.id) == t
    {
      assert SlotIs(d, forest[d]);
    }

    /** Deleting the first small node of display `d` is the pass for that display. */
    lemma PassOne(d: int)
      requires Valid() && 0 <= d < |forest| && Good(forest[d])
      ensures forest[d].None? ==> FitsOn(forest[d]) && DropSmall(forest[d]) == forest[d]
      ensures forest[d].Some? ==> var n := FirstSmall(forest[d].value);
                                  && (n.None? <==> FitsOn(forest[d]))
                                  && (n.None? ==> DropSmall(forest[d]) == forest[d])
                                  && (n.Some? ==> DeleteAll(forest, n.value) == forest[d := DropSmall(forest[d])])
    {
      if forest[d].Some? {
        FirstSmallNone(forest[d].value);
        if FirstSmall(forest[d].value).Some? {
          FirstSmallIsSmall(forest[d].value);
          DeleteAllAt(d, FirstSmall(forest[d].value).value);
        }
      }
    }

    // ----- moving a split -----

    lemma MoveAllAt(d: int, w: Node, x: int, y: int)
      requires AllGood(forest) && Apart(forest) && 0 <= d < |forest| && w in IdsOn(forest[d])
      ensures var t := forest[d].value; var m := Move(t, w, x, y);
              && MoveAll(forest, w, x, y) == forest[d := Some(m)]
              && (MoveRaises(forest, w, x, y) <==> MoveFlagged(t, w, x, y))
                 && (MovesAny(forest, w, x, y) <==> Moves(t, w, x, y))
    {
      hide Ids, Sub, Subst, MovedSplit, MoveFlags, Target;
      forall j | 0 <= j < |forest| && j != d ensures w !in IdsOn(forest[j]) {
        assert IdsOn(forest[d]) !! IdsOn(forest[j]);
      }
    }

    lemma SplitSets<N>(s: Tree<N>)
      requires s.Split? && Distinct(s)
      ensures Distinct(s.top) && Distinct(s.bottom) && Ids(s) == {s.id} + Ids(s.top) + Ids(s.bottom)
      ensures s.id !in Ids(s.top) && s.id !in Ids(s.bottom) && Ids(s.top) !! Ids(s.bottom)
    {
    }

    lemma MovedParts<N>(s: Tree<N>, to: int)
      requires s.Split?
      ensures var d := to - s.at; var m := MovedSplit(s, to);
              var xd, yd := if s.horizontal then 0 else d, if s.horizontal then d else 0;
              && m.Split? && m.id == s.id && m.r == s.r && m.at == to && m.horizontal == s.horizontal
              && m.top == Adjust(s.top, 0, 0, xd, yd) && m.bottom == Adjust(s.bottom, xd, yd, -xd, -yd)
              && MoveFlags(s, to) == (Flags(s.top, 0, 0, xd, yd) || Flags(s.bottom, xd, yd, -xd, -yd))
              && m.top.id == s.top.id && m.bottom.id == s.bottom.id && Ids(m.top) == Ids(s.top)
                 && Ids(m.bottom) == Ids(s.bottom)
    {
      hide Adjust, Flags, Ids, Distinct;
      var d := to - s.at;
      var xd, yd := if s.horizontal then 0 else d, if s.horizontal then d else 0;
      AdjustIds(s.top, 0, 0, xd, yd);
      AdjustIds(s.bottom, xd, yd, -xd, -yd);
    }

    /** Sets the split value of `w` and moves the edges that meet there. */
    method Shift(w: Node, to: int, xdelt: int, ydelt: int, ghost s: Tree<Node>)
      requires w == s.id && s.Split? && Is(s, w.parent) && Distinct(s)
      requires if s.horizontal then xdelt == 0 && ydelt == to - s.at else xdelt == to - s.at && ydelt == 0
      modifies this`unacceptablySmallWindowExists, w`splitValue, Ids(s)`viewPort
      ensures Is(MovedSplit(s, to), w.parent)
      ensures unacceptablySmallWindowExists == MoveFlags(s, to)
    {
      hide Is, Ids, Distinct, Adjust, Flags, MovedSplit, MoveFlags;
      SplitSets(s);
      IsParts(s, w.parent);
      MovedParts(s, to);
      SetSplitValue(w, to, s);
      unacceptablySmallWindowExists := false;
      AdjustBeside(w.top, 0, 0, xdelt, ydelt, s.top, s.bottom, w);
      AdjustBeside(w.bottom, xdelt, ydelt, -xdelt, -ydelt, s.bottom, MovedSplit(s, to).top, w);
      IsParts(MovedSplit(s, to), w.parent);
    }

    method SetSplitValue(w: Node, to: int, ghost s: Tree<Node>)
      requires s.Split? && w !in Ids(s.top) && w !in Ids(s.bottom) && Is(s.top, w) && Is(s.bottom, w)
      modifies w`splitValue
      ensures w.splitValue == to && Is(s.top, w) && Is(s.bottom, w)
    {
      hide IsIn, Ids;
      w.splitValue := to;
      assert Snapshot(Ids(s.top)) == old(Snapshot(Ids(s.top)));
      assert Snapshot(Ids(s.bottom)) == old(Snapshot(Ids(s.bottom)));
    }

    /** Moves an edge of the layout `s` when `other` lies beside it. */
    method AdjustBeside(n: Node, dl: int, dt: int, dw: int, dh: int, ghost s: Tree<Node>, ghost other: Tree<Node>,
            ghost w: Node)
      requires n == s.id && n.parent == w && Is(s, w) && Distinct(s) && Is(other, w) && Ids(s) !! Ids(other)
               && w !in Ids(s)
      modifies this`unacceptablySmallWindowExists, Ids(s)`viewPort
      ensures Is(Adjust(s, dl, dt, dw, dh), w) && Is(other, w)
      ensures unacceptablySmallWindowExists == (old(unacceptablySmallWindowExists) || Flags(s, dl, dt, dw, dh))
    {
      hide IsIn, Ids, Distinct, Adjust, Flags;
      AdjustWindow(n, dl, dt, dw, dh, s);
      assert Snapshot(Ids(other)) == old(Snapshot(Ids(other)));
    }

    /** Moves the border of the split `w` to (newX, newY) if that is more than
        three pixels away, and then cleans up until no window is too small. */
    method MoveSplit(w: Node, newX: int, newY: int)
      requires Valid() && w in AllIds(forest)
      modifies AllIds(forest), this, rootWindow
      ensures Valid() && forest == MoveResult(old(forest), w, newX, newY)
      ensures unacceptablySmallWindowExists
           == (old(unacceptablySmallWindowExists) && !MovesAny(old(forest), w, newX, newY))
    {
      hide Is, IsIn, Sub, Subst, Tiled, Distinct, ValidBut, AllIds, Elsewhere, Snapshot, MovedSplit, MoveFlags, MoveAll,
           MoveRaises, MovesAny, OthersIn, CleanAll, PassAll, AllFit, AllGood;
      ghost var d := DisplayOf(w);
      InForest(w, d);
      ValidIsGood();
      MoveAllAt(d, w, newX, newY);
      if w.isSplit {
        var to, xdelt, ydelt;
        if w.splitHorizontally {
          xdelt, ydelt := 0, newY - w.splitValue;
          if -3 <= ydelt <= 3 {
            return;
          }
          to := newY;
        } else {
          xdelt, ydelt := newX - w.splitValue, 0;
          if -3 <= xdelt <= 3 {
            return;
          }
          to := newX;
        }
        ShiftOn(w, to, xdelt, ydelt, d);
        ghost var m, ran := forest, false;
        while unacceptablySmallWindowExists
          invariant Valid() && AllIds(forest) <= old(AllIds(forest))
          invariant CleanAll(forest) == CleanAll(m)
          invariant if ran then !unacceptablySmallWindowExists ==> AllFit(forest)
                    else forest == m && unacceptablySmallWindowExists == MoveRaises(old(forest), w, newX, newY)
          invariant ran ==> MoveRaises(old(forest), w, newX, newY)
          decreases TotalSize(forest), unacceptablySmallWindowExists
        {
          ran := true;
          unacceptablySmallWindowExists := false;
          ValidIsGood();
          PassAllKeeps(forest);
          CleanupPass();
        }
        ValidIsGood();
        PassAllKeeps(forest);
      }
    }

    /** The move itself, before any cleaning up. */
    method ShiftOn(w: Node, to: int, xdelt: int, ydelt: int, ghost d: int)
      requires Valid() && 0 <= d < |forest| && w in IdsOn(forest[d])
      requires var s := Sub(forest[d].value, w);
               s.Split? && if s.horizontal then xdelt == 0 && ydelt == to - s.at else xdelt == to - s.at && ydelt == 0
      modifies AllIds(forest), this
      ensures Valid() && old(forest)[d].Some?
      ensures var t := old(forest)[d].value;
              && forest == old(forest)[d := Some(Subst(t, w, MovedSplit(Sub(t, w), to)))]
              && unacceptablySmallWindowExists == MoveFlags(Sub(t, w), to)
      ensures AllIds(forest) <= old(AllIds(forest))
    {
      hide Is, IsIn, Sub, Tiled, Distinct, ValidBut, AllIds, Elsewhere, MovedSplit, MoveFlags, Subst, OthersIn, Ids,
           Apart;
      InForest(w, d);
      DisplayFacts(d);
      ValidIsGood();
      ghost var t := forest[d].value;
      ShiftFacts(t, w, to, d);
      ghost var s := Sub(t, w);
      ghost var u := MovedSplit(s, to);
      ghost var roots := rootWindow[..];
      ghost var snap, h := Snapshot(Elsewhere(d)), Snapshot(Ids(t));
      Shift(w, to, xdelt, ydelt, s);
      RelinkedIs(t, w, u, w.parent, h);
      Commit(d, Some(Subst(t, w, u)), snap, roots);
    }

    lemma ShiftFacts(t: Tree<Node>, w: Node, to: int, d: int)
      requires Tiled(t) && Distinct(t) && w in Ids(t) && Sub(t, w).Split?
      requires Apart(forest) && 0 <= d < |forest| && forest[d] == Some(t)
      ensures var u := MovedSplit(Sub(t, w), to); var n := Subst(t, w, u);
              && u.id == w && Distinct(u) && Ids(u) == Ids(Sub(t, w)) && w in Ids(u)
              && Tiled(n) && Distinct(n) && n.r == t.r && n.id == t.id && Ids(n) == Ids(t) && Ids(n) !! Elsewhere(d)
              && AllIds(forest[d := Some(n)]) <= AllIds(forest)
    {
      SubDistinct(t, w);
      MovedIds(Sub(t, w), to);
      SubstTiled(t, w, MovedSplit(Sub(t, w), to));
      SubstIds(t, w, MovedSplit(Sub(t, w), to));
    }

    // ----- splitting -----

    method AllocateWindow(p: Node, r: Rect)
      requires !p.isSplit
      modifies p, this`unacceptablySmallWindowExists
      ensures Is(Leaf(p, r), null)
      ensures unacceptablySmallWindowExists
              == (old(unacceptablySmallWindowExists) || (r != old(p.viewPort) && Small(r)))
    {
      p.parent := null;
      p.visible := true;
      SetWindowSize(p, r);
      p.deleted := false;
    }

    /** Gives the window `p` its side of the cut, and `w` the other. */
    method CutRoom(w: Node, pos: int, horizontal: bool, cutAbove: bool, p: Node, ghost s: Tree<Node>)
      requires w == s.id && Is(s, w.parent) && Distinct(s) && p !in Ids(s) && !p.isSplit
      modifies p, this`unacceptablySmallWindowExists, Ids(s)`viewPort
      ensures Is(Leaf(p, NewRect(s.r, pos, horizontal, cutAbove)), null)
      ensures Is(CutRest(s, pos, horizontal, cutAbove), w.parent)
      ensures unacceptablySmallWindowExists == (old(unacceptablySmallWindowExists)
                || (NewRect(s.r, pos, horizontal, cutAbove) != old(p.viewPort)
                   && Small(NewRect(s.r, pos, horizontal, cutAbove)))
                || CutFlags(s, pos, horizontal, cutAbove))
    {
      hide IsIn, Adjust, Flags;
      var v := w.viewPort;
      IsParts(s, w.parent);
      var room, dl, dt, dw, dh;
      if horizontal {
        if cutAbove {
          room := Rect(v.top, v.left, v.width, pos - v.top);
          dl, dt, dw, dh := 0, room.height, 0, -room.height;
        } else {
          room := Rect(pos, v.left, v.width, v.top + v.height - pos);
          dl, dt, dw, dh := 0, 0, 0, -room.height;
        }
      } else {
        if cutAbove {
          room := Rect(v.top, v.left, pos - v.left, v.height);
          dl, dt, dw, dh := room.width, 0, -room.width, 0;
        } else {
          room := Rect(v.top, pos, v.left + v.width - pos, v.height);
          dl, dt, dw, dh := 0, 0, -room.width, 0;
        }
      }
      assert CutRest(s, pos, horizontal, cutAbove) == Adjust(s, dl, dt, dw, dh);
      assert CutFlags(s, pos, horizontal, cutAbove) == Flags(s, dl, dt, dw, dh);
      AllocateWindow(p, room);
      assert Snapshot(Ids(s)) == old(Snapshot(Ids(s)));
      label allocated_p:
      AdjustWindow(w, dl, dt, dw, dh, s);
      assert Snapshot({p}) == old@allocated_p(Snapshot({p}));
    }

    method SetParent(n: Node, g: Node, ghost s: Tree<Node>)
      requires n == s.id && Is(s, n.parent) && Distinct(s)
      modifies n`parent
      ensures n.parent == g && Is(s, g)
    {
      hide IsIn;
      ghost var k := Snapshot(Ids(s));
      n.parent := g;
      ReparentedIs(s, g, k);
    }

    /** Puts `w` and `p` below the new split `up`, which takes the parent of `w`
        but is not linked in yet. */
    method LinkCut(w: Node, pos: int, horizontal: bool, cutAbove: bool, p: Node, up: Node, ghost q: Tree<Node>,
            ghost s: Tree<Node>)
      requires w == s.id && Is(s, w.parent) && Distinct(s) && q == Leaf(p, q.r) && Is(q, p.parent)
      requires w in Ids(s) && p !in Ids(s) && up !in Ids(s) && p != up
      requires up.isSplit && !up.deleted
      modifies up, w`parent, p`parent
      ensures up.parent == old(w.parent) && up.viewPort == old(up.viewPort)
      ensures Is(if cutAbove then Split(up, up.viewPort, pos, horizontal, q, s)
                 else Split(up, up.viewPort, pos, horizontal, s, q), up.parent)
    {
      hide Is, Ids, Distinct;
      LeafIds(q);
      FillSplit(up, pos, horizontal, if cutAbove then p else w, if cutAbove then w else p, w.parent, s, q);
      Adopt(w, up, s, q);
      Adopt(p, up, q, s);
      JoinIs(up, if cutAbove then q else s, if cutAbove then s else q);
    }

    /** The fields of the new split. */
    method FillSplit(up: Node, pos: int, horizontal: bool, first: Node, second: Node, g: Node?,
                     ghost s: Tree<Node>, ghost q: Tree<Node>)
      requires up !in Ids(s) && up !in Ids(q) && up != s.id && up != q.id && Is(s, s.id.parent) && Is(q, q.id.parent)
      modifies up
      ensures up.splitValue == pos && up.splitHorizontally == horizontal && up.top == first && up.bottom == second
      ensures up.parent == g && up.viewPort == old(up.viewPort) && up.deleted == old(up.deleted)
      ensures Is(s, s.id.parent) && Is(q, q.id.parent) && s.id.parent == old(s.id.parent)
              && q.id.parent == old(q.id.parent)
    {
      hide IsIn, Ids;
      up.splitValue := pos;
      up.splitHorizontally := horizontal;
      up.parent := g;
      up.top := first;
      up.bottom := second;
      assert Snapshot(Ids(s)) == old(Snapshot(Ids(s)));
      assert Snapshot(Ids(q)) == old(Snapshot(Ids(q)));
    }

    /** A new parent for the layout `s`, the layout `other` being elsewhere. */
    method Adopt(n: Node, g: Node, ghost s: Tree<Node>, ghost other: Tree<Node>)
      requires n == s.id && Is(s, n.parent) && Distinct(s) && n !in Ids(other) && n != other.id
               && Is(other, other.id.parent)
      modifies n`parent
      ensures n.parent == g && Is(s, g) && other.id.parent == old(other.id.parent) && Is(other, other.id.parent)
    {
      hide IsIn, Ids;
      SetParent(n, g, s);
      assert Snapshot(Ids(other)) == old(Snapshot(Ids(other)));
    }

    lemma JoinIs(up: Node, a: Tree<Node>, b: Tree<Node>)
      requires up.isSplit && !up.deleted && up.top == a.id && up.bottom == b.id && Is(a, up) && Is(b, up)
      ensures Is(Split(up, up.viewPort, up.splitValue, up.splitHorizontally, a, b), up.parent)
    {
      hide Is;
      IsParts(Split(up, up.viewPort, up.splitValue, up.splitHorizontally, a, b), up.parent);
    }

    lemma LeafIds<N>(q: Tree<N>)
      requires q.Leaf?
      ensures Ids(q) == {q.id} && Distinct(q)
    {
    }

    /** Cuts the node `w` at `pos`, with `p` on the other side and `up` above both. */
    method BuildCut(w: Node, pos: int, horizontal: bool, cutAbove: bool, p: Node, up: Node, ghost s: Tree<Node>)
      requires w == s.id && Is(s, w.parent) && Distinct(s) && w in Ids(s) && p !in Ids(s) && up !in Ids(s) && p != up
      requires !p.isSplit && up.isSplit && !up.deleted && up.viewPort == s.r
      modifies p, up, this`unacceptablySmallWindowExists, w`parent, Ids(s)`viewPort
      ensures up.parent == old(w.parent) && Is(Cut(s, pos, horizontal, cutAbove, p, up), up.parent)
      ensures unacceptablySmallWindowExists == (old(unacceptablySmallWindowExists)
                || (NewRect(s.r, pos, horizontal, cutAbove) != old(p.viewPort)
                   && Small(NewRect(s.r, pos, horizontal, cutAbove)))
                || CutFlags(s, pos, horizontal, cutAbove))
    {
      hide IsIn, Is, Ids, Distinct, NewRect, CutRest, CutFlags;
      ghost var q := Leaf(p, NewRect(s.r, pos, horizontal, cutAbove));
      CutRestIds(s, pos, horizontal, cutAbove);
      CutRoom(w, pos, horizontal, cutAbove, p, s);
      IsParts(q, null);
      LinkCut(w, pos, horizontal, cutAbove, p, up, q, CutRest(s, pos, horizontal, cutAbove));
    }

    /** Splits the node `w` at `pos` to make room for the window `p`, then cleans
        up in a single pass if some window is too small. Fails, changing
        nothing, when `pos` is not past the near edge of `w`. */
    method SplitWindow(w: Node, pos: int, horizontal: bool, cutAbove: bool, p: Node) returns (ok: bool, ghost up: Node?)
      requires Valid() && w in AllIds(forest) && !p.isSplit && p !in AllIds(forest)
      modifies AllIds(forest), this, rootWindow, p
      ensures Valid() && (ok <==> CutAllowed(old(w.viewPort), pos, horizontal))
      ensures !ok ==> forest == old(forest) && unacceptablySmallWindowExists == old(unacceptablySmallWindowExists)
      ensures ok ==> up != null && fresh(up) && !unacceptablySmallWindowExists
      ensures ok ==> forest == SplitResult(old(forest), w, pos, horizontal, cutAbove, p, up,
                                           old(p.viewPort), old(unacceptablySmallWindowExists))
    {
      hide Is, IsIn, Ids, Sub, Subst, Tiled, Distinct, ValidBut, AllIds, Elsewhere, OthersIn, PassAll, AllFit, AllGood,
           InsertAll, CutRaises, CutFlags, Cut, CutRest, Insert, Apart;
      ghost var d := DisplayOf(w);
      InForest(w, d);
      DisplayFacts(d);
      OthersBefore(-1);
      ghost var roots := rootWindow[..];
      ghost var all := Snapshot(Elsewhere(-1));
      ValidIsGood();
      var split := new Node.SplitNode();
      split.viewPort := w.viewPort;
      up := split;
      assert Snapshot(Elsewhere(-1)) == all;
      AllKept(all, roots);
      NotThere(split);
      if pos <= (if horizontal then w.viewPort.top else w.viewPort.left) {
        return false, up;
      }
      InsertOn(w, pos, horizontal, cutAbove, p, split, d);
      while unacceptablySmallWindowExists
        invariant Valid() && AllIds(forest) <= old(AllIds(forest)) + {p, up}
        invariant unacceptablySmallWindowExists ==>
                    forest == InsertAll(old(forest), w, pos, horizontal, cutAbove, p, split)
        invariant !unacceptablySmallWindowExists ==>
                    forest == SplitResult(old(forest), w, pos, horizontal, cutAbove, p, split,
                                                               old(p.viewPort), old(unacceptablySmallWindowExists))
        decreases unacceptablySmallWindowExists
      {
        CleanupPass();
        unacceptablySmallWindowExists := false;
      }
      return true, up;
    }

    /** A node without a parent that is no root is on no display. */
    lemma NotThere(n: Node)
      requires Valid() && n.parent == null && forall j :: 0 <= j < rootWindow.Length ==> rootWindow[j] != n
      ensures n !in AllIds(forest)
    {
      forall d | 0 <= d < |forest| ensures n !in IdsOn(forest[d]) {
        if n in IdsOn(forest[d]) {
          InForest(n, d);
          DisplayFacts(d);
        }
      }
    }

    /** The split itself, before any cleaning up. */
    method InsertOn(w: Node, pos: int, horizontal: bool, cutAbove: bool, p: Node, up: Node, ghost d: int)
      requires Valid() && 0 <= d < |forest| && w in IdsOn(forest[d]) && !p.isSplit && p !in AllIds(forest)
      requires up !in AllIds(forest) && p != up && up.isSplit && !up.deleted && up.viewPort == w.viewPort
      modifies AllIds(forest), this, rootWindow, p, up
      ensures Valid() && AllIds(forest) <= old(AllIds(forest)) + {p, up}
      ensures forest == InsertAll(old(forest), w, pos, horizontal, cutAbove, p, up)
      ensures unacceptablySmallWindowExists == (old(unacceptablySmallWindowExists)
                || CutRaises(old(forest), w, pos, horizontal, cutAbove, old(p.viewPort)))
    {
      hide Is, IsIn, Ids, Sub, Subst, Tiled, Distinct, ValidBut, AllIds, Elsewhere, OthersIn, InsertAll, CutRaises,
           CutFlags,
           Cut, Insert, Apart;
      InForest(w, d);
      DisplayFacts(d);
      ValidIsGood();
      ghost var t, s := forest[d].value, Sub(forest[d].value, w);
      InsertFacts(t, w, pos, horizontal, cutAbove, p, up, d);
      InsertAllAt(w, pos, horizontal, cutAbove, p, up, d);
      ghost var roots := rootWindow[..];
      ghost var snap, h := Snapshot(Elsewhere(d)), Snapshot(Ids(t));
      CutAt(w, pos, horizontal, cutAbove, p, up, d, t, h);
      Commit(d, Some(Insert(t, w, pos, horizontal, cutAbove, p, up)), snap, roots);
    }

    /** Cuts the node and links the result in its place. */
    method CutAt(w: Node, pos: int, horizontal: bool, cutAbove: bool, p: Node, up: Node, ghost d: int,
            ghost t: Tree<Node>,
                 ghost h: map<Node, Fields>)
      requires 0 <= d < |forest| && forest[d] == Some(t) && Tiled(t) && Distinct(t) && Apart(forest)
               && Ids(t) <= AllIds(forest)
      requires w in Ids(t) && h == Snapshot(Ids(t)) && IsIn(t, null, h) && Is(Sub(t, w), w.parent)
      requires !p.isSplit && p !in AllIds(forest) && up !in AllIds(forest) && p != up
      requires up.isSplit && !up.deleted && up.viewPort == Sub(t, w).r
      requires d < rootWindow.Length && rootWindow[d] == t.id
      requires forall j :: 0 <= j < rootWindow.Length && rootWindow[j] in Ids(t) ==> j == d
      modifies p, up, this`unacceptablySmallWindowExists, rootWindow, Ids(t)
      ensures Is(Insert(t, w, pos, horizontal, cutAbove, p, up), null)
      ensures rootWindow[..] == old(rootWindow[..])[d := Insert(t, w, pos, horizontal, cutAbove, p, up).id]
      ensures unacceptablySmallWindowExists == (old(unacceptablySmallWindowExists)
                || SplitFlags(Sub(t, w), pos, horizontal, cutAbove, old(p.viewPort)))
    {
      hide Is, IsIn, Ids, Sub, Subst, Tiled, Distinct, AllIds, Elsewhere, InsertAll, CutFlags, Cut, Insert, Apart;
      ghost var s := Sub(t, w);
      ghost var u := Cut(s, pos, horizontal, cutAbove, p, up);
      InsertFacts(t, w, pos, horizontal, cutAbove, p, up, d);
      SubDistinct(t, w);
      BuildCut(w, pos, horizontal, cutAbove, p, up, s);
      Relink(w, up, up.parent, t, u, d, h);
    }

    lemma InsertFacts(t: Tree<Node>, w: Node, pos: int, horizontal: bool, above: bool, p: Node, up: Node, d: int)
      requires Tiled(t) && Distinct(t) && w in Ids(t) && p !in AllIds(forest) && up !in AllIds(forest) && p != up
      requires Apart(forest) && 0 <= d < |forest| && forest[d] == Some(t)
      ensures var s := Sub(t, w); var u := Cut(s, pos, horizontal, above, p, up);
              var n := Insert(t, w, pos, horizontal, above, p, up);
              && n == Subst(t, w, u) && w in Ids(s) && u.id == up && Distinct(u) && Ids(u) !! (Ids(t) - Ids(s))
              && Tiled(n) && Distinct(n) && n.r == t.r && Ids(n) == Ids(t) + {p, up} && Ids(n) !! Elsewhere(d)
              && InsertAll(forest, w, pos, horizontal, above, p, up) == forest[d := Some(n)]
              && AllIds(forest[d := Some(n)]) <= AllIds(forest) + {p, up}
    {
      hide Adjust, Layout, CutRest, InsertAll;
      var s := Sub(t, w);
      SubDistinct(t, w);
      assert IdsOn(forest[d]) <= AllIds(forest);
      CutIds(s, pos, horizontal, above, p, up);
      InsertKeeps(t, w, pos, horizontal, above, p, up);
      InsertAllAt(w, pos, horizontal, above, p, up, d);
    }

    lemma CutRestIds<N>(s: Tree<N>, pos: int, horizontal: bool, above: bool)
      ensures var rest := CutRest(s, pos, horizontal, above);
              rest.id == s.id && Ids(rest) == Ids(s) && (Distinct(s) ==> Distinct(rest))
    {
      var q := NewRect(s.r, pos, horizontal, above);
      AdjustIds(s, 0, q.height, 0, -q.height);
      AdjustIds(s, 0, 0, 0, -q.height);
      AdjustIds(s, q.width, 0, -q.width, 0);
      AdjustIds(s, 0, 0, -q.width, 0);
    }

    lemma InsertAllAt(w: Node, pos: int, horizontal: bool, above: bool, p: Node, up: Node, d: int)
      requires Apart(forest) && 0 <= d < |forest| && w in IdsOn(forest[d])
      ensures InsertAll(forest, w, pos, horizontal, above, p, up)
           == forest[d := Some(Insert(forest[d].value, w, pos, horizontal, above, p, up))]
      ensures forall before: Rect {:trigger CutRaises(forest, w, pos, horizontal, above, before)} ::
                CutRaises(forest, w, pos, horizontal, above, before) <==>
                var s := Sub(forest[d].value, w); var r := NewRect(s.r, pos, horizontal, above);
                (r != before && Small(r)) || CutFlags(s, pos, horizontal, above)
    {
      hide Insert, CutFlags, NewRect, Sub;
      forall j | 0 <= j < |forest| && j != d ensures w !in IdsOn(forest[j]) {
        assert IdsOn(forest[d]) !! IdsOn(forest[j]);
      }
    }

    // ----- the first window of a display, and the cursor -----

    /** The first part of CreateWindow: an empty display goes to `w` as a whole. */
    method CreateOnEmptyDisplay(w: Node) returns (i: nat)
      requires Valid() && !w.isSplit && w !in AllIds(forest)
      modifies this, rootWindow, w
      ensures Valid() && i <= |forest| && (forall j :: 0 <= j < i ==> old(forest)[j].Some?)
      ensures if i < |forest| then old(forest)[i].None? && forest == old(forest)[i := Some(Leaf(w, screens[i]))]
              else forest == old(forest)
      ensures i == |forest| ==>
                w.viewPort == old(w.viewPort) && unacceptablySmallWindowExists == old(unacceptablySmallWindowExists)
    {
      hide IsIn, Is, ValidBut, OthersIn, Elsewhere, AllIds;
      ValidIsGood();
      OthersBefore(-1);
      i := 0;
      while i < rootWindow.Length && rootWindow[i] != null
        invariant i <= rootWindow.Length && forall j :: 0 <= j < i ==> rootWindow[j] != null
      {
        i := i + 1;
      }
      forall j | 0 <= j < rootWindow.Length ensures rootWindow[j] == null <==> forest[j].None? {
        RootOf(j);
      }
      if i < rootWindow.Length {
        OthersBefore(i);
        ghost var snap, roots := Snapshot(Elsewhere(i)), rootWindow[..];
        NotElsewhere(w, i);
        AllocateWindow(w, screens[i]);
        IsParts(Leaf(w, screens[i]), null);
        rootWindow[i] := w;
        IsParts(Leaf(w, screens[i]), null);
        assert Snapshot(Elsewhere(i)) == snap;
        Commit(i, Some(Leaf(w, screens[i])), snap, roots);
      }
    }

    lemma NotElsewhere(w: Node, d: int)
      requires w !in AllIds(forest)
      ensures w !in Elsewhere(d) && IdsOn(Some(Leaf(w, Rect(0, 0, 0, 0)))) == {w}
    {
    }

    /** The window or split under the cursor, found by going down from the root. */
    method UnderCursor(d: nat, x: int, y: int, borderWidth: int) returns (w: Node?)
      requires Valid() && d < rootWindow.Length
      ensures d < |forest| && (forest[d].None? <==> w == null)
      ensures w != null ==> w == Descend(forest[d].value, x, y, borderWidth).id
      ensures w != null && borderWidth >= 1 && LeavesNonNegative(forest[d].value) && Covers(forest[d].value.r, x, y) ==>
                PointedAt(w, IdsOn(forest[d]), x, y, borderWidth)
    {
      hide Is, IsIn, AllIds, PointedAt, LeavesNonNegative, Covers;
      RootOf(d);
      w := rootWindow[d];
      ghost var s: Option<Tree<Node>> := forest[d];
      assert SlotIs(d, forest[d]);
      if w != null {
        IsParts(s.value, null);
      }
      while w != null && w.isSplit
        invariant Valid() && (s.Some? <==> w != null) && (forest[d].Some? <==> w != null)
        invariant w != null ==> w == s.value.id && Is(s.value, w.parent)
        invariant w != null ==>
                    Descend(s.value, x, y, borderWidth) == Descend(forest[d].value, x, y, borderWidth)
        decreases if s.None? then 0 else Size(s.value)
      {
        IsParts(s.value, w.parent);
        var diff := w.splitValue - if w.splitHorizontally then y else x;
        if diff < -borderWidth {
          w := w.bottom;
          s := Some(s.value.bottom);
        } else if diff >= borderWidth {
          w := w.top;
          s := Some(s.value.top);
        } else {
          break;
        }
      }
      if w != null {
        IsParts(s.value, w.parent);
        CursorIsOnBorder(d, x, y, borderWidth);
      }
    }

    /** The point lies on the border that the node `n` keeps between its parts. */
    ghost predicate BorderAt(n: Node, x: int, y: int, border: int)
      reads n
    {
      && n.isSplit && Covers(n.viewPort, x, y)
      && -border <= n.splitValue - (if n.splitHorizontally then y else x) < border
    }

    /** The node at the point: a split exactly if the point is on some border, and
        then one on whose border it is. */
    ghost predicate PointedAt(w: Node, nodes: set<Node>, x: int, y: int, border: int)
      reads w, nodes
    {
      && Covers(w.viewPort, x, y) && (w.isSplit ==> BorderAt(w, x, y, border))
      && (w.isSplit <==> exists n :: n in nodes && BorderAt(n, x, y, border))
    }

    lemma BorderIs(d: int, n: Node, x: int, y: int, border: int)
      requires Valid() && 0 <= d < |forest| && n in IdsOn(forest[d])
      ensures BorderAt(n, x, y, border) <==> OnBorder(forest[d].value, n, x, y, border)
      ensures n.viewPort == Sub(forest[d].value, n).r && n.isSplit == Sub(forest[d].value, n).Split?
    {
      hide Is, IsIn, Tiled, Distinct;
      InForest(n, d);
    }

    lemma CursorIsOnBorder(d: int, x: int, y: int, border: int)
      requires Valid() && 0 <= d < |forest| && forest[d].Some?
      ensures var t := forest[d].value;
              border >= 1 && LeavesNonNegative(t) && Covers(t.r, x, y) ==>
                PointedAt(Descend(t, x, y, border).id, IdsOn(forest[d]), x, y, border)
    {
      hide Is, IsIn, Tiled, Distinct, OnBorder, Covers, BorderAt, Descend, LeavesNonNegative;
      var t := forest[d].value;
      TiledHere(d);
      if border >= 1 && LeavesNonNegative(t) && Covers(t.r, x, y) {
        var w := Descend(t, x, y, border);
        DescendStops(t, x, y, border);
        DescendFinds(t, x, y, border);
        SubOfDescend(t, x, y, border);
        forall n | n in Ids(t) ensures BorderAt(n, x, y, border) <==> OnBorder(t, n, x, y, border) {
          BorderIs(d, n, x, y, border);
        }
        BorderIs(d, w.id, x, y, border);
      }
    }

    lemma TiledHere(d: int)
      requires Valid() && 0 <= d < |forest| && forest[d].Some?
      ensures Tiled(forest[d].value) && Distinct(forest[d].value) && d < |screens| && forest[d].value.r == screens[d]
    {
      assert SlotIs(d, forest[d]);
    }
  }

  lemma RootIs(m: WindowManager, d: int)
    requires m.Valid() && 0 <= d < |m.forest|
    ensures d < m.rootWindow.Length && IdsOn(m.forest[d]) <= AllIds(m.forest)
    ensures var o, w := m.forest[d], m.rootWindow[d];
            (w == null <==> o.None?) && (w != null ==> w == o.value.id && Is(o.value, w.parent))
  {
    hide Is, IsIn;
    assert m.SlotIs(d, m.forest[d]);
    if m.forest[d].Some? {
      IsParts(m.forest[d].value, null);
    }
  }

  // ----- theorems about whole operations on all displays -----

  /** Windows that were all large enough stay so, on every display, through any
      move of any split; and no display becomes empty or loses its tiling. */
  lemma MoveResultFits(f: seq<Option<Tree<Node>>>, n: Node, x: int, y: int)
    requires AllGood(f) && AllFit(f)
    ensures var m := MoveResult(f, n, x, y);
            && |m| == |f| && AllGood(m) && AllFit(m)
            && forall i :: 0 <= i < |f| ==>
                 (m[i].Some? <==> f[i].Some?) && (f[i].Some? ==> m[i].value.r == f[i].value.r)
  {
    forall i | 0 <= i < |f| && f[i].Some?
      ensures var m := MoveResult(f, n, x, y); m[i].Some? && Good(m[i]) && FitsOn(m[i]) && m[i].value.r == f[i].value.r
    {
      MoveAndCleanFits(f[i].value, n, x, y);
      MoveFlagsExact(f[i].value, n, x, y);
      MoveKeeps(f[i].value, n, x, y);
      CleanedKeeps(Some(Move(f[i].value, n, x, y)));
    }
    forall i | 0 <= i < |f| && f[i].None? ensures MoveResult(f, n, x, y)[i] == None {
      CleanedKeeps<Node>(None);
    }
  }

  /** What MoveSplit makes of the split `n` itself, if that leaves no window too small:
      its border is at the new `y` if the parts lie one above the other and at the new
      `x` if they lie side by side, its rectangle is kept and both parts are laid out
      afresh. A way of at most three pixels changes nothing. */
  lemma MoveResultGoesTo(f: seq<Option<Tree<Node>>>, d: int, n: Node, x: int, y: int)
    requires AllGood(f) && Apart(f) && 0 <= d < |f| && n in IdsOn(f[d]) && Sub(f[d].value, n).Split?
    ensures var s := Sub(f[d].value, n); var to := if s.horizontal then y else x; var m := MoveResult(f, n, x, y);
            && (-3 <= to - s.at <= 3 ==> m == f)
            && (!(-3 <= to - s.at <= 3) && AllFit(MoveAll(f, n, x, y)) ==>
                  m == f[d := Some(Subst(f[d].value, n, Layout(s.(at := to), s.r)))])
  {
    hide Layout, Tiled, Distinct, Sub, Subst, MoveFlags, MovedSplit;
    MoveGoesTo(f[d].value, n, x, y);
    forall i | 0 <= i < |f| && i != d ensures n !in IdsOn(f[i]) {
    }
    var g := MoveAll(f, n, x, y);
    forall i | 0 <= i < |f| && f[i].Some? ensures Good(g[i]) && (i != d ==> g[i] == f[i]) {
      MoveKeeps(f[i].value, n, x, y);
    }
    PassAllKeeps(g);
  }

  /** In every valid state, on every display whose windows are large enough: each
      point of the screen is in exactly one window, and no window shows elsewhere. */
  lemma ScreenPartition(m: WindowManager, d: int, x: int, y: int)
    requires m.Valid() && 0 <= d < |m.forest| && m.forest[d].Some? && LeavesFit(m.forest[d].value)
    ensures LeavesAt(m.forest[d].value, x, y) == if Covers(m.screens[d], x, y) then 1 else 0
  {
    assert m.SlotIs(d, m.forest[d]);
    FittingIsNonNegative(m.forest[d].value);
    Partition(m.forest[d].value, x, y);
  }

  lemma {:induction false} FittingIsNonNegative<N>(t: Tree<N>)
    requires LeavesFit(t)
    ensures LeavesNonNegative(t)
    decreases t
  {
    if t.Split? {
      FittingIsNonNegative(t.top);
      FittingIsNonNegative(t.bottom);
    }
  }
}
