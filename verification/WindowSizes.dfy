/** Size limits of windows: what a layout needs at least, and how the space of a
    stack of windows is divided when it is equalized. */
module WindowSizes {
  import opened CInt
  import opened Tiling

  datatype Limits = Limits(minwidth: int, maxwidth: int, minheight: int, maxheight: int)

  function Max(a: int, b: int): int {
    if a > b then a else b
  }

  /** The extent a layout asks for: across a split the larger, along it the sum. */
  function FindWindowSize<N>(t: Tree<N>, horizontal: bool, min: bool, lim: N -> Limits): int {
    if t.Leaf? then
      var l := lim(t.id);
      if min then (if horizontal then l.minwidth else l.minheight) else (if horizontal then l.maxwidth else l.maxheight)
    else
      var a, b := FindWindowSize(t.top, horizontal, min, lim), FindWindowSize(t.bottom, horizontal, min, lim);
      if t.horizontal == horizontal then Max(a, b) else a + b
  }

  /** Asking for the maximums is asking for the minimums of windows that cannot be
      smaller than their maximum. */
  lemma {:induction false} MaximumIsMinimum<N>(t: Tree<N>, horizontal: bool, lim: N -> Limits, fixed: N -> Limits)
    requires forall n :: n in Ids(t) ==> fixed(n).minwidth == lim(n).maxwidth && fixed(n).minheight == lim(n).maxheight
    ensures FindWindowSize(t, horizontal, false, lim) == FindWindowSize(t, horizontal, true, fixed)
    decreases t
  {
    if t.Split? {
      MaximumIsMinimum(t.top, horizontal, lim, fixed);
      MaximumIsMinimum(t.bottom, horizontal, lim, fixed);
    }
  }

  // ----- the minimum is a tight bound -----

  predicate MeetsMinimums<N>(t: Tree<N>, lim: N -> Limits) {
    if t.Leaf? then t.r.width >= lim(t.id).minwidth && t.r.height >= lim(t.id).minheight
    else MeetsMinimums(t.top, lim) && MeetsMinimums(t.bottom, lim)
  }

  /** The same windows and splits, whatever the split values and rectangles. */
  predicate SameShape<N(==)>(t: Tree<N>, s: Tree<N>) {
    && t.id == s.id && t.Split? == s.Split?
    && (t.Split? ==> t.horizontal == s.horizontal && SameShape(t.top, s.top) && SameShape(t.bottom, s.bottom))
  }

  predicate Enough<N>(t: Tree<N>, r: Rect, lim: N -> Limits) {
    r.width >= FindWindowSize(t, true, true, lim) && r.height >= FindWindowSize(t, false, true, lim)
  }

  /** `t` with split values chosen so that every upper or left part gets just
      what it needs. */
  function Fitted<N>(t: Tree<N>, r: Rect, lim: N -> Limits): Tree<N> {
    if t.Leaf? then Leaf(t.id, r)
    else
      var at := (if t.horizontal then r.top else r.left) + FindWindowSize(t.top, !t.horizontal, true, lim);
      Split(t.id, r, at, t.horizontal,
            Fitted(t.top, TopPart(r, at, t.horizontal), lim), Fitted(t.bottom, BottomPart(r, at, t.horizontal), lim))
  }

  lemma {:induction false} FittedMeets<N>(t: Tree<N>, r: Rect, lim: N -> Limits)
    requires Enough(t, r, lim)
    ensures var s := Fitted(t, r, lim); SameShape(t, s) && Tiled(s) && s.r == r && MeetsMinimums(s, lim)
    decreases t
  {
    if t.Split? {
      var at := (if t.horizontal then r.top else r.left) + FindWindowSize(t.top, !t.horizontal, true, lim);
      FittedMeets(t.top, TopPart(r, at, t.horizontal), lim);
      FittedMeets(t.bottom, BottomPart(r, at, t.horizontal), lim);
    }
  }

  lemma {:induction false} NeedsEnough<N>(t: Tree<N>, s: Tree<N>, lim: N -> Limits)
    requires SameShape(t, s) && Tiled(s) && MeetsMinimums(s, lim)
    ensures Enough(t, s.r, lim)
    decreases t
  {
    if t.Split? {
      NeedsEnough(t.top, s.top, lim);
      NeedsEnough(t.bottom, s.bottom, lim);
    }
  }

  /** A rectangle admits split positions that meet every window's minimum exactly
      when it has the extents that FindWindowSize reports. */
  lemma MinimumIsTight<N(!new)>(t: Tree<N>, r: Rect, lim: N -> Limits)
    ensures (exists s: Tree<N> :: SameShape(t, s) && Tiled(s) && s.r == r && MeetsMinimums(s, lim))
            <==> Enough(t, r, lim)
  {
    if s: Tree<N> :| SameShape(t, s) && Tiled(s) && s.r == r && MeetsMinimums(s, lim) {
      NeedsEnough(t, s, lim);
    }
    if Enough(t, r, lim) {
      FittedMeets(t, r, lim);
    }
  }

  // ----- equalizing a stack -----

  /** The sizes asked for by the members of a stack, in order. A member is
      whatever is not a split in the direction of the stack. */
  function Members<N>(t: Tree<N>, horizontal: bool, lim: N -> Limits): (s: seq<int>)
    ensures |s| >= 1 && (t.Split? && t.horizontal == horizontal ==> |s| >= 2)
  {
    if t.Split? && t.horizontal == horizontal then Members(t.top, horizontal, lim) + Members(t.bottom, horizontal, lim)
    else [FindWindowSize(t, !horizontal, false, lim)]
  }

  /** The windows of a layout, from top to bottom and left to right. */
  function Windows<N>(t: Tree<N>): (s: seq<N>)
    ensures |s| >= 1
  {
    if t.Leaf? then [t.id] else Windows(t.top) + Windows(t.bottom)
  }

  predicate PureStack<N>(t: Tree<N>, horizontal: bool) {
    t.Split? ==> t.horizontal == horizontal && PureStack(t.top, horizontal) && PureStack(t.bottom, horizontal)
  }

  /** The members of a stack of windows ask for their maximal extents along the stack. */
  lemma {:induction false} StackMembers<N>(t: Tree<N>, horizontal: bool, lim: N -> Limits)
    requires PureStack(t, horizontal)
    ensures var m, w := Members(t, horizontal, lim), Windows(t);
            && |m| == |w|
            && forall i :: 0 <= i < |m| ==> m[i] == if horizontal then lim(w[i]).maxheight else lim(w[i]).maxwidth
    decreases t
  {
    if t.Split? {
      StackMembers(t.top, horizontal, lim);
      StackMembers(t.bottom, horizontal, lim);
    }
  }

  function Sum(s: seq<int>): int {
    if s == [] then 0 else s[0] + Sum(s[1..])
  }

  function SmallOf(s: seq<int>, threshold: int): int {
    if s == [] then 0 else (if s[0] < threshold then s[0] else 0) + SmallOf(s[1..], threshold)
  }

  function LargeOf(s: seq<int>, threshold: int): int {
    if s == [] then 0 else (if s[0] < threshold then 0 else s[0]) + LargeOf(s[1..], threshold)
  }

  lemma {:induction false} OfAppend(s: seq<int>, u: seq<int>, threshold: int)
    ensures SmallOf(s + u, threshold) == SmallOf(s, threshold) + SmallOf(u, threshold)
    ensures LargeOf(s + u, threshold) == LargeOf(s, threshold) + LargeOf(u, threshold)
    ensures SmallOf(s, threshold) + LargeOf(s, threshold) == Sum(s)
  {
    if s == [] {
      assert s + u == u;
    } else {
      assert (s + u)[1..] == s[1..] + u;
      OfAppend(s[1..], u, threshold);
    }
  }

  /** What the first pass hands to the second: the threshold, the sum to divide
      by, and whether small members keep their size. */
  datatype Plan = Plan(threshold: int, large: int, doSmall: bool)

  function PlanFor(s: seq<int>, extent: int): Plan {
    var small, large := SmallOf(s, extent), LargeOf(s, extent);
    if small > extent / 2 then Plan(extent, large + small, false) else Plan(extent - small, large, true)
  }

  predicate Positive(s: seq<int>) {
    forall i :: 0 <= i < |s| ==> s[i] > 0
  }

  /** How the second pass moves on for a member of size `d`. */
  function Share(d: int, p: Plan): int {
    if d < p.threshold && p.doSmall then d else if p.large == 0 then 0 else Div(d * p.threshold, p.large)
  }

  /** No member makes the second pass divide by zero. */
  predicate Divides(s: seq<int>, p: Plan) {
    forall i :: 0 <= i < |s| ==> Safe(s[i], p)
  }

  predicate Safe(d: int, p: Plan) {
    (d < p.threshold && p.doSmall) || p.large != 0
  }

  function Shares(s: seq<int>, p: Plan): int {
    if s == [] then 0 else Share(s[0], p) + Shares(s[1..], p)
  }

  lemma {:induction false} SharesAppend(s: seq<int>, u: seq<int>, p: Plan)
    ensures Shares(s + u, p) == Shares(s, p) + Shares(u, p)
  {
    if s == [] {
      assert s + u == u;
    } else {
      assert (s + u)[1..] == s[1..] + u;
      SharesAppend(s[1..], u, p);
    }
  }

  lemma {:induction false} SumsBound(s: seq<int>, threshold: int, i: int)
    requires Positive(s) && 0 <= i < |s|
    ensures SmallOf(s, threshold) >= 0 && LargeOf(s, threshold) >= 0
    ensures s[i] < threshold ==> s[i] <= SmallOf(s, threshold)
    ensures s[i] < threshold ==> (|s| >= 2 ==> s[i] < SmallOf(s, threshold) || LargeOf(s, threshold) >= threshold)
    ensures s[i] >= threshold ==> s[i] <= LargeOf(s, threshold)
    decreases |s|
  {
    if |s| > 1 {
      SumsBound(s[1..], threshold, if i == 0 then 0 else i - 1);
      assert s[1..][0] == s[1];
    }
  }

  /** A stack of at least two members of positive size is never divided by zero,
      also when the threshold drops between the passes. */
  lemma PlanDivides(s: seq<int>, extent: int)
    requires Positive(s) && |s| >= 2 && extent >= 0
    ensures Divides(s, PlanFor(s, extent))
    ensures var p := PlanFor(s, extent); p.large >= 0 && p.threshold >= 0
    ensures var p := PlanFor(s, extent);
            p.doSmall ==> forall i :: 0 <= i < |s| && p.threshold <= s[i] < extent ==> p.large >= p.threshold
  {
    var p := PlanFor(s, extent);
    SumsBound(s, extent, 0);
    forall i | 0 <= i < |s| && !(s[i] < p.threshold && p.doSmall)
      ensures p.large > 0 && (p.doSmall && s[i] < extent ==> p.large >= p.threshold)
    {
      SumsBound(s, extent, i);
    }
  }

  lemma FloorTimes(a: int, b: int)
    requires a >= 0 && b > 0
    ensures 0 <= Div(a, b) && Div(a, b) * b <= a
  {
    hide Div;
    DivIs(a, b);
    FloorIs(a, b);
  }

  /** What the second pass may rely on. */
  predicate Sound(s: seq<int>, extent: int, p: Plan) {
    && Positive(s) && p.large >= 0 && p.threshold >= 0
    && (p.doSmall ==> p.threshold <= extent)
    && (p.doSmall ==> forall i :: 0 <= i < |s| && p.threshold <= s[i] < extent ==> p.large >= p.threshold)
  }

  lemma ShareBound(d: int, extent: int, p: Plan)
    requires d > 0 && p.large > 0 && p.threshold >= 0
    requires p.doSmall && p.threshold <= d < extent ==> p.large >= p.threshold
    ensures var h := Share(d, p);
            && h >= 0
            && (p.doSmall && d < extent ==> h * p.large <= d * p.large)
            && (!p.doSmall || d >= extent >= p.threshold ==> h * p.large <= d * p.threshold)
  {
    hide Div;
    if !(d < p.threshold && p.doSmall) {
      Product(d, p.threshold);
      FloorTimes(d * p.threshold, p.large);
      if p.doSmall && d < extent {
        Times(p.threshold, p.large, d);
      }
    }
  }

  lemma ShareNonNegative(d: int, p: Plan)
    requires d > 0 && p.threshold >= 0 && p.large >= 0
    ensures Share(d, p) >= 0
  {
    hide Div;
    if p.large > 0 {
      Product(d, p.threshold);
      FloorTimes(d * p.threshold, p.large);
    }
  }

  /** The space handed out, scaled by the divisor: small members take no more
      than their size, the others no more than their part of the rest. */
  lemma {:induction false} SharesBound(s: seq<int>, extent: int, p: Plan)
    requires Sound(s, extent, p)
    ensures Shares(s, p) >= 0
    ensures p.large > 0 && p.doSmall ==>
              Shares(s, p) * p.large <= SmallOf(s, extent) * p.large + LargeOf(s, extent) * p.threshold
    ensures p.large > 0 && !p.doSmall ==> Shares(s, p) * p.large <= Sum(s) * p.threshold
    decreases |s|
  {
    hide Share, Div;
    if s != [] {
      assert forall i :: 0 <= i < |s[1..]| ==> s[1..][i] == s[i + 1];
      SharesBound(s[1..], extent, p);
      ShareNonNegative(s[0], p);
      if p.large > 0 {
        ShareBound(s[0], extent, p);
        Distribute(Share(s[0], p), Shares(s[1..], p), p.large);
        if !p.doSmall {
          Distribute(s[0], Sum(s[1..]), p.threshold);
        } else if s[0] < extent {
          Distribute(s[0], SmallOf(s[1..], extent), p.large);
        } else {
          Distribute(s[0], LargeOf(s[1..], extent), p.threshold);
        }
      }
    }
  }

  /** With nothing to divide by, every member that is divided is left out. */
  lemma {:induction false} SharesUndivided(s: seq<int>, extent: int, p: Plan)
    requires Positive(s) && p.large == 0 && Divides(s, p) && p.threshold <= extent
    ensures Shares(s, p) == SmallOf(s, extent)
    decreases |s|
  {
    if s != [] {
      assert forall i :: 0 <= i < |s[1..]| ==> s[1..][i] == s[i + 1];
      SharesUndivided(s[1..], extent, p);
    }
  }

  lemma Distribute(a: int, b: int, c: int)
    ensures (a + b) * c == a * c + b * c
  {
  }

  lemma CancelFactor(a: int, b: int, c: int, e: int)
    requires e > 0 && a * e <= b * e + e * c
    ensures a <= b + c
  {
    Distribute(b, c, e);
    if a > b + c {
      Greater(a, b + c, e);
    }
  }

  lemma Greater(a: int, b: int, e: int)
    requires a > b && e > 0
    ensures a * e > b * e
  {
  }

  /** The whole stack gets no more than the container has. */
  lemma SharesFit(s: seq<int>, extent: int)
    requires Positive(s) && |s| >= 2 && extent >= 0
    ensures var p := PlanFor(s, extent); Sound(s, extent, p) && Divides(s, p) && 0 <= Shares(s, p) <= extent
  {
    var p := PlanFor(s, extent);
    PlanDivides(s, extent);
    SumsBound(s, extent, 0);
    SharesBound(s, extent, p);
    OfAppend(s, [], extent);
    if p.large == 0 {
      SharesUndivided(s, extent, p);
    } else if p.doSmall {
      CancelFactor(Shares(s, p), SmallOf(s, extent), p.threshold, p.large);
    } else {
      CancelFactor(Shares(s, p), 0, p.threshold, p.large);
    }
  }

  // ----- how the space is shared -----

  /** A small member of a plan that keeps small members gets its size; any other one
      gets its part of the threshold, rounded down. */
  lemma ShareIs(d: int, p: Plan)
    requires d > 0 && p.threshold >= 0 && p.large >= 0
    ensures d < p.threshold && p.doSmall ==> Share(d, p) == d
    ensures !(d < p.threshold && p.doSmall) && p.large > 0 ==>
              Share(d, p) * p.large <= d * p.threshold < (Share(d, p) + 1) * p.large
  {
    hide Div;
    if !(d < p.threshold && p.doSmall) && p.large > 0 {
      Product(d, p.threshold);
      DivIs(d * p.threshold, p.large);
      RestIs(d * p.threshold, p.large);
      Distribute(Share(d, p), 1, p.large);
    }
  }

  /** No member that was small in the first pass is large in the second. */
  ghost predicate KeepsClasses(s: seq<int>, extent: int, p: Plan) {
    p.doSmall ==> p.threshold <= extent && forall i :: 0 <= i < |s| && s[i] < extent ==> s[i] < p.threshold
  }

  /** The space handed out, scaled by the divisor, falls short of what there is by less
      than the divisor for every member that is divided. */
  lemma {:induction false} SharesFill(s: seq<int>, extent: int, p: Plan)
    requires Positive(s) && p.large > 0 && p.threshold >= 0 && KeepsClasses(s, extent, p)
    ensures p.doSmall ==>
              Shares(s, p) * p.large
              >= SmallOf(s, extent) * p.large + LargeOf(s, extent) * p.threshold - |s| * (p.large - 1)
    ensures !p.doSmall ==> Shares(s, p) * p.large >= Sum(s) * p.threshold - |s| * (p.large - 1)
    decreases |s|
  {
    hide Share, Div;
    if s != [] {
      var r := s[1..];
      assert forall i :: 0 <= i < |r| ==> r[i] == s[i + 1];
      SharesFill(r, extent, p);
      ShareIs(s[0], p);
      Distribute(Share(s[0], p), Shares(r, p), p.large);
      Distribute(Share(s[0], p), 1, p.large);
      Distribute(s[0], SmallOf(r, extent), p.large);
      Distribute(s[0], LargeOf(r, extent), p.threshold);
      Distribute(s[0], Sum(r), p.threshold);
      assert |s| * (p.large - 1) == |r| * (p.large - 1) + (p.large - 1);
    }
  }

  /** The whole container is used but for less than one pixel a member, unless no
      member is divided or one changes its class between the passes. */
  lemma SharesExhaust(s: seq<int>, extent: int)
    requires Positive(s) && |s| >= 2 && extent >= 0
    ensures var p := PlanFor(s, extent);
            p.large > 0 && KeepsClasses(s, extent, p) ==> extent - |s| < Shares(s, p) <= extent
  {
    var p := PlanFor(s, extent);
    SharesFit(s, extent);
    if p.large > 0 && KeepsClasses(s, extent, p) {
      SharesFill(s, extent, p);
      OfAppend(s, [], extent);
      hide Shares, SmallOf, LargeOf, Sum, KeepsClasses, Positive;
      if p.doSmall {
        Distribute(SmallOf(s, extent), p.threshold, p.large);
        Commute(p.threshold, p.large);
      } else {
        Commute(p.threshold, p.large);
      }
      Exhausts(Shares(s, p), |s|, p.large, extent);
    }
  }

  lemma Commute(a: int, b: int)
    ensures a * b == b * a
  {
  }

  lemma Exhausts(h: int, n: int, m: int, extent: int)
    requires m > 0 && n > 0 && h * m >= extent * m - n * (m - 1)
    ensures h > extent - n
  {
    assert (extent - n) * m == extent * m - n * m;
    assert n * (m - 1) == n * m - n;
    if h <= extent - n {
      Times(h, extent - n, m);
    }
  }

  /** Members that are all below the threshold, or all not, make up one sum. */
  lemma {:induction false} OneClass(s: seq<int>, threshold: int)
    ensures (forall i :: 0 <= i < |s| ==> s[i] < threshold) ==>
              SmallOf(s, threshold) == Sum(s) && LargeOf(s, threshold) == 0
    ensures (forall i :: 0 <= i < |s| ==> s[i] >= threshold) ==>
              SmallOf(s, threshold) == 0 && LargeOf(s, threshold) == Sum(s)
  {
    if s != [] {
      assert forall i :: 0 <= i < |s[1..]| ==> s[1..][i] == s[i + 1];
      OneClass(s[1..], threshold);
    }
  }

  /** Equal members get equal parts: all together their size if they take up no more
      than half of the container, and else equal parts of the container. */
  lemma EqualMembers(d: int, n: int, extent: int, near: int, k: int)
    requires d > 0 && n >= 2 && extent >= 0 && 0 <= k < n - 1
    ensures var s := seq(n, i => d); var b := Borders(s, PlanFor(s, extent), near);
            |b| == n - 1 && b[k] == near + (k + 1) * if d < extent && n * d <= extent / 2 then d else extent / n
  {
    var s := seq(n, i => d);
    var p := PlanFor(s, extent);
    OneClass(s, extent);
    SumEqual(s, d);
    var part := if d < extent && n * d <= extent / 2 then d else extent / n;
    hide Div;
    assert Share(d, p) == part by {
      if !(d < extent && n * d <= extent / 2) {
        assert p.threshold == extent && p.large == n * d && !(d < p.threshold && p.doSmall);
        Product(d, extent);
        assert n * d > 0;
        DivIs(d * extent, n * d);
        EqualPart(d, n, extent);
      } else {
        SmallStays(d, n, extent);
      }
    }
    assert s[..k + 1] == seq(k + 1, i => d);
    SharesEqual(s[..k + 1], d, p);
  }

  /** A column or row of windows with the same maximum, of which there is not room for
      twice as many, is divided evenly. */
  lemma EqualColumn<N>(t: Tree<N>, lim: N -> Limits, d: int, k: int)
    requires t.Split? && PureStack(t, t.horizontal) && d > 0 && 0 <= k < |Windows(t)| - 1
    requires forall i :: 0 <= i < |Windows(t)| ==>
               (if t.horizontal then lim(Windows(t)[i]).maxheight else lim(Windows(t)[i]).maxwidth) == d
    requires var extent := if t.horizontal then t.r.height else t.r.width;
             extent >= 0 && (d >= extent || |Windows(t)| * d > extent / 2)
    ensures var near := if t.horizontal then t.r.top else t.r.left;
            var extent := if t.horizontal then t.r.height else t.r.width;
            var b := Borders(Members(t, t.horizontal, lim), PlanFor(Members(t, t.horizontal, lim), extent), near);
            |b| == |Windows(t)| - 1 && b[k] == near + (k + 1) * (extent / |Windows(t)|)
  {
    hide PlanFor, Borders, Members;
    var n := |Windows(t)|;
    StackMembers(t, t.horizontal, lim);
    assert Members(t, t.horizontal, lim) == seq(n, i => d);
    var near := if t.horizontal then t.r.top else t.r.left;
    var extent := if t.horizontal then t.r.height else t.r.width;
    EqualMembers(d, n, extent, near, k);
  }

  lemma SmallStays(d: int, n: int, extent: int)
    requires d > 0 && n >= 2 && n * d <= extent / 2
    ensures d < extent - n * d
  {
    Times(2, n, d);
  }

  lemma EqualPart(d: int, n: int, extent: int)
    requires d > 0 && n > 0 && extent >= 0
    ensures n * d > 0 && d * extent / (n * d) == extent / n
  {
    var q, r := extent / n, extent % n;
    assert extent == q * n + r;
    assert d * extent == q * (n * d) + d * r;
    Product(d, r);
    Times(r, n - 1, d);
    assert n * d == (n - 1) * d + d;
    Product(n - 1, d);
    QuotientIs(d * extent, n * d, q, d * r);
  }

  lemma {:induction false} SumEqual(s: seq<int>, d: int)
    requires forall i :: 0 <= i < |s| ==> s[i] == d
    ensures Sum(s) == |s| * d
  {
    if s != [] {
      SumEqual(s[1..], d);
      assert |s| * d == |s[1..]| * d + d;
    }
  }

  lemma {:induction false} SharesEqual(s: seq<int>, d: int, p: Plan)
    requires forall i :: 0 <= i < |s| ==> s[i] == d
    ensures Shares(s, p) == |s| * Share(d, p)
  {
    hide Share;
    if s != [] {
      SharesEqual(s[1..], d, p);
      Distribute(|s[1..]|, 1, Share(d, p));
    }
  }

  /** Every beginning of the stack gets no less than a shorter one and no more
      than the whole. */
  lemma PrefixShares(s: seq<int>, extent: int, j: int, k: int)
    requires Positive(s) && |s| >= 2 && extent >= 0 && 0 <= j <= k <= |s|
    ensures var p := PlanFor(s, extent); 0 <= Shares(s[..j], p) <= Shares(s[..k], p) <= extent
  {
    hide PlanFor, Divides;
    var p := PlanFor(s, extent);
    SharesFit(s, extent);
    assert s == s[..k] + s[k..] && s[..k] == s[..j] + s[j..k];
    SharesAppend(s[..k], s[k..], p);
    SharesAppend(s[..j], s[j..k], p);
    SoundPart(s, extent, p, k, |s|);
    SoundPart(s, extent, p, j, k);
    SoundPart(s, extent, p, 0, j);
    SharesBound(s[k..], extent, p);
    SharesBound(s[j..k], extent, p);
    SharesBound(s[..j], extent, p);
  }

  lemma SoundPart(s: seq<int>, extent: int, p: Plan, j: int, k: int)
    requires Sound(s, extent, p) && 0 <= j <= k <= |s|
    ensures Sound(s[j..k], extent, p)
  {
    assert forall i :: 0 <= i < k - j ==> s[j..k][i] == s[j + i];
  }

  /** The borders between the members, `start` being the near edge of the first. */
  function Borders(s: seq<int>, p: Plan, start: int): seq<int>
    requires |s| >= 1
  {
    seq(|s| - 1, k requires 0 <= k < |s| - 1 => start + Shares(s[..k + 1], p))
  }

  lemma DividesParts(a: seq<int>, b: seq<int>, p: Plan)
    requires Divides(a + b, p)
    ensures Divides(a, p) && Divides(b, p)
  {
    forall i | 0 <= i < |a| ensures Safe(a[i], p) {
      assert (a + b)[i] == a[i];
    }
    forall i | 0 <= i < |b| ensures Safe(b[i], p) {
      assert (a + b)[|a| + i] == b[i];
    }
  }

  lemma OneMember(d: int, p: Plan, start: int)
    ensures Shares([d], p) == Share(d, p) && Borders([d], p, start) == [] && (Divides([d], p) ==> Safe(d, p))
  {
    assert ([d])[0] == d && ([d])[1..] == [];
  }

  lemma BordersAppend(a: seq<int>, b: seq<int>, p: Plan, start: int)
    requires |a| >= 1 && |b| >= 1
    ensures Borders(a + b, p, start) == Borders(a, p, start) + [start + Shares(a, p)]
            + Borders(b, p, start + Shares(a, p))
  {
    var m := Borders(a, p, start) + [start + Shares(a, p)] + Borders(b, p, start + Shares(a, p));
    forall k | 0 <= k < |a| + |b| - 1 ensures Borders(a + b, p, start)[k] == m[k] {
      hide Shares;
      PrefixOfAppend(a, b, p, k + 1);
      if k == |a| - 1 {
        assert Shares(b[..0], p) == 0 by { NoShares(b, p); }
      }
    }
  }

  lemma NoShares(b: seq<int>, p: Plan)
    ensures Shares(b[..0], p) == 0
  {
  }

  lemma PrefixOfAppend(a: seq<int>, b: seq<int>, p: Plan, n: int)
    requires 0 <= n <= |a| + |b|
    ensures n <= |a| ==> (a + b)[..n] == a[..n] && a[..|a|] == a
    ensures n >= |a| ==> Shares((a + b)[..n], p) == Shares(a, p) + Shares(b[..n - |a|], p)
  {
    hide Shares;
    if n >= |a| {
      assert (a + b)[..n] == a + b[..n - |a|];
      SharesAppend(a, b[..n - |a|], p);
    }
  }

  /** The borders of the plan lie in order within the container. */
  lemma BordersOrdered(s: seq<int>, extent: int, near: int)
    requires Positive(s) && |s| >= 2 && extent >= 0
    ensures var b := Borders(s, PlanFor(s, extent), near);
            && |b| == |s| - 1 && (forall k :: 0 <= k < |b| ==> near <= b[k] <= near + extent)
            && (forall j, k :: 0 <= j <= k < |b| ==> b[j] <= b[k])
  {
    hide Shares, PlanFor, Positive;
    var b := Borders(s, PlanFor(s, extent), near);
    forall k | 0 <= k < |b| ensures near <= b[k] <= near + extent {
      PrefixShares(s, extent, k + 1, k + 1);
    }
    forall j, k | 0 <= j <= k < |b| ensures b[j] <= b[k] {
      PrefixShares(s, extent, j + 1, k + 1);
    }
  }

  /** The globals of the two passes. */
  class Equalizer {
    var smallSum: int
    var largeSum: int
    var heightThreshhold: int

    constructor () {
    }

    method SumWindowStackSizes<N>(w: Tree<N>, horizontal: bool, lim: N -> Limits)
      modifies this`smallSum, this`largeSum
      ensures smallSum == old(smallSum) + SmallOf(Members(w, horizontal, lim), heightThreshhold)
      ensures largeSum == old(largeSum) + LargeOf(Members(w, horizontal, lim), heightThreshhold)
      decreases w
    {
      if w.Leaf? || w.horizontal != horizontal {
        var height := FindWindowSize(w, !horizontal, false, lim);
        if height < heightThreshhold {
          smallSum := smallSum + height;
        } else {
          largeSum := largeSum + height;
        }
      } else {
        SumWindowStackSizes(w.top, horizontal, lim);
        SumWindowStackSizes(w.bottom, horizontal, lim);
        OfAppend(Members(w.top, horizontal, lim), Members(w.bottom, horizontal, lim), heightThreshhold);
      }
    }

    /** Returns the positions to which the splits of the stack are moved, in the
        order of the moves. */
    method AssignEqualizedSpace<N>(w: Tree<N>, horizontal: bool, doSmall: bool, lim: N -> Limits)
      returns (moves: seq<int>)
      requires Divides(Members(w, horizontal, lim), Plan(heightThreshhold, largeSum, doSmall))
      modifies this`smallSum
      ensures var p := Plan(heightThreshhold, largeSum, doSmall);
              smallSum == old(smallSum) + Shares(Members(w, horizontal, lim), p)
              && moves == Borders(Members(w, horizontal, lim), p, old(smallSum))
      decreases w
    {
      hide Shares, Borders, Divides, FindWindowSize;
      ghost var p := Plan(heightThreshhold, largeSum, doSmall);
      if w.Split? && w.horizontal == horizontal {
        ghost var a, b := Members(w.top, horizontal, lim), Members(w.bottom, horizontal, lim);
        DividesParts(a, b, p);
        SharesAppend(a, b, p);
        BordersAppend(a, b, p, smallSum);
        var upper := AssignEqualizedSpace(w.top, horizontal, doSmall, lim);
        moves := upper + [smallSum];
        var lower := AssignEqualizedSpace(w.bottom, horizontal, doSmall, lim);
        moves := moves + lower;
      } else {
        var dsize := FindWindowSize(w, !horizontal, false, lim);
        OneMember(dsize, p, smallSum);
        smallSum := smallSum + if dsize < heightThreshhold && doSmall then dsize
            else Div(dsize * heightThreshhold, largeSum);
        moves := [];
      }
    }

    /** Both passes for the stack headed by the split `w`. */
    method EqualizeStack<N>(w: Tree<N>, lim: N -> Limits) returns (moves: seq<int>)
      requires w.Split? && Positive(Members(w, w.horizontal, lim))
      requires (if w.horizontal then w.r.height else w.r.width) >= 0
      modifies this
      ensures var near := if w.horizontal then w.r.top else w.r.left;
              var extent := if w.horizontal then w.r.height else w.r.width;
              && moves == Borders(Members(w, w.horizontal, lim), PlanFor(Members(w, w.horizontal, lim), extent), near)
              && |moves| == |Members(w, w.horizontal, lim)| - 1
              && (forall k :: 0 <= k < |moves| ==> near <= moves[k] <= near + extent)
              && (forall j, k :: 0 <= j <= k < |moves| ==> moves[j] <= moves[k])
    {
      smallSum := 0;
      largeSum := 0;
      heightThreshhold := if w.horizontal then w.r.height else w.r.width;
      ghost var extent, m := heightThreshhold, Members(w, w.horizontal, lim);
      SumWindowStackSizes(w, w.horizontal, lim);
      var doSmall;
      if smallSum > heightThreshhold / 2 {
        largeSum := largeSum + smallSum;
        doSmall := false;
      } else {
        heightThreshhold := heightThreshhold - smallSum;
        doSmall := true;
      }
      PlanDivides(m, extent);
      assert PlanFor(m, extent) == Plan(heightThreshhold, largeSum, doSmall);
      smallSum := if w.horizontal then w.r.top else w.r.left;
      moves := AssignEqualizedSpace(w, w.horizontal, doSmall, lim);
      BordersOrdered(m, extent, if w.horizontal then w.r.top else w.r.left);
    }
  }
}
