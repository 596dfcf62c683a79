/** The tree of key tables as it lies in memory, and inserting a binding in place. */
module KeymapTree {
  import opened KeyTrie
  import opened Optional

  class Keymap {
    var min: int
    var max: int
    var proc: seq<Option<seq<int>>>
    var subent: seq<Keymap?>
    var parent: Keymap?
    var slot: int
    ghost var depth: nat

    constructor (p: Keymap?, s: int, ghost d: nat)
      ensures FieldsOf(this) == Fields(9999, -1, seq(128, i => None), seq(128, i => null), p, s, d)
    {
      min, max, parent, slot, depth := 9999, -1, p, s, d;
      proc, subent := seq(128, i => None), seq(128, i => null);
    }
  }

  datatype Fields = Fields(min: int, max: int, proc: seq<Option<seq<int>>>, sub: seq<Keymap?>, parent: Keymap?,
      slot: int, depth: nat)

  ghost function FieldsOf(k: Keymap): Fields
    reads k
  {
    Fields(k.min, k.max, k.proc, k.subent, k.parent, k.slot, k.depth)
  }

  type Memory = map<Keymap, Fields>

  ghost function Snapshot(nodes: set<Keymap>): Memory
    reads nodes
  {
    map k | k in nodes :: FieldsOf(k)
  }

  /** Every table below points back to the one slot that points to it. */
  ghost predicate Linked(h: Memory, bound: int) {
    forall k :: k in h ==>
      && |h[k].proc| == 128 && |h[k].sub| == 128 && h[k].depth <= bound
      && forall i :: 0 <= i < 128 && h[k].sub[i] != null ==> IsBelow(h, k, i)
  }

  ghost predicate IsBelow(h: Memory, k: Keymap, i: int)
    requires k in h && 0 <= i < |h[k].sub| && h[k].sub[i] != null
  {
    var s := h[k].sub[i];
    s in h && h[s].parent == k && h[s].slot == i && h[s].depth == h[k].depth + 1
  }

  /** What the tables from `k` on mean. */
  ghost function Model(h: Memory, bound: int, k: Keymap): (t: Table)
    requires Linked(h, bound) && k in h
    ensures |t.ent| == 128
    decreases bound - h[k].depth
  {
    var f := h[k];
    Table(f.min, f.max, seq(128, i requires 0 <= i < 128 =>
      Entry(f.proc[i], if f.sub[i] == null then None else assert IsBelow(h, k, i); Some(Model(h, bound, f.sub[i])))))
  }

  /** The same with `t` in place of what the tables from `x` on mean. */
  ghost function Graft(h: Memory, bound: int, k: Keymap, x: Keymap, t: Table): (r: Table)
    requires Linked(h, bound) && k in h && |t.ent| == 128
    ensures |r.ent| == 128
    decreases bound - h[k].depth
  {
    if k == x then t
    else
      var f := h[k];
      Table(f.min, f.max, seq(128, i requires 0 <= i < 128 =>
        Entry(f.proc[i], if f.sub[i] == null then None
                         else assert IsBelow(h, k, i); Some(Graft(h, bound, f.sub[i], x, t)))))
  }

  /** A table at the same depth or below it is not affected. */
  lemma {:induction false} GraftAbsent(h: Memory, bound: int, k: Keymap, x: Keymap, t: Table)
    requires Linked(h, bound) && k in h && x in h && k != x && h[k].depth >= h[x].depth && |t.ent| == 128
    ensures Graft(h, bound, k, x, t) == Model(h, bound, k)
    decreases bound - h[k].depth
  {
    forall i | 0 <= i < 128 ensures Graft(h, bound, k, x, t).ent[i] == Model(h, bound, k).ent[i] {
      var s := h[k].sub[i];
      if s != null {
        assert IsBelow(h, k, i);
        GraftAbsent(h, bound, s, x, t);
      }
    }
  }

  lemma {:induction false} GraftSame(h: Memory, bound: int, k: Keymap, x: Keymap)
    requires Linked(h, bound) && k in h && x in h
    ensures Graft(h, bound, k, x, Model(h, bound, x)) == Model(h, bound, k)
    decreases bound - h[k].depth
  {
    if k != x {
      var t := Model(h, bound, x);
      forall i | 0 <= i < 128 ensures Graft(h, bound, k, x, t).ent[i] == Model(h, bound, k).ent[i] {
        var s := h[k].sub[i];
        if s != null {
          assert IsBelow(h, k, i);
          GraftSame(h, bound, s, x);
        }
      }
    }
  }

  /** Replacing a table is replacing the entry of the table above it. */
  lemma {:induction false} GraftDown(h: Memory, bound: int, k: Keymap, x: Keymap, c: int, t: Table)
    requires Linked(h, bound) && k in h && x in h && h[k].depth <= h[x].depth && |t.ent| == 128
    requires 0 <= c < 128 && h[x].sub[c] != null
    ensures var m := Model(h, bound, x); var e := m.ent[c].(sub := Some(t));
            Graft(h, bound, k, h[x].sub[c], t) == Graft(h, bound, k, x, m.(ent := m.ent[c := e]))
    decreases bound - h[k].depth
  {
    assert IsBelow(h, x, c);
    var y, m := h[x].sub[c], Model(h, bound, x);
    var u := m.(ent := m.ent[c := m.ent[c].(sub := Some(t))]);
    forall i | 0 <= i < 128 ensures Graft(h, bound, k, y, t).ent[i] == Graft(h, bound, k, x, u).ent[i] {
      var s := h[k].sub[i];
      if s != null {
        assert IsBelow(h, k, i);
        if k == x {
          if i != c {
            GraftAbsent(h, bound, s, y, t);
          }
        } else if h[s].depth <= h[x].depth {
          GraftDown(h, bound, s, x, c, t);
        } else {
          GraftAbsent(h, bound, s, y, t);
          GraftAbsent(h, bound, s, x, u);
        }
      }
    }
    assert Graft(h, bound, k, y, t).ent == Graft(h, bound, k, x, u).ent;
  }

  /** The memories differ at `x` and in new tables only. */
  ghost predicate SameBut(h: Memory, g: Memory, x: Keymap) {
    forall k :: k in h && k != x ==> k in g && g[k] == h[k]
  }

  lemma {:induction false} GraftFrame(h: Memory, g: Memory, bound: int, k: Keymap, x: Keymap, t: Table)
    requires Linked(h, bound) && Linked(g, bound) && SameBut(h, g, x) && k in h && k in g && |t.ent| == 128
    ensures Graft(g, bound, k, x, t) == Graft(h, bound, k, x, t)
    decreases bound - h[k].depth
  {
    if k != x {
      forall i | 0 <= i < 128 ensures Graft(g, bound, k, x, t).ent[i] == Graft(h, bound, k, x, t).ent[i] {
        var s := h[k].sub[i];
        if s != null {
          assert IsBelow(h, k, i) && IsBelow(g, k, i);
          GraftFrame(h, g, bound, s, x, t);
        }
      }
    }
  }

  lemma {:induction false} ModelFrame(h: Memory, g: Memory, bound: int, k: Keymap, x: Keymap)
    requires Linked(h, bound) && Linked(g, bound) && SameBut(h, g, x) && k in h && x in h && k != x
             && h[k].depth >= h[x].depth
    ensures Model(g, bound, k) == Model(h, bound, k)
    decreases bound - h[k].depth
  {
    forall i | 0 <= i < 128 ensures Model(g, bound, k).ent[i] == Model(h, bound, k).ent[i] {
      var s := h[k].sub[i];
      if s != null {
        assert IsBelow(h, k, i) && IsBelow(g, k, i);
        ModelFrame(h, g, bound, s, x);
      }
    }
  }

  /** A larger bound on the depth changes nothing. */
  lemma {:induction false} ModelBound(h: Memory, bound: int, higher: int, k: Keymap)
    requires Linked(h, bound) && bound <= higher && k in h
    ensures Linked(h, higher) && Model(h, higher, k) == Model(h, bound, k)
    decreases bound - h[k].depth
  {
    forall i | 0 <= i < 128 ensures Model(h, higher, k).ent[i] == Model(h, bound, k).ent[i] {
      var s := h[k].sub[i];
      if s != null {
        assert IsBelow(h, k, i);
        ModelBound(h, bound, higher, s);
      }
    }
  }

  // ----- one step of the insertion -----

  /** The fields of a table after slot `c` has been brought into its range. */
  ghost function Widened(f: Fields, c: int): Fields {
    f.(min := if c < f.min then c else f.min, max := if c > f.max then c else f.max)
  }

  /** The last key: the string is bound. */
  lemma BindStep(h: Memory, bound: int, root: Keymap, k: Keymap, c: int, str: seq<int>)
    requires Linked(h, bound) && root in h && k in h && 0 <= c < 128 && Ok(Model(h, bound, k))
    ensures var g := h[k := Widened(h[k], c).(proc := h[k].proc[c := Some(str)])];
            Linked(g, bound) && Model(g, bound, root) == Graft(h, bound, root, k, Insert(Model(h, bound, k), [c], str))
  {
    hide Ok;
    var g := h[k := Widened(h[k], c).(proc := h[k].proc[c := Some(str)])];
    assert forall x, i :: x in h && 0 <= i < 128 && h[x].sub[i] != null ==> IsBelow(h, x, i) && IsBelow(g, x, i);
    var t := Insert(Model(h, bound, k), [c], str);
    forall i | 0 <= i < 128 ensures Model(g, bound, k).ent[i] == t.ent[i] {
      var s := h[k].sub[i];
      if s != null {
        assert IsBelow(h, k, i);
        ModelFrame(h, g, bound, s, k);
      }
    }
    assert Model(g, bound, k).ent == t.ent;
    GraftFrame(h, g, bound, root, k, t);
    GraftSame(g, bound, root, k);
  }

  /** What inserting means for the first of several keys. */
  lemma InsertFirst(m: Table, c: int, rest: seq<int>, str: seq<int>)
    requires Ok(m) && 0 <= c < 128 && rest != [] && KeySeq(rest)
    ensures KeySeq([c] + rest)
    ensures var below := if m.ent[c].sub.None? then EmptyTable() else m.ent[c].sub.value;
            && Ok(below) && |Insert(below, rest, str).ent| == 128
            && Insert(m, [c] + rest, str)
               == Table(if c < m.min then c else m.min, if c > m.max then c else m.max,
                        m.ent[c := m.ent[c].(sub := Some(Insert(below, rest, str)))])
  {
    assert ([c] + rest)[1..] == rest;
    EmptyIsOk();
  }

  lemma InsertSize(t: Table, com: seq<int>, str: seq<int>)
    requires Ok(t) && KeySeq(com)
    ensures |Insert(t, com, str).ent| == 128
  {
  }

  /** Changing a table changes the meaning of no other table at its depth or below. */
  lemma OtherEntries(h: Memory, g: Memory, bound: int, k: Keymap, i: int)
    requires Linked(h, bound) && Linked(g, bound) && SameBut(h, g, k) && k in h && k in g && 0 <= i < 128
    requires g[k].proc[i] == h[k].proc[i] && g[k].sub[i] == h[k].sub[i]
    ensures Model(g, bound, k).ent[i] == Model(h, bound, k).ent[i]
  {
    var s := h[k].sub[i];
    if s != null {
      assert IsBelow(h, k, i) && IsBelow(g, k, i);
      ModelFrame(h, g, bound, s, k);
    }
  }

  /** A key with a table below it: what remains is to be inserted there. */
  lemma DownStep(h: Memory, bound: int, root: Keymap, k: Keymap, c: int, rest: seq<int>, str: seq<int>)
    requires Linked(h, bound) && root in h && k in h && h[root].depth == 0
    requires 0 <= c < 128 && rest != [] && KeySeq(rest) && Ok(Model(h, bound, k)) && h[k].sub[c] != null
    ensures var g := h[k := Widened(h[k], c)]; var y := h[k].sub[c];
            && Linked(g, bound) && y in g && Ok(Model(g, bound, y)) && KeySeq([c] + rest)
            && Graft(g, bound, root, y, Insert(Model(g, bound, y), rest, str))
               == Graft(h, bound, root, k, Insert(Model(h, bound, k), [c] + rest, str))
  {
    hide Ok, Insert, KeySeq;
    var g := h[k := Widened(h[k], c)];
    var y, m := h[k].sub[c], Model(h, bound, k);
    assert IsBelow(h, k, c);
    assert forall x, i :: x in h && 0 <= i < 128 && h[x].sub[i] != null ==> IsBelow(h, x, i) && IsBelow(g, x, i);
    InsertFirst(m, c, rest, str);
    forall i | 0 <= i < 128 ensures Model(g, bound, k).ent[i] == m.ent[i] {
      OtherEntries(h, g, bound, k, i);
    }
    assert Model(g, bound, k).ent == m.ent;
    GraftDown(g, bound, root, k, c, Insert(Model(g, bound, y), rest, str));
    GraftFrame(h, g, bound, root, k, Insert(m, [c] + rest, str));
  }

  /** The fields of a new table. */
  ghost function Fresh(k: Keymap, c: int, d: nat): Fields {
    Fields(9999, -1, seq(128, i => None), seq(128, i => null), k, c, d)
  }

  /** A key without one: an empty table is made first. */
  lemma NewStep(h: Memory, bound: int, root: Keymap, k: Keymap, c: int, y: Keymap, rest: seq<int>, str: seq<int>)
    requires Linked(h, bound) && root in h && k in h && y !in h && h[root].depth == 0 && h[k].depth < bound
    requires 0 <= c < 128 && rest != [] && KeySeq(rest) && Ok(Model(h, bound, k)) && h[k].sub[c] == null
    ensures var g := WithNew(h, k, c, y);
            && Linked(g, bound) && Ok(Model(g, bound, y)) && KeySeq([c] + rest)
            && Graft(g, bound, root, y, Insert(Model(g, bound, y), rest, str))
               == Graft(h, bound, root, k, Insert(Model(h, bound, k), [c] + rest, str))
  {
    var g := WithNew(h, k, c, y);
    var m := Model(h, bound, k);
    hide Ok, Insert, KeySeq, Linked, Model, Graft, Widened, Fresh;
    NewLinked(h, bound, k, c, y);
    NewModel(h, bound, k, c, y);
    EmptyIsOk();
    InsertFirst(m, c, rest, str);
    var t := Insert(EmptyTable(), rest, str);
    var n := Model(g, bound, k);
    assert n.ent[c := n.ent[c].(sub := Some(t))] == m.ent[c := m.ent[c].(sub := Some(t))];
    GraftDown(g, bound, root, k, c, t);
    GraftFrame(h, g, bound, root, k, Insert(m, [c] + rest, str));
  }

  /** The memory with a new table below slot `c`. */
  ghost function WithNew(h: Memory, k: Keymap, c: int, y: Keymap): Memory
    requires k in h && 0 <= c < |h[k].sub|
  {
    h[y := Fresh(k, c, h[k].depth + 1)][k := Widened(h[k], c).(sub := h[k].sub[c := y])]
  }

  lemma NewLinked(h: Memory, bound: int, k: Keymap, c: int, y: Keymap)
    requires Linked(h, bound) && k in h && y !in h && h[k].depth < bound && 0 <= c < 128 && h[k].sub[c] == null
    ensures Linked(WithNew(h, k, c, y), bound) && SameBut(h, WithNew(h, k, c, y), k)
  {
    var g := WithNew(h, k, c, y);
    assert forall x, i :: x in h && 0 <= i < 128 && h[x].sub[i] != null ==> IsBelow(h, x, i) && IsBelow(g, x, i);
    assert IsBelow(g, k, c);
  }

  lemma NewModel(h: Memory, bound: int, k: Keymap, c: int, y: Keymap)
    requires Linked(h, bound) && k in h && y !in h && 0 <= c < 128 && h[k].sub[c] == null
    requires Linked(WithNew(h, k, c, y), bound) && SameBut(h, WithNew(h, k, c, y), k)
    ensures var m, n := Model(h, bound, k), Model(WithNew(h, k, c, y), bound, k);
            && m.ent[c].sub.None? && Model(WithNew(h, k, c, y), bound, y) == EmptyTable()
            && n == Table(if c < m.min then c else m.min, if c > m.max then c else m.max,
                          m.ent[c := m.ent[c].(sub := Some(EmptyTable()))])
  {
    var g := WithNew(h, k, c, y);
    var m := Model(h, bound, k);
    EmptyModel(g, bound, y);
    forall i | 0 <= i < 128 && i != c ensures Model(g, bound, k).ent[i] == m.ent[i] {
      OtherEntries(h, g, bound, k, i);
    }
    assert Model(g, bound, k).ent == m.ent[c := m.ent[c].(sub := Some(EmptyTable()))];
  }

  lemma EmptyModel(g: Memory, bound: int, y: Keymap)
    requires Linked(g, bound) && y in g && g[y].min == 9999 && g[y].max == -1
    requires g[y].proc == seq(128, i => None) && g[y].sub == seq(128, i => null)
    ensures Model(g, bound, y) == EmptyTable()
  {
    assert Model(g, bound, y).ent == EmptyTable().ent;
  }

  // ----- the insertion -----

  /** The root table and all tables below it. */
  class Bindings {
    const root: Keymap
    ghost var nodes: set<Keymap>
    ghost var bound: int

    ghost function Now(): Memory
      reads this, nodes
    {
      Snapshot(nodes)
    }

    ghost predicate Placed()
      reads this, nodes
    {
      root in nodes && root.depth == 0 && root.parent == null && Linked(Now(), bound)
    }

    /** What all bindings together mean. */
    ghost function Value(): Table
      requires Placed()
      reads this, nodes
    {
      Model(Now(), bound, root)
    }

    ghost predicate Valid()
      reads this, nodes
    {
      Placed() && Ok(Value())
    }

    constructor ()
      ensures Valid() && Value() == EmptyTable() && fresh(nodes)
    {
      var k := new Keymap(null, 0, 0);
      root, nodes, bound := k, {k}, 0;
      new;
      EmptyModel(Now(), bound, root);
      EmptyIsOk();
    }

    /** InsertEntry: walks down the tables along the keys, making those that are
        missing, and binds the last key. */
    method InsertEntry(com: seq<int>, str: seq<int>)
      requires Valid() && KeySeq(com) && CString(str)
      modifies this, nodes
      ensures Valid() && fresh(nodes - old(nodes)) && Value() == Insert(old(Value()), com, str)
    {
      hide Ok, Insert, KeySeq, Linked, Model, Graft, CString;
      ghost var goal := Insert(Value(), com, str);
      InsertOk(Value(), com, str);
      ModelBound(Now(), bound, bound + |com|, root);
      RootDepth();
      bound := bound + |com|;
      var k, i, len := root, 0, |com|;
      assert com[i..] == com;
      GraftRoot(Now(), bound, root, goal);
      while len > 0
        invariant 0 <= i && 0 <= len && i + len == |com| && KeySeq(com[i..]) && Placed() && fresh(nodes - old(nodes))
                  && k in nodes
        invariant k.depth + len <= bound && Ok(Model(Now(), bound, k))
        invariant |Insert(Model(Now(), bound, k), com[i..], str).ent| == 128
        invariant Graft(Now(), bound, root, k, Insert(Model(Now(), bound, k), com[i..], str)) == goal
      {
        len := len - 1;
        var slot := com[i];
        KeysOf(com, i);
        if len == 0 {
          assert com[i..] == [slot];
          BindLast(k, slot, str);
          return;
        }
        assert com[i..] == [slot] + com[i + 1..];
        k := Down(k, slot, com[i + 1..], str);
        i := i + 1;
        InsertSize(Model(Now(), bound, k), com[i..], str);
      }
      NothingLeft(k, com[i..], str);
    }

    lemma NothingLeft(k: Keymap, rest: seq<int>, str: seq<int>)
      requires Placed() && k in nodes && rest == [] && Ok(Model(Now(), bound, k))
      ensures KeySeq(rest) && Insert(Model(Now(), bound, k), rest, str) == Model(Now(), bound, k)
      ensures Graft(Now(), bound, root, k, Model(Now(), bound, k)) == Model(Now(), bound, root)
    {
      hide Ok;
      GraftSame(Now(), bound, root, k);
    }

    lemma RootDepth()
      requires Placed()
      ensures bound >= 0
    {
      assert Now()[root].depth <= bound;
    }

    lemma KeysOf(com: seq<int>, i: int)
      requires 0 <= i < |com| && KeySeq(com[i..])
      ensures 0 <= com[i] < 128 && KeySeq(com[i + 1..])
    {
      assert com[i..][0] == com[i] && com[i..][1..] == com[i + 1..];
    }

    lemma GraftRoot(h: Memory, b: int, r: Keymap, t: Table)
      requires Linked(h, b) && r in h && |t.ent| == 128
      ensures Graft(h, b, r, r, t) == t
    {
    }

    /** The body of the loop for the last key. */
    method BindLast(k: Keymap, c: int, str: seq<int>)
      requires Placed() && k in nodes && 0 <= c < 128 && Ok(Model(Now(), bound, k)) && KeySeq([c])
      modifies k
      ensures Placed()
      ensures old(|Insert(Model(Now(), bound, k), [c], str).ent| == 128)
      ensures Value() == old(Graft(Now(), bound, root, k, Insert(Model(Now(), bound, k), [c], str)))
    {
      ghost var h := Now();
      hide Ok, Insert, Model, Graft, KeySeq;
      InsertSize(Model(h, bound, k), [c], str);
      BindStep(h, bound, root, k, c, str);
      assert |k.proc| == 128 by {
        assert |h[k].proc| == 128;
      }
      hide Linked;
      Put(k, c, str);
    }

    /** Binds a string to a slot. */
    method Put(k: Keymap, c: int, str: seq<int>)
      requires k in nodes && 0 <= c < |k.proc|
      modifies k
      ensures Now() == old(Now())[k := Widened(old(Now())[k], c).(proc := old(Now())[k].proc[c := Some(str)])]
    {
      hide Widened;
      ghost var h := Now();
      Widen(k, c);
      ghost var w := Widened(h[k], c);
      WidenedIs(h[k], c);
      Assign(k, c, str);
      Rewritten(h, k, w, w.(proc := w.proc[c := Some(str)]));
    }

    method Assign(k: Keymap, c: int, str: seq<int>)
      requires k in nodes && 0 <= c < |k.proc|
      modifies k`proc
      ensures Now() == old(Now())[k := old(Now())[k].(proc := old(Now())[k].proc[c := Some(str)])]
    {
      ghost var h := Now();
      k.proc := k.proc[c := Some(str)];
      assert FieldsOf(k) == h[k].(proc := h[k].proc[c := Some(str)]);
    }

    lemma Rewritten(h: Memory, k: Keymap, w: Fields, v: Fields)
      ensures h[k := w][k := v] == h[k := v]
    {
    }

    /** The body of the loop for another key. */
    method Down(k: Keymap, c: int, ghost rest: seq<int>, ghost str: seq<int>) returns (y: Keymap)
      requires Placed() && k in nodes && 0 <= c < 128 && Ok(Model(Now(), bound, k))
      requires rest != [] && KeySeq(rest) && k.depth < bound
      modifies this`nodes, k
      ensures Placed() && y in nodes && nodes == old(nodes) + {y} && (y in old(nodes) || fresh(y))
              && y.depth == old(k.depth) + 1
      ensures Ok(Model(Now(), bound, y)) && KeySeq([c] + rest)
      ensures |Insert(Model(Now(), bound, y), rest, str).ent| == 128
      ensures old(Ok(Model(Now(), bound, k)) && |Insert(Model(Now(), bound, k), [c] + rest, str).ent| == 128)
      ensures Graft(Now(), bound, root, y, Insert(Model(Now(), bound, y), rest, str))
              == old(Graft(Now(), bound, root, k, Insert(Model(Now(), bound, k), [c] + rest, str)))
    {
      ghost var h := Now();
      assert |k.subent| == 128 by {
        assert |h[k].sub| == 128;
      }
      hide Ok, Insert, Model, Graft, KeySeq, Linked;
      InsertFirst(Model(h, bound, k), c, rest, str);
      if k.subent[c] == null {
        y := Missing(k, c, rest, str);
      } else {
        DownStep(h, bound, root, k, c, rest, str);
        y := k.subent[c];
        BelowAt(h, bound, k, c);
        Widen(k, c);
        InsertSize(Model(Now(), bound, y), rest, str);
      }
    }

    lemma BelowAt(h: Memory, b: int, k: Keymap, c: int)
      requires Linked(h, b) && k in h && 0 <= c < |h[k].sub| && h[k].sub[c] != null
      ensures IsBelow(h, k, c)
    {
    }

    /** Brings a slot into the range of a table. */
    method Widen(k: Keymap, c: int)
      requires k in nodes
      modifies k`min, k`max
      ensures Now() == old(Now())[k := Widened(old(Now())[k], c)]
    {
      ghost var h := Now();
      if c < k.min {
        k.min := c;
      }
      if c > k.max {
        k.max := c;
      }
      assert Now() == h[k := Widened(h[k], c)];
    }

    /** Makes the table that is missing below a slot. */
    method Missing(k: Keymap, c: int, ghost rest: seq<int>, ghost str: seq<int>) returns (y: Keymap)
      requires Placed() && k in nodes && 0 <= c < 128 && |k.subent| == 128 && k.subent[c] == null
               && Ok(Model(Now(), bound, k))
      requires rest != [] && KeySeq(rest) && k.depth < bound
      modifies this`nodes, k
      ensures Placed() && y in nodes && nodes == old(nodes) + {y} && fresh(y) && y.depth == old(k.depth) + 1
      ensures Ok(Model(Now(), bound, y)) && KeySeq([c] + rest)
      ensures |Insert(Model(Now(), bound, y), rest, str).ent| == 128
      ensures old(Ok(Model(Now(), bound, k)) && |Insert(Model(Now(), bound, k), [c] + rest, str).ent| == 128)
      ensures Graft(Now(), bound, root, y, Insert(Model(Now(), bound, y), rest, str))
              == old(Graft(Now(), bound, root, k, Insert(Model(Now(), bound, k), [c] + rest, str)))
    {
      hide Ok, Insert, Model, Graft, KeySeq, Linked, Widened;
      ghost var h := Now();
      InsertFirst(Model(h, bound, k), c, rest, str);
      y := Grow(k, c);
      NewStep(h, bound, root, k, c, y, rest, str);
      InsertSize(Model(Now(), bound, y), rest, str);
    }

    /** Links a new table to its slot. */
    method Grow(k: Keymap, c: int) returns (y: Keymap)
      requires k in nodes && 0 <= c < |k.subent|
      modifies this`nodes, k
      ensures nodes == old(nodes) + {y} && fresh(y) && Now() == WithNew(old(Now()), k, c, y)
      ensures y.depth == old(k.depth) + 1 && k.depth == old(k.depth) && k.parent == old(k.parent)
    {
      hide Widened, Fresh;
      ghost var h := Now();
      Widen(k, c);
      WidenedIs(h[k], c);
      ghost var w := Widened(h[k], c);
      y := Attach(k, c);
      Overwritten(h, k, w, y, Fresh(k, c, w.depth + 1), w.(sub := w.sub[c := y]));
    }

    lemma Overwritten(h: Memory, k: Keymap, w: Fields, y: Keymap, f: Fields, v: Fields)
      ensures h[k := w][y := f][k := v] == h[y := f][k := v]
    {
    }

    method Attach(k: Keymap, c: int) returns (y: Keymap)
      requires k in nodes && 0 <= c < |k.subent|
      modifies this`nodes, k`subent
      ensures nodes == old(nodes) + {y} && fresh(y) && y.depth == k.depth + 1
      ensures var h := old(Now()); Now() == h[y := Fresh(k, c, k.depth + 1)][k := h[k].(sub := h[k].sub[c := y])]
    {
      hide Fresh;
      ghost var h := Now();
      y := new Keymap(k, c, k.depth + 1);
      FreshIs(k, c, k.depth + 1);
      k.subent := k.subent[c := y];
      nodes := nodes + {y};
      assert FieldsOf(k) == h[k].(sub := h[k].sub[c := y]);
    }

    lemma FreshIs(k: Keymap, c: int, d: nat)
      ensures Fresh(k, c, d) == Fields(9999, -1, seq(128, i => None), seq(128, i => null), k, c, d)
    {
    }

    lemma WidenedIs(f: Fields, c: int)
      ensures Widened(f, c).sub == f.sub && Widened(f, c).proc == f.proc && Widened(f, c).depth == f.depth
    {
    }
  }

  /** All lines of a key map, one after the other. */
  method ReadLines(lines: seq<Line>) returns (b: Bindings)
    requires forall i :: 0 <= i < |lines| ==> LineOk(lines[i])
    ensures b.Valid() && b.Value() == Read(lines)
  {
    hide Insert, Ok, KeySeq, CString;
    b := new Bindings();
    for n := 0 to |lines|
      invariant b.Valid() && fresh(b) && fresh(b.nodes) && b.Value() == Read(lines[..n])
    {
      assert lines[..n + 1][..n] == lines[..n] && lines[..n + 1][n] == lines[n];
      assert LineOk(lines[n]);
      b.InsertEntry(lines[n].keys, lines[n].str);
    }
    assert lines[..|lines|] == lines;
  }
}
