/** Key bindings as a tree of tables, one table for each sequence of prefix keys. */
module KeyTrie {
  import opened Optional

  /** What one key means in a table: a string to send, or a further table. */
  datatype Entry = Entry(proc: Option<seq<int>>, sub: Option<Table>)

  /** A table of 128 entries, those outside `min..max` being empty. */
  datatype Table = Table(min: int, max: int, ent: seq<Entry>)

  const NO_ENTRY := Entry(None, None)

  function EmptyTable(): Table {
    Table(9999, -1, seq(128, i => NO_ENTRY))
  }

  /** A string as C keeps it: no NUL inside, characters are bytes. */
  predicate CString(s: seq<int>) {
    forall i :: 0 <= i < |s| ==> 0 < s[i] < 256
  }

  predicate KeySeq(k: seq<int>) {
    forall i :: 0 <= i < |k| ==> 0 <= k[i] < 128
  }

  /** The shape that InsertEntry keeps up: `min` and `max` enclose all entries in
      use, and every table but the first has some entry in use. */
  predicate Ok(t: Table) {
    && |t.ent| == 128
    && ((t.min == 9999 && t.max == -1) || (0 <= t.min <= t.max < 128 && t.ent[t.min] != NO_ENTRY))
    && (forall i :: 0 <= i < 128 && !(t.min <= i <= t.max) ==> t.ent[i] == NO_ENTRY)
    && (forall i :: 0 <= i < 128 && t.ent[i].proc.Some? ==> CString(t.ent[i].proc.value))
    && (forall i :: 0 <= i < 128 && t.ent[i].sub.Some? ==>
       t.ent[i].sub.value.min <= t.ent[i].sub.value.max && Ok(t.ent[i].sub.value))
  }

  /** InsertEntry on values. */
  function Insert(t: Table, com: seq<int>, proc: seq<int>): Table
    requires Ok(t) && KeySeq(com)
    decreases |com|
  {
    if com == [] then t
    else
      var slot := com[0];
      var e := t.ent[slot];
      assert KeySeq(com[1..]);
      EmptyIsOk();
      var e' := if |com| == 1 then e.(proc := Some(proc))
                else e.(sub := Some(Insert(if e.sub.None? then EmptyTable() else e.sub.value, com[1..], proc)));
      Table(if slot < t.min then slot else t.min, if slot > t.max then slot else t.max, t.ent[slot := e'])
  }

  lemma EmptyIsOk()
    ensures Ok(EmptyTable())
  {
  }

  lemma {:induction false} InsertOk(t: Table, com: seq<int>, proc: seq<int>)
    requires Ok(t) && KeySeq(com) && CString(proc)
    ensures Ok(Insert(t, com, proc)) && (com != [] ==> Insert(t, com, proc).min <= Insert(t, com, proc).max)
    decreases |com|
  {
    EmptyIsOk();
    if com != [] {
      var e := t.ent[com[0]];
      assert KeySeq(com[1..]);
      if |com| > 1 {
        InsertOk(if e.sub.None? then EmptyTable() else e.sub.value, com[1..], proc);
      }
      var n := Insert(t, com, proc);
      assert forall i :: 0 <= i < 128 && i != com[0] ==> n.ent[i] == t.ent[i];
    }
  }

  /** The string that a sequence of keys is bound to. */
  function Bound(t: Table, k: seq<int>): Option<seq<int>>
    requires |t.ent| == 128
    decreases |k|
  {
    if k == [] || !(0 <= k[0] < 128) then None
    else
      var e := t.ent[k[0]];
      if |k| == 1 then e.proc
      else if e.sub.None? || |e.sub.value.ent| != 128 then None
      else Bound(e.sub.value, k[1..])
  }

  /** InsertEntry binds the one sequence and leaves every other one as it was. */
  lemma {:induction false} InsertBinds(t: Table, com: seq<int>, proc: seq<int>, k: seq<int>)
    requires Ok(t) && KeySeq(com) && com != [] && CString(proc)
    ensures Ok(Insert(t, com, proc))
    ensures Bound(Insert(t, com, proc), k) == if k == com then Some(proc) else Bound(t, k)
    decreases |com|
  {
    InsertOk(t, com, proc);
    EmptyIsOk();
    assert KeySeq(com[1..]);
    if k != [] && k[0] == com[0] {
      assert k == [k[0]] + k[1..] && com == [com[0]] + com[1..];
      if |com| > 1 {
        var e := t.ent[com[0]];
        var below := if e.sub.None? then EmptyTable() else e.sub.value;
        InsertBinds(below, com[1..], proc, k[1..]);
        if e.sub.None? {
          NothingBound(k[1..]);
        }
      }
    }
  }

  lemma NothingBound(k: seq<int>)
    ensures Bound(EmptyTable(), k) == None
  {
  }

  /** One line of a key map. */
  datatype Line = Line(keys: seq<int>, str: seq<int>)

  predicate LineOk(l: Line) {
    l.keys != [] && KeySeq(l.keys) && CString(l.str)
  }

  /** The table after all lines have been read. */
  function Read(lines: seq<Line>): (t: Table)
    requires forall i :: 0 <= i < |lines| ==> LineOk(lines[i])
    ensures Ok(t)
  {
    if lines == [] then EmptyIsOk(); EmptyTable()
    else
      var l := lines[|lines| - 1];
      var t := Read(lines[..|lines| - 1]);
      assert LineOk(l);
      InsertOk(t, l.keys, l.str);
      Insert(t, l.keys, l.str)
  }

  /** The string of the last line for the keys. */
  function LastLine(lines: seq<Line>, k: seq<int>): Option<seq<int>> {
    if lines == [] then None
    else if lines[|lines| - 1].keys == k then Some(lines[|lines| - 1].str)
    else LastLine(lines[..|lines| - 1], k)
  }

  /** A sequence of keys is bound to what its last line says. */
  lemma {:induction false} ReadBinds(lines: seq<Line>, k: seq<int>)
    requires forall i :: 0 <= i < |lines| ==> LineOk(lines[i])
    ensures Bound(Read(lines), k) == LastLine(lines, k)
    decreases |lines|
  {
    hide Ok, Insert, Bound;
    if lines == [] {
      NothingBound(k);
    } else {
      var l := lines[|lines| - 1];
      ReadBinds(lines[..|lines| - 1], k);
      InsertBinds(Read(lines[..|lines| - 1]), l.keys, l.str, k);
    }
  }

  // ----- overlapping bindings -----

  /** Some key is both bound and a prefix, which the compiler refuses. */
  predicate Overlaps(t: Table)
    decreases t
  {
    exists i :: 0 <= i < |t.ent| && t.ent[i].sub.Some? && (t.ent[i].proc.Some? || Overlaps(t.ent[i].sub.value))
  }

  lemma {:induction false} SomethingBound(t: Table) returns (k: seq<int>)
    requires Ok(t) && t.min <= t.max
    ensures k != [] && Bound(t, k).Some?
    decreases t
  {
    var e := t.ent[t.min];
    if e.proc.Some? {
      k := [t.min];
    } else {
      var rest := SomethingBound(e.sub.value);
      k := [t.min] + rest;
      assert k[1..] == rest;
    }
  }

  ghost predicate ProperPrefix(a: seq<int>, b: seq<int>) {
    |a| < |b| && a == b[..|a|]
  }

  lemma {:induction false} OverlapWitness(t: Table) returns (a: seq<int>, b: seq<int>)
    requires Ok(t) && Overlaps(t)
    ensures ProperPrefix(a, b) && Bound(t, a).Some? && Bound(t, b).Some?
    decreases t
  {
    var i :| 0 <= i < 128 && t.ent[i].sub.Some? && (t.ent[i].proc.Some? || Overlaps(t.ent[i].sub.value));
    var below := t.ent[i].sub.value;
    if t.ent[i].proc.Some? {
      var rest := SomethingBound(below);
      a, b := [i], [i] + rest;
      assert b[1..] == rest && b[..1] == a;
    } else {
      var c, d := OverlapWitness(below);
      a, b := [i] + c, [i] + d;
      assert a[1..] == c && b[1..] == d && a == b[..|a|];
    }
  }

  lemma {:induction false} PrefixOverlaps(t: Table, a: seq<int>, b: seq<int>)
    requires Ok(t) && ProperPrefix(a, b) && Bound(t, a).Some? && Bound(t, b).Some?
    ensures Overlaps(t)
    decreases |a|
  {
    assert a[0] == b[0];
    if |a| > 1 {
      assert a[1..] == b[1..][..|a[1..]|];
      PrefixOverlaps(t.ent[a[0]].sub.value, a[1..], b[1..]);
    }
  }

  /** The compiler refuses exactly the key maps in which one bound sequence is a
      proper prefix of another. */
  lemma OverlapsExact(t: Table)
    requires Ok(t)
    ensures Overlaps(t) <==> exists a, b :: ProperPrefix(a, b) && Bound(t, a).Some? && Bound(t, b).Some?
  {
    if Overlaps(t) {
      var a, b := OverlapWitness(t);
    }
    if a, b :| ProperPrefix(a, b) && Bound(t, a).Some? && Bound(t, b).Some? {
      PrefixOverlaps(t, a, b);
    }
  }
}
