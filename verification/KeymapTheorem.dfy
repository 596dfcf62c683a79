/** Compiling a key map preserves its meaning: what the interpreter does with
    the file, keystroke by keystroke, is what the tree of tables prescribes. */
module KeymapTheorem {
  import opened CInt
  import opened KeyInterpreter
  import opened KeyTrie
  import opened KeymapCompiler
  import opened Optional

  // ----- what the tree prescribes -----

  /** The table reached by a sequence of prefix keys. */
  function Node(t: Table, path: seq<int>): Option<Table>
    decreases |path|
  {
    if path == [] then Some(t)
    else if !(0 <= path[0] < |t.ent|) || t.ent[path[0]].sub.None? then None
    else Node(t.ent[path[0]].sub.value, path[1..])
  }

  /** A bound key sends its string; a key with a table of its own is kept as a
      prefix; any other key passes through behind the prefix keys kept so far. */
  function SpecStep(t: Table, path: seq<int>, c: int): (seq<int>, seq<int>) {
    var n := Node(t, path);
    if n.None? || !(0 <= c < |n.value.ent|) || n.value.ent[c] == NO_ENTRY then (path + [c], [])
    else if n.value.ent[c].proc.Some? then (n.value.ent[c].proc.value, [])
    else ([], path + [c])
  }

  function SpecRun(t: Table, path: seq<int>, keys: seq<int>): (seq<int>, seq<int>)
    decreases |keys|
  {
    if keys == [] then ([], path)
    else
      var (out, next) := SpecStep(t, path, keys[0]);
      var (rest, last) := SpecRun(t, next, keys[1..]);
      (out + rest, last)
  }

  lemma {:induction false} SpecRunAppend(t: Table, path: seq<int>, a: seq<int>, b: seq<int>)
    ensures var (out, mid) := SpecRun(t, path, a);
            var (rest, last) := SpecRun(t, mid, b);
            SpecRun(t, path, a + b) == (out + rest, last)
    decreases |a|
  {
    hide SpecStep;
    if a == [] {
      assert a + b == b && [] + SpecRun(t, path, b).0 == SpecRun(t, path, b).0;
    } else {
      assert (a + b)[1..] == a[1..] + b;
      var (out, next) := SpecStep(t, path, a[0]);
      SpecRunAppend(t, next, a[1..], b);
      var (mid, m) := SpecRun(t, next, a[1..]);
      assert (out + mid) + SpecRun(t, m, b).0 == out + (mid + SpecRun(t, m, b).0);
    }
  }

  // ----- the list of tables -----

  /** The tables of the list are those of the tree. */
  lemma {:induction false} TabIsNode(t: Table, base: seq<int>, j: int)
    requires Ok(t) && 0 <= j < |Tables(t, base)|
    ensures var b := Tables(t, base)[j];
            |b.path| >= |base| && b.path[..|base|] == base && Node(t, b.path[|base|..]) == Some(b.table) && Ok(b.table)
            && (j > 0 ==> |b.path| > |base| && b.table.min <= b.table.max)
    decreases t, 130
  {
    if j > 0 {
      SubIsNode(t, base, t.min, j - 1);
    }
  }

  lemma {:induction false} SubIsNode(t: Table, base: seq<int>, i: int, j: int)
    requires Ok(t) && i >= 0 && 0 <= j < |SubTables(t, base, i)|
    ensures var b := SubTables(t, base, i)[j];
            && |b.path| > |base| && b.path[..|base|] == base && i <= b.path[|base|] <= t.max
            && Node(t, b.path[|base|..]) == Some(b.table) && Ok(b.table) && b.table.min <= b.table.max
    decreases t, if i < 129 then 129 - i else 0
  {
    hide Ok;
    OkParts(t);
    var b := SubTables(t, base, i)[j];
    var n := if t.ent[i].sub.Some? then |Tables(t.ent[i].sub.value, base + [i])| else 0;
    if j < n {
      var below := t.ent[i].sub.value;
      NonEmptyBelow(t, i);
      TabIsNode(below, base + [i], j);
      assert b.path[..|base|] == b.path[..|base| + 1][..|base|];
      assert b.path[|base|] == b.path[..|base| + 1][|base|];
      assert b.path[|base|..][1..] == b.path[|base| + 1..];
    } else {
      SubIsNode(t, base, i + 1, j - n);
    }
  }

  lemma NonEmptyBelow(t: Table, i: int)
    requires Ok(t) && 0 <= i < 128 && t.ent[i].sub.Some?
    ensures Ok(t.ent[i].sub.value) && t.ent[i].sub.value.min <= t.ent[i].sub.value.max
  {
  }

  /** Every table of the tree is in the list. */
  lemma {:induction false} NodeIsTab(t: Table, base: seq<int>, rel: seq<int>) returns (j: int)
    requires Ok(t) && Node(t, rel).Some?
    ensures 0 <= j < |Tables(t, base)| && Tables(t, base)[j] == Tab(base + rel, Node(t, rel).value)
    decreases |rel|
  {
    if rel == [] {
      assert base + rel == base;
      return 0;
    }
    var i := rel[0];
    NonEmptyBelow(t, i);
    var k := NodeIsTab(t.ent[i].sub.value, base + [i], rel[1..]);
    assert (base + [i]) + rel[1..] == base + rel;
    var m := SubAt(t, base, t.min, i);
    j := 1 + m + k;
  }

  lemma SubSplit(t: Table, base: seq<int>, i: int)
    requires Ok(t) && i >= 0
    ensures i > t.max ==> SubTables(t, base, i) == []
    ensures i <= t.max ==> i < |t.ent| && SubTables(t, base, i) == Below(t, base, i) + SubTables(t, base, i + 1)
    ensures i <= t.max && t.ent[i].sub.None? ==> Below(t, base, i) == []
    ensures i <= t.max && t.ent[i].sub.Some? ==>
              Ok(t.ent[i].sub.value) && Below(t, base, i) == Tables(t.ent[i].sub.value, base + [i])
  {
  }

  /** Where the tables below entry `i` start. */
  lemma {:induction false} SubAt(t: Table, base: seq<int>, from: int, i: int) returns (m: int)
    requires Ok(t) && 0 <= from <= i <= t.max < |t.ent| && t.ent[i].sub.Some? && Ok(t.ent[i].sub.value)
    ensures var b := Tables(t.ent[i].sub.value, base + [i]); var s := SubTables(t, base, from);
            0 <= m && m + |b| <= |s| && forall k :: 0 <= k < |b| ==> s[m + k] == b[k]
    decreases i - from
  {
    hide Ok, SubTables, Tables, Below;
    SubSplit(t, base, from);
    if from == i {
      return 0;
    }
    m := SubAt(t, base, from + 1, i);
    m := m + |Below(t, base, from)|;
  }

  /** No two tables of the list have the same prefix keys. */
  lemma {:induction false} TabsDistinct(t: Table, base: seq<int>, j: int, k: int)
    requires Ok(t) && 0 <= j < k < |Tables(t, base)|
    ensures Tables(t, base)[j].path != Tables(t, base)[k].path
    decreases t, 130
  {
    SubIsNode(t, base, t.min, k - 1);
    if j > 0 {
      SubsDistinct(t, base, t.min, j - 1, k - 1);
    }
  }

  lemma {:induction false} SubsDistinct(t: Table, base: seq<int>, i: int, j: int, k: int)
    requires Ok(t) && i >= 0 && 0 <= j < k < |SubTables(t, base, i)|
    ensures SubTables(t, base, i)[j].path != SubTables(t, base, i)[k].path
    decreases t, if i < 129 then 129 - i else 0
  {
    hide Ok, Tables, SubTables, Below;
    OkParts(t);
    SubSplit(t, base, i);
    var n := |Below(t, base, i)|;
    if k < n {
      TabsDistinct(t.ent[i].sub.value, base + [i], j, k);
    } else if j >= n {
      SubsDistinct(t, base, i + 1, j - n, k - n);
    } else {
      var a := Tables(t.ent[i].sub.value, base + [i])[j];
      TabIsNode(t.ent[i].sub.value, base + [i], j);
      assert a.path[|base|] == a.path[..|base| + 1][|base|] == i;
      SubIsNode(t, base, i + 1, k - n);
    }
  }

  /** A table is listed after the table that holds it. */
  lemma {:induction false} HolderFirst(t: Table, base: seq<int>, j: int) returns (k: int)
    requires Ok(t) && 0 < j < |Tables(t, base)|
    ensures var p := Tables(t, base)[j].path;
            0 <= k < j && |p| > |base| && Tables(t, base)[k].path == p[..|p| - 1]
    decreases t, 130
  {
    k := SubHolder(t, base, t.min, j - 1);
    k := k + 1;
  }

  /** -1 stands for the table that heads the list. */
  lemma {:induction false} SubHolder(t: Table, base: seq<int>, i: int, j: int) returns (k: int)
    requires Ok(t) && i >= 0 && 0 <= j < |SubTables(t, base, i)|
    ensures var s := SubTables(t, base, i); var p := s[j].path;
            -1 <= k < j && |p| > |base| && p[..|p| - 1] == if k < 0 then base else s[k].path
    decreases t, if i < 129 then 129 - i else 0
  {
    hide Ok, SubTables, Tables, Below, Node;
    OkParts(t);
    SubSplit(t, base, i);
    var b, r := Below(t, base, i), SubTables(t, base, i + 1);
    if j >= |b| {
      k := SubHolder(t, base, i + 1, j - |b|);
      assert (b + r)[j] == r[j - |b|];
      if k >= 0 {
        assert (b + r)[k + |b|] == r[k];
        k := k + |b|;
      }
    } else if j == 0 {
      assert (b + r)[0] == b[0] == Tab(base + [i], t.ent[i].sub.value);
      assert (base + [i])[..|base|] == base;
      k := -1;
    } else {
      k := HolderFirst(t.ent[i].sub.value, base + [i], j);
      assert (b + r)[j] == b[j] && (b + r)[k] == b[k];
    }
  }

  // ----- the parts of the file -----

  lemma {:induction false} DictAt(ts: seq<Tab>, j: int)
    requires 0 <= j < |ts|
    ensures |DictOf(ts)| == 3 * |ts|
    ensures DictOf(ts)[3 * j] == Hash(ts[j].path)
    ensures DictOf(ts)[3 * j + 1] == ts[j].table.min && DictOf(ts)[3 * j + 2] == NumberOfKeys(ts[j].table)
  {
    hide Hash, NumberOfKeys;
    if j > 0 {
      DictAt(ts[1..], j - 1);
    } else if |ts| > 1 {
      DictAt(ts[1..], 0);
    }
  }

  /** All tables have entries in use. */
  ghost predicate Full(ts: seq<Tab>) {
    AllOk(ts) && forall i :: 0 <= i < |ts| ==> ts[i].table.min <= ts[i].table.max
  }

  lemma {:induction false} RowLength(t: Table, i: int, off: int)
    requires |t.ent| == 128 && t.max < 128 && 0 <= i <= t.max + 1
    ensures |RowFrom(t, i, off)| == t.max + 1 - i
    decreases t.max - i
  {
    if i <= t.max {
      RowLength(t, i + 1, if t.ent[i].proc.Some? then off + |t.ent[i].proc.value| + 1 else off);
    }
  }

  lemma {:induction false} RowsLength(ts: seq<Tab>, off: int)
    requires Full(ts)
    ensures |RowsOf(ts, off)| == KeysOf(ts) >= 0
    decreases |ts|
  {
    hide Ok, TabStrings;
    if ts != [] {
      var t := ts[0].table;
      OkParts(t);
      RowLength(t, t.min, off);
      RowsLength(Rest(ts), off + |TabStrings(ts[0])|);
    }
  }

  /** The offset stored for entry `c` is where the string of `c` starts. */
  lemma {:induction false} RowAt(t: Table, i: int, off: int, c: int)
    requires |t.ent| == 128 && t.max < 128 && 0 <= i <= c <= t.max
    ensures |StringsFrom(t, c)| <= |StringsFrom(t, i)|
    ensures StringsFrom(t, i)[|StringsFrom(t, i)| - |StringsFrom(t, c)|..] == StringsFrom(t, c)
    ensures c - i < |RowFrom(t, i, off)|
    ensures RowFrom(t, i, off)[c - i] ==
            if t.ent[c].proc.Some? then off + |StringsFrom(t, i)| - |StringsFrom(t, c)|
            else if t.ent[c].sub.Some? then -1 else 0
    decreases c - i
  {
    hide RowFrom, StringsFrom;
    RowStep(t, i, off);
    if i < c {
      var off' := if t.ent[i].proc.Some? then off + |t.ent[i].proc.value| + 1 else off;
      RowAt(t, i + 1, off', c);
      var head := if t.ent[i].proc.Some? then t.ent[i].proc.value + [0] else [];
      var r := StringsFrom(t, i + 1);
      SuffixAppend(head, r, |r| - |StringsFrom(t, c)|);
    }
  }

  /** The first entry of a row, and the strings from there on. */
  lemma RowStep(t: Table, i: int, off: int)
    requires |t.ent| == 128 && 0 <= i <= t.max < 128
    ensures var e := t.ent[i]; var next := if e.proc.Some? then off + |e.proc.value| + 1 else off;
            && StringsFrom(t, i) == (if e.proc.Some? then e.proc.value + [0] else []) + StringsFrom(t, i + 1)
            && RowFrom(t, i, off)
               == [if e.proc.Some? then off else if e.sub.Some? then -1 else 0] + RowFrom(t, i + 1, next)
  {
  }

  lemma SuffixAppend(a: seq<int>, b: seq<int>, n: int)
    requires 0 <= n <= |b|
    ensures (a + b)[|a| + n..] == b[n..]
  {
  }

  /** Reading at the start of a string followed by NUL gives the string. */
  lemma {:induction false} ReadBack(s: seq<int>, pos: int, v: seq<int>)
    requires CString(v) && 0 <= pos && pos + |v| < |s|
    requires s[pos..pos + |v|] == v && s[pos + |v|] == 0
    ensures ReadString(s, pos) == v
    decreases |v|
  {
    if v != [] {
      assert s[pos] == v[0];
      assert s[pos + 1..pos + 1 + |v[1..]|] == v[1..];
      ReadBack(s, pos + 1, v[1..]);
    }
  }

  lemma ReadSuffix(before: seq<int>, strings: seq<int>, after: seq<int>, n: nat, v: seq<int>, rest: seq<int>)
    requires CString(v) && n <= |strings| && strings[n..] == v + [0] + rest
    ensures ReadString(before + strings + after, |before| + n) == v
  {
    var s := before + strings + after;
    var pos := |before| + n;
    assert |strings| - n == |v| + 1 + |rest|;
    forall i | 0 <= i <= |v| ensures s[pos + i] == (v + [0] + rest)[i] {
      assert s[pos + i] == strings[n + i] == strings[n..][i];
    }
    assert s[pos..pos + |v|] == v;
    ReadBack(s, pos, v);
  }

  /** Splits a list of tables around table `j`. */
  lemma Around(ts: seq<Tab>, j: int, off: int)
    requires AllOk(ts) && 0 <= j < |ts|
    ensures AllOk(ts[..j]) && AllOk(ts[j + 1..])
    ensures KeysOf(ts[..j + 1]) == KeysOf(ts[..j]) + NumberOfKeys(ts[j].table)
    ensures StringsOf(ts) == StringsOf(ts[..j]) + TabStrings(ts[j]) + StringsOf(ts[j + 1..])
    ensures RowsOf(ts[..j], off) + TabRow(ts[j], off + |StringsOf(ts[..j])|) <= RowsOf(ts, off)
  {
    hide Ok, TabStrings, TabRow;
    var a, b, r := ts[..j], [ts[j]], ts[j + 1..];
    assert ts == a + (b + r) && Rest(b + r) == r && ts[..j + 1] == a + b && b[1..] == [];
    DictAppend(a, b);
    StringsAppend(a, b + r);
    RowsAppend(a, b + r, off);
    Assoc(StringsOf(a), TabStrings(ts[j]), StringsOf(r));
    var off' := off + |StringsOf(a)|;
    Assoc(RowsOf(a, off), TabRow(ts[j], off'), RowsOf(r, off' + |TabStrings(ts[j])|));
  }

  // ----- packed prefix keys -----

  /** The interpreter can give back the prefix keys of the path. */
  ghost predicate GoodPath(p: seq<int>) {
    |p| <= 4 && forall i :: 0 <= i < |p| ==> p[i] != 0
  }

  lemma HashAppend(p: seq<int>, c: int)
    ensures Hash(p + [c]) == Wrap32(Hash(p) * 256 + c)
  {
    assert (p + [c])[..|p|] == p;
  }

  lemma Digits(a: int, b: int, c: int, d: int)
    requires 0 <= a < 128 && 0 <= b < 128 && 0 <= c < 128 && 0 <= d < 128
    ensures var x := a * 0x100_0000 + b * 0x1_0000 + c * 0x100 + d;
            Byte(x, 0x100_0000) == a && Byte(x, 0x1_0000) == b && Byte(x, 0x100) == c && Byte(x, 1) == d
  {
    hide Byte;
    var x := a * 0x100_0000 + b * 0x1_0000 + c * 0x100 + d;
    Digit(x, 0x100_0000, 0, a, b * 0x1_0000 + c * 0x100 + d);
    Digit(x, 0x1_0000, a, b, c * 0x100 + d);
    Digit(x, 0x100, a * 256 + b, c, d);
    Digit(x, 1, a * 0x1_0000 + b * 0x100 + c, d, 0);
  }

  lemma Digit(x: int, shift: int, high: int, digit: int, low: int)
    requires 0 <= digit < 256 && 0 <= low < shift && x == (high * 256 + digit) * shift + low
    ensures Byte(x, shift) == digit
  {
    var q := high * 256 + digit;
    assert x / shift == q by {
      QuotientIs(x, shift, q, low);
    }
  }

  /** Key `i` of the path counted from its end, zero before its start. */
  function FromEnd(p: seq<int>, i: nat): int {
    if i < |p| then p[|p| - 1 - i] else 0
  }

  lemma {:induction false} HashValue(p: seq<int>)
    requires |p| <= 4 && KeySeq(p)
    ensures Hash(p) == FromEnd(p, 3) * 0x100_0000 + FromEnd(p, 2) * 0x1_0000 + FromEnd(p, 1) * 0x100 + FromEnd(p, 0)
    decreases |p|
  {
    if p != [] {
      var q := p[..|p| - 1];
      HashValue(q);
      assert FromEnd(p, 3) == FromEnd(q, 2) && FromEnd(p, 2) == FromEnd(q, 1) && FromEnd(p, 1) == FromEnd(q, 0);
      assert FromEnd(q, 3) == 0;
    }
  }

  lemma EmitHash(p: seq<int>)
    requires GoodPath(p) && KeySeq(p)
    ensures Emit(Hash(p)) == p
  {
    hide Byte, Hash;
    HashValue(p);
    Digits(FromEnd(p, 3), FromEnd(p, 2), FromEnd(p, 1), FromEnd(p, 0));
  }

  lemma EmitIsGood(state: int)
    ensures GoodPath(Emit(state))
  {
    hide Byte;
  }

  // ----- what the loaded file says -----

  /** Where the string of entry `c` of table `j` starts among the characters. */
  ghost function StringPlace(ts: seq<Tab>, j: int, c: int): int
    requires AllOk(ts) && 0 <= j < |ts| && ts[j].table.min <= c <= ts[j].table.max
  {
    PartOk(ts, j);
    |StringsOf(ts[..j])| + |TabStrings(ts[j])| - |StringsFrom(ts[j].table, c)|
  }

  lemma PartOk(ts: seq<Tab>, j: int)
    requires AllOk(ts) && 0 <= j < |ts|
    ensures AllOk(ts[..j])
  {
  }

  lemma EntryOffset(ts: seq<Tab>, j: int, off: int, c: int)
    requires AllOk(ts) && 0 <= j < |ts| && ts[j].table.min <= c <= ts[j].table.max && Full(ts[..j])
    ensures var e, k := ts[j].table.ent[c], KeysOf(ts[..j]) + c - ts[j].table.min;
            && 0 <= k < |RowsOf(ts, off)|
            && RowsOf(ts, off)[k] == if e.proc.Some? then off + StringPlace(ts, j, c) else if e.sub.Some? then -1 else 0
  {
    hide Ok, StringsFrom, RowFrom, RowsOf, StringsOf, KeysOf, AllOk;
    var t := ts[j].table;
    TableIsOk(ts, j);
    PartOk(ts, j);
    OkParts(t);
    Around(ts, j, off);
    RowsLength(ts[..j], off);
    RowAt(t, t.min, off + |StringsOf(ts[..j])|, c);
    var a, b := RowsOf(ts[..j], off), TabRow(ts[j], off + |StringsOf(ts[..j])|);
    assert RowsOf(ts, off)[|a| + (c - t.min)] == (a + b)[|a| + (c - t.min)] == b[c - t.min];
  }

  lemma TableIsOk(ts: seq<Tab>, j: int)
    requires AllOk(ts) && 0 <= j < |ts|
    ensures Ok(ts[j].table)
  {
  }

  lemma EntryString(ts: seq<Tab>, j: int, c: int)
    requires AllOk(ts) && 0 <= j < |ts| && ts[j].table.min <= c <= ts[j].table.max && ts[j].table.ent[c].proc.Some?
    ensures StringPlace(ts, j, c) >= 0
    ensures ReadString(StringsOf(ts), StringPlace(ts, j, c)) == ts[j].table.ent[c].proc.value
  {
    hide Ok, RowFrom, RowsOf, StringsOf, StringsFrom, TabStrings, KeysOf, AllOk, ReadString;
    TableIsOk(ts, j);
    PartOk(ts, j);
    Around(ts, j, 0);
    ReadTabString(ts[j], c, StringsOf(ts[..j]), StringsOf(ts[j + 1..]));
  }

  lemma ReadTabString(b: Tab, c: int, before: seq<int>, after: seq<int>)
    requires Ok(b.table) && b.table.min <= c <= b.table.max && b.table.ent[c].proc.Some?
    ensures |StringsFrom(b.table, c)| <= |TabStrings(b)|
    ensures ReadString(before + TabStrings(b) + after, |before| + |TabStrings(b)| - |StringsFrom(b.table, c)|)
            == b.table.ent[c].proc.value
  {
    hide Ok, RowFrom, ReadString;
    var t := b.table;
    OkParts(t);
    ProcIsString(t, c);
    RowAt(t, t.min, 0, c);
    ReadSuffix(before, TabStrings(b), after, |TabStrings(b)| - |StringsFrom(t, c)|, t.ent[c].proc.value,
        StringsFrom(t, c + 1));
  }

  lemma ProcIsString(t: Table, c: int)
    requires Ok(t) && 0 <= c < 128 && t.ent[c].proc.Some?
    ensures CString(t.ent[c].proc.value)
  {
  }

  lemma TabsFull(t: Table)
    requires Ok(t)
    ensures AllOk(Tables(t, []))
    ensures t.min <= t.max ==> Full(Tables(t, []))
    ensures |Tables(t, [])| > 1 ==> t.min <= t.max
  {
    hide Ok, Node;
    TablesOk(t, []);
    forall j | 0 <= j < |Tables(t, [])|
      ensures j > 0 ==> Tables(t, [])[j].table.min <= Tables(t, [])[j].table.max
    {
      TabIsNode(t, [], j);
    }
  }

  /** The words of the file, by what they are for. */
  lemma FileWords(t: Table, j: int, k: int)
    requires Ok(t) && 0 <= j < |Tables(t, [])|
    requires AllOk(Tables(t, [])) && 0 <= k < |RowsOf(Tables(t, []), StringBase(Tables(t, [])))|
    ensures var l, ts := Load(ImageOf(t)), Tables(t, []);
            && Word(l.file, 0) == |ts|
            && OffsetWord(l, k) == RowsOf(ts, StringBase(ts))[k]
  {
    hide Ok, Tables, RowsOf, StringsOf, DictOf;
    var ts := Tables(t, []);
    DictAt(ts, j);
    var d, r := DictOf(ts), RowsOf(ts, StringBase(ts));
    assert ([|ts|] + d + r)[1 + 3 * |ts| + k] == r[k];
  }

  lemma FileDict(t: Table, j: int)
    requires Ok(t) && 0 <= j < |Tables(t, [])|
    ensures var l, ts := Load(ImageOf(t)), Tables(t, []);
            && l.length == (if |ts| <= 30 then |ts| else 0)
            && Packed(l, j) == Hash(ts[j].path) && FirstKey(l, j) == ts[j].table.min
            && KeyCount(l, j) == NumberOfKeys(ts[j].table)
  {
    hide Tables, RowsOf, StringsOf, DictOf, Hash;
    TablesOk(t, []);
    var ts := Tables(t, []);
    DictAt(ts, j);
    DictAt(ts, 0);
    var d, r := DictOf(ts), RowsOf(ts, StringBase(ts));
    var w := [|ts|] + d + r;
    assert w[1 + 3 * j] == d[3 * j] && w[2 + 3 * j] == d[3 * j + 1] && w[3 + 3 * j] == d[3 * j + 2];
    assert w[2] == d[1] && w[3] == d[2];
  }

  /** Where the dictionary is in the file: behind the number of tables, three words for
      each of them. */
  lemma DictWords(t: Table, j: int)
    requires Ok(t) && 0 <= j < |Tables(t, [])|
    ensures var w, ts := ImageOf(t).words, Tables(t, []);
            && |w| >= 1 + 3 * |ts| && w[0] == |ts|
            && w[1 + 3 * j] == Hash(ts[j].path)
            && w[2 + 3 * j] == ts[j].table.min && w[3 + 3 * j] == ts[j].table.max - ts[j].table.min + 1
  {
    hide Tables, RowsOf, StringsOf, DictOf, Hash;
    TablesOk(t, []);
    var ts := Tables(t, []);
    DictAt(ts, j);
    var d, r := DictOf(ts), RowsOf(ts, StringBase(ts));
    var w := [|ts|] + d + r;
    assert w[1 + 3 * j] == d[3 * j] && w[2 + 3 * j] == d[3 * j + 1] && w[3 + 3 * j] == d[3 * j + 2];
  }

  /** Stored offsets are the places where the strings were written. */
  lemma EntryWord(t: Table, j: int, c: int)
    requires Ok(t) && 0 <= j < |Tables(t, [])|
    requires Tables(t, [])[j].table.min <= c <= Tables(t, [])[j].table.max && 0 <= c < |Tables(t, [])[j].table.ent|
    ensures var l, ts := Load(ImageOf(t)), Tables(t, []);
            var e, v := ts[j].table.ent[c], OffsetWord(l, KeysOf(ts[..j]) + c - ts[j].table.min);
            if e.proc.Some? then v > 0 && StringAt(l, v) == e.proc.value
            else v == if e.sub.Some? then -1 else 0
  {
    hide Ok, Tables, RowsOf, StringsOf, DictOf, AllOk, StringPlace, KeysOf, ReadString;
    var ts := Tables(t, []);
    TabsFull(t);
    TabIsNode(t, [], j);
    PartFull(ts, j);
    RowsLength(ts, StringBase(ts));
    EntryOffset(ts, j, StringBase(ts), c);
    FileWords(t, j, KeysOf(ts[..j]) + c - ts[j].table.min);
    DictAt(ts, j);
    if ts[j].table.ent[c].proc.Some? {
      EntryString(ts, j, c);
    }
  }

  lemma PartFull(ts: seq<Tab>, j: int)
    requires Full(ts) && 0 <= j < |ts|
    ensures Full(ts[..j])
  {
  }

  // ----- one keystroke -----

  lemma {:induction false} NodeKeys(t: Table, p: seq<int>)
    requires Ok(t) && Node(t, p).Some?
    ensures KeySeq(p) && Ok(Node(t, p).value)
    decreases |p|
  {
    if p != [] {
      NodeKeys(t.ent[p[0]].sub.value, p[1..]);
    }
  }

  lemma ListedNode(t: Table, j: int)
    requires Ok(t) && 0 <= j < |Tables(t, [])|
    ensures var b := Tables(t, [])[j]; Node(t, b.path) == Some(b.table) && Ok(b.table) && (j > 0 ==> b.path != [])
  {
    hide Ok, Tables, Node;
    TabIsNode(t, [], j);
    var p := Tables(t, [])[j].path;
    assert p[0..] == p;
  }

  lemma {:induction false} NodeAppend(t: Table, p: seq<int>, c: int)
    requires Node(t, p).Some?
    ensures Node(t, p + [c]) ==
            var n := Node(t, p).value;
            if 0 <= c < |n.ent| then n.ent[c].sub else None
    decreases |p|
  {
    if p == [] {
      assert p + [c] == [c] && [c][1..] == [];
    } else {
      assert (p + [c])[1..] == p[1..] + [c];
      NodeAppend(t.ent[p[0]].sub.value, p[1..], c);
    }
  }

  /** The tables up to the `k`-th have paths the interpreter can give back. */
  ghost predicate GoodUpTo(ts: seq<Tab>, k: int) {
    forall i :: 0 <= i < |ts| && i <= k ==> GoodPath(ts[i].path)
  }

  /** The search stops at the table of the path. */
  lemma {:induction false} FindHolds(t: Table, j: int, k: int)
    requires Ok(t) && 0 <= j <= k < |Tables(t, [])| <= 30 && GoodUpTo(Tables(t, []), k)
    ensures var l, ts := Load(ImageOf(t)), Tables(t, []);
            Find(l, Hash(ts[k].path), j, KeysOf(ts[..j])) == Some((k, KeysOf(ts[..k])))
    decreases k - j
  {
    hide Ok, Tables, Node, GoodPath, Load, ImageOf, Emit, Hash, Packed, FirstKey, KeyCount, NumberOfKeys, KeysOf;
    var ts := Tables(t, []);
    FileDict(t, j);
    if j < k {
      FindHolds(t, j + 1, k);
      KeysStep(ts, j);
      ListedNode(t, j);
      ListedNode(t, k);
      NodeKeys(t, ts[j].path);
      NodeKeys(t, ts[k].path);
      EmitHash(ts[j].path);
      EmitHash(ts[k].path);
      TabsDistinct(t, [], j, k);
    }
  }

  lemma KeysStep(ts: seq<Tab>, j: int)
    requires 0 <= j < |ts|
    ensures KeysOf(ts[..j + 1]) == KeysOf(ts[..j]) + NumberOfKeys(ts[j].table)
  {
    hide NumberOfKeys;
    DictAppend(ts[..j], [ts[j]]);
    assert ts[..j + 1] == ts[..j] + [ts[j]] && [ts[j]][1..] == [];
  }

  lemma NoKeys(ts: seq<Tab>)
    ensures KeysOf(ts[..0]) == 0
  {
  }

  /** What the file says about a key is what the table on the path says. */
  lemma ActionAgrees(t: Table, k: int, c: int)
    requires Ok(t) && 0 <= k < |Tables(t, [])| <= 30 && GoodUpTo(Tables(t, []), k)
    ensures var l, b := Load(ImageOf(t)), Tables(t, [])[k];
            var a := Action(l, Hash(b.path), c);
            if !(0 <= c < |b.table.ent|) then a == 0
            else
              var e := b.table.ent[c];
              if e.proc.Some? then a > 0 && StringAt(l, a) == e.proc.value else a == if e.sub.Some? then -1 else 0
  {
    hide Ok, Tables, Node, GoodUpTo, Load, ImageOf, Hash, Packed, FirstKey, KeyCount, KeysOf, StringAt, OffsetWord;
    var ts := Tables(t, []);
    FindHolds(t, 0, k);
    NoKeys(ts);
    FileDict(t, k);
    TabIsNode(t, [], k);
    OutsideRange(ts[k].table, c);
    if 0 <= c < 128 && ts[k].table.min <= c <= ts[k].table.max {
      EntryWord(t, k, c);
    }
  }

  lemma OutsideRange(t: Table, c: int)
    requires Ok(t)
    ensures |t.ent| == 128 && t.max < 128 && t.min >= 0
    ensures 0 <= c < 128 && !(t.min <= c <= t.max) ==> t.ent[c] == NO_ENTRY
  {
  }

  lemma HashEmpty()
    ensures Hash([]) == 0
  {
  }

  lemma NothingIs(t: Table, c: int)
    requires 0 <= c < |t.ent|
    ensures t.ent[c] == NO_ENTRY <==> t.ent[c].proc.None? && t.ent[c].sub.None?
  {
  }

  /** One keystroke on the file does what the tree prescribes. */
  lemma StepAgrees(t: Table, k: int, c: int)
    requires Ok(t) && 0 <= k < |Tables(t, [])| <= 30 && GoodUpTo(Tables(t, []), k)
    ensures var l, p := Load(ImageOf(t)), Tables(t, [])[k].path;
            Step(l, Hash(p), c) == (SpecStep(t, p, c).0, Hash(SpecStep(t, p, c).1))
  {
    hide Ok, Tables, Node, GoodPath, Load, ImageOf, Hash, StringAt, Action, Emit, Wrap32;
    var b := Tables(t, [])[k];
    ActionAgrees(t, k, c);
    ListedNode(t, k);
    NodeKeys(t, b.path);
    EmitHash(b.path);
    HashAppend(b.path, c);
    if 0 <= c < |b.table.ent| {
      NothingIs(b.table, c);
    }
    HashEmpty();
  }

  // ----- whole runs -----

  /** The interpreter can tell the tables apart and give back their prefix keys. */
  ghost predicate Good(t: Table)
    requires Ok(t)
  {
    |Tables(t, [])| <= 30 && forall j :: 0 <= j < |Tables(t, [])| ==> GoodPath(Tables(t, [])[j].path)
  }

  predicate Keystrokes(keys: seq<int>) {
    forall i :: 0 <= i < |keys| ==> 0 <= keys[i] < 256
  }

  /** From the initial state on, the file makes the interpreter send what the
      tree prescribes, whatever is typed. */
  ghost predicate Agrees(t: Table)
    requires Ok(t)
  {
    forall keys :: Keystrokes(keys) ==> Run(Load(ImageOf(t)), 0, keys).0 == SpecRun(t, [], keys).0
  }

  /** The next path is that of a table again. */
  lemma SpecStaysInTree(t: Table, p: seq<int>, c: int)
    requires Ok(t) && Node(t, p).Some?
    ensures Node(t, SpecStep(t, p, c).1).Some?
  {
    NodeAppend(t, p, c);
  }

  lemma {:induction false} RunAgrees(t: Table, p: seq<int>, keys: seq<int>)
    requires Ok(t) && Good(t) && Node(t, p).Some?
    ensures Run(Load(ImageOf(t)), Hash(p), keys) == (SpecRun(t, p, keys).0, Hash(SpecRun(t, p, keys).1))
    decreases |keys|
  {
    hide Ok, Tables, Node, Load, ImageOf, Hash, Step, SpecStep;
    if keys != [] {
      var k := NodeIsTab(t, [], p);
      assert [] + p == p;
      StepAgrees(t, k, keys[0]);
      SpecStaysInTree(t, p, keys[0]);
      RunAgrees(t, SpecStep(t, p, keys[0]).1, keys[1..]);
    }
  }

  // ----- and when not -----

  /** The paths before that of table `k`, and typing the way to it. */
  lemma {:induction false} TypePath(t: Table, k: int)
    requires Ok(t) && !Overlaps(t) && 0 <= k < |Tables(t, [])| <= 30 && GoodUpTo(Tables(t, []), k - 1)
    ensures var l, p := Load(ImageOf(t)), Tables(t, [])[k].path;
            Run(l, 0, p) == ([], Hash(p)) && SpecRun(t, [], p) == ([], p)
    decreases k
  {
    hide Ok, Tables, Node, Load, ImageOf, Hash, Step, SpecStep, Overlaps, GoodPath;
    var l, p := Load(ImageOf(t)), Tables(t, [])[k].path;
    if k == 0 {
      HashEmpty();
    } else {
      var h := HolderFirst(t, [], k);
      var q, c := Tables(t, [])[h].path, p[|p| - 1];
      TypePath(t, h);
      assert p == q + [c];
      ListedNode(t, h);
      ListedNode(t, k);
      PrefixKey(t, q, c);
      StepAgrees(t, h, c);
      RunAppend(l, 0, q, [c]);
      SpecRunAppend(t, [], q, [c]);
      OneKey(t, l, q, c);
    }
  }

  /** A prefix key is kept and nothing is sent. */
  lemma PrefixKey(t: Table, q: seq<int>, c: int)
    requires Ok(t) && !Overlaps(t) && Node(t, q).Some? && Node(t, q + [c]).Some?
    ensures SpecStep(t, q, c) == ([], q + [c])
  {
    NodeAppend(t, q, c);
    NoOverlapBelow(t, q);
    NodeKeys(t, q);
  }

  lemma {:induction false} NoOverlapBelow(t: Table, p: seq<int>)
    requires Ok(t) && !Overlaps(t) && Node(t, p).Some?
    ensures !Overlaps(Node(t, p).value)
    decreases |p|
  {
    if p != [] {
      NoOverlapBelow(t.ent[p[0]].sub.value, p[1..]);
    }
  }

  lemma OneKey(t: Table, l: Loaded, p: seq<int>, c: int)
    ensures Run(l, Hash(p), [c]) == Step(l, Hash(p), c) && SpecRun(t, p, [c]) == SpecStep(t, p, c)
  {
    hide Step, SpecStep, Hash;
    assert [c][1..] == [];
    var (a, n) := Step(l, Hash(p), c);
    var (b, m) := SpecStep(t, p, c);
    assert a + [] == a && b + [] == b && Run(l, n, []) == ([], n) && SpecRun(t, m, []) == ([], m);
  }

  /** A key no table lists sends the prefix keys as far as they can be given back. */
  lemma UnlistedKey(t: Table, state: int, c: int)
    requires Ok(t) && c >= 128
    ensures Step(Load(ImageOf(t)), state, c) == (Emit(state) + [c], 0)
  {
    hide Ok, Tables, Load, ImageOf, Emit, OffsetWord, StringAt;
    FindIsListed(t, state, 0, 0);
    match Find(Load(ImageOf(t)), state, 0, 0)
    case None =>
    case Some((j, offset)) =>
      FileDict(t, j);
      ListedNode(t, j);
      OutsideRange(Tables(t, [])[j].table, 0);
  }

  lemma {:induction false} FindIsListed(t: Table, state: int, j: int, offset: int)
    requires Ok(t) && j >= 0
    ensures var f := Find(Load(ImageOf(t)), state, j, offset); f.Some? ==> 0 <= f.value.0 < |Tables(t, [])|
    decreases Load(ImageOf(t)).length - j
  {
    hide Ok, Tables, Load, ImageOf;
    FileDict(t, 0);
    if j < Load(ImageOf(t)).length && Packed(Load(ImageOf(t)), j) != state {
      FindIsListed(t, state, j + 1, offset + KeyCount(Load(ImageOf(t)), j));
    }
  }

  /** Typing the way to the first table with a bad path, and then a key that
      nothing is bound to. */
  lemma BadPathShows(t: Table, k: int)
    requires Ok(t) && !Overlaps(t) && 0 <= k < |Tables(t, [])| <= 30 && GoodUpTo(Tables(t, []), k - 1)
    requires !GoodPath(Tables(t, [])[k].path)
    ensures !Agrees(t)
  {
    hide Ok, Tables, Node, Load, ImageOf, Hash, Step, Overlaps, GoodPath, Emit;
    var l, p := Load(ImageOf(t)), Tables(t, [])[k].path;
    TypePath(t, k);
    RunAppend(l, 0, p, [200]);
    SpecRunAppend(t, [], p, [200]);
    OneKey(t, l, p, 200);
    UnlistedKey(t, Hash(p), 200);
    EmitIsGood(Hash(p));
    ListedNode(t, k);
    NodeKeys(t, p);
    OutsideRange(Tables(t, [])[k].table, 0);
    var e := Emit(Hash(p));
    assert (e + [200])[..|e + [200]| - 1] == e && (p + [200])[..|p + [200]| - 1] == p;
    assert [] + (e + [200]) == e + [200] && [] + (p + [200]) == p + [200];
    assert Keystrokes(p + [200]);
    assert Run(l, 0, p + [200]).0 != SpecRun(t, [], p + [200]).0;
  }

  /** More than thirty tables: even a single prefix key is passed on. */
  lemma TooManyShow(t: Table)
    requires Ok(t) && !Overlaps(t) && |Tables(t, [])| > 30
    ensures !Agrees(t)
  {
    hide Ok, Tables, Node, Load, ImageOf, Step, Overlaps, Hash, Emit, Run, SpecRun, SpecStep;
    var l := Load(ImageOf(t));
    var c := SecondPath(t);
    RootIsNode(t);
    PrefixKey(t, [], c);
    FileDict(t, 0);
    BogusStep(l, 0, c);
    HashEmpty();
    OneKey(t, l, [], c);
    assert Keystrokes([c]);
    assert |Run(l, 0, [c]).0| > |SpecRun(t, [], [c]).0|;
  }

  /** The second table belongs to a key of the first. */
  lemma SecondPath(t: Table) returns (c: int)
    requires Ok(t) && |Tables(t, [])| > 1
    ensures 0 <= c < 128 && Node(t, [] + [c]).Some?
  {
    hide Ok, Tables, Node;
    var h := HolderFirst(t, [], 1);
    var p := Tables(t, [])[1].path;
    c := p[0];
    assert p == [] + [c];
    ListedNode(t, 1);
    NodeKeys(t, p);
  }

  lemma RootIsNode(t: Table)
    ensures Node(t, []) == Some(t)
  {
  }

  /** With a file it took for bogus the interpreter knows no table. */
  lemma BogusStep(l: Loaded, state: int, c: int)
    requires l.length == 0
    ensures Step(l, state, c) == (Emit(state) + [c], 0)
  {
  }

  /** The compiler preserves the meaning of a key map it accepts exactly when
      there are at most thirty tables and every sequence of prefix keys consists
      of at most four keys, none of them NUL. */
  lemma MeaningPreserved(t: Table)
    requires Ok(t) && !Overlaps(t)
    ensures Agrees(t) <==> Good(t)
  {
    hide Ok, Tables, Node, Load, ImageOf, Step, Overlaps, Hash, GoodPath;
    RootIsNode(t);
    HashEmpty();
    if Good(t) {
      forall keys | Keystrokes(keys) ensures Run(Load(ImageOf(t)), 0, keys).0 == SpecRun(t, [], keys).0 {
        RunAgrees(t, [], keys);
      }
    } else if |Tables(t, [])| > 30 {
      TooManyShow(t);
    } else {
      var k := FirstBad(Tables(t, []));
      BadPathShows(t, k);
    }
  }

  lemma FirstBad(ts: seq<Tab>) returns (k: int)
    requires exists j :: 0 <= j < |ts| && !GoodPath(ts[j].path)
    ensures 0 <= k < |ts| && !GoodPath(ts[k].path) && GoodUpTo(ts, k - 1)
  {
    hide GoodPath;
    k := 0;
    while GoodPath(ts[k].path)
      invariant 0 <= k < |ts| && GoodUpTo(ts, k - 1)
      decreases |ts| - k
    {
      k := k + 1;
    }
  }

  // ----- what the tree prescribes for a typed text -----

  /** A sequence of keys that the key map neither binds nor holds as the
      beginning of a bound one, all its proper prefixes being such beginnings. */
  ghost predicate Dead(t: Table, k: seq<int>)
    requires |t.ent| == 128
  {
    && k != [] && Node(t, k[..|k| - 1]).Some?
    && Node(t, k).None? && Bound(t, k).None?
  }

  /** What one piece of text stands for. */
  ghost function Meaning(t: Table, k: seq<int>): seq<int>
    requires |t.ent| == 128
  {
    if Bound(t, k).Some? then Bound(t, k).value else k
  }

  function Flatten(text: seq<seq<int>>): seq<int> {
    if text == [] then [] else text[0] + Flatten(text[1..])
  }

  ghost function Meanings(t: Table, text: seq<seq<int>>): seq<int>
    requires |t.ent| == 128
  {
    if text == [] then [] else Meaning(t, text[0]) + Meanings(t, text[1..])
  }

  lemma {:induction false} BoundAtNode(t: Table, p: seq<int>, c: int)
    requires Ok(t) && Node(t, p).Some?
    ensures |Node(t, p).value.ent| == 128
    ensures Bound(t, p + [c]) == if 0 <= c < 128 then Node(t, p).value.ent[c].proc else None
    decreases |p|
  {
    if p != [] {
      assert (p + [c])[1..] == p[1..] + [c];
      BoundAtNode(t.ent[p[0]].sub.value, p[1..], c);
    }
  }

  lemma {:induction false} BoundHasNode(t: Table, k: seq<int>)
    requires Ok(t) && Bound(t, k).Some?
    ensures k != [] && Node(t, k[..|k| - 1]).Some?
    decreases |k|
  {
    if |k| > 1 {
      BoundHasNode(t.ent[k[0]].sub.value, k[1..]);
      assert k[1..][..|k[1..]| - 1] == k[..|k| - 1][1..];
    }
  }

  lemma {:induction false} WaysAreQuiet(t: Table, p: seq<int>)
    requires Ok(t) && !Overlaps(t) && Node(t, p).Some?
    ensures SpecRun(t, [], p) == ([], p)
    decreases |p|
  {
    hide Ok, SpecStep, Overlaps, Node;
    if p != [] {
      var q, c := p[..|p| - 1], p[|p| - 1];
      assert p == q + [c];
      NodePrefix(t, q, c);
      WaysAreQuiet(t, q);
      PrefixKey(t, q, c);
      SpecRunAppend(t, [], q, [c]);
      OneKey(t, Loaded(Image([], []), 0), q, c);
    }
  }

  lemma {:induction false} NodePrefix(t: Table, q: seq<int>, c: int)
    requires Node(t, q + [c]).Some?
    ensures Node(t, q).Some?
    decreases |q|
  {
    if q != [] {
      assert (q + [c])[1..] == q[1..] + [c];
      NodePrefix(t.ent[q[0]].sub.value, q[1..], c);
    }
  }

  /** A bound sequence gives its string, a dead one passes through unchanged,
      and either leaves the key state as it was. */
  lemma PieceRuns(t: Table, k: seq<int>)
    requires Ok(t) && !Overlaps(t) && (Bound(t, k).Some? || Dead(t, k))
    ensures SpecRun(t, [], k) == (Meaning(t, k), [])
  {
    hide Ok, Overlaps, Node, Bound;
    OkParts(t);
    if Bound(t, k).Some? {
      BoundHasNode(t, k);
    }
    var p, c := k[..|k| - 1], k[|k| - 1];
    assert k == p + [c];
    BoundAtNode(t, p, c);
    NodeAppend(t, p, c);
    WaysAreQuiet(t, p);
    SpecRunAppend(t, [], p, [c]);
    OneKey(t, Loaded(Image([], []), 0), p, c);
    var out := SpecStep(t, p, c).0;
    assert [] + out == out;
  }

  /** A text made of bound and dead sequences is translated piece by piece. */
  lemma {:induction false} TextRuns(t: Table, text: seq<seq<int>>)
    requires Ok(t) && !Overlaps(t)
    requires forall i :: 0 <= i < |text| ==> Bound(t, text[i]).Some? || Dead(t, text[i])
    ensures SpecRun(t, [], Flatten(text)) == (Meanings(t, text), [])
    decreases |text|
  {
    hide Ok, Overlaps, Node, Bound, SpecStep, Meaning, Dead;
    OkParts(t);
    if text != [] {
      PieceRuns(t, text[0]);
      TextRuns(t, text[1..]);
      SpecRunAppend(t, [], text[0], Flatten(text[1..]));
    }
  }

  /** At most four prefix keys lead to a table, none of them NUL. */
  ghost predicate GoodTables(ts: seq<Tab>) {
    forall j :: 0 <= j < |ts| ==> GoodPath(ts[j].path)
  }

  /** The same of the bound sequences, without their last key. */
  ghost predicate GoodKeys(t: Table)
    requires |t.ent| == 128
  {
    forall k :: Bound(t, k).Some? && k != [] ==> GoodPath(k[..|k| - 1])
  }

  /** The condition on the tables in terms of the bindings: no bound sequence has
      more than four prefix keys, or NUL among them. */
  lemma GoodBindings(t: Table)
    requires Ok(t)
    ensures |t.ent| == 128 && (GoodTables(Tables(t, [])) <==> GoodKeys(t))
  {
    hide Ok, Tables, Node, Bound, GoodPath, GoodKeys;
    OkParts(t);
    if GoodTables(Tables(t, [])) {
      GoodTablesBind(t);
    }
    if GoodKeys(t) {
      forall j | 0 <= j < |Tables(t, [])| ensures GoodPath(Tables(t, [])[j].path) {
        PathOfBinding(t, j);
      }
    }
  }

  lemma GoodTablesBind(t: Table)
    requires Ok(t) && |t.ent| == 128 && GoodTables(Tables(t, []))
    ensures GoodKeys(t)
  {
    hide Ok, Tables, Node, Bound, GoodPath;
    forall k | Bound(t, k).Some? && k != [] ensures GoodPath(k[..|k| - 1]) {
      BoundHasNode(t, k);
      var j := NodeIsTab(t, [], k[..|k| - 1]);
      assert [] + k[..|k| - 1] == k[..|k| - 1];
    }
  }

  lemma PathOfBinding(t: Table, j: int)
    requires Ok(t) && 0 <= j < |Tables(t, [])| && |t.ent| == 128 && GoodKeys(t)
    ensures GoodPath(Tables(t, [])[j].path)
  {
    hide Ok, Tables, Node, Bound, GoodPath;
    OkParts(t);
    ListedNode(t, j);
    TabIsNode(t, [], j);
    var b := Tables(t, [])[j];
    if b.path == [] {
      EmptyPathIsGood();
    } else {
      NotRoot(t, j);
      var rest := SomethingBound(b.table);
      BoundBelow(t, b.path, rest);
      var k := b.path + rest;
      GoodStart(b.path, k[..|k| - 1]);
    }
  }

  lemma EmptyPathIsGood()
    ensures GoodPath([])
  {
  }

  lemma GoodStart(p: seq<int>, q: seq<int>)
    requires p <= q && GoodPath(q)
    ensures GoodPath(p)
  {
  }

  lemma NotRoot(t: Table, j: int)
    requires Ok(t) && 0 <= j < |Tables(t, [])| && Tables(t, [])[j].path != []
    ensures j > 0
  {
  }

  lemma {:induction false} BoundBelow(t: Table, p: seq<int>, k: seq<int>)
    requires Ok(t) && Node(t, p).Some? && k != [] && Ok(Node(t, p).value)
    ensures Bound(t, p + k) == Bound(Node(t, p).value, k)
    decreases |p|
  {
    if p == [] {
      assert p + k == k;
    } else {
      assert (p + k)[1..] == p[1..] + k;
      BoundBelow(t.ent[p[0]].sub.value, p[1..], k);
    }
  }
}
