/** The key map compiler: a tree of tables becomes one flat file. The file is a
    sequence of four-byte words followed by a sequence of characters. */
module KeymapCompiler {
  import opened CInt
  import opened KeyTrie
  import opened Optional

  // ----- the tables in the order in which they are written -----

  /** A table together with the prefix keys that lead to it. */
  datatype Tab = Tab(path: seq<int>, table: Table)

  function Tables(t: Table, path: seq<int>): (s: seq<Tab>)
    requires Ok(t)
    ensures |s| >= 1 && s[0] == Tab(path, t)
    decreases t, 130
  {
    [Tab(path, t)] + SubTables(t, path, t.min)
  }

  function SubTables(t: Table, path: seq<int>, i: int): seq<Tab>
    requires Ok(t) && i >= 0
    decreases t, if i < 129 then 129 - i else 0
  {
    if i > t.max then []
    else (if t.ent[i].sub.Some? then Tables(t.ent[i].sub.value, path + [i]) else []) + SubTables(t, path, i + 1)
  }

  function Hash(path: seq<int>): int {
    if path == [] then 0 else Wrap32(Hash(path[..|path| - 1]) * 256 + path[|path| - 1])
  }

  function NumberOfKeys(t: Table): int {
    t.max - t.min + 1
  }

  // ----- the three parts of the file -----

  function DictOf(ts: seq<Tab>): seq<int> {
    if ts == [] then []
    else [Hash(ts[0].path), ts[0].table.min, NumberOfKeys(ts[0].table)] + DictOf(ts[1..])
  }

  /** The characters of a table's strings from entry `i` on, each with its NUL. */
  function StringsFrom(t: Table, i: int): seq<int>
    requires |t.ent| == 128 && t.max < 128 && i >= 0
    decreases t.max - i
  {
    if i > t.max then [] else (if t.ent[i].proc.Some? then t.ent[i].proc.value + [0] else []) + StringsFrom(t, i + 1)
  }

  /** The offsets of a table from entry `i` on, the next string starting at `off`. */
  function RowFrom(t: Table, i: int, off: int): seq<int>
    requires |t.ent| == 128 && t.max < 128 && i >= 0
    decreases t.max - i
  {
    if i > t.max then []
    else
      var e := t.ent[i];
      if e.proc.Some? then [off] + RowFrom(t, i + 1, off + |e.proc.value| + 1)
      else [if e.sub.Some? then -1 else 0] + RowFrom(t, i + 1, off)
  }

  predicate AllOk(ts: seq<Tab>) {
    forall i :: 0 <= i < |ts| ==> Ok(ts[i].table)
  }

  function TabStrings(b: Tab): seq<int>
    requires Ok(b.table)
  {
    StringsFrom(b.table, b.table.min)
  }

  function TabRow(b: Tab, off: int): seq<int>
    requires Ok(b.table)
  {
    RowFrom(b.table, b.table.min, off)
  }

  function StringsOf(ts: seq<Tab>): seq<int>
    requires AllOk(ts)
  {
    if ts == [] then [] else TabStrings(ts[0]) + StringsOf(Rest(ts))
  }

  function RowsOf(ts: seq<Tab>, off: int): seq<int>
    requires AllOk(ts)
    decreases |ts|
  {
    if ts == [] then []
    else TabRow(ts[0], off) + RowsOf(Rest(ts), off + |TabStrings(ts[0])|)
  }

  function Rest(ts: seq<Tab>): (r: seq<Tab>)
    requires ts != []
    ensures |r| == |ts| - 1 && (AllOk(ts) ==> AllOk(r))
  {
    assert forall i :: 0 <= i < |ts| - 1 ==> ts[1..][i] == ts[i + 1];
    ts[1..]
  }

  function KeysOf(ts: seq<Tab>): int {
    if ts == [] then 0 else NumberOfKeys(ts[0].table) + KeysOf(ts[1..])
  }

  lemma {:induction false} TablesOk(t: Table, path: seq<int>)
    requires Ok(t)
    ensures AllOk(Tables(t, path))
    decreases t, 130
  {
    SubTablesOk(t, path, t.min);
  }

  lemma {:induction false} SubTablesOk(t: Table, path: seq<int>, i: int)
    requires Ok(t) && i >= 0
    ensures AllOk(SubTables(t, path, i))
    decreases t, if i < 129 then 129 - i else 0
  {
    if i <= t.max {
      SubTablesOk(t, path, i + 1);
      if t.ent[i].sub.Some? {
        TablesOk(t.ent[i].sub.value, path + [i]);
      }
    }
  }

  lemma Assoc(a: seq<int>, b: seq<int>, c: seq<int>)
    ensures (a + b) + c == a + (b + c)
  {
  }

  lemma RestAppend(a: seq<Tab>, b: seq<Tab>)
    requires a != []
    ensures Rest(a + b) == Rest(a) + b && (a + b)[0] == a[0]
  {
  }

  lemma AppendOk(a: seq<Tab>, b: seq<Tab>)
    requires AllOk(a) && AllOk(b)
    ensures AllOk(a + b)
  {
  }

  lemma {:induction false} DictAppend(a: seq<Tab>, b: seq<Tab>)
    ensures DictOf(a + b) == DictOf(a) + DictOf(b) && KeysOf(a + b) == KeysOf(a) + KeysOf(b)
  {
    hide Hash;
    if a == [] {
      assert a + b == b;
    } else {
      assert (a + b)[1..] == a[1..] + b;
      DictAppend(a[1..], b);
    }
  }

  lemma {:induction false} StringsAppend(a: seq<Tab>, b: seq<Tab>)
    requires AllOk(a) && AllOk(b)
    ensures AllOk(a + b) && StringsOf(a + b) == StringsOf(a) + StringsOf(b)
    decreases |a|
  {
    hide Ok, TabStrings;
    AppendOk(a, b);
    if a == [] {
      assert a + b == b;
    } else {
      RestAppend(a, b);
      StringsAppend(Rest(a), b);
      Assoc(TabStrings(a[0]), StringsOf(Rest(a)), StringsOf(b));
    }
  }

  lemma StringsLength(a: seq<Tab>)
    requires AllOk(a)
    ensures |StringsOf(a)| == if a == [] then 0 else |TabStrings(a[0])| + |StringsOf(Rest(a))|
  {
  }

  lemma {:induction false} RowsAppend(a: seq<Tab>, b: seq<Tab>, off: int)
    requires AllOk(a) && AllOk(b)
    ensures AllOk(a + b) && RowsOf(a + b, off) == RowsOf(a, off) + RowsOf(b, off + |StringsOf(a)|)
    decreases |a|
  {
    hide Ok, TabStrings, TabRow, StringsOf;
    AppendOk(a, b);
    StringsLength(a);
    if a == [] {
      assert a + b == b;
    } else {
      RestAppend(a, b);
      var off' := off + |TabStrings(a[0])|;
      RowsAppend(Rest(a), b, off');
      Assoc(TabRow(a[0], off), RowsOf(Rest(a), off'), RowsOf(b, off' + |StringsOf(Rest(a))|));
    }
  }

  lemma OkParts(t: Table)
    requires Ok(t)
    ensures |t.ent| == 128 && 0 <= t.min && t.max < 128
    ensures forall i :: 0 <= i < 128 && t.ent[i].sub.Some? ==> Ok(t.ent[i].sub.value)
  {
  }

  /** The part that entry `i` contributes to the tables below `k`. */
  function Below(k: Table, path: seq<int>, i: int): (s: seq<Tab>)
    requires Ok(k) && 0 <= i <= k.max
    ensures AllOk(s)
  {
    if k.ent[i].sub.Some? then
      TablesOk(k.ent[i].sub.value, path + [i]);
      Tables(k.ent[i].sub.value, path + [i])
    else []
  }

  lemma SubStep(k: Table, path: seq<int>, i: int, off: int)
    requires Ok(k) && 0 <= i <= k.max
    ensures var b, r, s := Below(k, path, i), SubTables(k, path, i + 1), SubTables(k, path, i);
            && AllOk(r) && AllOk(s) && s == b + r
            && DictOf(s) == DictOf(b) + DictOf(r) && KeysOf(s) == KeysOf(b) + KeysOf(r)
            && StringsOf(s) == StringsOf(b) + StringsOf(r)
               && RowsOf(s, off) == RowsOf(b, off) + RowsOf(r, off + |StringsOf(b)|)
  {
    var b, r := Below(k, path, i), SubTables(k, path, i + 1);
    SubTablesIs(k, path, i);
    SubTablesOk(k, path, i + 1);
    hide *;
    DictAppend(b, r);
    StringsAppend(b, r);
    RowsAppend(b, r, off);
  }

  lemma SubTablesIs(k: Table, path: seq<int>, i: int)
    requires Ok(k) && 0 <= i <= k.max
    ensures SubTables(k, path, i) == Below(k, path, i) + SubTables(k, path, i + 1)
  {
  }

  lemma TopStep(k: Table, path: seq<int>, off: int)
    requires Ok(k)
    ensures var r, s := SubTables(k, path, k.min), Tables(k, path);
            && AllOk(r) && AllOk(s)
            && DictOf(s) == [Hash(path), k.min, NumberOfKeys(k)] + DictOf(r) && KeysOf(s) == NumberOfKeys(k) + KeysOf(r)
            && StringsOf(s) == StringsFrom(k, k.min) + StringsOf(r)
            && RowsOf(s, off) == RowFrom(k, k.min, off) + RowsOf(r, off + |StringsFrom(k, k.min)|)
  {
    hide Ok, RowFrom, StringsFrom, Hash, SubTables;
    OkParts(k);
    TablesOk(k, path);
    SubTablesOk(k, path, k.min);
    assert Rest(Tables(k, path)) == SubTables(k, path, k.min);
    assert Tables(k, path)[1..] == SubTables(k, path, k.min);
  }

  /** The flat file. */
  datatype Image = Image(words: seq<int>, chars: seq<int>)

  /** Where the strings start, in bytes, as the compiler reckons it. */
  function StringBase(ts: seq<Tab>): int {
    KeysOf(ts) * 4 + |ts| * 12 + 4
  }

  function ImageOf(t: Table): Image
    requires Ok(t)
  {
    TablesOk(t, []);
    var ts := Tables(t, []);
    Image([|ts|] + DictOf(ts) + RowsOf(ts, StringBase(ts)), StringsOf(ts))
  }

  // ----- the steps of the loops -----

  lemma SubTablesDone(k: Table, path: seq<int>, i: int, off: int)
    requires Ok(k) && i >= 0 && i > k.max
    ensures SubTables(k, path, i) == [] && DictOf([]) == [] && KeysOf([]) == 0
    ensures StringsOf([]) == [] && RowsOf([], off) == []
  {
  }

  lemma BelowIs(k: Table, path: seq<int>, i: int)
    requires Ok(k) && 0 <= i <= k.max
    ensures i < |k.ent|
    ensures k.ent[i].sub.Some? ==> Ok(k.ent[i].sub.value) && Below(k, path, i) == Tables(k.ent[i].sub.value, path + [i])
    ensures k.ent[i].sub.None? ==> var b := Below(k, path, i); b == [] && DictOf(b) == [] && KeysOf(b) == 0
    ensures k.ent[i].sub.None? ==> SubTables(k, path, i) == SubTables(k, path, i + 1)
  {
  }

  /** What entry `i` adds to the rows that have been written. */
  lemma RowsStep(k: Table, path: seq<int>, i: int, ws: seq<int>, off: int)
    requires Ok(k) && 0 <= i <= k.max
    ensures i < |k.ent| && AllOk(SubTables(k, path, i)) && AllOk(SubTables(k, path, i + 1))
    ensures k.ent[i].sub.Some? ==>
              var t := k.ent[i].sub.value;
              && Ok(t) && AllOk(Tables(t, path + [i]))
              && var ss := StringsOf(Tables(t, path + [i]));
                 && ws + RowsOf(SubTables(k, path, i), off)
                    == (ws + RowsOf(Tables(t, path + [i]), off)) + RowsOf(SubTables(k, path, i + 1), off + |ss|)
                 && |StringsOf(SubTables(k, path, i))| == |ss| + |StringsOf(SubTables(k, path, i + 1))|
    ensures k.ent[i].sub.None? ==> SubTables(k, path, i) == SubTables(k, path, i + 1)
  {
    hide Ok, AllOk, Tables, RowsOf, StringsOf, Below;
    OkParts(k);
    SubStep(k, path, i, off);
    BelowIs(k, path, i);
    Assoc(ws, RowsOf(Below(k, path, i), off), RowsOf(SubTables(k, path, i + 1), off + |StringsOf(Below(k, path, i))|));
  }

  /** What one entry adds to a table's row. */
  lemma EntryStep(k: Table, i: int, ws: seq<int>, off: int)
    requires |k.ent| == 128 && 0 <= i <= k.max < 128
    ensures var e := k.ent[i];
            var next := if e.proc.Some? then off + |e.proc.value| + 1 else off;
            && off + |StringsFrom(k, i)| == next + |StringsFrom(k, i + 1)|
            && ws + RowFrom(k, i, off)
               == (ws + [if e.proc.Some? then off else if e.sub.Some? then -1 else 0]) + RowFrom(k, i + 1, next)
  {
  }

  lemma RowDone(k: Table, i: int, off: int)
    requires |k.ent| == 128 && k.max < 128 && i >= 0 && i > k.max
    ensures RowFrom(k, i, off) == [] && StringsFrom(k, i) == []
  {
  }

  /** What entry `i` adds to the strings that have been written. */
  lemma StringsStep(k: Table, path: seq<int>, i: int, cs: seq<int>)
    requires Ok(k) && 0 <= i <= k.max
    ensures i < |k.ent| && AllOk(SubTables(k, path, i)) && AllOk(SubTables(k, path, i + 1))
    ensures k.ent[i].sub.Some? ==>
              var t := k.ent[i].sub.value;
              && Ok(t) && AllOk(Tables(t, path + [i]))
              && cs + StringsOf(SubTables(k, path, i))
                 == (cs + StringsOf(Tables(t, path + [i]))) + StringsOf(SubTables(k, path, i + 1))
    ensures k.ent[i].sub.None? ==> SubTables(k, path, i) == SubTables(k, path, i + 1)
  {
    hide Ok, AllOk, Tables, StringsOf, Below;
    OkParts(k);
    SubStep(k, path, i, 0);
    BelowIs(k, path, i);
    Assoc(cs, StringsOf(Below(k, path, i)), StringsOf(SubTables(k, path, i + 1)));
  }

  lemma OverlapsOne(k: Table)
    requires Ok(k)
    ensures Overlaps(k) <==> exists i :: k.min <= i <= k.max && k.ent[i].sub.Some?
                               && (k.ent[i].proc.Some? || Overlaps(k.ent[i].sub.value))
  {
  }

  /** What entry `i` adds to the dictionary entries that have been written. */
  lemma DictStep(k: Table, path: seq<int>, i: int, ws: seq<int>)
    requires Ok(k) && 0 <= i <= k.max
    ensures i < |k.ent|
    ensures k.ent[i].sub.Some? ==>
              var t := k.ent[i].sub.value;
              && Ok(t)
              && ws + DictOf(SubTables(k, path, i)) == (ws + DictOf(Tables(t, path + [i])))
                 + DictOf(SubTables(k, path, i + 1))
    ensures k.ent[i].sub.None? ==> SubTables(k, path, i) == SubTables(k, path, i + 1)
  {
    hide Ok, Tables, DictOf, Below;
    SubStep(k, path, i, 0);
    BelowIs(k, path, i);
    Assoc(ws, DictOf(Below(k, path, i)), DictOf(SubTables(k, path, i + 1)));
  }

  /** What entry `i` adds to the two counts. */
  lemma CountStep(k: Table, path: seq<int>, i: int)
    requires Ok(k) && 0 <= i <= k.max
    ensures i < |k.ent|
    ensures k.ent[i].sub.Some? ==>
              var t := k.ent[i].sub.value;
              && Ok(t)
              && |SubTables(k, path, i)| == |Tables(t, path + [i])| + |SubTables(k, path, i + 1)|
              && KeysOf(SubTables(k, path, i)) == KeysOf(Tables(t, path + [i])) + KeysOf(SubTables(k, path, i + 1))
    ensures k.ent[i].sub.None? ==> SubTables(k, path, i) == SubTables(k, path, i + 1)
  {
    hide Ok, Tables, KeysOf, Below;
    SubStep(k, path, i, 0);
    BelowIs(k, path, i);
  }

  lemma NameStep(t: Table, i: int, cs: seq<int>)
    requires |t.ent| == 128 && 0 <= i <= t.max < 128
    ensures cs + StringsFrom(t, i)
            == (if t.ent[i].proc.Some? then cs + (t.ent[i].proc.value + [0]) else cs) + StringsFrom(t, i + 1)
  {
  }
}
