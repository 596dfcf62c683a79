/** The key map compiler at work on the linked tables. */
module KeymapWriter {
  import CInt
  import opened KeyTrie
  import opened KeymapCompiler
  import opened KeymapTheorem
  import opened KeymapTree
  import opened Optional

  // ----- the walk along the parent links -----

  /** The table that a sequence of prefix keys leads to. */
  ghost function Walk(h: Memory, k: Keymap?, path: seq<int>): Keymap?
    decreases |path|
  {
    if path == [] || k == null || k !in h then k
    else if 0 <= path[0] < |h[k].sub| then Walk(h, h[k].sub[path[0]], path[1..])
    else null
  }

  lemma {:induction false} WalkBack(h: Memory, bound: int, k: Keymap, path: seq<int>)
    requires Linked(h, bound) && k in h && path != [] && Walk(h, k, path) != null
    ensures var p, x, c := Walk(h, k, path[..|path| - 1]), Walk(h, k, path), path[|path| - 1];
            p != null && p in h && x in h && h[x].parent == p && h[x].slot == c
    decreases |path|
  {
    var s := h[k].sub[path[0]];
    assert s != null;
    assert IsBelow(h, k, path[0]);
    if |path| > 1 {
      assert path[1..][..|path| - 2] == path[..|path| - 1][1..];
      WalkBack(h, bound, s, path[1..]);
    }
  }

  /** What is reached means the table that the prefix keys lead to. */
  lemma {:induction false} WalkIsNode(h: Memory, bound: int, k: Keymap, path: seq<int>)
    requires Linked(h, bound) && k in h
    ensures var x := Walk(h, k, path);
            if x == null then Node(Model(h, bound, k), path) == None
            else x in h && Node(Model(h, bound, k), path) == Some(Model(h, bound, x))
    decreases |path|
  {
    if path != [] && 0 <= path[0] < 128 && h[k].sub[path[0]] != null {
      assert IsBelow(h, k, path[0]);
      WalkIsNode(h, bound, h[k].sub[path[0]], path[1..]);
    }
  }

  lemma OnTheWay(b: Bindings, k: Keymap, path: seq<int>)
    requires b.Placed() && Walk(b.Now(), b.root, path) == k
    ensures k in b.nodes && (k.parent == null <==> path == [])
    ensures path != [] ==> k.parent in b.nodes && Walk(b.Now(), b.root, path[..|path| - 1]) == k.parent
                           && k.slot == path[|path| - 1]
    ensures path == [] ==> Hash(path) == 0
  {
    WalkIsNode(b.Now(), b.bound, b.root, path);
    if path != [] {
      WalkBack(b.Now(), b.bound, b.root, path);
    }
  }

  /** Packs the prefix keys that lead to a table. */
  function Hashcode(k: Keymap?, ghost b: Bindings, ghost path: seq<int>): (c: int)
    requires b.Placed() && (k != null ==> Walk(b.Now(), b.root, path) == k)
    reads b, b.nodes
    ensures k != null ==> c == Hash(path)
    decreases |path|
  {
    if k == null then 0
    else
      OnTheWay(b, k, path);
      assert k in b.nodes;
      if k.parent == null then 0
      else CInt.Wrap32(Hashcode(k.parent, b, path[..|path| - 1]) * 256 + k.slot)
  }

  // ----- the compiler -----

  /** `k` is the linked table that the keys `path` lead to, and means `t`. */
  ghost predicate At(b: Bindings, k: Keymap, path: seq<int>, t: Table)
    reads b, b.nodes
  {
    b.Placed() && Walk(b.Now(), b.root, path) == k && Node(b.Value(), path) == Some(t) && Ok(t)
  }

  lemma FieldsAt(b: Bindings, k: Keymap, path: seq<int>, t: Table)
    requires At(b, k, path, t)
    ensures b.Placed() && Walk(b.Now(), b.root, path) == k && Ok(t) && (path == [] ==> b.Value() == t)
    ensures k in b.nodes && k.min == t.min && k.max == t.max && 0 <= t.min && t.max < 128
    ensures |k.subent| == |k.proc| == |t.ent| == 128 && t == Model(b.Now(), b.bound, k)
  {
    WalkIsNode(b.Now(), b.bound, b.root, path);
    assert |b.Now()[k].sub| == 128;
  }

  lemma EntryAt(b: Bindings, k: Keymap, path: seq<int>, t: Table, i: int)
    requires At(b, k, path, t) && 0 <= i <= t.max
    ensures i < |k.subent| && i < |k.proc| && i < |t.ent| && k.proc[i] == t.ent[i].proc
    ensures k.subent[i] != null <==> t.ent[i].sub.Some?
    ensures k.subent[i] != null ==> At(b, k.subent[i], path + [i], t.ent[i].sub.value)
  {
    FieldsAt(b, k, path, t);
    NodeAppend(b.Value(), path, i);
    WalkAppend(b.Now(), b.root, path, i);
  }

  lemma {:induction false} WalkAppend(h: Memory, k: Keymap?, path: seq<int>, c: int)
    requires var x := Walk(h, k, path); x != null && x in h && 0 <= c < |h[x].sub|
    ensures Walk(h, k, path + [c]) == h[Walk(h, k, path)].sub[c]
    decreases |path|
  {
    if path == [] {
      assert (path + [c])[1..] == [];
    } else {
      assert (path + [c])[1..] == path[1..] + [c];
      if k in h {
        WalkAppend(h, h[k].sub[path[0]], path[1..], c);
      }
    }
  }

  /** The globals that the compiler writes. The ghost parameters say which table
      is meant. */
  class Compiler {
    var words: seq<int>
    var chars: seq<int>
    var stringOffset: int

    constructor ()
      ensures words == [] && chars == []
    {
      words, chars, stringOffset := [], [], 0;
    }

    method DictSize(k: Keymap, ghost b: Bindings, ghost path: seq<int>, ghost t: Table) returns (n: int)
      requires At(b, k, path, t)
      ensures n == |Tables(t, path)|
      decreases t
    {
      hide Ok, KeysOf, SubTables, Linked, Model, Walk, Node;
      FieldsAt(b, k, path, t);
      hide At;
      n := 1;
      var i := k.min;
      while i <= k.max
        invariant i >= 0 && n + |SubTables(t, path, i)| == |Tables(t, path)|
        decreases k.max - i
      {
        CountStep(t, path, i);
        EntryAt(b, k, path, t, i);
        if k.subent[i] != null {
          var below := DictSize(k.subent[i], b, path + [i], t.ent[i].sub.value);
          n := n + below;
        }
        i := i + 1;
      }
      SubTablesDone(t, path, i, 0);
    }

    method OffsetTableSize(k: Keymap, ghost b: Bindings, ghost path: seq<int>, ghost t: Table) returns (n: int)
      requires At(b, k, path, t)
      ensures n == KeysOf(Tables(t, path))
      decreases t
    {
      hide Ok, KeysOf, Tables, SubTables, Linked, Model, Walk, Node;
      FieldsAt(b, k, path, t);
      TopStep(t, path, 0);
      hide At;
      n := k.max - k.min + 1;
      var i := k.min;
      while i <= k.max
        invariant i >= 0 && n + KeysOf(SubTables(t, path, i)) == KeysOf(Tables(t, path))
        decreases k.max - i
      {
        CountStep(t, path, i);
        EntryAt(b, k, path, t, i);
        if k.subent[i] != null {
          var below := OffsetTableSize(k.subent[i], b, path + [i], t.ent[i].sub.value);
          n := n + below;
        }
        i := i + 1;
      }
      SubTablesDone(t, path, i, 0);
    }

    method DumpDict(k: Keymap, ghost b: Bindings, ghost path: seq<int>, ghost t: Table)
      requires At(b, k, path, t)
      modifies this`words
      ensures At(b, k, path, t) && words == old(words) + DictOf(Tables(t, path))
      decreases t
    {
      hide Ok, Tables, SubTables, Hash, DictOf, Linked, Model, Walk, Node;
      TopStep(t, path, 0);
      FieldsAt(b, k, path, t);
      var code := Hashcode(k, b, path);
      hide At;
      Assoc(words, [Hash(path), t.min, NumberOfKeys(t)], DictOf(SubTables(t, path, t.min)));
      words := words + [code, k.min, k.max - k.min + 1];
      var i := k.min;
      while i <= k.max
        invariant At(b, k, path, t)
        invariant i >= 0 && words + DictOf(SubTables(t, path, i)) == old(words) + DictOf(Tables(t, path))
        decreases k.max - i
      {
        DictStep(t, path, i, words);
        EntryAt(b, k, path, t, i);
        if k.subent[i] != null {
          DumpDict(k.subent[i], b, path + [i], t.ent[i].sub.value);
        }
        i := i + 1;
      }
      SubTablesDone(t, path, i, 0);
    }

    method DumpTable(k: Keymap, ghost b: Bindings, ghost path: seq<int>, ghost t: Table)
      requires At(b, k, path, t)
      modifies this`words, this`stringOffset
      ensures At(b, k, path, t) && AllOk(Tables(t, path))
      ensures words == old(words) + RowsOf(Tables(t, path), old(stringOffset))
      ensures stringOffset == old(stringOffset) + |StringsOf(Tables(t, path))|
      decreases t, 1
    {
      hide At, Ok, AllOk, Tables, SubTables, RowFrom, StringsFrom, RowsOf, StringsOf;
      FieldsAt(b, k, path, t);
      TopStep(t, path, stringOffset);
      DumpRow(k, b, path, t);
      ghost var off := stringOffset;
      DumpTablesBelow(k, b, path, t);
      Assoc(old(words), RowFrom(t, t.min, old(stringOffset)), RowsOf(SubTables(t, path, t.min), off));
    }

    /** The first loop of DumpTable: the offsets of the table itself. */
    method DumpRow(k: Keymap, ghost b: Bindings, ghost path: seq<int>, ghost t: Table)
      requires At(b, k, path, t) && |t.ent| == 128 && 0 <= t.min && t.max < 128
      modifies this`words, this`stringOffset
      ensures At(b, k, path, t)
      ensures words == old(words) + RowFrom(t, t.min, old(stringOffset))
      ensures stringOffset == old(stringOffset) + |StringsFrom(t, t.min)|
    {
      hide At, Ok, RowFrom, StringsFrom;
      FieldsAt(b, k, path, t);
      var i := k.min;
      while i <= k.max
        invariant i >= 0 && At(b, k, path, t)
        invariant words + RowFrom(t, i, stringOffset) == old(words) + RowFrom(t, t.min, old(stringOffset))
        invariant stringOffset + |StringsFrom(t, i)| == old(stringOffset) + |StringsFrom(t, t.min)|
        decreases k.max - i
      {
        var val;
        EntryAt(b, k, path, t, i);
        EntryStep(t, i, words, stringOffset);
        var str := k.proc[i];
        if str.Some? {
          val := stringOffset;
          stringOffset := stringOffset + |str.value| + 1;
        } else {
          val := if k.subent[i] != null then -1 else 0;
        }
        words := words + [val];
        i := i + 1;
      }
      RowDone(t, i, stringOffset);
    }

    /** The second loop of DumpTable. */
    method DumpTablesBelow(k: Keymap, ghost b: Bindings, ghost path: seq<int>, ghost t: Table)
      requires At(b, k, path, t) && 0 <= t.min
      modifies this`words, this`stringOffset
      ensures At(b, k, path, t) && AllOk(SubTables(t, path, t.min))
      ensures words == old(words) + RowsOf(SubTables(t, path, t.min), old(stringOffset))
      ensures stringOffset == old(stringOffset) + |StringsOf(SubTables(t, path, t.min))|
      decreases t, 0
    {
      hide At, Ok, AllOk, Tables, SubTables, RowsOf, StringsOf;
      FieldsAt(b, k, path, t);
      SubTablesOk(t, path, t.min);
      var i := k.min;
      while i <= k.max
        invariant i >= 0 && At(b, k, path, t) && AllOk(SubTables(t, path, t.min)) && AllOk(SubTables(t, path, i))
        invariant words + RowsOf(SubTables(t, path, i), stringOffset)
                  == old(words) + RowsOf(SubTables(t, path, t.min), old(stringOffset))
        invariant stringOffset + |StringsOf(SubTables(t, path, i))|
                  == old(stringOffset) + |StringsOf(SubTables(t, path, t.min))|
        decreases k.max - i
      {
        RowsStep(t, path, i, words, stringOffset);
        EntryAt(b, k, path, t, i);
        if k.subent[i] != null {
          DumpTable(k.subent[i], b, path + [i], t.ent[i].sub.value);
        }
        i := i + 1;
      }
      SubTablesDone(t, path, i, stringOffset);
    }

    /** Fails when some key is both bound and a prefix. */
    method DumpStrings(k: Keymap, ghost b: Bindings, ghost path: seq<int>, ghost t: Table) returns (ok: bool)
      requires At(b, k, path, t)
      modifies this`chars
      ensures At(b, k, path, t) && (ok <==> !Overlaps(t))
      ensures AllOk(Tables(t, path)) && (ok ==> chars == old(chars) + StringsOf(Tables(t, path)))
      decreases t, 1
    {
      hide At, Ok, AllOk, Tables, SubTables, StringsFrom, StringsOf, Overlaps;
      FieldsAt(b, k, path, t);
      TopStep(t, path, 0);
      OverlapsOne(t);
      ok := DumpNames(k, b, path, t);
      if ok {
        Assoc(old(chars), StringsFrom(t, t.min), StringsOf(SubTables(t, path, t.min)));
        ok := DumpStringsBelow(k, b, path, t);
      }
    }

    /** The first loop of DumpStrings: the strings of the table itself. */
    method DumpNames(k: Keymap, ghost b: Bindings, ghost path: seq<int>, ghost t: Table) returns (ok: bool)
      requires At(b, k, path, t) && |t.ent| == 128 && 0 <= t.min && t.max < 128
      modifies this`chars
      ensures At(b, k, path, t)
      ensures ok <==> forall i :: t.min <= i <= t.max ==> !(t.ent[i].proc.Some? && t.ent[i].sub.Some?)
      ensures ok ==> chars == old(chars) + StringsFrom(t, t.min)
    {
      hide At, Ok, StringsFrom;
      FieldsAt(b, k, path, t);
      var i := k.min;
      while i <= k.max
        invariant i >= t.min && At(b, k, path, t) && chars + StringsFrom(t, i) == old(chars) + StringsFrom(t, t.min)
        invariant forall j :: t.min <= j < i && j <= t.max ==> !(t.ent[j].proc.Some? && t.ent[j].sub.Some?)
        decreases k.max - i
      {
        EntryAt(b, k, path, t, i);
        NameStep(t, i, chars);
        var name := k.proc[i];
        if name.Some? {
          if k.subent[i] != null {
            return false;
          }
          chars := chars + (name.value + [0]);
        }
        i := i + 1;
      }
      RowDone(t, i, 0);
      return true;
    }

    /** The second loop of DumpStrings. */
    method DumpStringsBelow(k: Keymap, ghost b: Bindings, ghost path: seq<int>, ghost t: Table) returns (ok: bool)
      requires At(b, k, path, t) && |t.ent| == 128 && 0 <= t.min && t.max < 128
      modifies this`chars
      ensures At(b, k, path, t)
      ensures ok <==> forall j :: t.min <= j <= t.max && t.ent[j].sub.Some? ==> !Overlaps(t.ent[j].sub.value)
      ensures AllOk(SubTables(t, path, t.min)) && (ok ==> chars == old(chars) + StringsOf(SubTables(t, path, t.min)))
      decreases t, 0
    {
      hide At, Ok, AllOk, Tables, SubTables, StringsOf, Overlaps;
      FieldsAt(b, k, path, t);
      SubTablesOk(t, path, t.min);
      var i := k.min;
      while i <= k.max
        invariant i >= t.min && At(b, k, path, t) && AllOk(SubTables(t, path, t.min)) && AllOk(SubTables(t, path, i))
        invariant forall j :: t.min <= j < i && j <= t.max && t.ent[j].sub.Some? ==> !Overlaps(t.ent[j].sub.value)
        invariant chars + StringsOf(SubTables(t, path, i)) == old(chars) + StringsOf(SubTables(t, path, t.min))
        decreases k.max - i
      {
        StringsStep(t, path, i, chars);
        EntryAt(b, k, path, t, i);
        if k.subent[i] != null {
          ok := DumpStrings(k.subent[i], b, path + [i], t.ent[i].sub.value);
          if !ok {
            return false;
          }
        }
        i := i + 1;
      }
      SubTablesDone(t, path, i, 0);
      return true;
    }

    /** The compiler proper: everything that is written once the bindings have
        been read. Without overlapping bindings the file is that of the tree. */
    method Compile(b: Bindings) returns (ok: bool)
      requires b.Valid() && words == [] && chars == []
      modifies this
      ensures b.Valid() && b.Value() == old(b.Value()) && (ok <==> !Overlaps(b.Value()))
      ensures ok ==> Image(words, chars) == ImageOf(b.Value())
    {
      hide Ok, Overlaps, Tables, Linked, Model, Walk, Node;
      ghost var t := b.Value();
      RootAt(b);
      hide At;
      TablesOk(t, []);
      ghost var ts := Tables(t, []);
      var d := DictSize(b.root, b, [], t);
      words := words + [d];
      var n := OffsetTableSize(b.root, b, [], t);
      stringOffset := n * 4 + d * 12 + 4;
      DumpDict(b.root, b, [], t);
      DumpTable(b.root, b, [], t);
      ok := DumpStrings(b.root, b, [], t);
      assert words == [|ts|] + DictOf(ts) + RowsOf(ts, StringBase(ts));
      FieldsAt(b, b.root, [], t);
    }
  }

  lemma RootAt(b: Bindings)
    requires b.Valid()
    ensures At(b, b.root, [], b.Value())
  {
  }
}
