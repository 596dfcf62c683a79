/** From the lines of a key map to what is sent: reading, compiling, loading and
    interpreting together, in terms of the lines alone. */
module KeymapFile {
  import opened KeyInterpreter
  import opened KeyTrie
  import opened KeymapCompiler
  import opened KeymapTheorem
  import opened KeymapTree
  import opened KeymapWriter
  import opened Optional

  predicate LinesOk(lines: seq<Line>) {
    forall i :: 0 <= i < |lines| ==> LineOk(lines[i])
  }

  /** The sequences of prefix keys, the empty one among them. */
  ghost function Prefixes(lines: seq<Line>): set<seq<int>> {
    {[]} + set j, i | 0 <= j < |lines| && 0 <= i < |lines[j].keys| :: lines[j].keys[..i]
  }

  /** Some sequence of keys with a string is the beginning of another one. */
  ghost predicate Ambiguous(lines: seq<Line>) {
    exists a, b :: ProperPrefix(a, b) && LastLine(lines, a).Some? && LastLine(lines, b).Some?
  }

  /** There are at most thirty sequences of prefix keys, each of at most four keys,
      none of them NUL. */
  ghost predicate Manageable(lines: seq<Line>) {
    |Prefixes(lines)| <= 30 && forall p :: p in Prefixes(lines) ==> GoodPath(p)
  }

  // ----- the tables are the prefixes -----

  lemma {:induction false} LineBinds(lines: seq<Line>, j: int)
    requires 0 <= j < |lines|
    ensures LastLine(lines, lines[j].keys).Some?
    decreases |lines|
  {
    var n := |lines| - 1;
    if lines[n].keys != lines[j].keys {
      assert lines[..n][j] == lines[j];
      LineBinds(lines[..n], j);
    }
  }

  lemma {:induction false} BoundHasLine(lines: seq<Line>, k: seq<int>) returns (j: int)
    requires LastLine(lines, k).Some?
    ensures 0 <= j < |lines| && lines[j].keys == k
    decreases |lines|
  {
    var n := |lines| - 1;
    if lines[n].keys == k {
      j := n;
    } else {
      j := BoundHasLine(lines[..n], k);
    }
  }

  /** Below a table that is reached by keys something is bound. */
  lemma NodeExtends(t: Table, p: seq<int>) returns (k: seq<int>)
    requires Ok(t) && p != [] && Node(t, p).Some?
    ensures ProperPrefix(p, k) && Bound(t, k).Some?
  {
    hide Ok, Tables, Node, Bound;
    OkParts(t);
    var j := NodeIsTab(t, [], p);
    assert [] + p == p;
    ListedNode(t, j);
    TabIsNode(t, [], j);
    NotRoot(t, j);
    var rest := SomethingBound(Tables(t, [])[j].table);
    BoundBelow(t, p, rest);
    k := p + rest;
  }

  lemma {:induction false} PrefixHasNode(t: Table, p: seq<int>, q: seq<int>)
    requires Node(t, p + q).Some?
    ensures Node(t, p).Some?
    decreases |q|
  {
    if q == [] {
      assert p + q == p;
    } else {
      var r, c := q[..|q| - 1], q[|q| - 1];
      assert p + q == (p + r) + [c];
      NodePrefix(t, p + r, c);
      PrefixHasNode(t, p, r);
    }
  }

  /** The tables are reached by exactly the prefixes. */
  lemma NodesArePrefixes(lines: seq<Line>, p: seq<int>)
    requires LinesOk(lines)
    ensures Node(Read(lines), p).Some? <==> p in Prefixes(lines)
  {
    hide Ok, Node, Bound, Read, LastLine;
    var t := Read(lines);
    RootIsNode(t);
    if Node(t, p).Some? && p != [] {
      var k := NodeExtends(t, p);
      ReadBinds(lines, k);
      var j := BoundHasLine(lines, k);
      assert p == lines[j].keys[..|p|];
    }
    if p in Prefixes(lines) && p != [] {
      var j, i :| 0 <= j < |lines| && 0 <= i < |lines[j].keys| && p == lines[j].keys[..i];
      var k := lines[j].keys;
      LineBinds(lines, j);
      ReadBinds(lines, k);
      BoundHasNode(t, k);
      var q := k[..|k| - 1];
      assert q == p + q[i..];
      PrefixHasNode(t, p, q[i..]);
    }
  }

  ghost function Paths(ts: seq<Tab>): set<seq<int>> {
    set j | 0 <= j < |ts| :: ts[j].path
  }

  lemma {:induction false} DistinctPaths(ts: seq<Tab>)
    requires forall j, k :: 0 <= j < k < |ts| ==> ts[j].path != ts[k].path
    ensures |Paths(ts)| == |ts|
    decreases |ts|
  {
    if ts == [] {
      assert Paths(ts) == {};
    } else {
      var n := |ts| - 1;
      DistinctPaths(ts[..n]);
      assert Paths(ts) == Paths(ts[..n]) + {ts[n].path};
    }
  }

  lemma TablesArePrefixes(lines: seq<Line>)
    requires LinesOk(lines)
    ensures Paths(Tables(Read(lines), [])) == Prefixes(lines)
    ensures |Tables(Read(lines), [])| == |Prefixes(lines)|
  {
    hide Ok, Node, Read, Tables, Prefixes;
    var t := Read(lines);
    var ts := Tables(t, []);
    forall j, k | 0 <= j < k < |ts| ensures ts[j].path != ts[k].path {
      TabsDistinct(t, [], j, k);
    }
    DistinctPaths(ts);
    forall p | p in Paths(ts) ensures p in Prefixes(lines) {
      var j :| 0 <= j < |ts| && ts[j].path == p;
      ListedNode(t, j);
      NodesArePrefixes(lines, p);
    }
    forall p | p in Prefixes(lines) ensures p in Paths(ts) {
      NodesArePrefixes(lines, p);
      var j := NodeIsTab(t, [], p);
      assert [] + p == p;
    }
  }

  /** The conditions on the tree are conditions on the lines. */
  lemma LinesDecide(lines: seq<Line>)
    requires LinesOk(lines)
    ensures Overlaps(Read(lines)) <==> Ambiguous(lines)
    ensures Good(Read(lines)) <==> Manageable(lines)
  {
    hide Ok, Node, Read, Tables, Prefixes, Bound, LastLine, Overlaps, GoodPath, ProperPrefix;
    var t := Read(lines);
    OverlapsExact(t);
    OkParts(t);
    forall k ensures Bound(t, k) == LastLine(lines, k) {
      ReadBinds(lines, k);
    }
    TablesArePrefixes(lines);
    var ts := Tables(t, []);
    assert forall j :: 0 <= j < |ts| ==> ts[j].path in Paths(ts);
  }

  // ----- the whole way -----

  /** The file that the lines are compiled to means what they say, for whatever is
      typed, exactly if they are manageable. */
  lemma LinesPreserved(lines: seq<Line>)
    requires LinesOk(lines) && !Ambiguous(lines)
    ensures Agrees(Read(lines)) <==> Manageable(lines)
  {
    hide Agrees, Good, Manageable, Ambiguous, Overlaps;
    LinesDecide(lines);
    MeaningPreserved(Read(lines));
  }

  /** What the lines say of a sequence of keys. */
  function Said(lines: seq<Line>, k: seq<int>): seq<int> {
    if LastLine(lines, k).Some? then LastLine(lines, k).value else k
  }

  function SaidAll(lines: seq<Line>, text: seq<seq<int>>): seq<int> {
    if text == [] then [] else Said(lines, text[0]) + SaidAll(lines, text[1..])
  }

  /** The keys have a string, or lead just beyond the prefixes. */
  ghost predicate Typed(lines: seq<Line>, k: seq<int>) {
    LastLine(lines, k).Some? || (k != [] && k !in Prefixes(lines) && k[..|k| - 1] in Prefixes(lines))
  }

  lemma TypedPieces(lines: seq<Line>, k: seq<int>)
    requires LinesOk(lines) && Typed(lines, k)
    ensures var t := Read(lines);
            |t.ent| == 128 && (Bound(t, k).Some? || Dead(t, k)) && Meaning(t, k) == Said(lines, k)
  {
    hide Ok, Node, Read, Prefixes, Bound, LastLine;
    OkParts(Read(lines));
    ReadBinds(lines, k);
    NodesArePrefixes(lines, k);
    if k != [] {
      NodesArePrefixes(lines, k[..|k| - 1]);
    }
  }

  lemma {:induction false} TypedText(lines: seq<Line>, text: seq<seq<int>>)
    requires LinesOk(lines) && forall i :: 0 <= i < |text| ==> Typed(lines, text[i])
    ensures |Read(lines).ent| == 128 && Meanings(Read(lines), text) == SaidAll(lines, text)
    decreases |text|
  {
    hide Ok, Read, Typed, Meaning, Said;
    OkParts(Read(lines));
    if text != [] {
      TypedPieces(lines, text[0]);
      TypedText(lines, text[1..]);
    }
  }

  /** Text made of such pieces is translated piece by piece to what the last lines
      say, and the key state is the initial one again. */
  lemma TextTranslated(lines: seq<Line>, text: seq<seq<int>>)
    requires LinesOk(lines) && !Ambiguous(lines) && Manageable(lines)
    requires forall i :: 0 <= i < |text| ==> Typed(lines, text[i])
    ensures Run(Load(ImageOf(Read(lines))), 0, Flatten(text)) == (SaidAll(lines, text), 0)
  {
    hide Ok, Read, Typed, Overlaps, Ambiguous, Manageable, Good, Load, ImageOf, Bound, Dead, Node;
    var t := Read(lines);
    LinesDecide(lines);
    forall i | 0 <= i < |text| ensures |t.ent| == 128 && (Bound(t, text[i]).Some? || Dead(t, text[i])) {
      TypedPieces(lines, text[i]);
    }
    TextRuns(t, text);
    TypedText(lines, text);
    RootIsNode(t);
    HashEmpty();
    RunAgrees(t, [], Flatten(text));
  }

  /** All of it at work: the lines are read into linked tables, compiled, loaded,
      and the text is typed in the window with the focus. */
  method Translate(lines: seq<Line>, text: seq<seq<int>>) returns (ok: bool, sent: seq<int>)
    requires LinesOk(lines)
    ensures ok <==> !Ambiguous(lines)
    ensures ok && Manageable(lines) && (forall i :: 0 <= i < |text| ==> Typed(lines, text[i])) ==>
              sent == SaidAll(lines, text)
  {
    hide Ok, Read, Typed, Overlaps, Ambiguous, Manageable, Load, ImageOf, Run;
    var b := ReadLines(lines);
    var c := new Compiler();
    ok := c.Compile(b);
    LinesDecide(lines);
    sent := [];
    if ok {
      var w := new InputWindow();
      var keys := Flatten(text);
      if keys != [] {
        w.ProcessInput(Load(Image(c.words, c.chars)), keys);
      }
      sent := w.sent;
      NothingTyped(Load(ImageOf(Read(lines))));
      if Manageable(lines) && forall i :: 0 <= i < |text| ==> Typed(lines, text[i]) {
        TextTranslated(lines, text);
      }
    }
  }

  lemma NothingTyped(l: Loaded)
    ensures Run(l, 0, []) == ([], 0)
  {
  }
}
