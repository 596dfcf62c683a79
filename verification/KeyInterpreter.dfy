/** The loader and the interpreter of key map files, as they work on every
    keystroke. Memory beyond the file reads as zero here. */
module KeyInterpreter {
  import opened CInt
  import opened KeyTrie
  import opened KeymapCompiler
  import opened Optional

  function Word(m: Image, i: int): int {
    if 0 <= i < |m.words| then m.words[i] else 0
  }

  /** A file in memory, and the number of tables the interpreter will look at. */
  datatype Loaded = Loaded(file: Image, length: int)

  /** The loader refuses files it takes for bogus by setting the length to zero. */
  function Load(m: Image): (l: Loaded) {
    var n := Word(m, 0);
    Loaded(m, if n <= 0 || n > 30 || Word(m, 2) < 0 || Word(m, 2) + Word(m, 3) > 128 then 0 else n)
  }

  /** A file is used exactly if it says that it has one to thirty tables and the keys of
      the first one lie between 0 and 127; all its tables are looked at then. */
  lemma LoadAccepts(m: Image)
    ensures Load(m).file == m && (Load(m).length == 0 || Load(m).length == Word(m, 0))
    ensures Load(m).length != 0 <==>
              1 <= Word(m, 0) <= 30 && FirstKey(Load(m), 0) >= 0 && FirstKey(Load(m), 0) + KeyCount(Load(m), 0) <= 128
  {
  }

  function Packed(l: Loaded, j: int): int { Word(l.file, 1 + 3 * j) }

  function FirstKey(l: Loaded, j: int): int { Word(l.file, 2 + 3 * j) }

  function KeyCount(l: Loaded, j: int): int { Word(l.file, 3 + 3 * j) }

  /** The k-th word after the dictionary. */
  function OffsetWord(l: Loaded, k: int): int { Word(l.file, 1 + 3 * Word(l.file, 0) + k) }

  /** The NUL-terminated string at position `pos` of the characters. */
  function ReadString(s: seq<int>, pos: int): seq<int>
    decreases |s| - pos
  {
    if pos < 0 || pos >= |s| || s[pos] == 0 then [] else [s[pos]] + ReadString(s, pos + 1)
  }

  /** The string at a byte offset from the start of the file. */
  function StringAt(l: Loaded, offset: int): seq<int> {
    ReadString(l.file.chars, offset - 4 * |l.file.words|)
  }

  function Byte(x: int, shift: int): int
    requires shift > 0
  {
    x / shift % 256
  }

  /** The prefix keys packed in a key state, as the interpreter passes them on. */
  function Emit(k: int): seq<int> {
    if Byte(k, 1) == 0 then []
    else
      (if Byte(k, 0x100) == 0 then []
       else
         (if Byte(k, 0x1_0000) == 0 then []
          else (if Byte(k, 0x100_0000) == 0 then [] else [Byte(k, 0x100_0000)]) + [Byte(k, 0x1_0000)])
         + [Byte(k, 0x100)])
      + [Byte(k, 1)]
  }

  /** The first table from `j` on for the key state, with its place among the offsets. */
  function Find(l: Loaded, state: int, j: int, offset: int): Option<(int, int)>
    decreases l.length - j
  {
    if j >= l.length then None
    else if Packed(l, j) == state then Some((j, offset))
    else Find(l, state, j + 1, offset + KeyCount(l, j))
  }

  /** What the file says about key `c` in state `state`; zero if nothing. */
  function Action(l: Loaded, state: int, c: int): int {
    match Find(l, state, 0, 0)
    case None => 0
    case Some((j, offset)) =>
      if FirstKey(l, j) <= c < FirstKey(l, j) + KeyCount(l, j) then OffsetWord(l, offset + c - FirstKey(l, j)) else 0
  }

  /** One keystroke: what is sent, and the next key state. */
  function Step(l: Loaded, state: int, c: int): (seq<int>, int) {
    var a := Action(l, state, c);
    if a == 0 then (Emit(state) + [c], 0)
    else if a == -1 then ([], Wrap32(state * 256 + c))
    else (StringAt(l, a), 0)
  }

  function Run(l: Loaded, state: int, keys: seq<int>): (seq<int>, int)
    decreases |keys|
  {
    if keys == [] then ([], state)
    else
      var (out, next) := Step(l, state, keys[0]);
      var (rest, last) := Run(l, next, keys[1..]);
      (out + rest, last)
  }

  lemma {:induction false} RunAppend(l: Loaded, state: int, a: seq<int>, b: seq<int>)
    ensures var (out, mid) := Run(l, state, a);
            var (rest, last) := Run(l, mid, b);
            Run(l, state, a + b) == (out + rest, last)
    decreases |a|
  {
    hide Step;
    if a == [] {
      assert a + b == b && [] + Run(l, state, b).0 == Run(l, state, b).0;
    } else {
      assert (a + b)[1..] == a[1..] + b;
      var (out, next) := Step(l, state, a[0]);
      RunAppend(l, next, a[1..], b);
      var (mid, m) := Run(l, next, a[1..]);
      assert (out + mid) + Run(l, m, b).0 == out + (mid + Run(l, m, b).0);
    }
  }

  /** The window that has the input focus. */
  class InputWindow {
    var keyState: int
    var inputDisabled: bool
    var sent: seq<int>

    constructor ()
      ensures keyState == 0 && !inputDisabled && sent == []
    {
      keyState, inputDisabled, sent := 0, false, [];
    }

    /** All keystrokes that are waiting, at least one. */
    method ProcessInput(l: Loaded, keys: seq<int>)
      requires keys != []
      modifies this`keyState, this`sent
      ensures if inputDisabled then keyState == old(keyState) && sent == old(sent)
              else keyState == Run(l, old(keyState), keys).1 && sent == old(sent) + Run(l, old(keyState), keys).0
    {
      hide Emit;
      var buf := [];
      var n := 0;
      while n < |keys|
        invariant 0 <= n <= |keys| && sent == old(sent)
        invariant if inputDisabled then keyState == old(keyState) && buf == []
                  else (buf, keyState) == Run(l, old(keyState), keys[..n])
      {
        var c := keys[n];
        assert keys[..n + 1] == keys[..n] + [c];
        RunAppend(l, old(keyState), keys[..n], [c]);
        RunOne(l, keyState, c);
        if !inputDisabled {
          var out := ProcessKey(l, c);
          buf := buf + out;
        }
        n := n + 1;
      }
      assert keys[..n] == keys;
      if |buf| > 0 {
        sent := sent + buf;
      }
    }

    lemma RunOne(l: Loaded, state: int, c: int)
      ensures Run(l, state, [c]) == Step(l, state, c)
    {
      var (out, next) := Step(l, state, c);
      assert Run(l, next, [c][1..]) == ([], next) && out + [] == out;
    }

    /** One keystroke through the table search. */
    method ProcessKey(l: Loaded, c: int) returns (out: seq<int>)
      modifies this`keyState
      ensures (out, keyState) == Step(l, old(keyState), c)
    {
      hide Wrap32, StringAt, Word;
      var p, lim, offset := 0, l.length, 0;
      while lim > 0
        invariant p + lim == l.length || (l.length < 0 && p == 0 && lim == l.length)
        invariant Find(l, keyState, p, offset) == Find(l, keyState, 0, 0)
        invariant keyState == old(keyState)
      {
        lim := lim - 1;
        if Packed(l, p) == keyState {
          if FirstKey(l, p) <= c < FirstKey(l, p) + KeyCount(l, p) {
            offset := OffsetWord(l, offset + c - FirstKey(l, p));
            if offset != 0 {
              if offset == -1 {
                keyState := Wrap32(keyState * 256 + c);
                out := [];
              } else {
                out := CopyString(l, offset);
                keyState := 0;
              }
              return;
            }
          }
          break;
        }
        offset := offset + KeyCount(l, p);
        p := p + 1;
      }
      out := Emit(keyState) + [c];
      keyState := 0;
    }

    /** Copies a string up to its NUL. */
    method CopyString(l: Loaded, offset: int) returns (out: seq<int>)
      ensures out == StringAt(l, offset)
    {
      var s := l.file.chars;
      var pos := offset - 4 * |l.file.words|;
      out := [];
      while 0 <= pos < |s| && s[pos] != 0
        invariant out + ReadString(s, pos) == StringAt(l, offset)
        decreases |s| - pos
      {
        out := out + [s[pos]];
        pos := pos + 1;
      }
    }
  }
}
