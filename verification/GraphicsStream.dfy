/** Graphics calls as a stream of bytes: the client that encodes them, and the
    window manager that decodes them however the stream is cut. */
module GraphicsStream {
  import opened CInt

  /** What a call carries: so many 16-bit arguments, and maybe a string. */
  datatype OpInfo = OpInfo(nargs: int, hasString: bool)

  const OPS := 55

  /** GR_WRITETOCUTBUFFER, after which the stream is captured until the next NUL. */
  const WRITE_TO_CUT_BUFFER := 42

  /** GR_opinfo, from GR_MOVE to GR_NAMEREGION. */
  function Info(op: int): (i: OpInfo)
    ensures 0 <= i.nargs <= 8
  {
    match op
    case 0 => OpInfo(2, false) case 1 => OpInfo(2, false) case 2 => OpInfo(0, false) case 3 => OpInfo(2, false)
    case 4 => OpInfo(1, false)
    case 5 => OpInfo(0, true) case 6 => OpInfo(4, false) case 7 => OpInfo(3, false) case 8 => OpInfo(0, false)
    case 9 => OpInfo(0, false)
    case 10 => OpInfo(0, false) case 11 => OpInfo(1, false) case 12 => OpInfo(6, false) case 13 => OpInfo(4, false)
    case 14 => OpInfo(0, false)
    case 15 => OpInfo(0, true) case 16 => OpInfo(1, false) case 17 => OpInfo(1, false) case 18 => OpInfo(0, true)
    case 19 => OpInfo(1, false)
    case 20 => OpInfo(0, true) case 21 => OpInfo(0, false) case 22 => OpInfo(4, true) case 23 => OpInfo(1, false)
    case 24 => OpInfo(1, false)
    case 25 => OpInfo(2, false) case 26 => OpInfo(1, false) case 27 => OpInfo(1, false) case 28 => OpInfo(1, true)
    case 29 => OpInfo(2, false)
    case 30 => OpInfo(1, false) case 31 => OpInfo(0, false) case 32 => OpInfo(0, false) case 33 => OpInfo(0, true)
    case 34 => OpInfo(1, false)
    case 35 => OpInfo(5, false) case 36 => OpInfo(1, false) case 37 => OpInfo(0, false) case 38 => OpInfo(4, false)
    case 39 => OpInfo(0, false)
    case 40 => OpInfo(0, false) case 41 => OpInfo(0, false) case 42 => OpInfo(0, false) case 43 => OpInfo(1, false)
    case 44 => OpInfo(1, false)
    case 45 => OpInfo(1, false) case 46 => OpInfo(5, false) case 47 => OpInfo(3, false) case 48 => OpInfo(1, false)
    case 49 => OpInfo(3, false)
    case 50 => OpInfo(8, false) case 51 => OpInfo(4, false) case 52 => OpInfo(0, true) case 53 => OpInfo(2, false)
    case 54 => OpInfo(1, true)
    case _ => OpInfo(0, false)
  }

  /** What the window manager does with the stream. */
  datatype Event =
    | Text(c: int)
    | Control(c: int)
    | Call(op: int, args: seq<int>, str: seq<int>)
    | BadOpcode(c: int)

  // ----- the encoder -----

  function ArgBytes(args: seq<int>): (b: seq<int>)
    ensures |b| == 2 * |args|
  {
    if args == [] then [] else [args[0] % 256, args[0] / 256 % 256] + ArgBytes(args[1..])
  }

  function StringBytes(info: OpInfo, str: seq<int>): seq<int> {
    if info.hasString then str + [0] else []
  }

  /** The bytes that stand for an event. */
  function Encode(e: Event): seq<int> {
    match e
    case Text(c) => [c]
    case Control(c) => [c]
    case BadOpcode(c) => [c]
    case Call(op, args, str) => [op + 128] + ArgBytes(args) + StringBytes(Info(op), str)
  }

  function EncodeAll(es: seq<Event>): seq<int> {
    if es == [] then [] else Encode(es[0]) + EncodeAll(es[1..])
  }

  /** Client side: the calls that have been put into the output buffer. */
  class Client {
    var out: seq<int>

    constructor ()
      ensures out == []
    {
      out := [];
    }

    /** GR_SEND. */
    method Send(op: int, args: seq<int>, str: seq<int>)
      requires 0 <= op < OPS && |args| == Info(op).nargs
      modifies this
      ensures out == old(out) + Encode(Call(op, args, str))
    {
      hide Info, ArgBytes;
      var info := Info(op);
      out := out + [op + 128];
      PutArgs(args);
      if info.hasString {
        PutString(str);
      }
      assert out == old(out) + ([op + 128] + ArgBytes(args) + StringBytes(info, str));
    }

    /** The loop over the arguments. */
    method PutArgs(args: seq<int>)
      modifies this
      ensures out == old(out) + ArgBytes(args)
    {
      var n := |args|;
      var p := 0;
      assert args[p..] == args;
      while n > 0
        invariant 0 <= n && n + p == |args| && 0 <= p && out + ArgBytes(args[p..]) == old(out) + ArgBytes(args)
      {
        assert args[p..][0] == args[p] && args[p..][1..] == args[p + 1..];
        assert (out + [args[p] % 256] + [args[p] / 256 % 256]) + ArgBytes(args[p + 1..])
            == out + ([args[p] % 256, args[p] / 256 % 256] + ArgBytes(args[p + 1..]));
        out := out + [args[p] % 256];
        out := out + [args[p] / 256 % 256];
        n, p := n - 1, p + 1;
      }
      assert args[p..] == [] && out + [] == out;
    }

    /** The loop over the string, which puts the final NUL, too. */
    method PutString(str: seq<int>)
      modifies this
      ensures out == old(out) + (str + [0])
    {
      var s := 0;
      while s < |str|
        invariant 0 <= s <= |str| && out == old(out) + str[..s]
      {
        out := out + [str[s]];
        s := s + 1;
      }
      assert str[..s] == str;
      out := out + [0];
    }
  }

  // ----- the decoder, byte by byte -----

  /** `args` starts here: the 200 bytes before it are the window's `buf`. */
  const ARGS := 200
  const MEMORY := 400

  /** The window's decoding fields. `thisArg` is a signed character. */
  datatype State = State(mem: seq<int>, thisArg: int, expected: int, hasString: bool)

  predicate Valid(st: State) {
    && |st.mem| == MEMORY && -128 <= st.thisArg < 128 && 0 <= st.expected <= 17
    && (forall i :: 0 <= i < MEMORY ==> 0 <= st.mem[i] < 256)
  }

  /** uarg. */
  function Arg(mem: seq<int>, k: int): int
    requires |mem| == MEMORY && 0 <= k < 8
  {
    Wrap16(mem[ARGS + 2 * k + 1] + mem[ARGS + 2 * k + 2] * 256)
  }

  /** The string that starts at `i`, up to its NUL or the end of the arguments. */
  function StringAt(mem: seq<int>, i: int): (s: seq<int>)
    requires 0 <= i
    ensures i <= |mem| ==> |s| <= |mem| - i
    decreases |mem| - i
  {
    if i >= |mem| || mem[i] == 0 then [] else [mem[i]] + StringAt(mem, i + 1)
  }

  /** The call that is carried out when its arguments are complete. */
  function Collected(mem: seq<int>): Event
    requires |mem| == MEMORY
  {
    var op := mem[ARGS] % 128;
    var info := Info(op);
    Call(op, seq(info.nargs, k requires 0 <= k < info.nargs => Arg(mem, k)),
         if info.hasString then StringAt(mem, ARGS + 1 + 2 * info.nargs) else [])
  }

  predicate IsText(b: int) {
    13 < b < 128 || 0 < b < 8
  }

  /** One byte. */
  function Step(st: State, b: int): (State, seq<Event>)
    requires Valid(st)
  {
    if st.expected != 0 then
      var mem := st.mem[ARGS + st.thisArg := b];
      var next := Wrap8(st.thisArg + 1);
      if next >= st.expected && (!st.hasString || (next > st.expected && b == 0)) then
        (State(mem, next, 0, false), [Collected(mem)])
      else (State(mem, next, st.expected, st.hasString), [])
    else if IsText(b) then (st, [Text(b)])
    else if b >= 128 then
      var op := b - 128;
      if op >= OPS then (st, [BadOpcode(b)])
      else if Info(op).nargs == 0 && !Info(op).hasString then (st, [Call(op, [], [])])
      else (State(st.mem[ARGS := b], 1, Info(op).nargs * 2 + 1, Info(op).hasString), [])
    else (st, [Control(b)])
  }

  predicate Bytes(s: seq<int>) {
    forall i :: 0 <= i < |s| ==> 0 <= s[i] < 256
  }

  /** What a window that awaits no arguments does with a byte: it draws characters,
      obeys NUL and the controls from backspace to carriage return, and takes bytes
      with the high bit for opcodes, of which there are 55. */
  lemma IdleByte(st: State, b: int)
    requires Valid(st) && st.expected == 0 && 0 <= b < 256
    ensures 1 <= b <= 7 || 14 <= b <= 127 ==> Step(st, b) == (st, [Text(b)])
    ensures b == 0 || 8 <= b <= 13 ==> Step(st, b) == (st, [Control(b)])
    ensures b >= 183 ==> Step(st, b) == (st, [BadOpcode(b)])
    ensures 128 <= b < 183 ==>
              var i := Info(b - 128);
              && (i.nargs == 0 && !i.hasString ==> Step(st, b) == (st, [Call(b - 128, [], [])]))
              && (i.nargs > 0 || i.hasString ==>
                    && Step(st, b).1 == [] && Step(st, b).0.expected == 2 * i.nargs + 1
                    && Step(st, b).0.hasString == i.hasString)
  {
  }

  /** The operations by the number of their arguments, and those with a string. */
  lemma OperationsByArity(op: int)
    requires 0 <= op < OPS
    ensures Info(op).hasString <==> op in {5, 15, 18, 20, 22, 28, 33, 52, 54}
    ensures Info(op).nargs == 8 <==> op == 50
    ensures Info(op).nargs == 6 <==> op == 12
    ensures Info(op).nargs == 5 <==> op in {35, 46}
    ensures Info(op).nargs == 4 <==> op in {6, 13, 22, 38, 51}
    ensures Info(op).nargs == 3 <==> op in {7, 47, 49}
    ensures Info(op).nargs == 2 <==> op in {0, 1, 3, 25, 29, 53}
    ensures Info(op).nargs == 1 <==> op in {4, 11, 16, 17, 19, 23, 24, 26, 27, 28, 30, 34, 36, 43, 44, 45, 48, 54}
    ensures Info(op).nargs in {0, 1, 2, 3, 4, 5, 6, 8}
  {
  }

  lemma StepValid(st: State, b: int)
    requires Valid(st) && 0 <= b < 256
    ensures Valid(Step(st, b).0)
  {
  }

  ghost function Feed(st: State, s: seq<int>): (State, seq<Event>)
    requires Valid(st) && Bytes(s)
    decreases |s|
  {
    if s == [] then (st, [])
    else
      StepValid(st, s[0]);
      var (next, e) := Step(st, s[0]);
      var (last, es) := Feed(next, s[1..]);
      (last, e + es)
  }

  lemma {:induction false} FeedAppend(st: State, a: seq<int>, b: seq<int>)
    requires Valid(st) && Bytes(a) && Bytes(b)
    ensures Valid(Feed(st, a).0) && Bytes(a + b)
    ensures var (mid, x) := Feed(st, a); var (last, y) := Feed(mid, b); Feed(st, a + b) == (last, x + y)
    decreases |a|
  {
    hide Step, Valid;
    if a == [] {
      assert a + b == b && [] + Feed(st, b).1 == Feed(st, b).1;
    } else {
      assert (a + b)[1..] == a[1..] + b;
      StepValid(st, a[0]);
      var (next, e) := Step(st, a[0]);
      FeedAppend(next, a[1..], b);
      var (mid, x) := Feed(next, a[1..]);
      assert (e + x) + Feed(mid, b).1 == e + (x + Feed(mid, b).1);
    }
  }

  // ----- the decoder, chunk by chunk -----

  /** The window of a client, and what has been done for it. */
  class Window {
    const mem: array<int>
    var thisArg: int
    var argsExpected: int
    var hasString: bool
    var done: seq<Event>

    ghost function Current(): State
      reads this, mem
    {
      State(mem[..], thisArg, argsExpected, hasString)
    }

    constructor ()
      ensures Valid(Current()) && argsExpected == 0 && done == [] && fresh(mem)
    {
      mem := new int[MEMORY](i => 0);
      thisArg, argsExpected, hasString, done := 0, 0, false, [];
    }

    /** The first half of the loop body: one more byte of a call. */
    method Store(b: int)
      requires Valid(Current()) && argsExpected != 0 && 0 <= b < 256
      modifies this`thisArg, this`argsExpected, this`hasString, this`done, mem
      ensures (Current(), done) == (Step(old(Current()), b).0, old(done) + Step(old(Current()), b).1)
    {
      hide Collected;
      assert done + [] == done;
      mem[ARGS + thisArg] := b;
      assert mem[..] == old(mem[..])[ARGS + thisArg := b];
      thisArg := Wrap8(thisArg + 1);
      if thisArg >= argsExpected && (!hasString || (thisArg > argsExpected && b == 0)) {
        done := done + [Collected(mem[..])];
        argsExpected, hasString := 0, false;
      }
    }

    /** The text loop: draws characters up to the first that is not text. */
    method TextRun(s: seq<int>, i: int) returns (p: int, ghost text: seq<Event>)
      requires Valid(Current()) && argsExpected == 0 && Bytes(s) && 0 <= i <= |s|
      modifies this`done
      ensures i <= p <= |s| && (p < |s| ==> !IsText(s[p])) && Bytes(s[i..p])
      ensures done == old(done) + text && Feed(Current(), s[i..p]) == (Current(), text)
    {
      hide Step, Valid, Feed;
      p, text := i, [];
      FeedNone(Current());
      assert s[i..p] == [];
      while p < |s| && IsText(s[p])
        invariant i <= p <= |s| && Bytes(s[i..p])
        invariant done == old(done) + text && Feed(Current(), s[i..p]) == (Current(), text)
      {
        assert s[i..p + 1] == s[i..p] + [s[p]];
        FeedAppend(Current(), s[i..p], [s[p]]);
        FeedOne(Current(), s[p]);
        TextStep(Current(), s[p]);
        done := done + [Text(s[p])];
        text := text + [Text(s[p])];
        p := p + 1;
      }
    }

    /** The byte after a run of text: an operation or a control character. */
    method Special(b: int)
      requires Valid(Current()) && argsExpected == 0 && 0 <= b < 256 && !IsText(b)
      modifies this`thisArg, this`argsExpected, this`hasString, this`done, mem
      ensures (Current(), done) == (Step(old(Current()), b).0, old(done) + Step(old(Current()), b).1)
    {
      assert done + [] == done;
      if b >= 128 {
        var op := b - 128;
        if op >= OPS {
          done := done + [BadOpcode(b)];
        } else {
          var o := Info(op);
          if o.nargs == 0 && !o.hasString {
            done := done + [Call(op, [], [])];
          } else {
            mem[ARGS] := b;
            assert mem[..] == old(mem[..])[ARGS := b];
            argsExpected := o.nargs * 2 + 1;
            hasString := o.hasString;
            thisArg := 1;
          }
        }
      } else {
        done := done + [Control(b)];
      }
    }

    /** The second half of the loop body. */
    method TextAndSpecial(s: seq<int>, i: int) returns (p: int)
      requires Valid(Current()) && argsExpected == 0 && Bytes(s) && 0 <= i < |s|
      modifies this`thisArg, this`argsExpected, this`hasString, this`done, mem
      ensures i < p <= |s| && Bytes(s[i..p])
      ensures (Current(), done) == (Feed(old(Current()), s[i..p]).0, old(done) + Feed(old(Current()), s[i..p]).1)
    {
      hide Step, Valid, Collected;
      ghost var start, sofar := Current(), done;
      ghost var text;
      p, text := TextRun(s, i);
      if p < |s| {
        Special(s[p]);
        assert s[i..p + 1] == s[i..p] + [s[p]];
        FeedAppend(start, s[i..p], [s[p]]);
        FeedOne(start, s[p]);
        assert (sofar + text) + Step(start, s[p]).1 == sofar + (text + Step(start, s[p]).1);
        p := p + 1;
      }
    }

    /** ToWindow: one chunk of the stream. */
    method ToWindow(s: seq<int>)
      requires Valid(Current()) && Bytes(s)
      modifies this`thisArg, this`argsExpected, this`hasString, this`done, mem
      ensures Valid(Current()) && Current() == Feed(old(Current()), s).0
      ensures done == old(done) + Feed(old(Current()), s).1
    {
      hide Step, Valid, Collected, Feed;
      ghost var start, sofar := Current(), done;
      var i := 0;
      FeedNone(start);
      while i < |s|
        invariant 0 <= i <= |s| && Valid(Current()) && Bytes(s[..i])
        invariant Current() == Feed(start, s[..i]).0 && done == sofar + Feed(start, s[..i]).1
      {
        ghost var first, here := i, Current();
        if argsExpected != 0 {
          FeedOne(here, s[i]);
          Store(s[i]);
          i := i + 1;
        } else {
          i := TextAndSpecial(s, i);
        }
        assert s[first..first + 1] == [s[first]];
        assert s[..i] == s[..first] + s[first..i];
        FeedAppend(start, s[..first], s[first..i]);
        FeedValid(here, s[first..i]);
        assert (sofar + Feed(start, s[..first]).1) + Feed(here, s[first..i]).1
            == sofar + (Feed(start, s[..first]).1 + Feed(here, s[first..i]).1);
      }
      assert s[..i] == s;
    }
  }

  lemma TextStep(st: State, b: int)
    requires Valid(st) && st.expected == 0 && IsText(b)
    ensures Step(st, b) == (st, [Text(b)])
  {
  }

  lemma FeedNone(st: State)
    requires Valid(st)
    ensures Feed(st, []) == (st, [])
  {
  }

  lemma FeedOne(st: State, b: int)
    requires Valid(st) && 0 <= b < 256
    ensures Valid(Step(st, b).0) && Feed(st, [b]) == Step(st, b)
  {
    hide Step, Valid;
    StepValid(st, b);
    assert [b][1..] == [] && Step(st, b).1 + [] == Step(st, b).1;
    FeedNone(Step(st, b).0);
  }

  lemma FeedValid(st: State, s: seq<int>)
    requires Valid(st) && Bytes(s)
    ensures Valid(Feed(st, s).0)
  {
    FeedAppend(st, s, []);
  }

  /** The chunks of a stream, one after the other. */
  function Flatten(chunks: seq<seq<int>>): seq<int> {
    if chunks == [] then [] else chunks[0] + Flatten(chunks[1..])
  }

  ghost predicate AllBytes(chunks: seq<seq<int>>) {
    forall i :: 0 <= i < |chunks| ==> Bytes(chunks[i])
  }

  lemma {:induction false} FlattenBytes(chunks: seq<seq<int>>)
    requires AllBytes(chunks)
    ensures Bytes(Flatten(chunks))
    decreases |chunks|
  {
    if chunks != [] {
      FlattenBytes(chunks[1..]);
    }
  }

  /** However the stream is cut into reads, the same is done. */
  method Deliver(w: Window, chunks: seq<seq<int>>)
    requires Valid(w.Current()) && AllBytes(chunks)
    modifies w`thisArg, w`argsExpected, w`hasString, w`done, w.mem
    ensures Valid(w.Current()) && Bytes(Flatten(chunks))
    ensures w.Current() == Feed(old(w.Current()), Flatten(chunks)).0
    ensures w.done == old(w.done) + Feed(old(w.Current()), Flatten(chunks)).1
    decreases |chunks|
  {
    hide Valid, Feed;
    FlattenBytes(chunks);
    ghost var start, sofar := w.Current(), w.done;
    if chunks == [] {
      FeedNone(start);
    } else {
      FlattenBytes(chunks[1..]);
      w.ToWindow(chunks[0]);
      ghost var mid := w.Current();
      Deliver(w, chunks[1..]);
      FeedAppend(start, chunks[0], Flatten(chunks[1..]));
      assert (sofar + Feed(start, chunks[0]).1) + Feed(mid, Flatten(chunks[1..])).1
          == sofar + (Feed(start, chunks[0]).1 + Feed(mid, Flatten(chunks[1..])).1);
    }
  }

  // ----- decoding what was encoded -----

  predicate IsArg(x: int) { -0x8000 <= x < 0x8000 }

  /** What a client can mean: text, control characters, and calls with the
      arguments of their operation and a string without NUL if it takes one. */
  ghost predicate Sendable(e: Event) {
    match e
    case Text(c) => 1 <= c <= 7 || 14 <= c <= 127
    case Control(c) => c == 0 || 8 <= c <= 13
    case BadOpcode(c) => 183 <= c < 256
    case Call(op, args, str) =>
      && 0 <= op < OPS && op != WRITE_TO_CUT_BUFFER && |args| == Info(op).nargs
         && (forall k :: 0 <= k < |args| ==> IsArg(args[k]))
      && (if Info(op).hasString then forall k :: 0 <= k < |str| ==> 0 < str[k] < 256 else str == [])
  }

  /** The bytes of the call fit in front of the place where `thisArg` wraps. */
  ghost predicate Fits(e: Event) {
    e.Call? && Info(e.op).hasString ==> 2 * |e.args| + |e.str| + 2 <= 127
  }

  lemma {:induction false} ArgBytesAre(args: seq<int>)
    ensures Bytes(ArgBytes(args))
    ensures forall k :: 0 <= k < |args| ==>
              ArgBytes(args)[2 * k] == args[k] % 256 && ArgBytes(args)[2 * k + 1] == args[k] / 256 % 256
    decreases |args|
  {
    if args != [] {
      ArgBytesAre(args[1..]);
      forall k | 0 < k < |args|
        ensures ArgBytes(args)[2 * k] == args[k] % 256 && ArgBytes(args)[2 * k + 1] == args[k] / 256 % 256
      {
        assert ArgBytes(args)[2 * k] == ArgBytes(args[1..])[2 * (k - 1)];
        assert ArgBytes(args)[2 * k + 1] == ArgBytes(args[1..])[2 * (k - 1) + 1];
      }
    }
  }

  lemma EncodeBytes(e: Event)
    requires Sendable(e)
    ensures Bytes(Encode(e)) && Encode(e) != []
  {
    if e.Call? {
      ArgBytesAre(e.args);
    }
  }

  /** Memory with some bytes stored in a row. */
  function Filled(mem: seq<int>, at: int, bs: seq<int>): (m: seq<int>)
    requires 0 <= at && at + |bs| <= |mem|
    ensures |m| == |mem|
  {
    mem[..at] + bs + mem[at + |bs|..]
  }

  /** The call is not complete at any of these bytes. */
  ghost predicate Incomplete(st: State, bs: seq<int>) {
    forall i :: 0 <= i < |bs| ==>
      !Completes(st, st.thisArg + i + 1, bs[i])
  }

  /** The call is complete once this byte is stored, which makes `next` of them. */
  predicate Completes(st: State, next: int, b: int) {
    next >= st.expected && (!st.hasString || (next > st.expected && b == 0))
  }

  lemma StoreStep(st: State, b: int)
    requires Valid(st) && st.expected > 0 && 0 <= b < 256 && !Completes(st, Wrap8(st.thisArg + 1), b)
    ensures Step(st, b) == (State(st.mem[ARGS + st.thisArg := b], Wrap8(st.thisArg + 1), st.expected, st.hasString), [])
  {
  }

  /** While a call is not complete its bytes are stored in a row. */
  lemma {:induction false} Collect(st: State, bs: seq<int>)
    requires Valid(st) && Bytes(bs) && st.expected > 0 && 0 < st.thisArg && st.thisArg + |bs| <= 127
             && Incomplete(st, bs)
    ensures Feed(st, bs) == (State(Filled(st.mem, ARGS + st.thisArg, bs), st.thisArg + |bs|, st.expected,
            st.hasString), [])
    decreases |bs|
  {
    hide Step, Feed, Filled, Incomplete;
    if bs == [] {
      FeedNone(st);
      FilledNone(st.mem, ARGS + st.thisArg);
    } else {
      var n := |bs| - 1;
      var a, b := bs[..n], bs[n];
      assert bs == a + [b];
      IncompletePart(st, a, b);
      Collect(st, a);
      FeedAppend(st, a, [b]);
      var mid := Feed(st, a).0;
      StoreStep(mid, b);
      FeedOne(mid, b);
      FilledNext(st.mem, ARGS + st.thisArg, a, b);
      assert Feed(st, bs).1 == Feed(st, a).1 + Feed(mid, [b]).1 == [];
    }
  }

  lemma IncompletePart(st: State, a: seq<int>, b: int)
    requires Bytes(a + [b]) && Incomplete(st, a + [b])
    ensures Bytes(a) && 0 <= b < 256 && Incomplete(st, a) && !Completes(st, st.thisArg + |a| + 1, b)
  {
    var bs := a + [b];
    assert bs[|a|] == b && forall i :: 0 <= i < |a| ==> bs[i] == a[i];
  }

  lemma FilledNone(mem: seq<int>, at: int)
    requires 0 <= at <= |mem|
    ensures Filled(mem, at, []) == mem
  {
  }

  lemma FilledNext(mem: seq<int>, at: int, a: seq<int>, b: int)
    requires 0 <= at && at + |a| < |mem|
    ensures at + |a| < |Filled(mem, at, a)| && Filled(mem, at, a)[at + |a| := b] == Filled(mem, at, a + [b])
  {
  }

  lemma CompleteStep(st: State, b: int)
    requires Valid(st) && st.expected > 0 && 0 <= b < 256 && Completes(st, Wrap8(st.thisArg + 1), b)
    ensures var mem := st.mem[ARGS + st.thisArg := b];
            Step(st, b) == (State(mem, Wrap8(st.thisArg + 1), 0, false), [Collected(mem)])
  {
  }

  lemma StartStep(st: State, op: int)
    requires Valid(st) && st.expected == 0 && 0 <= op < OPS
    ensures Step(st, op + 128) ==
            if Info(op).nargs == 0 && !Info(op).hasString then (st, [Call(op, [], [])])
            else (State(st.mem[ARGS := op + 128], 1, Info(op).nargs * 2 + 1, Info(op).hasString), [])
  {
    hide Info;
  }

  lemma {:induction false} StringBack(mem: seq<int>, i: int, str: seq<int>)
    requires 0 <= i && i + |str| < |mem| && mem[i + |str|] == 0
    requires forall k :: 0 <= k < |str| ==> mem[i + k] == str[k] != 0
    ensures StringAt(mem, i) == str
    decreases |str|
  {
    if str != [] {
      assert mem[i + 0] == str[0];
      forall k | 0 <= k < |str| - 1 ensures mem[i + 1 + k] == str[1..][k] != 0 {
        assert mem[i + (k + 1)] == str[k + 1];
      }
      StringBack(mem, i + 1, str[1..]);
    }
  }

  lemma {:induction false} StringEnds(mem: seq<int>, i: int, j: int)
    requires 0 <= i <= j < |mem| && mem[j] == 0
    ensures |StringAt(mem, i)| <= j - i
    decreases j - i
  {
    if i < j && mem[i] != 0 {
      StringEnds(mem, i + 1, j);
    }
  }

  lemma ArgBack(x: int)
    requires IsArg(x)
    ensures Wrap16(x % 256 + x / 256 % 256 * 256) == x
  {
    var h := x / 256;
    assert x == 256 * h + x % 256;
    assert h % 256 == if h < 0 then h + 256 else h;
  }

  /** What follows the operation byte of a call. */
  function Payload(c: Event): seq<int>
    requires c.Call?
  {
    ArgBytes(c.args) + StringBytes(Info(c.op), c.str)
  }

  lemma PayloadParts(c: Event)
    requires c.Call? && Sendable(c)
    ensures Encode(c) == [c.op + 128] + Payload(c) && Bytes(Payload(c))
    ensures |Payload(c)| == 2 * |c.args| + if Info(c.op).hasString then |c.str| + 1 else 0
    ensures forall k :: 0 <= k < |c.args| ==>
              Payload(c)[2 * k] == c.args[k] % 256 && Payload(c)[2 * k + 1] == c.args[k] / 256 % 256
    ensures Info(c.op).hasString ==> Payload(c)[2 * |c.args|..] == c.str + [0]
  {
    hide Info;
    ArgBytesAre(c.args);
  }

  /** The bytes of a call: the operation with the high bit set, every argument with
      its low byte first, and the string with its NUL if the operation has one. */
  lemma CallBytes(c: Event, k: int)
    requires c.Call? && Sendable(c) && 0 <= k < |c.args|
    ensures var b, n := Encode(c), |c.args|;
            && |b| >= 1 + 2 * n && b[0] == c.op + 128
            && b[1 + 2 * k] == c.args[k] % 256 && b[2 + 2 * k] == c.args[k] / 256 % 256
            && b[1 + 2 * n..] == if Info(c.op).hasString then c.str + [0] else []
  {
    hide Info, Sendable;
    PayloadParts(c);
    assert Encode(c)[1 + 2 * |c.args|..] == Payload(c)[2 * |c.args|..];
  }

  lemma ArgsBack(mem: seq<int>, c: Event, k: int)
    requires |mem| == MEMORY && c.Call? && Sendable(c) && |Payload(c)| <= 126 && 0 <= k < |c.args| <= 8
    requires mem[ARGS + 1..ARGS + 1 + |Payload(c)|] == Payload(c)
    ensures Arg(mem, k) == c.args[k]
  {
    hide Info, Payload, Wrap16;
    PayloadParts(c);
    var p := Payload(c);
    assert mem[ARGS + 1 + 2 * k] == mem[ARGS + 1..ARGS + 1 + |p|][2 * k] == p[2 * k];
    assert mem[ARGS + 2 + 2 * k] == mem[ARGS + 1..ARGS + 1 + |p|][2 * k + 1] == p[2 * k + 1];
    ArgBack(c.args[k]);
  }

  lemma StrBack(mem: seq<int>, c: Event)
    requires |mem| == MEMORY && c.Call? && Sendable(c) && |Payload(c)| <= 126 && Info(c.op).hasString
    requires mem[ARGS + 1..ARGS + 1 + |Payload(c)|] == Payload(c)
    ensures StringAt(mem, ARGS + 1 + 2 * |c.args|) == c.str
  {
    hide Info, Payload;
    PayloadParts(c);
    var p, n := Payload(c), 2 * |c.args|;
    var i := ARGS + 1 + n;
    forall k | 0 <= k <= |c.str| ensures mem[i + k] == (c.str + [0])[k] {
      assert mem[i + k] == mem[ARGS + 1..ARGS + 1 + |p|][n + k] == p[n + k] == p[n..][k];
    }
    assert mem[i + |c.str|] == 0;
    assert forall k :: 0 <= k < |c.str| ==> mem[i + k] == (c.str + [0])[k] == c.str[k];
    StringBack(mem, i, c.str);
  }

  /** The memory in which all of a call has been stored gives the call. */
  lemma CollectedBack(mem: seq<int>, c: Event)
    requires |mem| == MEMORY && c.Call? && Sendable(c) && |Payload(c)| <= 126
    requires mem[ARGS] == c.op + 128 && mem[ARGS + 1..ARGS + 1 + |Payload(c)|] == Payload(c)
    ensures Collected(mem) == c
  {
    hide Info, Payload, Arg;
    forall k | 0 <= k < |c.args| ensures Arg(mem, k) == c.args[k] {
      ArgsBack(mem, c, k);
    }
    if Info(c.op).hasString {
      StrBack(mem, c);
    }
  }

  lemma FilledLast(mem: seq<int>, at: int, body: seq<int>, b: int)
    requires 0 < at && at + |body| < |mem|
    ensures var m := Filled(mem, at, body)[at + |body| := b];
            m[at..at + |body| + 1] == body + [b] && m[at - 1] == mem[at - 1]
  {
  }

  lemma DecodePayload(st: State, c: Event)
    requires Valid(st) && c.Call? && Sendable(c) && Fits(c) && (Info(c.op).nargs > 0 || Info(c.op).hasString)
    requires st.thisArg == 1 && st.expected == 2 * |c.args| + 1 && st.hasString == Info(c.op).hasString
    requires st.mem[ARGS] == c.op + 128
    ensures Bytes(Payload(c)) && Feed(st, Payload(c)).1 == [c] && Feed(st, Payload(c)).0.expected == 0
  {
    hide Step, Feed, Payload, Collected, Info, Sendable, Completes, Incomplete, Filled, Fits;
    PayloadParts(c);
    BodyIncomplete(c, st);
    var p := Payload(c);
    var n := |p| - 1;
    var body, b := p[..n], p[n];
    PayloadFits(c);
    Collect(st, body);
    var mid := Feed(st, body).0;
    assert p == body + [b];
    FeedAppend(st, body, [b]);
    LastCompletes(c, mid);
    CompleteStep(mid, b);
    FeedOne(mid, b);
    var mem := mid.mem[ARGS + mid.thisArg := b];
    FilledLast(st.mem, ARGS + 1, body, b);
    CollectedBack(mem, c);
    assert [] + [c] == [c];
  }

  lemma PayloadFits(c: Event)
    requires c.Call? && Sendable(c) && Fits(c)
    ensures |Payload(c)| <= 126
  {
    hide Payload;
    PayloadParts(c);
  }

  /** A call that fits is decoded, whatever the memory held before. */
  lemma DecodeCall(st: State, c: Event)
    requires Valid(st) && st.expected == 0 && c.Call? && Sendable(c) && Fits(c)
    ensures Bytes(Encode(c)) && Feed(st, Encode(c)).1 == [c] && Feed(st, Encode(c)).0.expected == 0
  {
    hide Step, Feed, Payload, Collected, Info;
    PayloadParts(c);
    StartStep(st, c.op);
    FeedOne(st, c.op + 128);
    FeedAppend(st, [c.op + 128], Payload(c));
    if Info(c.op).nargs == 0 && !Info(c.op).hasString {
      assert Payload(c) == [] && c.args == [] && c.str == [];
      FeedNone(st);
    } else {
      DecodePayload(Step(st, c.op + 128).0, c);
      assert [] + [c] == [c];
    }
  }

  lemma BodyIncomplete(c: Event, st: State)
    requires c.Call? && Sendable(c) && (Info(c.op).nargs > 0 || Info(c.op).hasString)
    requires st.thisArg == 1 && st.expected == 2 * |c.args| + 1 && st.hasString == Info(c.op).hasString
    ensures |Payload(c)| > 0 && Incomplete(st, Payload(c)[..|Payload(c)| - 1])
  {
    hide Info, Payload;
    PayloadParts(c);
    var p, n := Payload(c), 2 * |c.args|;
    forall i | 0 <= i < |p| - 1 ensures !Completes(st, st.thisArg + i + 1, p[i]) {
      if st.hasString && i >= n {
        assert p[i] == p[n..][i - n];
      }
    }
  }

  lemma LastCompletes(c: Event, st: State)
    requires c.Call? && Sendable(c) && Fits(c) && (Info(c.op).nargs > 0 || Info(c.op).hasString)
    requires st.thisArg == |Payload(c)| && st.expected == 2 * |c.args| + 1 && st.hasString == Info(c.op).hasString
    ensures |Payload(c)| > 0 && Completes(st, Wrap8(st.thisArg + 1), Payload(c)[|Payload(c)| - 1])
            && |Payload(c)| <= 126
  {
    hide Payload;
    PayloadParts(c);
    var p := Payload(c);
    if st.hasString {
      assert p[|p| - 1] == p[2 * |c.args|..][|c.str|];
    }
  }

  /** A call that does not fit is never the next to be carried out. */
  lemma {:induction false} NeverDecoded(st: State, s: seq<int>, c: Event)
    requires Valid(st) && Bytes(s) && c.Call? && Sendable(c) && !Fits(c)
    requires st.expected == 2 * |c.args| + 1 && st.hasString
    ensures Feed(st, s).1 == [] || Feed(st, s).1[0] != c
    decreases |s|
  {
    hide Step, Collected, Info;
    if s != [] {
      var b, next := s[0], Wrap8(st.thisArg + 1);
      StepValid(st, b);
      if Completes(st, next, b) {
        CompleteStep(st, b);
        var mem := st.mem[ARGS + st.thisArg := b];
        WrongString(mem, st.thisArg, c);
      } else {
        StoreStep(st, b);
        NeverDecoded(Step(st, b).0, s[1..], c);
      }
    }
  }

  lemma WrongString(mem: seq<int>, j: int, c: Event)
    requires |mem| == MEMORY && c.Call? && Sendable(c) && !Fits(c)
    requires 2 * |c.args| + 1 <= j <= 126 && mem[ARGS + j] == 0
    ensures Collected(mem) != c
  {
    hide Info;
    StringEnds(mem, ARGS + 1 + 2 * |c.args|, ARGS + j);
  }

  lemma {:induction false} AllEncodeBytes(es: seq<Event>)
    requires forall i :: 0 <= i < |es| ==> Sendable(es[i])
    ensures Bytes(EncodeAll(es))
    decreases |es|
  {
    hide Sendable, Encode;
    if es != [] {
      EncodeBytes(es[0]);
      AllEncodeBytes(es[1..]);
    }
  }

  /** A stream of events is decoded to exactly these events if and only if every
      call in it fits. */
  lemma {:induction false} StreamExact(st: State, es: seq<Event>)
    requires Valid(st) && st.expected == 0 && forall i :: 0 <= i < |es| ==> Sendable(es[i])
    ensures Bytes(EncodeAll(es))
    ensures Feed(st, EncodeAll(es)).1 == es <==> forall i :: 0 <= i < |es| ==> Fits(es[i])
    decreases |es|
  {
    hide Sendable, Encode, Feed, Step, Fits;
    AllEncodeBytes(es);
    if es == [] {
      FeedNone(st);
    } else {
      var e, rest := es[0], es[1..];
      EncodeBytes(e);
      AllEncodeBytes(rest);
      if Fits(e) {
        DecodeOne(st, e);
        var next := Feed(st, Encode(e)).0;
        FeedAppend(st, Encode(e), EncodeAll(rest));
        StreamExact(next, rest);
        var tail := Feed(next, EncodeAll(rest)).1;
        assert [e] + tail == es <==> tail == rest by {
          assert ([e] + tail)[1..] == tail && es == [e] + rest;
        }
      } else {
        FirstUnfit(st, e, EncodeAll(rest));
      }
    }
  }

  lemma DecodeOne(st: State, e: Event)
    requires Valid(st) && st.expected == 0 && Sendable(e) && Fits(e)
    ensures Bytes(Encode(e)) && Feed(st, Encode(e)).1 == [e]
    ensures Valid(Feed(st, Encode(e)).0) && Feed(st, Encode(e)).0.expected == 0
  {
    hide Feed, Fits;
    EncodeBytes(e);
    FeedValid(st, Encode(e));
    if e.Call? {
      DecodeCall(st, e);
    } else {
      FeedOne(st, e.c);
    }
  }

  lemma FirstUnfit(st: State, c: Event, s: seq<int>)
    requires Valid(st) && st.expected == 0 && Sendable(c) && !Fits(c) && Bytes(s)
    ensures Bytes(Encode(c)) && Bytes(Encode(c) + s)
    ensures Feed(st, Encode(c) + s).1 == [] || Feed(st, Encode(c) + s).1[0] != c
  {
    hide Feed, Step, Info, Payload;
    PayloadParts(c);
    var p := Payload(c) + s;
    assert Encode(c) + s == [c.op + 128] + p;
    StartStep(st, c.op);
    FeedOne(st, c.op + 128);
    FeedAppend(st, [c.op + 128], p);
    NeverDecoded(Step(st, c.op + 128).0, p, c);
    assert [] + Feed(Step(st, c.op + 128).0, p).1 == Feed(Step(st, c.op + 128).0, p).1;
  }

  /** The whole way: what a client sends is what is done for its window, for every
      way of cutting the stream into reads, if and only if every call fits. */
  method Converse(w: Window, es: seq<Event>, chunks: seq<seq<int>>)
    requires Valid(w.Current()) && w.argsExpected == 0 && AllBytes(chunks)
    requires Flatten(chunks) == EncodeAll(es) && forall i :: 0 <= i < |es| ==> Sendable(es[i])
    modifies w`thisArg, w`argsExpected, w`hasString, w`done, w.mem
    ensures w.done == old(w.done) + es <==> forall i :: 0 <= i < |es| ==> Fits(es[i])
  {
    hide Valid, Feed, Sendable, Fits;
    StreamExact(w.Current(), es);
    ghost var out, sofar := Feed(w.Current(), EncodeAll(es)).1, w.done;
    Deliver(w, chunks);
    assert sofar + out == sofar + es <==> out == es by {
      assert (sofar + out)[|sofar|..] == out && (sofar + es)[|sofar|..] == es;
    }
  }
}
