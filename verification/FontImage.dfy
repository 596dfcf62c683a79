/** Packing a font into a file, equal parts only once, and unpacking it. */
module FontImage {
  import opened CInt
  import opened Optional

  /** A short vector. */
  datatype SVector = SVector(x: int, y: int)

  datatype Generic = Generic(spacing: SVector, nwToOrigin: SVector, nToS: SVector, wToE: SVector, wbase: SVector)

  datatype Specific = Specific(kind: int, rows: int, cols: int, orow: int, ocol: int)

  const CHARS := 128
  const BITMAP_ICON := 1

  /** sizeof (struct font), of which the icons are the last part. */
  const HEAD_SIZE := 560
  const ICONS_AT := 48
  const GENERIC_SIZE := 20

  /** The part of a specific record before its bitmap. */
  const SPECIFIC_SIZE := 6

  predicate IsShort(x: int) { -0x8000 <= x < 0x8000 }

  predicate IsVector(v: SVector) { IsShort(v.x) && IsShort(v.y) }

  predicate IsGeneric(g: Generic) {
    IsVector(g.spacing) && IsVector(g.nwToOrigin) && IsVector(g.nToS) && IsVector(g.wToE) && IsVector(g.wbase)
  }

  predicate IsSpecific(s: Specific) {
    -128 <= s.kind < 128 && 0 <= s.rows < 256 && 0 <= s.cols < 256 && -128 <= s.orow < 128 && -128 <= s.ocol < 128
  }

  /** The number of words of a bitmap. */
  function WordCount(s: Specific): int {
    (s.cols + 15) / 16 * s.rows
  }

  // ----- bytes -----

  /** The two bytes of a 16-bit value, the high one first. */
  function Word(x: int): (b: seq<int>) {
    [x / 256 % 256, x % 256]
  }

  function Words(xs: seq<int>): (b: seq<int>)
    ensures |b| == 2 * |xs|
  {
    if xs == [] then [] else Word(xs[0]) + Words(xs[1..])
  }

  /** Memory beyond the file reads as zero. */
  function Peek(file: seq<int>, pos: int): int {
    if 0 <= pos < |file| then file[pos] else 0
  }

  function UnsignedAt(file: seq<int>, pos: int): int {
    Peek(file, pos) * 256 + Peek(file, pos + 1)
  }

  function ShortAt(file: seq<int>, pos: int): int {
    Wrap16(UnsignedAt(file, pos))
  }

  function WordsAt(file: seq<int>, pos: int, n: int): (w: seq<int>)
    ensures n >= 0 ==> |w| == n
    decreases n
  {
    if n <= 0 then [] else [UnsignedAt(file, pos)] + WordsAt(file, pos + 2, n - 1)
  }

  function VectorAt(file: seq<int>, pos: int): SVector {
    SVector(ShortAt(file, pos), ShortAt(file, pos + 2))
  }

  function GenericAt(file: seq<int>, pos: int): Generic {
    Generic(VectorAt(file, pos), VectorAt(file, pos + 4), VectorAt(file, pos + 8), VectorAt(file, pos + 12),
        VectorAt(file, pos + 16))
  }

  function SpecificAt(file: seq<int>, pos: int): Specific {
    Specific(Wrap8(Peek(file, pos)), Peek(file, pos + 1), Peek(file, pos + 2), Wrap8(Peek(file, pos + 3)),
        Wrap8(Peek(file, pos + 4)))
  }

  function VectorBytes(v: SVector): (b: seq<int>)
    ensures |b| == 4
  {
    Word(v.x) + Word(v.y)
  }

  function GenericBytes(g: Generic): (b: seq<int>)
    ensures |b| == GENERIC_SIZE
  {
    VectorBytes(g.spacing) + VectorBytes(g.nwToOrigin) + VectorBytes(g.nToS) + VectorBytes(g.wToE)
        + VectorBytes(g.wbase)
  }

  /** The fields of a specific part, one byte of padding, and the bitmap. */
  function SpecificBytes(s: Specific, words: seq<int>): (b: seq<int>)
    ensures |b| == SPECIFIC_SIZE + 2 * |words|
  {
    [s.kind % 256, s.rows, s.cols, s.orow % 256, s.ocol % 256, 0] + Words(words)
  }

  /** The bytes are in the file from `pos` on. */
  predicate Located(file: seq<int>, pos: int, b: seq<int>) {
    0 <= pos && pos + |b| <= |file| && file[pos..pos + |b|] == b
  }

  lemma LocatedParts(file: seq<int>, pos: int, a: seq<int>, b: seq<int>)
    requires Located(file, pos, a + b)
    ensures Located(file, pos, a) && Located(file, pos + |a|, b)
  {
    assert file[pos..pos + |a|] == file[pos..pos + |a + b|][..|a|];
    assert file[pos + |a|..pos + |a + b|] == file[pos..pos + |a + b|][|a|..];
  }

  lemma LocatedIn(a: seq<int>, b: seq<int>, c: seq<int>, pos: int, r: seq<int>)
    requires Located(b, pos, r)
    ensures Located(a + b + c, |a| + pos, r)
  {
    assert (a + b + c)[|a| + pos..|a| + pos + |r|] == b[pos..pos + |r|];
  }

  lemma Itself(b: seq<int>)
    ensures Located(b, 0, b)
  {
  }

  lemma WordBack(file: seq<int>, pos: int, x: int)
    requires Located(file, pos, Word(x)) && -0x8000 <= x < 0x1_0000
    ensures 0 <= x ==> UnsignedAt(file, pos) == x
    ensures IsShort(x) ==> ShortAt(file, pos) == x
  {
    assert file[pos] == file[pos..pos + 2][0] && file[pos + 1] == file[pos..pos + 2][1];
    var h := x / 256;
    assert x == 256 * h + x % 256;
    assert h == 256 * (h / 256) + h % 256;
    assert h / 256 == if x < 0 then -1 else 0;
    assert UnsignedAt(file, pos) == x - 0x1_0000 * (h / 256);
  }

  lemma VectorBack(file: seq<int>, pos: int, v: SVector)
    requires Located(file, pos, VectorBytes(v)) && IsVector(v)
    ensures VectorAt(file, pos) == v
  {
    hide Located, Word, ShortAt;
    LocatedParts(file, pos, Word(v.x), Word(v.y));
    WordSize(v.x);
    WordBack(file, pos, v.x);
    WordBack(file, pos + 2, v.y);
  }

  lemma WordSize(x: int)
    ensures |Word(x)| == 2
  {
  }

  lemma GenericBack(file: seq<int>, pos: int, g: Generic)
    requires Located(file, pos, GenericBytes(g)) && IsGeneric(g)
    ensures GenericAt(file, pos) == g
  {
    hide Located, VectorBytes, VectorAt;
    var a, b, c, d, e := VectorBytes(g.spacing), VectorBytes(g.nwToOrigin), VectorBytes(g.nToS), VectorBytes(g.wToE),
        VectorBytes(g.wbase);
    LocatedParts(file, pos, a + b + c + d, e);
    LocatedParts(file, pos, a + b + c, d);
    LocatedParts(file, pos, a + b, c);
    LocatedParts(file, pos, a, b);
    VectorBack(file, pos, g.spacing);
    VectorBack(file, pos + 4, g.nwToOrigin);
    VectorBack(file, pos + 8, g.nToS);
    VectorBack(file, pos + 12, g.wToE);
    VectorBack(file, pos + 16, g.wbase);
  }

  /** The layout of a generic record: five vectors of two shorts. */
  lemma GenericPlaces(g: Generic)
    requires IsGeneric(g)
    ensures var b := GenericBytes(g);
            && ShortAt(b, 0) == g.spacing.x && ShortAt(b, 2) == g.spacing.y
            && ShortAt(b, 4) == g.nwToOrigin.x && ShortAt(b, 6) == g.nwToOrigin.y
            && ShortAt(b, 8) == g.nToS.x && ShortAt(b, 10) == g.nToS.y
            && ShortAt(b, 12) == g.wToE.x && ShortAt(b, 14) == g.wToE.y
            && ShortAt(b, 16) == g.wbase.x && ShortAt(b, 18) == g.wbase.y
  {
    hide Located, VectorBytes, ShortAt;
    Itself(GenericBytes(g));
    GenericBack(GenericBytes(g), 0, g);
  }

  predicate AreWords(w: seq<int>) {
    forall i :: 0 <= i < |w| ==> 0 <= w[i] < 0x1_0000
  }

  lemma {:induction false} WordsBack(file: seq<int>, pos: int, w: seq<int>)
    requires Located(file, pos, Words(w)) && AreWords(w)
    ensures WordsAt(file, pos, |w|) == w
    decreases |w|
  {
    hide Located, Word;
    if w != [] {
      LocatedParts(file, pos, Word(w[0]), Words(w[1..]));
      WordSize(w[0]);
      WordBack(file, pos, w[0]);
      WordsBack(file, pos + 2, w[1..]);
    }
  }

  lemma BytesBack(file: seq<int>, pos: int, b: seq<int>, i: int)
    requires Located(file, pos, b) && 0 <= i < |b|
    ensures Peek(file, pos + i) == b[i]
  {
    assert file[pos + i] == file[pos..pos + |b|][i];
  }

  /** Both parts of a specific record can be read back. */
  lemma SpecificBack(file: seq<int>, pos: int, s: Specific, w: seq<int>)
    requires Located(file, pos, SpecificBytes(s, w)) && IsSpecific(s) && AreWords(w) && |w| == WordCount(s)
    ensures SpecificAt(file, pos) == s && WordsAt(file, pos + SPECIFIC_SIZE, WordCount(s)) == w
  {
    hide Located, Peek, Words, WordsAt, WordCount;
    var head := [s.kind % 256, s.rows, s.cols, s.orow % 256, s.ocol % 256, 0];
    LocatedParts(file, pos, head, Words(w));
    WordsBack(file, pos + 6, w);
    BytesBack(file, pos, head, 0);
    BytesBack(file, pos, head, 1);
    BytesBack(file, pos, head, 2);
    BytesBack(file, pos, head, 3);
    BytesBack(file, pos, head, 4);
  }

  /** The layout of a specific record: five bytes, one of padding, and the bitmap. */
  lemma SpecificPlaces(s: Specific, w: seq<int>)
    requires IsSpecific(s) && AreWords(w) && |w| == WordCount(s)
    ensures var b := SpecificBytes(s, w);
            && Wrap8(Peek(b, 0)) == s.kind && Peek(b, 1) == s.rows && Peek(b, 2) == s.cols
            && Wrap8(Peek(b, 3)) == s.orow && Wrap8(Peek(b, 4)) == s.ocol
            && WordsAt(b, 6, WordCount(s)) == w
  {
    hide Located, Peek, Words, WordsAt, WordCount, SpecificBytes;
    Itself(SpecificBytes(s, w));
    SpecificBack(SpecificBytes(s, w), 0, s, w);
  }

  // ----- records that are written once -----

  /** The first record from `d` on and before `c` that equals record `c`, or -1. */
  function FirstMatch(recs: seq<seq<int>>, c: int, d: int): (m: int)
    requires 0 <= d <= c < |recs|
    ensures m == -1 || d <= m < c
    decreases c - d
  {
    if d == c then -1 else if recs[d] == recs[c] then d else FirstMatch(recs, c, d + 1)
  }

  lemma {:induction false} FirstMatchIs(recs: seq<seq<int>>, c: int, d: int)
    requires 0 <= d <= c < |recs|
    ensures var m := FirstMatch(recs, c, d);
            && (m >= 0 ==> recs[m] == recs[c])
            && forall e :: d <= e < (if m < 0 then c else m) ==> recs[e] != recs[c]
    decreases c - d
  {
    if d < c && recs[d] != recs[c] {
      FirstMatchIs(recs, c, d + 1);
    }
  }

  /** The records before the `n`-th that are written: the first of each kind. */
  function Written(recs: seq<seq<int>>, n: int): seq<int>
    requires 0 <= n <= |recs|
  {
    if n == 0 then [] else Written(recs, n - 1) + if FirstMatch(recs, n - 1, 0) < 0 then recs[n - 1] else []
  }

  lemma NoneWritten(recs: seq<seq<int>>)
    ensures Written(recs, 0) == []
  {
  }

  lemma WrittenStep(recs: seq<seq<int>>, c: int)
    requires 0 <= c < |recs|
    ensures |Written(recs, c + 1)| == |Written(recs, c)| + if FirstMatch(recs, c, 0) < 0 then |recs[c]| else 0
  {
    hide FirstMatch;
  }

  /** Where record `c` is: at the end of those written before it, or where the
      equal one is. */
  function Place(recs: seq<seq<int>>, c: int): (p: int)
    requires 0 <= c < |recs|
    ensures p >= 0
    decreases c
  {
    var m := FirstMatch(recs, c, 0);
    if m < 0 then |Written(recs, c)| else Place(recs, m)
  }

  lemma {:induction false} WrittenGrows(recs: seq<seq<int>>, c: int, n: int)
    requires 0 <= c < n <= |recs| && FirstMatch(recs, c, 0) < 0
    ensures Located(Written(recs, n), |Written(recs, c)|, recs[c])
    decreases n
  {
    hide FirstMatch, Located, Written;
    WrittenNext(recs, n - 1);
    var a := Written(recs, n - 1);
    if c < n - 1 {
      WrittenGrows(recs, c, n - 1);
      LocatedBefore(a, if FirstMatch(recs, n - 1, 0) < 0 then recs[n - 1] else [], |Written(recs, c)|, recs[c]);
    } else {
      LocatedLast(a, recs[c]);
    }
  }

  lemma WrittenNext(recs: seq<seq<int>>, n: int)
    requires 0 <= n < |recs|
    ensures Written(recs, n + 1) == Written(recs, n) + if FirstMatch(recs, n, 0) < 0 then recs[n] else []
  {
  }

  lemma LocatedBefore(a: seq<int>, b: seq<int>, at: int, r: seq<int>)
    requires Located(a, at, r)
    ensures Located(a + b, at, r)
  {
    LocatedIn([], a, b, at, r);
    assert [] + a + b == a + b;
  }

  lemma LocatedLast(a: seq<int>, r: seq<int>)
    ensures Located(a + r, |a|, r)
  {
    Itself(r);
    LocatedIn(a, r, [], 0, r);
    assert a + r + [] == a + r;
  }

  /** Every record, shared or not, is found at its place. */
  lemma {:induction false} PlaceHolds(recs: seq<seq<int>>, c: int, n: int)
    requires 0 <= c < n <= |recs|
    ensures Located(Written(recs, n), Place(recs, c), recs[c])
    decreases c
  {
    hide Located, Written, FirstMatch;
    var m := FirstMatch(recs, c, 0);
    FirstMatchIs(recs, c, 0);
    if m < 0 {
      WrittenGrows(recs, c, n);
    } else {
      PlaceHolds(recs, m, n);
    }
  }

  // ----- the file -----

  /** What the file is made from: header bytes, and a record for each character. */
  datatype Font = Font(front: seq<int>, back: seq<int>, generics: seq<seq<int>>, specifics: seq<seq<int>>) {
    predicate Ok() {
      |front| == 40 && |back| == 3 && |generics| == CHARS && |specifics| == CHARS
    }

    function GenericPart(): seq<int>
      requires Ok()
    {
      Written(generics, CHARS)
    }

    /** The file position of the generic record of character `c`. */
    function GenericPlace(c: int): int
      requires Ok() && 0 <= c < CHARS
    {
      HEAD_SIZE + Place(generics, c)
    }

    function SpecificPlace(c: int): int
      requires Ok() && 0 <= c < CHARS
    {
      HEAD_SIZE + |GenericPart()| + Place(specifics, c)
    }

    /** Offsets are relative to the icon, except those of the last character. */
    function ToGeneric(c: int): int
      requires Ok() && 0 <= c < CHARS
    {
      Wrap16(GenericPlace(c) - IconBase(c))
    }

    function ToSpecific(c: int): int
      requires Ok() && 0 <= c < CHARS
    {
      Wrap16(SpecificPlace(c) - IconBase(c))
    }

    function Icons(n: int): (w: seq<int>)
      requires Ok() && 0 <= n <= CHARS
      ensures |w| == 2 * n
    {
      if n == 0 then [] else Icons(n - 1) + [ToGeneric(n - 1), ToSpecific(n - 1)]
    }

    function Head(): (h: seq<int>)
      requires Ok()
      ensures |h| == HEAD_SIZE
    {
      Word(FONTMAGIC) + Word(HEAD_SIZE + |GenericPart()|) + front + [BITMAP_ICON] + back + Words(Icons(CHARS))
    }

    /** The specific record of the last character is not written. */
    function File(): seq<int>
      requires Ok()
    {
      Head() + GenericPart() + Written(specifics, CHARS - 1)
    }
  }

  const FONTMAGIC := 0x1fd

  function IconBase(c: int): int {
    if c < CHARS - 1 then ICONS_AT + 4 * c else 0
  }

  lemma {:induction false} IconAt(f: Font, c: int, n: int)
    requires f.Ok() && 0 <= c < n <= CHARS
    ensures f.Icons(n)[2 * c] == f.ToGeneric(c) && f.Icons(n)[2 * c + 1] == f.ToSpecific(c)
    decreases n
  {
    hide Font.ToGeneric, Font.ToSpecific;
    var a := f.Icons(n - 1);
    if c < n - 1 {
      IconAt(f, c, n - 1);
      assert f.Icons(n)[2 * c] == a[2 * c] && f.Icons(n)[2 * c + 1] == a[2 * c + 1];
    }
  }

  lemma {:induction false} WordAt(w: seq<int>, k: int)
    requires 0 <= k < |w|
    ensures Located(Words(w), 2 * k, Word(w[k]))
    decreases |w|
  {
    if k > 0 {
      WordAt(w[1..], k - 1);
      LocatedIn(Word(w[0]), Words(w[1..]), [], 2 * (k - 1), Word(w[k]));
      assert Word(w[0]) + Words(w[1..]) + [] == Words(w);
    } else {
      assert Words(w)[0..2] == Word(w[0]);
    }
  }

  /** The stored offsets can be read back from the icon. */
  lemma OffsetsBack(f: Font, c: int)
    requires f.Ok() && 0 <= c < CHARS
    ensures ShortAt(f.File(), ICONS_AT + 4 * c) == f.ToGeneric(c)
    ensures ShortAt(f.File(), ICONS_AT + 4 * c + 2) == f.ToSpecific(c)
  {
    hide Located, Written, Place, Words, Word, ShortAt;
    IconAt(f, c, CHARS);
    var w := f.Icons(CHARS);
    WordAt(w, 2 * c);
    WordAt(w, 2 * c + 1);
    WordSize(FONTMAGIC);
    WordSize(HEAD_SIZE + |f.GenericPart()|);
    var start := Word(FONTMAGIC) + Word(HEAD_SIZE + |f.GenericPart()|) + f.front + [BITMAP_ICON] + f.back;
    var rest := f.GenericPart() + Written(f.specifics, CHARS - 1);
    assert f.File() == start + Words(w) + rest;
    LocatedIn(start, Words(w), rest, 4 * c, Word(f.ToGeneric(c)));
    LocatedIn(start, Words(w), rest, 4 * c + 2, Word(f.ToSpecific(c)));
    WordBack(f.File(), ICONS_AT + 4 * c, f.ToGeneric(c));
    WordBack(f.File(), ICONS_AT + 4 * c + 2, f.ToSpecific(c));
  }

  /** The parts of the header are in the file one after the other. */
  lemma HeaderParts(f: Font)
    requires f.Ok()
    ensures Located(f.File(), 0, Word(FONTMAGIC)) && Located(f.File(), 2, Word(HEAD_SIZE + |f.GenericPart()|))
    ensures Located(f.File(), 4, f.front) && Located(f.File(), 44, [BITMAP_ICON]) && Located(f.File(), 45, f.back)
  {
    hide Located, Written, Words, Word, Font.Icons;
    var file, length := f.File(), Word(HEAD_SIZE + |f.GenericPart()|);
    WordSize(FONTMAGIC);
    WordSize(HEAD_SIZE + |f.GenericPart()|);
    Itself(file);
    LocatedParts(file, 0, f.Head() + f.GenericPart(), Written(f.specifics, CHARS - 1));
    LocatedParts(file, 0, f.Head(), f.GenericPart());
    LocatedParts(file, 0, Word(FONTMAGIC) + length + f.front + [BITMAP_ICON] + f.back, Words(f.Icons(CHARS)));
    LocatedParts(file, 0, Word(FONTMAGIC) + length + f.front + [BITMAP_ICON], f.back);
    LocatedParts(file, 0, Word(FONTMAGIC) + length + f.front, [BITMAP_ICON]);
    LocatedParts(file, 0, Word(FONTMAGIC) + length, f.front);
    LocatedParts(file, 0, Word(FONTMAGIC), length);
  }

  /** The header can be read back. */
  lemma HeaderBack(f: Font)
    requires f.Ok()
    ensures ShortAt(f.File(), 0) == FONTMAGIC
    ensures seq(40, i => Peek(f.File(), 4 + i)) == f.front && seq(3, i => Peek(f.File(), 45 + i)) == f.back
  {
    hide Located, Word, ShortAt, Peek, Font.File;
    var file := f.File();
    HeaderParts(f);
    WordBack(file, 0, FONTMAGIC);
    PeekBack(file, 4, f.front);
    PeekBack(file, 45, f.back);
    assert seq(|f.front|, i => Peek(file, 4 + i)) == seq(40, i => Peek(file, 4 + i));
    assert seq(|f.back|, i => Peek(file, 45 + i)) == seq(3, i => Peek(file, 45 + i));
  }

  /** Where things are in the file: the magic number and the length of the part that
      all fonts have in common, the type of the pictures, and for each character the
      two offsets. */
  lemma FilePlaces(f: Font, c: int)
    requires f.Ok() && 0 <= c < CHARS
    ensures Peek(f.File(), 0) == 0x01 && Peek(f.File(), 1) == 0xfd
    ensures ShortAt(f.File(), 2) == Wrap16(560 + |f.GenericPart()|)
    ensures Peek(f.File(), 44) == 1
    ensures ShortAt(f.File(), 48 + 4 * c) == f.ToGeneric(c) && ShortAt(f.File(), 50 + 4 * c) == f.ToSpecific(c)
    ensures |f.Head()| == 560
  {
    hide Located, Written, Words, ShortAt, Peek, Font.Icons, Font.File;
    OffsetsBack(f, c);
    HeaderParts(f);
    BytesBack(f.File(), 0, Word(FONTMAGIC), 0);
    BytesBack(f.File(), 0, Word(FONTMAGIC), 1);
    BytesBack(f.File(), 44, [BITMAP_ICON], 0);
    hide Word;
    WordWraps(f.File(), 2, HEAD_SIZE + |f.GenericPart()|);
  }

  lemma WordWraps(file: seq<int>, pos: int, x: int)
    requires Located(file, pos, Word(x))
    ensures ShortAt(file, pos) == Wrap16(x)
  {
    var h := x / 256;
    BytesBack(file, pos, Word(x), 0);
    BytesBack(file, pos, Word(x), 1);
    hide Wrap16, Located, Peek;
    assert x == 256 * h + x % 256;
    assert h == 256 * (h / 256) + h % 256;
    assert UnsignedAt(file, pos) == x - 0x1_0000 * (h / 256);
    WrapRounds(x, h / 256);
  }

  lemma WrapRounds(x: int, k: int)
    ensures Wrap16(x - 0x1_0000 * k) == Wrap16(x)
  {
    assert (x + 0x8000 - 0x1_0000 * k) % 0x1_0000 == (x + 0x8000) % 0x1_0000;
  }

  lemma PeekBack(file: seq<int>, pos: int, b: seq<int>)
    requires Located(file, pos, b)
    ensures seq(|b|, i => Peek(file, pos + i)) == b
  {
    hide Located, Peek;
    forall i | 0 <= i < |b| ensures Peek(file, pos + i) == b[i] {
      BytesBack(file, pos, b, i);
    }
  }

  /** Every generic record, and every specific one but that of the last character,
      is in the file at its place. */
  lemma RecordsInFile(f: Font, c: int)
    requires f.Ok() && 0 <= c < CHARS
    ensures Located(f.File(), f.GenericPlace(c), f.generics[c])
    ensures c < CHARS - 1 ==> Located(f.File(), f.SpecificPlace(c), f.specifics[c])
  {
    hide Located, Written, Place;
    PlaceHolds(f.generics, c, CHARS);
    LocatedIn(f.Head(), f.GenericPart(), Written(f.specifics, CHARS - 1), Place(f.generics, c), f.generics[c]);
    if c < CHARS - 1 {
      PlaceHolds(f.specifics, c, CHARS - 1);
      var a, b := f.Head() + f.GenericPart(), Written(f.specifics, CHARS - 1);
      LocatedIn(a, b, [], Place(f.specifics, c), f.specifics[c]);
      assert a + b + [] == f.File();
    }
  }

  /** Both offsets of the character fit a short. */
  ghost predicate Fits(f: Font, c: int)
    requires f.Ok() && 0 <= c < CHARS
  {
    f.GenericPlace(c) - IconBase(c) < 0x8000 && f.SpecificPlace(c) - IconBase(c) < 0x8000
  }

  /** The offsets lead from the icon to the records, exactly when they fit. */
  lemma OffsetsLead(f: Font, c: int)
    requires f.Ok() && 0 <= c < CHARS - 1
    ensures var p := ICONS_AT + 4 * c;
            Fits(f, c) <==>
              p + ShortAt(f.File(), p) == f.GenericPlace(c) && p + ShortAt(f.File(), p + 2) == f.SpecificPlace(c)
  {
    hide Written, Place, ShortAt;
    OffsetsBack(f, c);
  }

  lemma {:induction false} WordsAppend(v: seq<int>, w: seq<int>)
    ensures Words(v + w) == Words(v) + Words(w)
    decreases |v|
  {
    hide Word;
    if v == [] {
      assert v + w == w;
    } else {
      assert (v + w)[1..] == v[1..] + w;
      WordsAppend(v[1..], w);
    }
  }

  /** The bytes of one more icon. */
  lemma IconBytes(f: Font, c: int)
    requires f.Ok() && 0 <= c < CHARS
    ensures Words(f.Icons(c + 1)) == Words(f.Icons(c)) + (Word(f.ToGeneric(c)) + Word(f.ToSpecific(c)))
  {
    hide Word, Font.ToGeneric, Font.ToSpecific;
    var a, b := f.ToGeneric(c), f.ToSpecific(c);
    WordsAppend(f.Icons(c), [a, b]);
    assert [a, b][1..] == [b] && [b][1..] == [] && Words([a, b]) == Word(a) + Words([b]) && Words([b]) == Word(b) + [];
  }

  // ----- characters -----

  /** The words of a bitmap; a null pointer stands for none. */
  function WordsOf(bits: Option<seq<int>>): seq<int> {
    if bits.Some? then bits.value else []
  }

  /** A character that can be written: its bitmap has the words that its size asks
      for, and is not null unless that is none. */
  ghost predicate Packable(g: Generic, s: Specific, bits: Option<seq<int>>) {
    IsGeneric(g) && IsSpecific(s) && |WordsOf(bits)| == WordCount(s) && AreWords(WordsOf(bits))
  }

  function SpecificRecord(s: Specific, bits: Option<seq<int>>): seq<int> {
    SpecificBytes(s.(kind := BITMAP_ICON), WordsOf(bits))
  }

  /** Equal generic parts are those whose records are equal. */
  lemma SameGeneric(a: Generic, b: Generic)
    requires IsGeneric(a) && IsGeneric(b)
    ensures a == b <==> GenericBytes(a) == GenericBytes(b)
  {
    hide Located, GenericBytes, GenericAt;
    Itself(GenericBytes(a));
    Itself(GenericBytes(b));
    GenericBack(GenericBytes(a), 0, a);
    GenericBack(GenericBytes(b), 0, b);
  }

  lemma SameSpecific(s: Specific, v: seq<int>, t: Specific, w: seq<int>)
    requires IsSpecific(s) && IsSpecific(t) && AreWords(v) && AreWords(w) && |v| == WordCount(s) && |w| == WordCount(t)
    ensures s == t && v == w <==> SpecificBytes(s, v) == SpecificBytes(t, w)
  {
    hide Located, SpecificBytes, SpecificAt, WordCount, WordsAt;
    Itself(SpecificBytes(s, v));
    Itself(SpecificBytes(t, w));
    SpecificBack(SpecificBytes(s, v), 0, s, v);
    SpecificBack(SpecificBytes(t, w), 0, t, w);
  }

  /** What unpacking finds for an icon: nothing if one of its offsets is zero. */
  datatype Unpacked = Nothing | Found(generic: Generic, specific: Specific, words: seq<int>)

  function Unpack(file: seq<int>, c: int): Unpacked {
    var p := ICONS_AT + 4 * c;
    var g, s := ShortAt(file, p), ShortAt(file, p + 2);
    if s == 0 || g == 0 then Nothing
    else
      var sp := SpecificAt(file, p + s);
      Found(GenericAt(file, p + g), sp, WordsAt(file, p + s + SPECIFIC_SIZE, WordCount(sp)))
  }

  /** Unpacking the packed file gives back every character but the last whose
      offsets fit, whether its parts are shared with other characters or not. */
  lemma UnpackPacked(f: Font, c: int, g: Generic, s: Specific, bits: Option<seq<int>>)
    requires f.Ok() && 0 <= c < CHARS - 1 && Fits(f, c) && Packable(g, s, bits)
    requires f.generics[c] == GenericBytes(g) && f.specifics[c] == SpecificRecord(s, bits)
    ensures Unpack(f.File(), c) == Found(g, s.(kind := BITMAP_ICON), WordsOf(bits))
  {
    hide Located, GenericBytes, GenericAt, SpecificBytes, SpecificAt, WordCount, WordsAt, ShortAt, Written, Place;
    OffsetsLead(f, c);
    RecordsInFile(f, c);
    GenericBack(f.File(), f.GenericPlace(c), g);
    SameCount(s);
    SpecificBack(f.File(), f.SpecificPlace(c), s.(kind := BITMAP_ICON), WordsOf(bits));
    PlacesBeyondHead(f, c);
  }

  lemma SameCount(s: Specific)
    ensures WordCount(s.(kind := BITMAP_ICON)) == WordCount(s)
  {
  }

  lemma PlacesBeyondHead(f: Font, c: int)
    requires f.Ok() && 0 <= c < CHARS
    ensures f.GenericPlace(c) >= HEAD_SIZE && f.SpecificPlace(c) >= HEAD_SIZE
  {
  }

  /** The editor's global tables. */
  class FontEditor {
    const generic: array<Generic>
    const specific: array<Specific>
    const bits: array<Option<seq<int>>>
    const toGeneric: array<int>
    const toSpecific: array<int>
    var front: seq<int>
    var back: seq<int>
    var magic: int
    var nonSpecificLength: int
    var kind: int

    ghost predicate Valid()
      reads this
    {
      && generic.Length == specific.Length == bits.Length == toGeneric.Length == toSpecific.Length == CHARS
      && toGeneric != toSpecific && |front| == 40 && |back| == 3
    }

    ghost function CurrentFont(): (f: Font)
      requires Valid()
      reads this, generic, specific, bits
      ensures f.Ok()
    {
      Font(front, back,
           seq(CHARS, c requires 0 <= c < CHARS && Valid() reads this, generic => GenericBytes(generic[c])),
           seq(CHARS, c requires 0 <= c < CHARS
               && Valid() reads this, specific, bits => SpecificRecord(specific[c], bits[c])))
    }

    ghost predicate AllPackable()
      requires Valid()
      reads this, generic, specific, bits
    {
      forall c :: 0 <= c < CHARS ==> Packable(generic[c], specific[c], bits[c])
    }

    /** The loop that looks for an earlier character with the same generic part. */
    method FindGeneric(c: int) returns (m: int)
      requires Valid() && AllPackable() && 0 <= c < CHARS
      ensures m == FirstMatch(CurrentFont().generics, c, 0)
    {
      hide GenericBytes, SpecificRecord;
      var d := 0;
      while d < c
        invariant 0 <= d <= c && FirstMatch(CurrentFont().generics, c, d) == FirstMatch(CurrentFont().generics, c, 0)
      {
        SameGeneric(generic[d], generic[c]);
        if generic[c] == generic[d] {
          return d;
        }
        d := d + 1;
      }
      return -1;
    }

    /** The loop that looks for an earlier character with the same picture. The
        types of the characters up to `c` have been set. */
    method FindSpecific(c: int) returns (m: int)
      requires Valid() && AllPackable() && 0 <= c < CHARS && forall d :: 0 <= d <= c ==> specific[d].kind == BITMAP_ICON
      ensures m == FirstMatch(CurrentFont().specifics, c, 0)
    {
      hide GenericBytes, SpecificBytes, WordCount, IsGeneric, FirstMatch;
      var d := 0;
      while d < c
        invariant 0 <= d <= c && FirstMatch(CurrentFont().specifics, c, d) == FirstMatch(CurrentFont().specifics, c, 0)
      {
        SameSpecific(specific[d], WordsOf(bits[d]), specific[c], WordsOf(bits[c]));
        SearchStep(CurrentFont().specifics, c, d);
        var n := Differing(c, d);
        if n == 0 && specific[c] == specific[d] {
          return d;
        }
        d := d + 1;
      }
      SearchEnd(CurrentFont().specifics, c);
      return -1;
    }

    lemma SearchStep(recs: seq<seq<int>>, c: int, d: int)
      requires 0 <= d < c < |recs|
      ensures FirstMatch(recs, c, d) == if recs[d] == recs[c] then d else FirstMatch(recs, c, d + 1)
    {
    }

    lemma SearchEnd(recs: seq<seq<int>>, c: int)
      requires 0 <= c < |recs|
      ensures FirstMatch(recs, c, c) == -1
    {
    }

    /** The loop that compares two bitmaps: the number of words left over when it
        stops. Words beyond the second bitmap may be read. */
    method Differing(c: int, d: int) returns (n: int)
      requires Valid() && AllPackable() && 0 <= d < c < CHARS
      ensures WordCount(specific[c]) == WordCount(specific[d]) ==> (n == 0 <==> WordsOf(bits[c]) == WordsOf(bits[d]))
    {
      hide IsGeneric;
      var p1, p2 := bits[c], bits[d];
      n := WordCount(specific[c]);
      if p1.Some? && p2.Some? {
        var k := 0;
        while n > 0 && p1.value[k] == (if k < |p2.value| then p2.value[k] else 0)
          invariant 0 <= n && n + k == |p1.value| && 0 <= k
          invariant k <= |p2.value| ==> p1.value[..k] == p2.value[..k]
        {
          n, k := n - 1, k + 1;
        }
        if WordCount(specific[c]) == WordCount(specific[d]) {
          assert |p1.value| == |p2.value|;
          assert n == 0 ==> p1.value[..k] == p1.value && p2.value[..k] == p2.value;
        }
      }
    }

    /** The loop that fills the match tables and counts the generic parts that are
        written. */
    method MatchAll() returns (matchg: array<int>, matchs: array<int>, uniqueGenerics: int)
      requires Valid() && AllPackable()
      modifies specific
      ensures Valid() && AllPackable() && CurrentFont() == old(CurrentFont())
      ensures forall c :: 0 <= c < CHARS ==> specific[c] == old(specific[c]).(kind := BITMAP_ICON)
      ensures matchg.Length == matchs.Length == CHARS && fresh(matchg) && fresh(matchs) && matchg != matchs
      ensures forall c :: 0 <= c < CHARS ==>
                matchg[c] == FirstMatch(CurrentFont().generics, c, 0)
                    && matchs[c] == FirstMatch(CurrentFont().specifics, c, 0)
      ensures uniqueGenerics * GENERIC_SIZE == |CurrentFont().GenericPart()|
    {
      hide FirstMatch, Packable, SpecificBytes, GenericBytes, Written;
      ghost var f := CurrentFont();
      NoneWritten(f.generics);
      matchg, matchs := new int[CHARS](i => -1), new int[CHARS](i => -1);
      uniqueGenerics := 0;
      var c := 0;
      while c < CHARS
        invariant 0 <= c <= CHARS && AllPackable() && CurrentFont() == f
        invariant forall d :: 0 <= d < c ==> specific[d] == old(specific[d]).(kind := BITMAP_ICON)
        invariant forall d :: c <= d < CHARS ==> specific[d] == old(specific[d])
        invariant forall d :: 0 <= d < c ==>
                    matchg[d] == FirstMatch(f.generics, d, 0) && matchs[d] == FirstMatch(f.specifics, d, 0)
        invariant uniqueGenerics * GENERIC_SIZE == |Written(f.generics, c)|
      {
        var g, s := MatchOne(c);
        WrittenStep(f.generics, c);
        if g < 0 {
          uniqueGenerics := uniqueGenerics + 1;
        }
        matchg[c], matchs[c] := g, s;
        c := c + 1;
      }
    }

    /** The body of the loop. */
    method MatchOne(c: int) returns (g: int, s: int)
      requires Valid() && AllPackable() && 0 <= c < CHARS && forall d :: 0 <= d < c ==> specific[d].kind == BITMAP_ICON
      modifies specific
      ensures AllPackable() && CurrentFont() == old(CurrentFont())
      ensures specific[..] == old(specific[..])[c := old(specific[c]).(kind := BITMAP_ICON)]
      ensures g == FirstMatch(CurrentFont().generics, c, 0) && s == FirstMatch(CurrentFont().specifics, c, 0)
    {
      hide FirstMatch, Packable, SpecificBytes, GenericBytes;
      SetType(c);
      g := FindGeneric(c);
      s := FindSpecific(c);
    }

    method SetType(c: int)
      requires Valid() && AllPackable() && 0 <= c < CHARS
      modifies specific
      ensures AllPackable() && CurrentFont() == old(CurrentFont())
      ensures specific[..] == old(specific[..])[c := old(specific[c]).(kind := BITMAP_ICON)]
    {
      hide SpecificBytes, GenericBytes;
      ghost var f := CurrentFont();
      SameCount(specific[c]);
      specific[c] := specific[c].(kind := BITMAP_ICON);
      assert forall d :: 0 <= d < CHARS ==> CurrentFont().specifics[d] == f.specifics[d];
      assert CurrentFont().specifics == f.specifics && CurrentFont().generics == f.generics;
    }

    /** The loop that assigns file offsets. */
    method AssignOffsets(ghost f: Font, matchg: array<int>, matchs: array<int>, uniqueGenerics: int)
      requires Valid() && AllPackable() && f == CurrentFont()
      requires matchg.Length == matchs.Length == CHARS && matchg !in {toGeneric, toSpecific}
               && matchs !in {toGeneric, toSpecific}
      requires forall c :: 0 <= c < CHARS ==>
                 matchg[c] == FirstMatch(f.generics, c, 0) && matchs[c] == FirstMatch(f.specifics, c, 0)
      requires uniqueGenerics * GENERIC_SIZE == |f.GenericPart()|
      modifies toGeneric, toSpecific, this`nonSpecificLength
      ensures forall c :: 0 <= c < CHARS ==>
                toGeneric[c] == Wrap16(f.GenericPlace(c)) && toSpecific[c] == Wrap16(f.SpecificPlace(c))
      ensures nonSpecificLength == HEAD_SIZE + |f.GenericPart()|
      ensures Valid() && AllPackable() && f == CurrentFont() && specific[..] == old(specific[..])
    {
      hide FirstMatch, SpecificBytes, GenericBytes, Wrap16, Packable, Written, Font.GenericPlace, Font.SpecificPlace;
      NoneWritten(f.generics);
      NoneWritten(f.specifics);
      var curG := HEAD_SIZE;
      var curS := HEAD_SIZE + uniqueGenerics * GENERIC_SIZE;
      var c := 0;
      while c < CHARS
        invariant 0 <= c <= CHARS
        invariant curG == HEAD_SIZE + |Written(f.generics, c)|
        invariant curS == HEAD_SIZE + |f.GenericPart()| + |Written(f.specifics, c)|
        invariant forall d :: 0 <= d < c ==>
                    toGeneric[d] == Wrap16(f.GenericPlace(d)) && toSpecific[d] == Wrap16(f.SpecificPlace(d))
      {
        curG, curS := AssignOne(f, c, matchg[c], matchs[c], curG, curS);
        c := c + 1;
      }
      nonSpecificLength := curG;
    }

    /** The body of the loop. */
    method AssignOne(ghost f: Font, c: int, mg: int, ms: int, g: int, s: int) returns (curG: int, curS: int)
      requires Valid() && AllPackable() && f == CurrentFont() && 0 <= c < CHARS
      requires mg == FirstMatch(f.generics, c, 0) && ms == FirstMatch(f.specifics, c, 0)
      requires g == HEAD_SIZE + |Written(f.generics, c)|
               && s == HEAD_SIZE + |f.GenericPart()| + |Written(f.specifics, c)|
      requires forall d :: 0 <= d < c ==>
                 toGeneric[d] == Wrap16(f.GenericPlace(d)) && toSpecific[d] == Wrap16(f.SpecificPlace(d))
      modifies toGeneric, toSpecific
      ensures curG == HEAD_SIZE + |Written(f.generics, c + 1)|
      ensures curS == HEAD_SIZE + |f.GenericPart()| + |Written(f.specifics, c + 1)|
      ensures toGeneric[..] == old(toGeneric[..])[c := Wrap16(f.GenericPlace(c))]
      ensures toSpecific[..] == old(toSpecific[..])[c := Wrap16(f.SpecificPlace(c))]
    {
      hide FirstMatch, Wrap16, Written, IsGeneric, IsSpecific;
      WrittenStep(f.generics, c);
      WrittenStep(f.specifics, c);
      PlaceStep(f, c);
      curG, curS := g, s;
      if ms >= 0 {
        toSpecific[c] := toSpecific[ms];
      } else {
        toSpecific[c] := Wrap16(curS);
        curS := curS + SPECIFIC_SIZE + WordCount(specific[c]) * 2;
      }
      if mg >= 0 {
        toGeneric[c] := toGeneric[mg];
      } else {
        toGeneric[c] := Wrap16(curG);
        curG := curG + GENERIC_SIZE;
      }
    }

    lemma PlaceStep(f: Font, c: int)
      requires f.Ok() && 0 <= c < CHARS
      ensures var m := FirstMatch(f.generics, c, 0);
              f.GenericPlace(c) == if m < 0 then HEAD_SIZE + |Written(f.generics, c)| else f.GenericPlace(m)
      ensures var m := FirstMatch(f.specifics, c, 0);
              f.SpecificPlace(c) ==
              if m < 0 then HEAD_SIZE + |f.GenericPart()| + |Written(f.specifics, c)| else f.SpecificPlace(m)
    {
      hide FirstMatch, Written;
    }

    /** The loop that makes the offsets relative. */
    method RelateOffsets(ghost f: Font)
      requires Valid() && AllPackable() && f == CurrentFont()
      requires forall c :: 0 <= c < CHARS ==>
                 toGeneric[c] == Wrap16(f.GenericPlace(c)) && toSpecific[c] == Wrap16(f.SpecificPlace(c))
      modifies toGeneric, toSpecific
      ensures forall c :: 0 <= c < CHARS ==> toGeneric[c] == f.ToGeneric(c) && toSpecific[c] == f.ToSpecific(c)
      ensures Valid() && AllPackable() && f == CurrentFont() && specific[..] == old(specific[..])
    {
      hide Wrap16, Font.GenericPlace, Font.SpecificPlace;
      var c := 0;
      while c < CHARS - 1
        invariant 0 <= c <= CHARS - 1
        invariant forall d :: 0 <= d < c ==> toGeneric[d] == f.ToGeneric(d) && toSpecific[d] == f.ToSpecific(d)
        invariant forall d :: c <= d < CHARS ==>
                    toGeneric[d] == Wrap16(f.GenericPlace(d)) && toSpecific[d] == Wrap16(f.SpecificPlace(d))
      {
        var offset := ICONS_AT + 4 * c;
        WrapTwice(f.GenericPlace(c), offset);
        WrapTwice(f.SpecificPlace(c), offset);
        toSpecific[c] := Wrap16(toSpecific[c] - offset);
        toGeneric[c] := Wrap16(toGeneric[c] - offset);
        c := c + 1;
      }
      WrapLast(f);
    }

    lemma WrapTwice(x: int, offset: int)
      ensures Wrap16(Wrap16(x) - offset) == Wrap16(x - offset)
    {
    }

    lemma WrapLast(f: Font)
      requires f.Ok()
      ensures f.ToGeneric(CHARS - 1) == Wrap16(f.GenericPlace(CHARS - 1))
              && f.ToSpecific(CHARS - 1) == Wrap16(f.SpecificPlace(CHARS - 1))
    {
    }

    /** The header as it lies in memory. */
    method HeadBytes(ghost f: Font) returns (file: seq<int>)
      requires Valid() && f.Ok() && front == f.front && back == f.back && magic == FONTMAGIC && kind == BITMAP_ICON
      requires nonSpecificLength == HEAD_SIZE + |f.GenericPart()|
      requires forall c :: 0 <= c < CHARS ==> toGeneric[c] == f.ToGeneric(c) && toSpecific[c] == f.ToSpecific(c)
      ensures file == f.Head()
    {
      hide Word, Words, Font.ToGeneric, Font.ToSpecific, Font.GenericPart;
      var icons := [];
      NoIcons(f);
      var c := 0;
      while c < CHARS
        invariant 0 <= c <= CHARS && icons == Words(f.Icons(c))
      {
        IconBytes(f, c);
        icons := icons + (Word(toGeneric[c]) + Word(toSpecific[c]));
        c := c + 1;
      }
      file := Word(magic) + Word(nonSpecificLength) + front + [kind] + back + icons;
    }

    lemma NoIcons(f: Font)
      requires f.Ok()
      ensures Words(f.Icons(0)) == []
    {
    }

    /** Everything that is written. */
    method WriteFile(ghost f: Font, matchg: array<int>, matchs: array<int>) returns (file: seq<int>)
      requires Valid() && f == CurrentFont() && magic == FONTMAGIC && kind == BITMAP_ICON
      requires forall c :: 0 <= c < CHARS ==> specific[c].kind == BITMAP_ICON
      requires nonSpecificLength == HEAD_SIZE + |f.GenericPart()|
      requires forall c :: 0 <= c < CHARS ==> toGeneric[c] == f.ToGeneric(c) && toSpecific[c] == f.ToSpecific(c)
      requires matchg.Length == matchs.Length == CHARS
      requires forall c :: 0 <= c < CHARS ==>
                 matchg[c] == FirstMatch(f.generics, c, 0) && matchs[c] == FirstMatch(f.specifics, c, 0)
      ensures file == f.File()
    {
      hide FirstMatch, SpecificBytes, GenericBytes, Font.ToGeneric, Font.ToSpecific, Font.Head;
      file := HeadBytes(f);
      var head := file;
      assert head + Written(f.generics, 0) == file;
      var c := 0;
      while c < CHARS
        invariant 0 <= c <= CHARS && file == head + Written(f.generics, c)
      {
        if matchg[c] < 0 {
          Assoc(head, Written(f.generics, c), GenericBytes(generic[c]));
          file := file + GenericBytes(generic[c]);
        }
        c := c + 1;
      }
      ghost var both := file;
      assert both + Written(f.specifics, 0) == file;
      c := 0;
      while c < CHARS - 1
        invariant 0 <= c <= CHARS - 1 && file == both + Written(f.specifics, c)
      {
        if matchs[c] < 0 {
          Assoc(both, Written(f.specifics, c), SpecificBytes(specific[c], WordsOf(bits[c])));
          file := file + SpecificBytes(specific[c], WordsOf(bits[c]));
        }
        c := c + 1;
      }
    }

    lemma Assoc(a: seq<int>, b: seq<int>, c: seq<int>)
      ensures (a + b) + c == a + (b + c)
    {
    }

    /** Packs the font: the file is the header, each generic part once and each
        picture once, as the specification lays them out. */
    method ImplodeFont() returns (file: seq<int>)
      requires Valid() && AllPackable()
      modifies specific, toGeneric, toSpecific, this`magic, this`kind, this`nonSpecificLength
      ensures Valid() && AllPackable() && CurrentFont() == old(CurrentFont())
      ensures file == CurrentFont().File()
      ensures forall c :: 0 <= c < CHARS ==> specific[c] == old(specific[c]).(kind := BITMAP_ICON)
    {
      hide FirstMatch, Packable, Font.ToGeneric, Font.ToSpecific, Font.GenericPlace, Font.SpecificPlace, Font.File;
      magic, kind := FONTMAGIC, BITMAP_ICON;
      ghost var f := CurrentFont();
      var matchg, matchs, uniqueGenerics := MatchAll();
      hide FontEditor.AllPackable, FontEditor.CurrentFont;
      AssignOffsets(f, matchg, matchs, uniqueGenerics);
      RelateOffsets(f);
      assert forall c :: 0 <= c < CHARS ==> specific[c] == specific[..][c];
      file := WriteFile(f, matchg, matchs);
    }

    /** Unpacks a file: all characters but the last. */
    method ExplodeFont(file: seq<int>)
      requires Valid()
      modifies this`magic, this`nonSpecificLength, this`kind, this`front, this`back, generic, specific, bits
      ensures Valid()
      ensures magic == ShortAt(file, 0) && nonSpecificLength == ShortAt(file, 2)
      ensures front == seq(40, i => Peek(file, 4 + i)) && back == seq(3, i => Peek(file, 45 + i))
      ensures forall c :: 0 <= c < CHARS - 1 ==>
                match Unpack(file, c) {
                  case Nothing =>
                    generic[c] == ZERO_GENERIC && specific[c] == ZERO_SPECIFIC && bits[c] == None
                  case Found(g, s, w) => generic[c] == g && specific[c] == s && bits[c] == Some(w)
                }
      ensures generic[CHARS - 1] == old(generic[CHARS - 1]) && specific[CHARS - 1] == old(specific[CHARS - 1])
      ensures bits[CHARS - 1] == old(bits[CHARS - 1])
    {
      hide ShortAt, Peek, GenericAt, SpecificAt, WordsAt, WordCount;
      magic, nonSpecificLength, kind := ShortAt(file, 0), ShortAt(file, 2), Peek(file, 44);
      front, back := seq(40, i => Peek(file, 4 + i)), seq(3, i => Peek(file, 45 + i));
      var c := 0;
      while c < CHARS - 1
        invariant 0 <= c <= CHARS - 1
        invariant forall d :: 0 <= d < c ==>
                    match Unpack(file, d) {
                      case Nothing =>
                        generic[d] == ZERO_GENERIC && specific[d] == ZERO_SPECIFIC && bits[d] == None
                      case Found(g, s, w) => generic[d] == g && specific[d] == s && bits[d] == Some(w)
                    }
        invariant generic[CHARS - 1] == old(generic[CHARS - 1]) && specific[CHARS - 1] == old(specific[CHARS - 1])
        invariant bits[CHARS - 1] == old(bits[CHARS - 1])
        modifies generic, specific, bits
      {
        var p := ICONS_AT + 4 * c;
        var og, os := ShortAt(file, p), ShortAt(file, p + 2);
        if os != 0 && og != 0 {
          generic[c] := GenericAt(file, p + og);
          specific[c] := SpecificAt(file, p + os);
          bits[c] := Some(WordsAt(file, p + os + SPECIFIC_SIZE, WordCount(specific[c])));
        } else {
          generic[c], specific[c], bits[c] := ZERO_GENERIC, ZERO_SPECIFIC, None;
        }
        c := c + 1;
      }
    }

    /** Packing and unpacking again changes no character whose offsets fit, but for
        the type of its picture, which is set. */
    method PackAndUnpack() returns (file: seq<int>)
      requires Valid() && AllPackable()
      modifies this, generic, specific, bits, toGeneric, toSpecific
      ensures Valid() && file == old(CurrentFont()).File()
      ensures magic == FONTMAGIC && front == old(front) && back == old(back)
      ensures forall c :: 0 <= c < CHARS - 1 && Fits(old(CurrentFont()), c) ==>
                && generic[c] == old(generic[c])
                && specific[c] == old(specific[c]).(kind := BITMAP_ICON)
                && WordsOf(bits[c]) == old(WordsOf(bits[c]))
    {
      hide FirstMatch, Packable, Font.ToGeneric, Font.ToSpecific, Font.GenericPlace, Font.SpecificPlace, Font.File,
           Fits, Unpack;
      hide SpecificBytes, GenericBytes;
      ghost var f := CurrentFont();
      file := ImplodeFont();
      ghost var gs, ss, bs := generic[..], specific[..], bits[..];
      ExplodeFont(file);
      HeaderBack(f);
      forall c | 0 <= c < CHARS - 1 && Fits(f, c)
        ensures generic[c] == gs[c] && specific[c] == ss[c] && WordsOf(bits[c]) == WordsOf(bs[c])
      {
        UnpackPacked(f, c, gs[c], ss[c], bs[c]);
      }
    }
  }

  const ZERO_GENERIC := Generic(SVector(0, 0), SVector(0, 0), SVector(0, 0), SVector(0, 0), SVector(0, 0))
  const ZERO_SPECIFIC := Specific(0, 0, 0, 0, 0)
}
