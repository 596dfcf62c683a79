/** Printing and parsing the names of fonts. */
module FontNames {
  import opened CInt

  /** The four faces that a name can show. */
  datatype Face = Face(bold: bool, italic: bool, shadow: bool, fixed: bool)

  const PLAIN := Face(false, false, false, false)

  /** A font name: height is a signed character, rotation a short. */
  datatype Name = Name(family: string, height: int, rotation: int, face: Face)

  predicate IsUpper(c: char) { 'A' <= c <= 'Z' }

  predicate IsLower(c: char) { 'a' <= c <= 'z' }

  predicate IsAlpha(c: char) { IsUpper(c) || IsLower(c) }

  predicate IsDigit(c: char) { '0' <= c <= '9' }

  function ToLower(c: char): char {
    if IsUpper(c) then (c as int + 32) as char else c
  }

  // ----- printing -----

  function Digit(d: int): char
    requires 0 <= d < 10
  {
    ('0' as int + d) as char
  }

  /** %d. */
  function Decimal(n: int): string
    decreases if n < 0 then 1 - n else n
  {
    if n < 0 then "-" + Decimal(-n) else if n < 10 then [Digit(n)] else Decimal(n / 10) + [Digit(n % 10)]
  }

  function FaceLetters(f: Face): string {
    (if f.bold then "b" else "") + (if f.italic then "i" else "") + (if f.fixed then "f" else "")
        + (if f.shadow then "s" else "")
  }

  function RotationLetters(r: int): string {
    if r != 0 then "r" + Decimal(r) else ""
  }

  function Lower(s: string): string {
    seq(|s|, i requires 0 <= i < |s| => ToLower(s[i]))
  }

  function Printed(n: Name): string {
    Lower(n.family + Decimal(n.height) + RotationLetters(n.rotation) + FaceLetters(n.face))
  }

  predicate Shows(f: Face, c: char) {
    (c == 'b' && f.bold) || (c == 'i' && f.italic) || (c == 'f' && f.fixed) || (c == 's' && f.shadow)
  }

  /** The letters of `s` whose face is set. */
  function Selected(s: string, f: Face): string {
    if s == "" then "" else (if Shows(f, s[0]) then [s[0]] else "") + Selected(s[1..], f)
  }

  /** A printed name ends in one letter for each face that is set: bold, italic, fixed
      width and shadow, in that order. */
  lemma FaceOrder(f: Face)
    ensures FaceLetters(f) == Selected("bifs", f)
  {
    hide FaceLetters;
    SelectedStep('b', "ifs", f);
    SelectedStep('i', "fs", f);
    SelectedStep('f', "s", f);
    SelectedStep('s', "", f);
    assert ['b'] + "ifs" == "bifs" && ['i'] + "fs" == "ifs" && ['f'] + "s" == "fs" && ['s'] + "" == "s";
    FaceParts(f);
  }

  lemma SelectedStep(c: char, s: string, f: Face)
    ensures Selected([c] + s, f) == (if Shows(f, c) then [c] else "") + Selected(s, f)
  {
    assert ([c] + s)[1..] == s;
  }

  lemma FaceParts(f: Face)
    ensures FaceLetters(f) == (if f.bold then "b" else "")
                              + ((if f.italic then "i" else "")
                                  + ((if f.fixed then "f" else "") + (if f.shadow then "s" else "")))
  {
  }

  /** Of a font that is not rotated and has no face only family and height are printed;
      the rotation of another one follows the height behind the letter r. */
  lemma PrintedShape(n: Name)
    ensures n.rotation == 0 && n.face == PLAIN ==> Printed(n) == Lower(n.family + Decimal(n.height))
    ensures n.rotation != 0 ==>
              Printed(n) == Lower(n.family + Decimal(n.height) + "r" + Decimal(n.rotation) + FaceLetters(n.face))
  {
    var s := n.family + Decimal(n.height);
    assert s + "" == s;
    if n.rotation != 0 {
      assert s + ("r" + Decimal(n.rotation)) == s + "r" + Decimal(n.rotation);
    }
  }

  /** FormatFontname, whose buffer is the result. */
  method FormatFontname(n: Name) returns (buf: string)
    ensures buf == Printed(n)
  {
    var text := n.family + Decimal(n.height) + RotationLetters(n.rotation) + FaceLetters(n.face);
    buf := text;
    var p := 0;
    while p < |buf|
      invariant 0 <= p <= |buf| == |text|
      invariant forall i :: 0 <= i < p ==> buf[i] == ToLower(text[i])
      invariant forall i :: p <= i < |text| ==> buf[i] == text[i]
    {
      if IsUpper(buf[p]) {
        buf := buf[p := ToLower(buf[p])];
      }
      p := p + 1;
    }
  }

  // ----- parsing -----

  /** The first position from `i` on that holds no letter. */
  function AfterLetters(s: string, i: int): (j: int)
    requires 0 <= i <= |s|
    ensures i <= j <= |s|
    decreases |s| - i
  {
    if i < |s| && IsAlpha(s[i]) then AfterLetters(s, i + 1) else i
  }

  function AfterDigits(s: string, i: int): (j: int)
    requires 0 <= i <= |s|
    ensures i <= j <= |s|
    decreases |s| - i
  {
    if i < |s| && IsDigit(s[i]) then AfterDigits(s, i + 1) else i
  }

  /** The number that the digits from `i` on make `n`, as a value of 8 or 16 bits. */
  function Number8(s: string, i: int, n: int): int
    requires 0 <= i <= |s|
    decreases |s| - i
  {
    if i < |s| && IsDigit(s[i]) then Number8(s, i + 1, Wrap8(n * 10 + (s[i] as int - '0' as int))) else n
  }

  function Number16(s: string, i: int, n: int): int
    requires 0 <= i <= |s|
    decreases |s| - i
  {
    if i < |s| && IsDigit(s[i]) then Number16(s, i + 1, Wrap16(n * 10 + s[i] as int - '0' as int)) else n
  }

  /** What the letters after the height mean. */
  datatype Rest = Rest(rotation: int, face: Face, errors: int)

  function RestOf(s: string, i: int, r: Rest): Rest
    requires 0 <= i <= |s|
    decreases |s| - i
  {
    if i == |s| then r
    else if s[i] == 'r' then RestOf(s, AfterDigits(s, i + 1), r.(rotation := Number16(s, i + 1, r.rotation)))
    else RestOf(s, i + 1, Letter(s[i], r))
  }

  function Letter(c: char, r: Rest): Rest {
    if c == 'b' then r.(face := r.face.(bold := true))
    else if c == 'i' then r.(face := r.face.(italic := true))
    else if c == 'f' then r.(face := r.face.(fixed := true))
    else if c == 's' then r.(face := r.face.(shadow := true))
    else r.(errors := r.errors + 1)
  }

  function Family(s: string): string {
    var k := AfterLetters(s, 0);
    s[..if k < 15 then k else 15]
  }

  function Parsed(s: string): (Name, int) {
    var k := AfterLetters(s, 0);
    var r := RestOf(s, AfterDigits(s, k), Rest(0, PLAIN, 0));
    (Name(Family(s), Number8(s, k, 0), r.rotation, r.face), r.errors)
  }

  /** parsefname. */
  class FontName {
    var family: string
    var height: int
    var rotation: int
    var face: Face

    function Current(): Name
      reads this
    {
      Name(family, height, rotation, face)
    }

    method ParseFamily(s: string) returns (i: int)
      modifies this`family
      ensures i == AfterLetters(s, 0) && family == Family(s)
    {
      family := "";
      i := 0;
      var room := 16;
      while i < |s| && IsAlpha(s[i])
        invariant 0 <= i <= |s| && AfterLetters(s, i) == AfterLetters(s, 0)
        invariant family == s[..if i < 15 then i else 15] && room == 16 - i
      {
        room := room - 1;
        if room > 0 {
          family := family + [s[i]];
        }
        i := i + 1;
      }
    }

    method Parse(s: string) returns (errors: int)
      modifies this
      ensures (Current(), errors) == Parsed(s)
    {
      var i := ParseFamily(s);
      height, rotation := 0, 0;
      while i < |s| && IsDigit(s[i])
        invariant 0 <= i <= |s| && AfterDigits(s, i) == AfterDigits(s, AfterLetters(s, 0))
        invariant Number8(s, i, height) == Number8(s, AfterLetters(s, 0), 0)
        invariant family == Family(s) && rotation == 0
      {
        height := Wrap8(height * 10 + (s[i] as int - '0' as int));
        i := i + 1;
      }
      face, errors := PLAIN, 0;
      while i < |s|
        invariant 0 <= i <= |s| && family == Family(s) && height == Number8(s, AfterLetters(s, 0), 0)
        invariant RestOf(s, i, Rest(rotation, face, errors))
                  == RestOf(s, AfterDigits(s, AfterLetters(s, 0)), Rest(0, PLAIN, 0))
        decreases |s| - i
      {
        var c := s[i];
        i := i + 1;
        match c {
          case 'b' => face := face.(bold := true);
          case 'i' => face := face.(italic := true);
          case 'f' => face := face.(fixed := true);
          case 'r' => i := ParseRotation(s, i);
          case 's' => face := face.(shadow := true);
          case _ => errors := errors + 1;
        }
      }
    }

    method ParseRotation(s: string, from: int) returns (i: int)
      requires 0 <= from <= |s|
      modifies this`rotation
      ensures i == AfterDigits(s, from) && rotation == Number16(s, from, old(rotation))
    {
      i := from;
      while i < |s| && IsDigit(s[i])
        invariant from <= i <= |s| && AfterDigits(s, i) == AfterDigits(s, from)
        invariant Number16(s, i, rotation) == Number16(s, from, old(rotation))
      {
        rotation := Wrap16(rotation * 10 + s[i] as int - '0' as int);
        i := i + 1;
      }
    }
  }

  // ----- parsing what was printed -----

  ghost predicate AllLower(s: string) {
    forall i :: 0 <= i < |s| ==> IsLower(s[i])
  }

  ghost predicate NoUpper(s: string) {
    forall i :: 0 <= i < |s| ==> !IsUpper(s[i])
  }

  lemma LowerIs(s: string)
    ensures NoUpper(Lower(s)) && (NoUpper(s) ==> Lower(s) == s)
  {
  }

  lemma LowerAppend(a: string, b: string)
    ensures Lower(a + b) == Lower(a) + Lower(b)
  {
  }

  /** Decimal notation: a digit stands for itself, and one more digit is ten times as
      much and that digit. */
  lemma DecimalIs(n: int, d: int)
    requires n > 0 && 0 <= d < 10
    ensures Decimal(d) == ["0123456789"[d]]
    ensures Decimal(10 * n + d) == Decimal(n) + ["0123456789"[d]]
    ensures Decimal(-n) == "-" + Decimal(n)
  {
    assert (10 * n + d) / 10 == n;
  }

  lemma {:induction false} DecimalStarts(n: int)
    ensures Decimal(n) != "" && NoUpper(Decimal(n))
    ensures if n < 0 then Decimal(n)[0] == '-' else IsDigit(Decimal(n)[0])
    decreases if n < 0 then 1 - n else n
  {
    if n < 0 {
      DecimalStarts(-n);
    } else if n >= 10 {
      DecimalStarts(n / 10);
    }
  }

  /** Only the family name is affected by the change to lower case. */
  lemma PrintedParts(n: Name)
    ensures Printed(n) == Lower(n.family) + Decimal(n.height) + RotationLetters(n.rotation) + FaceLetters(n.face)
    ensures NoUpper(Printed(n))
  {
    hide Lower, Decimal, FaceLetters;
    var a, b, c, d := n.family, Decimal(n.height), RotationLetters(n.rotation), FaceLetters(n.face);
    DecimalStarts(n.height);
    DecimalStarts(n.rotation);
    FaceLettersAre(n.face);
    LowerAppend(a + b + c, d);
    LowerAppend(a + b, c);
    LowerAppend(a, b);
    LowerIs(b);
    LowerIs(c);
    LowerIs(d);
    LowerIs(a + b + c + d);
  }

  lemma FaceLettersAre(f: Face)
    ensures NoUpper(FaceLetters(f))
    ensures forall i :: 0 <= i < |FaceLetters(f)| ==> !IsDigit(FaceLetters(f)[i]) && FaceLetters(f)[i] != 'r'
  {
  }

  lemma {:induction false} LettersEnd(s: string, i: int, k: int)
    requires 0 <= i <= k < |s| && (forall j :: i <= j < k ==> IsAlpha(s[j])) && !IsAlpha(s[k])
    ensures AfterLetters(s, i) == k
    decreases k - i
  {
    if i < k {
      LettersEnd(s, i + 1, k);
    }
  }

  lemma {:induction false} LettersAre(s: string, i: int)
    requires 0 <= i <= |s|
    ensures forall j :: i <= j < AfterLetters(s, i) ==> IsAlpha(s[j])
    decreases |s| - i
  {
    if i < |s| && IsAlpha(s[i]) {
      LettersAre(s, i + 1);
    }
  }

  /** The digits of a number below 1000. */
  function Digits(n: int): string
    requires 0 <= n < 1000
  {
    if n < 10 then [Digit(n)]
    else if n < 100 then [Digit(n / 10), Digit(n % 10)]
    else [Digit(n / 100), Digit(n / 10 % 10), Digit(n % 10)]
  }

  lemma DigitsAre(n: int)
    requires 0 <= n < 1000
    ensures Decimal(n) == Digits(n)
  {
    if n >= 100 {
      assert n / 10 >= 10 && n / 10 / 10 == n / 100 && n / 100 < 10;
      assert Decimal(n / 10) == Decimal(n / 10 / 10) + [Digit(n / 10 % 10)];
    }
  }

  /** The digits stand from `i` on, and no further digit follows. */
  ghost predicate DigitsAt(s: string, i: int, n: int)
    requires 0 <= n < 1000
  {
    && 0 <= i && i + |Digits(n)| <= |s|
    && (forall j :: 0 <= j < |Digits(n)| ==> s[i + j] == Digits(n)[j])
    && (i + |Digits(n)| < |s| ==> !IsDigit(s[i + |Digits(n)|]))
  }

  lemma NumberBack(s: string, i: int, n: int)
    requires 0 <= n < 1000 && DigitsAt(s, i, n)
    ensures AfterDigits(s, i) == i + |Digits(n)|
    ensures Number16(s, i, 0) == n && (n < 128 ==> Number8(s, i, 0) == n)
  {
    hide AfterDigits, Number8, Number16, Digit;
    var d := Digits(n);
    NumberEnds(s, i + |d|, n);
    assert s[i + 0] == d[0];
    if n < 10 {
      ReadDigit(s, i, 0, n);
    } else if n < 100 {
      assert s[i + 1] == d[1];
      ReadDigit(s, i, 0, n / 10);
      ReadDigit(s, i + 1, n / 10, n % 10);
    } else {
      assert s[i + 1] == d[1] && s[i + 2] == d[2];
      assert n / 10 == n / 100 * 10 + n / 10 % 10;
      ReadDigit(s, i, 0, n / 100);
      ReadDigit(s, i + 1, n / 100, n / 10 % 10);
      ReadDigit(s, i + 2, n / 10, n % 10);
    }
  }

  /** One digit of a number that stays in range. */
  lemma ReadDigit(s: string, i: int, m: int, d: int)
    requires 0 <= i < |s| && 0 <= d < 10 && s[i] == Digit(d) && 0 <= m < 100
    ensures AfterDigits(s, i) == AfterDigits(s, i + 1)
    ensures Number16(s, i, m) == Number16(s, i + 1, m * 10 + d)
    ensures m * 10 + d < 128 ==> Number8(s, i, m) == Number8(s, i + 1, m * 10 + d)
  {
  }

  lemma NumberEnds(s: string, i: int, m: int)
    requires 0 <= i <= |s| && (i < |s| ==> !IsDigit(s[i]))
    ensures AfterDigits(s, i) == i && Number16(s, i, m) == m && Number8(s, i, m) == m
  {
  }

  lemma {:induction false} ErrorsGrow(s: string, i: int, r: Rest)
    requires 0 <= i <= |s|
    ensures RestOf(s, i, r).errors >= r.errors
    decreases |s| - i
  {
    if i < |s| {
      if s[i] == 'r' {
        ErrorsGrow(s, AfterDigits(s, i + 1), r.(rotation := Number16(s, i + 1, r.rotation)));
      } else {
        ErrorsGrow(s, i + 1, Letter(s[i], r));
      }
    }
  }

  /** The character is one of the letters, or a digit of a number. `k` is where the
      height begins. */
  predicate Understood(s: string, k: int, j: int)
    requires 0 <= k <= j < |s|
  {
    s[j] in "bifsr" || (IsDigit(s[j]) && (j == k || s[j - 1] == 'r' || IsDigit(s[j - 1])))
  }

  /** A name is parsed without errors exactly if everything behind the family is
      understood. */
  lemma ParseAccepts(s: string)
    ensures var k := AfterLetters(s, 0);
            Parsed(s).1 == 0 <==> forall j :: k <= j < |s| ==> Understood(s, k, j)
  {
    var k := AfterLetters(s, 0);
    var i := AfterDigits(s, k);
    DigitsUnderstood(s, k, k);
    RestAccepts(s, k, i, Rest(0, PLAIN, 0));
  }

  lemma {:induction false} DigitsUnderstood(s: string, k: int, i: int)
    requires 0 <= k <= i <= |s| && (i == k || s[i - 1] == 'r' || IsDigit(s[i - 1]))
    ensures forall j :: i <= j < AfterDigits(s, i) ==> Understood(s, k, j)
    ensures AfterDigits(s, i) < |s| ==> !IsDigit(s[AfterDigits(s, i)])
    decreases |s| - i
  {
    if i < |s| && IsDigit(s[i]) {
      DigitsUnderstood(s, k, i + 1);
    }
  }

  lemma {:induction false} RestAccepts(s: string, k: int, i: int, r: Rest)
    requires 0 <= k <= i <= |s| && (i < |s| && IsDigit(s[i]) ==> !Understood(s, k, i))
    ensures RestOf(s, i, r).errors == r.errors <==> forall j :: i <= j < |s| ==> Understood(s, k, j)
    decreases |s| - i
  {
    if i < |s| {
      if s[i] == 'r' {
        DigitsUnderstood(s, k, i + 1);
        RestAccepts(s, k, AfterDigits(s, i + 1), r.(rotation := Number16(s, i + 1, r.rotation)));
      } else if Understood(s, k, i) {
        RestAccepts(s, k, i + 1, Letter(s[i], r));
      } else {
        ErrorsGrow(s, i + 1, Letter(s[i], r));
      }
    }
  }

  lemma LetterStep(s: string, i: int, r: Rest)
    requires 0 <= i < |s| && s[i] != 'r'
    ensures RestOf(s, i, r) == RestOf(s, i + 1, Letter(s[i], r))
  {
  }

  lemma FaceBack(s: string, i: int, f: Face, r: Rest)
    requires 0 <= i <= |s| && s[i..] == FaceLetters(f) && r.face == PLAIN
    ensures RestOf(s, i, r) == r.(face := f)
  {
    hide RestOf;
    var j, q := i, r;
    if f.bold {
      assert s[j] == s[i..][0] == 'b';
      LetterStep(s, j, q);
      j, q := j + 1, Letter('b', q);
    }
    if f.italic {
      assert s[j] == s[i..][j - i] == 'i';
      LetterStep(s, j, q);
      j, q := j + 1, Letter('i', q);
    }
    if f.fixed {
      assert s[j] == s[i..][j - i] == 'f';
      LetterStep(s, j, q);
      j, q := j + 1, Letter('f', q);
    }
    if f.shadow {
      assert s[j] == s[i..][j - i] == 's';
      LetterStep(s, j, q);
      j, q := j + 1, Letter('s', q);
    }
    assert j == |s|;
    RestEnds(s, q);
  }

  lemma RestEnds(s: string, r: Rest)
    ensures RestOf(s, |s|, r) == r
  {
  }

  lemma RotationStep(s: string, i: int, r: Rest)
    requires 0 <= i < |s| && s[i] == 'r'
    ensures RestOf(s, i, r) == RestOf(s, AfterDigits(s, i + 1), r.(rotation := Number16(s, i + 1, r.rotation)))
  {
  }

  /** A printed number is where it is looked for. */
  lemma PrintedAt(s: string, i: int, n: int, c: string)
    requires 0 <= n < 1000 && 0 <= i <= |s| && s[i..] == Decimal(n) + c && (c != "" ==> !IsDigit(c[0]))
    ensures DigitsAt(s, i, n) && i + |Digits(n)| <= |s| && s[i + |Digits(n)|..] == c
  {
    DigitsAre(n);
    hide Decimal, Digits;
    var d := Digits(n);
    assert forall j :: 0 <= j < |d| ==> s[i + j] == s[i..][j] == d[j];
    var k := i + |d|;
    assert s[k..] == s[i..][|d|..] == c;
    assert k < |s| ==> s[k] == s[k..][0] == c[0];
  }

  lemma PositiveRotation(s: string, i: int, rotation: int, f: Face)
    requires 0 <= i < |s| && s[i] == 'r' && s[i + 1..] == Decimal(rotation) + FaceLetters(f) && 0 < rotation <= 999
    ensures RestOf(s, i, Rest(0, PLAIN, 0)) == Rest(rotation, f, 0)
  {
    hide RestOf, Decimal, FaceLetters, DigitsAt, AfterDigits, Number16, Digits;
    var r := Rest(0, PLAIN, 0);
    FaceLettersAre(f);
    RotationStep(s, i, r);
    PrintedAt(s, i + 1, rotation, FaceLetters(f));
    NumberBack(s, i + 1, rotation);
    FaceBack(s, i + 1 + |Digits(rotation)|, f, r.(rotation := rotation));
  }

  lemma NegativeRotation(s: string, i: int)
    requires 0 <= i < |s| - 1 && s[i] == 'r' && s[i + 1] == '-'
    ensures RestOf(s, i, Rest(0, PLAIN, 0)).errors > 0
  {
    hide RestOf;
    var r := Rest(0, PLAIN, 0);
    RotationStep(s, i, r);
    NumberEnds(s, i + 1, 0);
    LetterStep(s, i + 1, r);
    ErrorsGrow(s, i + 2, Letter('-', r));
  }

  /** The letters after the height are understood, if the rotation is not negative. */
  lemma RestBack(s: string, i: int, rotation: int, f: Face)
    requires 0 <= i <= |s| && s[i..] == RotationLetters(rotation) + FaceLetters(f) && -99 <= rotation <= 999
    ensures rotation >= 0 ==> RestOf(s, i, Rest(0, PLAIN, 0)) == Rest(rotation, f, 0)
    ensures rotation < 0 ==> RestOf(s, i, Rest(0, PLAIN, 0)).errors > 0
  {
    hide RestOf, Decimal, FaceLetters;
    if rotation == 0 {
      assert s[i..] == FaceLetters(f);
      FaceBack(s, i, f, Rest(0, PLAIN, 0));
    } else {
      var d, c := Decimal(rotation), FaceLetters(f);
      DecimalStarts(rotation);
      assert s[i] == s[i..][0] == 'r';
      assert s[i + 1..] == s[i..][1..] == d + c;
      if rotation > 0 {
        PositiveRotation(s, i, rotation, f);
      } else {
        assert s[i + 1] == s[i + 1..][0] == d[0] == '-';
        NegativeRotation(s, i);
      }
    }
  }

  /** A printed name whose family is made of letters is read part by part. */
  lemma PartsBack(n: Name)
    requires AllLower(n.family) && |n.family| <= 15 && -128 <= n.height < 128 && -99 <= n.rotation <= 999
    ensures Family(Printed(n)) == n.family
    ensures n.height < 0 ==> Parsed(Printed(n)).0.height == 0
    ensures n.height >= 0 && n.rotation >= 0 ==> Parsed(Printed(n)) == (n, 0)
    ensures n.height >= 0 && n.rotation < 0 ==> Parsed(Printed(n)).1 > 0
  {
    hide RestOf, Decimal, FaceLetters, RotationLetters, Lower, Printed, Digits, DigitsAt, AfterDigits, Number16,
         Number8;
    FamilyBack(n);
    var s, k, d := Printed(n), |n.family|, Decimal(n.height);
    var c := RotationLetters(n.rotation) + FaceLetters(n.face);
    DecimalStarts(n.height);
    assert s[k] == s[k..][0] == d[0];
    if n.height >= 0 {
      AfterHeight(n.rotation, n.face);
      PrintedAt(s, k, n.height, c);
      NumberBack(s, k, n.height);
      RestBack(s, k + |Digits(n.height)|, n.rotation, n.face);
    } else {
      NumberEnds(s, k, 0);
    }
  }

  lemma FamilyBack(n: Name)
    requires AllLower(n.family) && |n.family| <= 15
    ensures var s, k := Printed(n), |n.family|;
            && k < |s| && AfterLetters(s, 0) == k && Family(s) == n.family
            && s[k..] == Decimal(n.height) + (RotationLetters(n.rotation) + FaceLetters(n.face))
  {
    hide Decimal, FaceLetters, RotationLetters, Lower, Printed, AfterLetters;
    PrintedParts(n);
    LowerIs(n.family);
    var s, k, d := Printed(n), |n.family|, Decimal(n.height);
    var c := RotationLetters(n.rotation) + FaceLetters(n.face);
    assert s == n.family + (d + c);
    DecimalStarts(n.height);
    assert s[k..] == d + c && s[k] == s[k..][0] == d[0];
    assert forall j :: 0 <= j < k ==> s[j] == n.family[j];
    LettersEnd(s, 0, k);
    assert s[..k] == n.family;
  }

  lemma AfterHeight(rotation: int, f: Face)
    ensures var c := RotationLetters(rotation) + FaceLetters(f); c != "" ==> !IsDigit(c[0])
  {
  }

  /** A name is read back exactly as it was printed, without errors, if and only if
      its family is made of lower-case letters and neither its height nor its
      rotation is negative. The bounds are those of the fields and of the buffers. */
  lemma RoundTripExact(n: Name)
    requires |n.family| <= 15 && -128 <= n.height < 128 && -99 <= n.rotation <= 999
    ensures Parsed(Printed(n)) == (n, 0) <==> AllLower(n.family) && n.height >= 0 && n.rotation >= 0
  {
    hide RestOf, Printed, Number8;
    PrintedParts(n);
    var s := Printed(n);
    LettersAre(s, 0);
    if AllLower(n.family) {
      PartsBack(n);
    } else {
      assert AllLower(Family(s));
    }
  }

  /** Printing in capitals and parsing gives the name in lower case. */
  lemma CapitalsAreLost(n: Name)
    requires |n.family| <= 15 && (forall i :: 0 <= i < |n.family| ==> IsAlpha(n.family[i]))
    requires 0 <= n.height < 128 && 0 <= n.rotation <= 999
    ensures Parsed(Printed(n)) == (n.(family := Lower(n.family)), 0)
  {
    hide RestOf, Printed, Number8, Parsed;
    var m := n.(family := Lower(n.family));
    LowerIs(n.family);
    LowerIs(m.family);
    PrintedParts(n);
    PrintedParts(m);
    PartsBack(m);
  }

  /** The whole way through the two routines. */
  method PrintAndParse(n: Name, f: FontName) returns (errors: int)
    requires |n.family| <= 15 && -128 <= n.height < 128 && -99 <= n.rotation <= 999
    modifies f
    ensures f.Current() == n && errors == 0 <==> AllLower(n.family) && n.height >= 0 && n.rotation >= 0
  {
    RoundTripExact(n);
    var buf := FormatFontname(n);
    errors := f.Parse(buf);
  }
}
