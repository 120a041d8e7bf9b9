/** The leaf normalizers of the financial reconciliation: the numeric cleaner, the text
    extractor, the CAD classifier and the target-column resolver
    (functions.py, `clean_numeric_value` … `is_cad_currency`). */
module FinancialFields {
  import opened Strings
  import opened Cells

  // ---------------------------------------------------------------- numbers

  /** The accounting convention: the whole (stripped) text is wrapped in parentheses. */
  predicate Parenthesized(t: string)
  {
    |t| > 0 && t[0] == '(' && t[|t| - 1] == ')'
  }

  /** The text with the wrapping parentheses removed, if it has them. */
  function Unwrapped(t: string): (r: string)
    ensures Keep(r, IsNumChar) == Keep(t, IsNumChar)
  {
    if Parenthesized(t) then
      var r := t[1..|t| - 1];
      assert t == [t[0]] + r + [t[|t| - 1]];
      KeepAppend([t[0]] + r, [t[|t| - 1]], IsNumChar);
      KeepAppend([t[0]], r, IsNumChar);
      r
    else t
  }

  /** The value of a string of decimal digits, read most significant first. */
  function DigitsValue(s: string): (n: nat)
    requires AllIn(s, IsDigit)
  {
    if s == [] then 0
    else
      var init := s[..|s| - 1];
      assert forall i :: 0 <= i < |init| ==> init[i] == s[i];
      assert IsDigit(s[|s| - 1]);
      10 * DigitsValue(init) + (s[|s| - 1] as int - '0' as int)
  }

  /** The value of the digits after the decimal point, `0.d1d2…`, read from the right. */
  function FractionValue(s: string): (x: real)
    requires AllIn(s, IsDigit)
    ensures 0.0 <= x < 1.0
  {
    if s == [] then 0.0
    else
      assert IsDigit(s[0]);
      assert forall i :: 0 <= i < |s| - 1 ==> s[1..][i] == s[i + 1];
      ((s[0] as int - '0' as int) as real + FractionValue(s[1..])) / 10.0
  }

  /** The position of the first '.' of `s`, or `|s|` when there is none. */
  function FindDot(s: string): (k: nat)
    ensures k <= |s|
    ensures forall i :: 0 <= i < k ==> s[i] != '.'
    ensures k < |s| ==> s[k] == '.'
  {
    if s == [] || s[0] == '.' then 0 else 1 + FindDot(s[1..])
  }

  /** A string of digits and dots without a dot is a string of digits. */
  lemma DotFreeIsDigits(s: string)
    requires AllIn(s, IsNumChar)
    requires forall i :: 0 <= i < |s| ==> s[i] != '.'
    ensures AllIn(s, IsDigit)
  {
  }

  /** Python's `float()` applied to a string made only of digits and dots: digits, at most one
      '.', more digits, and at least one digit overall. */
  function ParseDecimal(s: string): (r: Option<real>)
    requires AllIn(s, IsNumChar)
    ensures r.Some? ==> r.value >= 0.0
  {
    var k := FindDot(s);
    if k == |s| then
      DotFreeIsDigits(s);
      if s == [] then None else Some(DigitsValue(s) as real)
    else
      var whole := s[..k];
      var frac := s[k + 1..];
      if FindDot(frac) < |frac| || (whole == [] && frac == []) then None
      else
        DotFreeIsDigits(whole);
        assert forall i :: 0 <= i < |frac| ==> frac[i] == s[k + 1 + i];
        DotFreeIsDigits(frac);
        Some(DigitsValue(whole) as real + FractionValue(frac))
  }

  /** Filtering text split around position `k`. */
  lemma KeepAround(s: string, k: nat, p: char -> bool)
    requires k < |s|
    ensures Keep(s, p) == Keep(s[..k], p) + ((if p(s[k]) then [s[k]] else []) + Keep(s[k + 1..], p))
  {
    assert s == s[..k] + ([s[k]] + s[k + 1..]);
    KeepAppend(s[..k], [s[k]] + s[k + 1..], p);
    KeepAppend([s[k]], s[k + 1..], p);
    KeepSingle(s[k], p);
  }

  /** `float()` succeeds exactly when there is a digit and at most one '.'. */
  lemma ParseDecimalDefined(s: string)
    requires AllIn(s, IsNumChar)
    ensures ParseDecimal(s).Some? <==> |Keep(s, IsDigit)| > 0 && |Keep(s, IsDot)| <= 1
  {
    var k := FindDot(s);
    if k == |s| {
      DotFreeIsDigits(s);
      KeepAll(s, IsDigit);
      KeepNone(s, IsDot);
    } else {
      var whole := s[..k];
      var frac := s[k + 1..];
      assert AllIn(frac, IsNumChar);
      assert Keep(whole, IsDigit) == whole && Keep(whole, IsDot) == [] by {
        DotFreeIsDigits(whole);
        KeepAll(whole, IsDigit);
        KeepNone(whole, IsDot);
      }
      KeepAround(s, k, IsDigit);
      KeepAround(s, k, IsDot);
      var j := FindDot(frac);
      if j < |frac| {
        KeepMember(frac, IsDot, j);
      } else {
        DotFreeIsDigits(frac);
        KeepAll(frac, IsDigit);
        KeepNone(frac, IsDot);
      }
    }
  }

  /** `d * 10^n`. */
  function Scale(d: int, n: nat): int
  {
    if n == 0 then d else 10 * Scale(d, n - 1)
  }

  /** `v / 10^n`. */
  function Shift(v: real, n: nat): real
  {
    if n == 0 then v else Shift(v, n - 1) / 10.0
  }

  /** `Shift` is division by `10^n`. */
  lemma {:induction false} ShiftDivides(v: real, n: nat)
    ensures Shift(v, n) * Scale(1, n) as real == v
  {
    if n > 0 {
      ShiftDivides(v, n - 1);
      var x, p := Shift(v, n - 1), Scale(1, n - 1) as real;
      assert (x / 10.0) * (10.0 * p) == x * p;
    }
  }

  /** Shifting undoes scaling. */
  lemma {:induction false} ShiftScale(d: int, n: nat)
    ensures Shift(Scale(d, n) as real, n) == d as real
  {
    if n > 0 {
      ShiftScale(d, n - 1);
      ShiftTen(Scale(d, n - 1) as real, n - 1);
    }
  }

  lemma {:induction false} ShiftTen(v: real, n: nat)
    ensures Shift(10.0 * v, n + 1) == Shift(v, n)
  {
    if n > 0 {
      ShiftTen(v, n - 1);
    }
  }

  /** Shifting distributes over a sum. */
  lemma {:induction false} ShiftAdd(a: real, b: real, n: nat)
    ensures Shift(a + b, n) == Shift(a, n) + Shift(b, n)
  {
    if n > 0 {
      ShiftAdd(a, b, n - 1);
    }
  }

  /** Reading a digit string from the left: the first digit weighs `10^|t|`. */
  lemma {:induction false} DigitsValueCons(c: char, t: string)
    requires IsDigit(c) && AllIn(t, IsDigit)
    ensures AllIn([c] + t, IsDigit)
    ensures DigitsValue([c] + t) == Scale(c as int - '0' as int, |t|) + DigitsValue(t)
    decreases |t|
  {
    if t != [] {
      var u, init := [c] + t, t[..|t| - 1];
      assert AllIn(init, IsDigit);
      assert u[..|u| - 1] == [c] + init && u[|u| - 1] == t[|t| - 1];
      DigitsValueCons(c, init);
    }
  }

  /** The fraction digits `f` are worth `DigitsValue(f) / 10^|f|`. */
  lemma {:induction false} FractionValueShift(s: string)
    requires AllIn(s, IsDigit)
    ensures FractionValue(s) == Shift(DigitsValue(s) as real, |s|)
    decreases |s|
  {
    if s != [] {
      var t := s[1..];
      assert s == [s[0]] + t;
      assert AllIn(t, IsDigit);
      FractionValueShift(t);
      DigitsValueCons(s[0], t);
      var d := s[0] as int - '0' as int;
      ShiftScale(d, |t|);
      ShiftAdd(Scale(d, |t|) as real, DigitsValue(t) as real, |t|);
    }
  }

  /** A non-empty digit string parses to its value. */
  lemma {:induction false} ParseDecimalWhole(w: string)
    requires AllIn(w, IsDigit) && w != []
    ensures AllIn(w, IsNumChar) && ParseDecimal(w) == Some(DigitsValue(w) as real)
  {
    assert FindDot(w) == |w|;
  }

  /** Digits, a point and more digits parse to the whole part plus the fraction digits'
      value over `10^|f|`. */
  lemma {:induction false} ParseDecimalPoint(w: string, f: string)
    requires AllIn(w, IsDigit) && AllIn(f, IsDigit) && (w != [] || f != [])
    ensures AllIn(w + "." + f, IsNumChar)
    ensures ParseDecimal(w + "." + f) == Some(DigitsValue(w) as real + Shift(DigitsValue(f) as real, |f|))
  {
    var s := w + "." + f;
    var k := FindDot(s);
    assert s[|w|] == '.';
    assert k == |w|;
    assert s[..k] == w && s[k + 1..] == f;
    assert FindDot(f) == |f|;

    FractionValueShift(f);
  }

  /** A worked case: "1234.50" reads as 1234.5. */
  lemma ParseDecimalExample()
    ensures ParseDecimal("1234.50") == Some(1234.5)
  {
    var w, f := "1234", "50";
    assert w + "." + f == "1234.50";
    assert AllIn(w, IsDigit) && AllIn(f, IsDigit);
    assert DigitsValue(w) == 1234 by {
      assert w[..3] == "123" && "123"[..2] == "12" && "12"[..1] == "1" && "1"[..0] == "";
    }
    assert DigitsValue(f) == 50 by {
      assert f[..1] == "5" && "5"[..0] == "";
    }
    assert Shift(50.0, 2) == 0.5 by {
      assert Shift(50.0, 1) == 5.0;
    }
    ParseDecimalPoint(w, f);
  }

  /** `clean_numeric_value`: missing stays missing, a number passes through, text is parsed. */
  function CleanNumeric(v: Cell): (r: Cell)
    ensures !r.Str?
    ensures v.Missing? ==> r.Missing?
    ensures v.Num? ==> r == v
  {
    match v
    case Missing => Missing
    case Num(x) => Num(x)
    case Str(s) => CleanNumericText(s)
  }

  /** The text branch of `clean_numeric_value`: strip, note and remove wrapping parentheses,
      keep only digits and dots, parse, and negate if the parentheses were there. */
  function CleanNumericText(s: string): (r: Cell)
    ensures !r.Str?
  {
    var t := Strip(s);
    var residue := Keep(Unwrapped(t), IsNumChar);
    if residue == [] then Missing
    else
      match ParseDecimal(residue)
      case None => Missing
      case Some(x) => Num(if Parenthesized(t) then -x else x)
  }

  /** What gets parsed is exactly the digits and dots of the whole input, in order. */
  lemma ResidueIsFilter(s: string)
    ensures Keep(Unwrapped(Strip(s)), IsNumChar) == Keep(s, IsNumChar)
  {
    KeepStrip(s, IsNumChar);
  }

  /** Text gives missing exactly when it has no digit or has more than one '.'. */
  lemma CleanNumericMissingIff(s: string)
    ensures CleanNumeric(Str(s)).Missing? <==> |Keep(s, IsDigit)| == 0 || |Keep(s, IsDot)| > 1
  {
    CleanNumericSign(s);
    var residue := Keep(s, IsNumChar);
    assert Keep(residue, IsDigit) == Keep(s, IsDigit) by { KeepKeep(s, IsDigit, IsNumChar); }
    assert Keep(residue, IsDot) == Keep(s, IsDot) by { KeepKeep(s, IsDot, IsNumChar); }
    if residue != [] {
      ParseDecimalDefined(residue);
    }
  }

  /** The parse of the digits and dots of `s`, with no sign. */
  function Unsigned(s: string): (r: Cell)
    ensures !r.Str?
    ensures r.Num? ==> r.r >= 0.0
  {
    var residue := Keep(s, IsNumChar);
    if residue == [] then Missing
    else
      match ParseDecimal(residue)
      case None => Missing
      case Some(x) => Num(x)
  }

  function Negated(c: Cell): Cell
  {
    if c.Num? then Num(-c.r) else c
  }

  /** The sign comes only from parentheses around the whole stripped text, and the magnitude
      from the digits and dots of the whole input: a leading '-' or parentheses inside the
      text change nothing. */
  lemma CleanNumericSign(s: string)
    ensures CleanNumeric(Str(s)) == if Parenthesized(Strip(s)) then Negated(Unsigned(s)) else Unsigned(s)
  {
    ResidueIsFilter(s);
  }

  /** The absolute value of a numeric cell; other cells unchanged. */
  function Magnitude(c: Cell): Cell
  {
    if c.Num? && c.r < 0.0 then Num(-c.r) else c
  }

  lemma UnsignedSkipsMinus(s: string)
    ensures Unsigned("-" + s) == Unsigned(s)
  {
    KeepAppend("-", s, IsNumChar);
    KeepNone("-", IsNumChar);
    assert Keep("-" + s, IsNumChar) == Keep(s, IsNumChar);
  }

  /** A leading minus sign is discarded: "-5" cleans to 5, and "-(5)" to 5 as well. */
  lemma LeadingMinusIgnored(s: string)
    ensures CleanNumeric(Str("-" + s)) == Magnitude(CleanNumeric(Str(s)))
  {
    var m := "-" + s;
    assert !Parenthesized(Strip(m)) by { assert Strip(m)[0] == '-'; }
    CleanNumericSign(s);
    CleanNumericSign(m);
    UnsignedSkipsMinus(s);
  }

  // ---------------------------------------------------------------- text

  /** Not a digit, a '.' or a parenthesis: what survives `re.sub(r'[\d\.\(\)]', '', s)`. */
  predicate NotNoise(ch: char) { !IsDigit(ch) && ch != '.' && ch != '(' && ch != ')' }

  /** Only letters and single spaces, with no space at either end. */
  predicate SingleSpaced(r: string)
  {
    && (forall i :: 0 <= i < |r| ==> IsLetter(r[i]) || r[i] == ' ')
    && (r != [] ==> r[0] != ' ' && r[|r| - 1] != ' ')
    && (forall i :: 0 <= i < |r| - 1 && r[i] == ' ' ==> r[i + 1] != ' ')
  }

  /** Drops leading non-letters. */
  function SkipNonLetters(s: string): (r: string)
    ensures |r| <= |s|
    ensures forall i :: 0 <= i < |s| - |r| ==> !IsLetter(s[i])
    ensures r == [] || IsLetter(r[0])
  {
    if s == [] || IsLetter(s[0]) then s else SkipNonLetters(s[1..])
  }

  /** The longest prefix made of letters. */
  function LetterRun(s: string): (r: string)
    ensures |r| <= |s|
    ensures forall i :: 0 <= i < |r| ==> IsLetter(r[i])
    ensures |r| < |s| ==> !IsLetter(s[|r|])
  {
    if s != [] && IsLetter(s[0]) then [s[0]] + LetterRun(s[1..]) else []
  }

  /** `re.findall('[A-Za-z]+', s)`: the maximal letter runs, left to right. */
  function Words(s: string): (ws: seq<string>)
    ensures forall k :: 0 <= k < |ws| ==> IsWord(ws[k])
    decreases |s|
  {
    var t := SkipNonLetters(s);
    if t == [] then []
    else
      var w := LetterRun(t);
      [w] + Words(t[|w|..])
  }

  /** A letter run stops at the first non-letter, whatever follows it. */
  lemma {:induction false} RunStops(a: string, y: string)
    requires |LetterRun(a)| < |a|
    ensures LetterRun(a + y) == LetterRun(a)
    decreases |a|
  {
    if IsLetter(a[0]) {
      assert (a + y)[1..] == a[1..] + y;
      RunStops(a[1..], y);
    }
  }

  /** Letters followed by a non-letter (or nothing) form one run. */
  lemma {:induction false} RunWhole(a: string, y: string)
    requires forall i :: 0 <= i < |a| ==> IsLetter(a[i])
    requires y == [] || !IsLetter(y[0])
    ensures LetterRun(a + y) == a
    decreases |a|
  {
    if a != [] {
      assert (a + y)[1..] == a[1..] + y;
      RunWhole(a[1..], y);
    } else {
      assert a + y == y;
    }
  }

  /** A leading non-letter does not change the words. */
  lemma {:induction false} WordsSkip(x: char, s: string)
    requires !IsLetter(x)
    ensures Words([x] + s) == Words(s)
  {
    assert ([x] + s)[1..] == s;
  }

  /** A word of letters is a single run. */
  lemma {:induction false} WordsOfWord(w: string)
    requires IsWord(w)
    ensures Words(w) == [w]
  {
    RunWhole(w, []);
    assert w + [] == w;
    assert w[|w|..] == [];
  }

  /** A non-letter separates words: the runs on either side of it are the words, and no run
      straddles it. */
  lemma {:induction false} WordsSplit(a: string, x: char, b: string)
    requires !IsLetter(x)
    ensures Words(a + [x] + b) == Words(a) + Words(b)
    decreases |a|, 1
  {
    if a == [] {
      assert a + [x] + b == [x] + b;
      WordsSkip(x, b);
    } else if !IsLetter(a[0]) {
      WordsSplitSkip(a, x, b);
    } else {
      WordsSplitRun(a, x, b);
    }
  }

  lemma {:induction false} WordsSplitSkip(a: string, x: char, b: string)
    requires !IsLetter(x) && a != [] && !IsLetter(a[0])
    ensures Words(a + [x] + b) == Words(a) + Words(b)
    decreases |a|, 0
  {
    assert a + [x] + b == [a[0]] + (a[1..] + [x] + b) && a == [a[0]] + a[1..];
    WordsSkip(a[0], a[1..] + [x] + b);
    WordsSkip(a[0], a[1..]);
    WordsSplit(a[1..], x, b);
  }

  lemma {:induction false} WordsSplitRun(a: string, x: char, b: string)
    requires !IsLetter(x) && a != [] && IsLetter(a[0])
    ensures Words(a + [x] + b) == Words(a) + Words(b)
    decreases |a|, 0
  {
    var s, r := a + [x] + b, LetterRun(a);
    assert SkipNonLetters(s) == s && SkipNonLetters(a) == a;
    assert s == a + ([x] + b);
    if |r| < |a| {
      RunStops(a, [x] + b);
      assert s[|r|..] == a[|r|..] + [x] + b;
      WordsSplit(a[|r|..], x, b);
      assert Words(a) == [r] + Words(a[|r|..]);
    } else {
      WordsSplitWord(a, x, b);
    }
  }

  lemma {:induction false} WordsSplitWord(a: string, x: char, b: string)
    requires !IsLetter(x) && a != [] && IsLetter(a[0]) && |LetterRun(a)| == |a|
    ensures Words(a + [x] + b) == Words(a) + Words(b)
  {
    var s := a + [x] + b;
    RunIsPrefix(a);
    assert LetterRun(a) == a;
    assert SkipNonLetters(s) == s && SkipNonLetters(a) == a;
    assert s == a + ([x] + b);
    RunWhole(a, [x] + b);
    assert s[|a|..] == [x] + b;
    WordsSkip(x, b);
    assert a[|a|..] == [];
    assert Words(a) == [a];
  }



  function Concat(ws: seq<string>): string
  {
    if ws == [] then "" else ws[0] + Concat(ws[1..])
  }

  /** What is left after the skip is a suffix of the text. */
  lemma {:induction false} SkipIsSuffix(s: string)
    ensures SkipNonLetters(s) == s[|s| - |SkipNonLetters(s)|..]
  {
    if s != [] && !IsLetter(s[0]) {
      SkipIsSuffix(s[1..]);
    }
  }

  /** The letter run is a prefix of the text. */
  lemma {:induction false} RunIsPrefix(s: string)
    ensures LetterRun(s) == s[..|LetterRun(s)|]
  {
    if s != [] && IsLetter(s[0]) {
      RunIsPrefix(s[1..]);
    }
  }

  /** Skipping non-letters loses no letter. */
  lemma SkipKeepsLetters(s: string)
    ensures Keep(SkipNonLetters(s), IsLetter) == Keep(s, IsLetter)
  {
    var t := SkipNonLetters(s);
    var skipped := s[..|s| - |t|];
    SkipIsSuffix(s);
    assert s == skipped + t;
    KeepAppend(skipped, t, IsLetter);
    KeepNone(skipped, IsLetter);
  }

  /** The letters of text that starts with a letter: its first run, then the rest. */
  lemma RunKeepsLetters(t: string)
    ensures Keep(t, IsLetter) == LetterRun(t) + Keep(t[|LetterRun(t)|..], IsLetter)
  {
    var w := LetterRun(t);
    var rest := t[|w|..];
    RunIsPrefix(t);
    assert t == w + rest;
    KeepAppend(w, rest, IsLetter);
    KeepAll(w, IsLetter);
  }

  lemma ConcatCons(w: string, ws: seq<string>)
    ensures Concat([w] + ws) == w + Concat(ws)
  {
    assert ([w] + ws)[1..] == ws;
  }

  /** The words hold every letter of the text, in order, and nothing else. */
  lemma {:induction false} WordsKeepLetters(s: string)
    ensures Concat(Words(s)) == Keep(s, IsLetter)
    decreases |s|
  {
    var t := SkipNonLetters(s);
    SkipKeepsLetters(s);
    if t != [] {
      var w := LetterRun(t);
      var rest := t[|w|..];
      RunKeepsLetters(t);
      ConcatCons(w, Words(rest));
      WordsKeepLetters(rest);
    }
  }

  /** A non-empty word of letters. */
  predicate IsWord(w: string)
  {
    w != [] && forall i :: 0 <= i < |w| ==> IsLetter(w[i])
  }

  /** A word, a space and single-spaced text make single-spaced text. */
  lemma GlueSingleSpaced(w: string, rest: string)
    requires IsWord(w) && rest != [] && SingleSpaced(rest)
    ensures SingleSpaced(w + " " + rest)
  {
    var r := w + " " + rest;
    forall i | 0 <= i < |r| ensures IsLetter(r[i]) || r[i] == ' ' {
      if i > |w| { assert r[i] == rest[i - |w| - 1]; }
    }
    forall i | 0 <= i < |r| - 1 && r[i] == ' ' ensures r[i + 1] != ' ' {
      if i > |w| {
        assert r[i] == rest[i - |w| - 1] && r[i + 1] == rest[i - |w|];
      } else {
        assert i == |w|;
        assert r[i + 1] == rest[0];
      }
    }
    assert r[|r| - 1] == rest[|rest| - 1];
  }

  /** Gluing with a space adds no letter. */
  lemma {:induction false} GlueLetters(w: string, rest: string)
    requires IsWord(w)
    ensures Keep(w + " " + rest, IsLetter) == w + Keep(rest, IsLetter)
  {
    KeepSingle(' ', IsLetter);
    KeepAll(w, IsLetter);
    KeepAppend(w, " ", IsLetter);
    assert Keep(w + " ", IsLetter) == w;
    KeepAppend(w + " ", rest, IsLetter);
  }

  /** Joining non-empty words of letters with single spaces gives single-spaced text whose
      letters are those of the words. */
  lemma {:induction false} JoinWords(ws: seq<string>)
    requires forall k :: 0 <= k < |ws| ==> IsWord(ws[k])
    ensures SingleSpaced(Join(ws, " "))
    ensures Keep(Join(ws, " "), IsLetter) == Concat(ws)
    ensures ws != [] ==> Join(ws, " ") != []
  {
    if |ws| == 1 {
      KeepAll(ws[0], IsLetter);
      assert Concat(ws[1..]) == "";
    } else if |ws| > 1 {
      JoinWords(ws[1..]);
      GlueSingleSpaced(ws[0], Join(ws[1..], " "));
      GlueLetters(ws[0], Join(ws[1..], " "));
    }
  }

  /** `extract_text_content` on a string: delete digits, dots and parentheses, then join the
      letter runs with single spaces. */
  function ExtractText(s: string): (r: string)
  {
    Join(Words(Keep(s, NotNoise)), " ")
  }

  /** The extracted text is single-spaced and holds exactly the letters of the input, in
      order. */
  lemma ExtractTextShape(s: string)
    ensures SingleSpaced(ExtractText(s))
    ensures Keep(ExtractText(s), IsLetter) == Keep(s, IsLetter)
  {
    var cleaned := Keep(s, NotNoise);
    JoinWords(Words(cleaned));
    WordsKeepLetters(cleaned);
    KeepKeep(s, IsLetter, NotNoise);
  }

  /** The extracted text is empty exactly when the input has no letter. */
  lemma ExtractTextEmptyIff(s: string)
    ensures ExtractText(s) == "" <==> Keep(s, IsLetter) == []
  {
    var r := ExtractText(s);
    ExtractTextShape(s);
    if r != "" {
      KeepMember(r, IsLetter, 0);
    }
  }

  /** `extract_text_content` on a cell: missing gives the empty text. */
  function ExtractTextContent(v: Cell, render: real -> string): (r: string)
    ensures v.Missing? ==> r == ""
    ensures SingleSpaced(r)
  {
    if v.Missing? then "" else ExtractTextShape(TextOf(v, render)); ExtractText(TextOf(v, render))
  }

  // ---------------------------------------------------------------- classifiers

  /** `is_cad_currency` on text: "cad" or "c$" appears, ignoring case. */
  function IsCadText(s: string): bool
  {
    var l := Lower(s);
    Contains(l, "cad") || Contains(l, "c$")
  }

  /** `is_cad_currency` on a cell: missing is never CAD. */
  function IsCadCurrency(v: Cell, render: real -> string): (b: bool)
    ensures v.Missing? ==> !b
  {
    if v.Missing? then false else IsCadText(TextOf(v, render))
  }

  /** The CAD test is a case-insensitive search for either tag at any position. */
  lemma IsCadTextIff(s: string)
    ensures IsCadText(s) <==> Mentions(s, "cad") || Mentions(s, "c$")
  {
    ContainsIffOccurs(Lower(s), "cad");
    ContainsIffOccurs(Lower(s), "c$");
  }

  /** A text without letters contains no pattern that starts with a letter. */
  lemma {:induction false} NoLetterNoMatch(l: string, t: string)
    requires t != [] && IsLetter(t[0])
    requires forall i :: 0 <= i < |l| ==> !IsLetter(l[i])
    ensures !Contains(l, t)
    decreases |l|
  {
    if |l| >= |t| {
      assert l[..|t|][0] == l[0];
      NoLetterNoMatch(l[1..], t);
    }
  }

  /** Both tags start with the letter c, so text without letters is never CAD. */
  lemma NoLettersNotCad(s: string)
    requires Keep(s, IsLetter) == []
    ensures !IsCadText(s)
  {
    forall i | 0 <= i < |s| ensures !IsLetter(s[i]) {
      if IsLetter(s[i]) { KeepMember(s, IsLetter, i); }
    }
    var l := Lower(s);
    LowerAt(s);
    NoLetterNoMatch(l, "cad");
    NoLetterNoMatch(l, "c$");
  }

  const LtmEbitda := "LTM EBITDA"
  const LtmRevenue := "LTM Revenue"

  /** `text` mentions `key`, ignoring case. */
  ghost predicate Mentions(text: string, key: string)
  {
    exists i :: OccursAt(Lower(text), key, i)
  }

  /** `find_target_column`: "ltm" first, then "ttm", ignoring case. */
  function FindTarget(text: string): (t: Option<string>)
    ensures t.Some? ==> t.value == LtmEbitda || t.value == LtmRevenue
  {
    var l := Lower(text);
    if Contains(l, "ltm") then Some(LtmEbitda)
    else if Contains(l, "ttm") then Some(LtmRevenue)
    else None
  }

  /** The resolver's three outcomes, each in both directions; "ltm" wins over "ttm". */
  lemma FindTargetIff(text: string)
    ensures FindTarget(text) == Some(LtmEbitda) <==> Mentions(text, "ltm")
    ensures FindTarget(text) == Some(LtmRevenue) <==> !Mentions(text, "ltm") && Mentions(text, "ttm")
    ensures FindTarget(text) == None <==> !Mentions(text, "ltm") && !Mentions(text, "ttm")
  {
    ContainsIffOccurs(Lower(text), "ltm");
    ContainsIffOccurs(Lower(text), "ttm");
  }
}
