/** The single-value cleaners of functions.py: column-name cleansing, the missing-value
    normalization, dash-text tidying and phone-number cleaning. */
module BasicCleaning {
  import opened Strings
  import opened Cells
  import opened Frames

  // ---------------------------------------------------------------- column names

  predicate NotNewline(ch: char) { ch != '\n' }

  /** Keeping the first character of the text keeps it in front. */
  lemma KeepHead(s: string, p: char -> bool)
    requires s != [] && p(s[0])
    ensures Keep(s, p) != [] && Keep(s, p)[0] == s[0]
  {
  }

  /** Keeping the last character of the text keeps it at the end. */
  lemma KeepLast(s: string, p: char -> bool)
    requires s != [] && p(s[|s| - 1])
    ensures Keep(s, p) != [] && Keep(s, p)[|Keep(s, p)| - 1] == s[|s| - 1]
  {
    var init := s[..|s| - 1];
    assert s == init + [s[|s| - 1]];
    KeepAppend(init, [s[|s| - 1]], p);
    KeepSingle(s[|s| - 1], p);
  }

  /** Not whitespace (and so not '\n'). */
  predicate NotSpace(ch: char) { !IsSpace(ch) }

  /** One column name: `str.strip()`, then every '\n' removed. */
  function CleanName(n: string): (r: string)
    ensures Trimmed(r)
    ensures AllIn(r, NotNewline)
  {
    var t := Strip(n);
    if t == [] then []
    else
      KeepHead(t, NotNewline);
      KeepLast(t, NotNewline);
      Keep(t, NotNewline)
  }
  /** Cleaning a name removes whitespace only: every other character survives, in order. */
  lemma CleanNameKeeps(n: string)
    ensures Keep(CleanName(n), NotSpace) == Keep(n, NotSpace)
  {
    KeepStrip(n, NotSpace);
    KeepKeep(Strip(n), NotSpace, NotNewline);
  }


  /** `cleanse_column_names`: every name cleaned, in place and in order. */
  function CleanseColumnNames(names: seq<string>): (r: seq<string>)
    ensures |r| == |names|
    ensures forall i :: 0 <= i < |r| ==> Trimmed(r[i]) && AllIn(r[i], NotNewline)
    ensures forall i :: 0 <= i < |r| ==> r[i] == CleanName(names[i])
  {
    seq(|names|, i requires 0 <= i < |names| => CleanName(names[i]))
  }

  /** A name that is already trimmed and has no line break is left alone. */
  lemma CleanNameFixpoint(n: string)
    requires Trimmed(n) && AllIn(n, NotNewline)
    ensures CleanName(n) == n
  {
    KeepAll(n, NotNewline);
  }

  /** Cleansing the names twice is cleansing them once. */
  lemma CleanseColumnNamesIdempotent(names: seq<string>)
    ensures CleanseColumnNames(CleanseColumnNames(names)) == CleanseColumnNames(names)
  {
    var once := CleanseColumnNames(names);
    forall i | 0 <= i < |once| ensures CleanName(once[i]) == once[i] {
      CleanNameFixpoint(once[i]);
    }
  }

  // ---------------------------------------------------------------- missing values

  /** The texts `modernize_nans` treats as missing. */
  const NanTokens: seq<string> := ["N/A", "NA", "None", "-", ""]

  /** A missing-value token or an already missing cell. */
  predicate IsNanLike(c: Cell)
  {
    c.Missing? || (c.Str? && c.s in NanTokens)
  }

  function ModernizeCell(c: Cell): (r: Cell)
    ensures IsNanLike(c) ==> r.Missing?
    ensures !IsNanLike(c) ==> r == c
  {
    if IsNanLike(c) then Missing else c
  }

  /** `modernize_nans`: every token cell of every column becomes missing; the shape and every
      other cell stay as they were. */
  function ModernizeNans(f: Frame): (g: Frame)
    requires WellFormed(f)
    ensures WellFormed(g)
    ensures g.names == f.names && g.height == f.height && g.cols.Keys == f.cols.Keys
    ensures forall n, r :: IsNanLike(View(f, n, r)) ==> View(g, n, r).Missing?
    ensures forall n, r :: !IsNanLike(View(f, n, r)) ==> View(g, n, r) == View(f, n, r)
  {
    var cols := map n | n in f.cols :: seq(|f.cols[n]|, i requires 0 <= i < |f.cols[n]| => ModernizeCell(f.cols[n][i]));
    Frame(f.names, cols, f.height)
  }

  /** No token survives, and a second pass changes nothing. */
  lemma ModernizeNansIdempotent(f: Frame)
    requires WellFormed(f)
    ensures forall n, r :: !(View(ModernizeNans(f), n, r).Str? && View(ModernizeNans(f), n, r).s in NanTokens)
    ensures ModernizeNans(ModernizeNans(f)) == ModernizeNans(f)
  {
    var g := ModernizeNans(f);
    var h := ModernizeNans(g);
    forall n | n in g.cols ensures h.cols[n] == g.cols[n] {
      forall i | 0 <= i < |g.cols[n]| ensures h.cols[n][i] == g.cols[n][i] {
        assert View(g, n, i) == g.cols[n][i] && View(h, n, i) == h.cols[n][i];
      }
    }
  }

  // ---------------------------------------------------------------- dash text

  /** `re.sub(r'^-\s*', '', t)`: one leading '-' and the whitespace after it. */
  function DropLeadingDash(t: string): (r: string)
    ensures |r| <= |t|
    ensures forall ch :: ch in r ==> ch in t
  {
    if t != [] && t[0] == '-' then LStrip(t[1..]) else t
  }

  /** `re.sub(r'\s*-\s*', ', ', t)`: scanning left to right, every '-' together with the
      whitespace around it becomes ", ". */
  function ReplaceDashes(t: string): (r: string)
    ensures '-' !in r
    ensures forall ch :: ch in r ==> ch in t || ch in ", "
    decreases |t|
  {
    if t == [] then []
    else
      var l := LStrip(t);
      if l != [] && l[0] == '-' then ", " + ReplaceDashes(LStrip(l[1..]))
      else [t[0]] + ReplaceDashes(t[1..])
  }

  /** Text without '-' goes through the replacement unchanged. */
  lemma {:induction false} ReplaceDashesFixpoint(t: string)
    requires '-' !in t
    ensures ReplaceDashes(t) == t
    decreases |t|
  {
    if t != [] {
      var l := LStrip(t);
      assert l != [] ==> l[0] in t;
      ReplaceDashesFixpoint(t[1..]);
    }
  }
  /** Neither whitespace nor a dash nor a comma. */
  predicate NotSeparator(ch: char) { !IsSpace(ch) && ch != '-' && ch != ',' }

  /** Turning dashes into commas touches only whitespace, dashes and commas: every other
      character survives, in order. */
  lemma {:induction false} ReplaceDashesKeeps(t: string)
    ensures Keep(ReplaceDashes(t), NotSeparator) == Keep(t, NotSeparator)
    decreases |t|
  {
    if t != [] {
      var l := LStrip(t);
      KeepLStrip(t, NotSeparator);
      if l != [] && l[0] == '-' {
        var rest := LStrip(l[1..]);
        ReplaceDashesKeeps(rest);
        KeepAppend(", ", ReplaceDashes(rest), NotSeparator);
        KeepAppend(",", " ", NotSeparator);
        KeepSingle(',', NotSeparator);
        KeepSingle(' ', NotSeparator);
        KeepLStrip(l[1..], NotSeparator);
        assert l == [l[0]] + l[1..];
        KeepAppend([l[0]], l[1..], NotSeparator);
        KeepSingle(l[0], NotSeparator);
      } else {
        assert t == [t[0]] + t[1..];
        ReplaceDashesKeeps(t[1..]);
        KeepAppend([t[0]], ReplaceDashes(t[1..]), NotSeparator);
        KeepAppend([t[0]], t[1..], NotSeparator);
      }
    }
  }


  /** Whitespace inside text that ends in a non-space character is never the start of the
      text's last run: the first non-space character lies in that text. */
  lemma LStripStartsIn(a: string, y: string)
    requires a != [] && !IsSpace(a[|a| - 1])
    ensures LeadingSpace(a + y) < |a|
    ensures LStrip(a + y) != [] && LStrip(a + y)[0] == a[LeadingSpace(a + y)]
  {
    assert !IsSpace((a + y)[|a| - 1]);
  }

  /** Text that does not start with a dash after its leading whitespace keeps its first
      character. */
  lemma ReplaceDashesKeepsFirst(t: string)
    requires t != [] && (LStrip(t) == [] || LStrip(t)[0] != '-')
    ensures ReplaceDashes(t) == [t[0]] + ReplaceDashes(t[1..])
  {
  }

  lemma SplitFirst(a: string, r: string)
    requires a != []
    ensures a + r == [a[0]] + (a[1..] + r)
  {
  }

  /** The tail of dash-free text that ends in a non-space character is such text too. */
  lemma DashFreeTail(a: string)
    requires a != [] && '-' !in a && !IsSpace(a[|a| - 1])
    ensures '-' !in a[1..] && (a[1..] == [] || !IsSpace(a[1..][|a[1..]| - 1]))
  {
    assert forall k :: 0 <= k < |a[1..]| ==> a[1..][k] == a[k + 1];
  }

  /** After the leading whitespace, text that starts with dash-free text ending in a
      non-space character does not start with a dash. */
  lemma NoDashFirst(a: string, y: string)
    requires a != [] && '-' !in a && !IsSpace(a[|a| - 1])
    ensures LStrip(a + y) != [] && LStrip(a + y)[0] != '-'
  {
    LStripStartsIn(a, y);
    assert a[LeadingSpace(a + y)] in a;
  }

  /** Before dash-free text that ends in a non-space character, the first character is kept. */
  lemma PrefixKeepsFirst(a: string, y: string)
    requires a != [] && '-' !in a && !IsSpace(a[|a| - 1])
    ensures ReplaceDashes(a + y) == [a[0]] + ReplaceDashes(a[1..] + y)
  {
    var t := a + y;
    NoDashFirst(a, y);
    ReplaceDashesKeepsFirst(t);
    assert t[1..] == a[1..] + y;
  }

  /** One character of the prefix: it is kept, and the rest goes through as before. */
  lemma ReplaceDashesPrefixStep(a: string, y: string)
    requires a != [] && '-' !in a && !IsSpace(a[|a| - 1])
    requires ReplaceDashes(a[1..] + y) == a[1..] + ReplaceDashes(y)
    ensures ReplaceDashes(a + y) == a + ReplaceDashes(y)
  {
    PrefixKeepsFirst(a, y);
    SplitFirst(a, ReplaceDashes(y));
  }

  /** Dash-free text that ends in a non-space character passes through the replacement
      unchanged, whatever follows it. */
  lemma {:induction false} ReplaceDashesPrefix(a: string, y: string)
    requires '-' !in a && (a == [] || !IsSpace(a[|a| - 1]))
    ensures ReplaceDashes(a + y) == a + ReplaceDashes(y)
    decreases |a|
  {
    if a != [] {
      DashFreeTail(a);
      ReplaceDashesPrefix(a[1..], y);
      ReplaceDashesPrefixStep(a, y);
    } else {
      assert a + y == y;
    }
  }

  /** A dash, with the whitespace after it, becomes ", ". */
  lemma ReplaceDashesDash(b: string)
    ensures ReplaceDashes("-" + b) == ", " + ReplaceDashes(LStrip(b))
  {
    var t := "-" + b;
    assert LeadingSpace(t) == 0;
    assert t[1..] == b;
  }

  lemma Regroup(a: string, x: string, b: string)
    ensures a + x + b == a + (x + b)
  {
  }

  /** Whitespace followed by a dash: the whitespace is the leading run. */
  lemma LStripBeforeDash(w: string, b: string)
    requires AllSpace(w)
    ensures LStrip(w + "-" + b) == "-" + b
  {
    var t := w + "-" + b;
    assert t[|w|] == '-';
    assert forall i :: 0 <= i < |w| ==> IsSpace(t[i]);
    assert t[|w|..] == "-" + b;
  }

  /** Whitespace, a dash and the whitespace after it become ", ". */
  lemma ReplaceDashesSpacedDash(w: string, b: string)
    requires AllSpace(w)
    ensures ReplaceDashes(w + "-" + b) == ", " + ReplaceDashes(LStrip(b))
  {
    LStripBeforeDash(w, b);
    var l := "-" + b;
    assert l[1..] == b;
  }

  /** Text is its right-stripped part followed by all-whitespace text. */
  lemma RStripSplit(a: string)
    ensures a == RStrip(a) + a[|RStrip(a)|..] && AllSpace(a[|RStrip(a)|..])
    ensures '-' !in a ==> '-' !in RStrip(a)
  {
    assert RStrip(a) == a[..TrailingSpace(a)];
  }

  /** The rewrite rule of the replacement: after dash-free text, a dash and the whitespace
      on both sides of it become ", ". */
  lemma ReplaceDashesAt(a: string, b: string)
    requires '-' !in a
    ensures ReplaceDashes(a + "-" + b) == RStrip(a) + ", " + ReplaceDashes(LStrip(b))
  {
    var p, w := RStrip(a), a[|RStrip(a)|..];
    RStripSplit(a);
    assert a + "-" + b == p + (w + "-" + b);
    ReplaceDashesPrefix(p, w + "-" + b);
    ReplaceDashesSpacedDash(w, b);
    Regroup(p, ", ", ReplaceDashes(LStrip(b)));
  }

  /** `clean_dash_text`: missing stays as it is; otherwise the text is stripped, loses a
      leading dash, has its dashes turned into commas and is stripped again. */
  function CleanDashText(v: Cell, render: real -> string): (r: Cell)
    ensures v.Missing? ==> r == v
    ensures !v.Missing? ==> r.Str? && '-' !in r.s && Trimmed(r.s)
  {
    if v.Missing? then v
    else Str(Strip(ReplaceDashes(DropLeadingDash(Strip(TextOf(v, render))))))
  }

  /** Tidied text is a fixpoint: applying the cleaner twice is applying it once. */
  lemma CleanDashTextIdempotent(v: Cell, render: real -> string)
    ensures CleanDashText(CleanDashText(v, render), render) == CleanDashText(v, render)
  {
    if !v.Missing? {
      var s := CleanDashText(v, render).s;
      assert DropLeadingDash(s) == s;
      ReplaceDashesFixpoint(s);
    }
  }
  /** Tidying dash text removes or rewrites only whitespace, dashes and commas. */
  lemma CleanDashTextKeeps(v: Cell, render: real -> string)
    requires !v.Missing?
    ensures Keep(CleanDashText(v, render).s, NotSeparator) == Keep(TextOf(v, render), NotSeparator)
  {
    var t := Strip(TextOf(v, render));
    KeepStrip(TextOf(v, render), NotSeparator);
    if t != [] && t[0] == '-' {
      assert t == [t[0]] + t[1..];
      KeepAppend([t[0]], t[1..], NotSeparator);
      KeepSingle(t[0], NotSeparator);
      KeepLStrip(t[1..], NotSeparator);
    }
    var d := DropLeadingDash(t);
    ReplaceDashesKeeps(d);
    KeepStrip(ReplaceDashes(d), NotSeparator);
  }


  /** The whitespace on both sides of an inner dash is consumed with it: "x - y" becomes
      "x, y". */
  lemma ReplaceDashesSpaced(x: char, y: char)
    requires x != '-' && !IsSpace(x) && y != '-' && !IsSpace(y)
    ensures ReplaceDashes([x, ' ', '-', ' ', y]) == [x, ',', ' ', y]
  {
    SpacedDash(x, y);
    SpaceAfter(x);
    SpaceBefore(y);
    assert [x] + ", " + [y] == [x, ',', ' ', y];
  }

  lemma SpacedDash(x: char, y: char)
    requires x != '-'
    ensures ReplaceDashes([x, ' ', '-', ' ', y]) == RStrip([x, ' ']) + ", " + ReplaceDashes(LStrip([' ', y]))
  {
    ReplaceDashesAt([x, ' '], [' ', y]);
    assert [x, ' '] + "-" + [' ', y] == [x, ' ', '-', ' ', y];
  }

  lemma SpaceAfter(x: char)
    requires !IsSpace(x)
    ensures RStrip([x, ' ']) == [x]
  {
    assert [x, ' '][..1] == [x];
    assert TrailingSpace([x]) == 1;
  }

  lemma SpaceBefore(y: char)
    requires y != '-' && !IsSpace(y)
    ensures ReplaceDashes(LStrip([' ', y])) == [y]
  {
    assert [' ', y][1..] == [y];
    assert LeadingSpace([' ', y]) == 1 + LeadingSpace([y]) == 1;
    ReplaceDashesFixpoint([y]);
  }

  /** "x - y" is tidied to "x, y". */
  lemma CleanDashTextSpaced(x: char, y: char, render: real -> string)
    requires x != '-' && !IsSpace(x) && y != '-' && !IsSpace(y)
    ensures CleanDashText(Str([x, ' ', '-', ' ', y]), render) == Str([x, ',', ' ', y])
  {
    assert Trimmed([x, ' ', '-', ' ', y]);
    ReplaceDashesSpaced(x, y);
    assert Trimmed([x, ',', ' ', y]);
  }

  // ---------------------------------------------------------------- phone numbers

  /** `clean_phone`: missing stays missing; anything else keeps only its digits. */
  function CleanPhone(v: Cell, render: real -> string): (r: Cell)
    ensures r.Missing? <==> v.Missing?
    ensures r.Str? ==> AllIn(r.s, IsDigit) && |r.s| <= |TextOf(v, render)|
  {
    if v.Missing? then Missing else Str(Keep(TextOf(v, render), IsDigit))
  }

  /** Every digit of the input survives, and a string of digits is left as it is. */
  lemma CleanPhoneKeepsDigits(s: string, render: real -> string)
    ensures AllIn(s, IsDigit) ==> CleanPhone(Str(s), render) == Str(s)
    ensures forall i :: 0 <= i < |s| && IsDigit(s[i]) ==> s[i] in CleanPhone(Str(s), render).s
  {
    if AllIn(s, IsDigit) { KeepAll(s, IsDigit); }
    forall i | 0 <= i < |s| && IsDigit(s[i]) ensures s[i] in Keep(s, IsDigit) {
      KeepMember(s, IsDigit, i);
    }
  }

  /** Cleaning splits over concatenation, so the digits are kept in order and each as
      often as it occurs. */
  lemma CleanPhoneAppend(a: string, b: string, render: real -> string)
    ensures CleanPhone(Str(a + b), render).s == CleanPhone(Str(a), render).s + CleanPhone(Str(b), render).s
  {
    KeepAppend(a, b, IsDigit);
  }

  /** A single character that is not a digit is dropped. */
  lemma CleanPhoneDropsNonDigit(c: char, render: real -> string)
    requires !IsDigit(c)
    ensures CleanPhone(Str([c]), render).s == []
  {
    KeepSingle(c, IsDigit);
  }

  /** Cleaning a phone number twice is cleaning it once. */
  lemma CleanPhoneIdempotent(v: Cell, render: real -> string)
    ensures CleanPhone(CleanPhone(v, render), render) == CleanPhone(v, render)
  {
    if !v.Missing? {
      KeepAll(CleanPhone(v, render).s, IsDigit);
    }
  }
}
