/** Character classes and the few string operations the normalizers are built from:
    filtering, whitespace stripping, substring search and joining. */
module Strings {

  /** An ASCII decimal digit; the model reads the regex class `\d` as this. */
  predicate IsDigit(ch: char) { '0' as int <= ch as int <= '9' as int }

  /** An ASCII letter, the regex class `[A-Za-z]`. */
  predicate IsLetter(ch: char)
  {
    'A' as int <= ch as int <= 'Z' as int || 'a' as int <= ch as int <= 'z' as int
  }

  /** A digit or a '.', the characters `[\d\.]` that the numeric cleaner keeps. */
  predicate IsNumChar(ch: char) { IsDigit(ch) || ch == '.' }

  predicate IsDot(ch: char) { ch == '.' }

  /** Whitespace as Python's `str.isspace` (and so `str.strip` and `\s`) sees it. */
  predicate IsSpace(ch: char)
  {
    var c := ch as int;
    c == 0x20 || 0x09 <= c <= 0x0d || 0x1c <= c <= 0x1f || c == 0x85 || c == 0xa0 || c == 0x1680
    || 0x2000 <= c <= 0x200a || c == 0x2028 || c == 0x2029 || c == 0x202f || c == 0x205f || c == 0x3000
  }

  function LowerChar(ch: char): (r: char)
    ensures IsLetter(r) <==> IsLetter(ch)
    ensures !IsLetter(ch) ==> r == ch
  {
    if 'A' <= ch <= 'Z' then (ch as int + 32) as char else ch
  }

  /** ASCII lower-casing, character by character. */
  function Lower(s: string): (r: string)
    ensures |r| == |s|
  {
    if s == [] then [] else [LowerChar(s[0])] + Lower(s[1..])
  }

  lemma {:induction false} LowerAt(s: string)
    ensures forall i :: 0 <= i < |s| ==> Lower(s)[i] == LowerChar(s[i])
  {
    if s != [] {
      LowerAt(s[1..]);
      assert forall i :: 1 <= i < |s| ==> Lower(s)[i] == Lower(s[1..])[i - 1];
    }
  }

  /** Every character of `s` satisfies `p`. */
  predicate AllIn(s: string, p: char -> bool)
  {
    forall i :: 0 <= i < |s| ==> p(s[i])
  }

  /** The characters of `s` that satisfy `p`, in order. */
  function Keep(s: string, p: char -> bool): (r: string)
    ensures |r| <= |s|
    ensures AllIn(r, p)
  {
    if s == [] then [] else (if p(s[0]) then [s[0]] else []) + Keep(s[1..], p)
  }

  lemma {:induction false} KeepAppend(a: string, b: string, p: char -> bool)
    ensures Keep(a + b, p) == Keep(a, p) + Keep(b, p)
  {
    if a != [] {
      assert (a + b)[1..] == a[1..] + b;
      KeepAppend(a[1..], b, p);
    } else {
      assert a + b == b;
    }
  }

  lemma KeepSingle(c: char, p: char -> bool)
    ensures Keep([c], p) == if p(c) then [c] else []
  {
    assert [c][1..] == [];
  }

  /** A character that satisfies `p` survives the filter. */
  lemma {:induction false} KeepMember(s: string, p: char -> bool, i: int)
    requires 0 <= i < |s| && p(s[i])
    ensures s[i] in Keep(s, p)
  {
    if i > 0 { KeepMember(s[1..], p, i - 1); }
  }

  lemma {:induction false} KeepNone(s: string, p: char -> bool)
    requires forall i :: 0 <= i < |s| ==> !p(s[i])
    ensures Keep(s, p) == []
  {
    if s != [] { KeepNone(s[1..], p); }
  }

  lemma {:induction false} KeepAll(s: string, p: char -> bool)
    requires AllIn(s, p)
    ensures Keep(s, p) == s
  {
    if s != [] { KeepAll(s[1..], p); }
  }

  /** Filtering by a weaker predicate first changes nothing. */
  lemma {:induction false} KeepKeep(s: string, p: char -> bool, q: char -> bool)
    requires forall ch :: p(ch) ==> q(ch)
    ensures Keep(Keep(s, q), p) == Keep(s, p)
  {
    if s != [] {
      KeepKeep(s[1..], p, q);
      KeepAppend(if q(s[0]) then [s[0]] else [], Keep(s[1..], q), p);
    }
  }

  /** No leading and no trailing whitespace. */
  predicate Trimmed(s: string)
  {
    s == [] || (!IsSpace(s[0]) && !IsSpace(s[|s| - 1]))
  }

  /** The length of the leading run of whitespace. */
  function LeadingSpace(s: string): (n: nat)
    ensures n <= |s|
    ensures forall i :: 0 <= i < n ==> IsSpace(s[i])
    ensures n < |s| ==> !IsSpace(s[n])
  {
    if s == [] || !IsSpace(s[0]) then 0 else 1 + LeadingSpace(s[1..])
  }

  /** Where the trailing run of whitespace starts. */
  function TrailingSpace(s: string): (n: nat)
    ensures n <= |s|
    ensures forall i :: n <= i < |s| ==> IsSpace(s[i])
    ensures n > 0 ==> !IsSpace(s[n - 1])
  {
    if s == [] || !IsSpace(s[|s| - 1]) then |s| else TrailingSpace(s[..|s| - 1])
  }

  /** Python's `str.lstrip()`. */
  function LStrip(s: string): (r: string)
    ensures |r| <= |s|
    ensures r == [] || !IsSpace(r[0])
  {
    s[LeadingSpace(s)..]
  }

  /** Python's `str.rstrip()`. */
  function RStrip(s: string): (r: string)
    ensures |r| <= |s|
    ensures r == [] || !IsSpace(r[|r| - 1])
    ensures r == s[..|r|]
  {
    s[..TrailingSpace(s)]
  }

  /** Python's `str.strip()`: the text between the leading and the trailing whitespace. */
  function Strip(s: string): (r: string)
    ensures Trimmed(r)
    ensures Trimmed(s) ==> r == s
    ensures forall ch :: ch in r ==> ch in s
    ensures s != [] && !IsSpace(s[0]) ==> r != [] && r[0] == s[0]
  {
    var l := LStrip(s);
    var r := RStrip(l);
    assert r != [] ==> r[0] == l[0];
    assert forall ch :: ch in r ==> ch in l;
    r
  }

  predicate AllSpace(s: string)
  {
    forall i :: 0 <= i < |s| ==> IsSpace(s[i])
  }

  /** A filter that rejects whitespace keeps nothing of all-whitespace text. */
  lemma {:induction false} KeepSpaces(s: string, p: char -> bool)
    requires AllSpace(s)
    requires forall ch :: IsSpace(ch) ==> !p(ch)
    ensures Keep(s, p) == []
  {
    if s != [] { KeepSpaces(s[1..], p); }
  }

  lemma KeepLStrip(s: string, p: char -> bool)
    requires forall ch :: IsSpace(ch) ==> !p(ch)
    ensures Keep(LStrip(s), p) == Keep(s, p)
  {
    var n := LeadingSpace(s);
    assert s == s[..n] + s[n..];
    KeepAppend(s[..n], s[n..], p);
    KeepSpaces(s[..n], p);
  }

  lemma KeepRStrip(s: string, p: char -> bool)
    requires forall ch :: IsSpace(ch) ==> !p(ch)
    ensures Keep(RStrip(s), p) == Keep(s, p)
  {
    var n := TrailingSpace(s);
    assert s == s[..n] + s[n..];
    KeepAppend(s[..n], s[n..], p);
    KeepSpaces(s[n..], p);
  }

  /** Stripping removes only whitespace, so a filter that rejects whitespace sees no change. */
  lemma KeepStrip(s: string, p: char -> bool)
    requires forall ch :: IsSpace(ch) ==> !p(ch)
    ensures Keep(Strip(s), p) == Keep(s, p)
  {
    KeepLStrip(s, p);
    KeepRStrip(LStrip(s), p);
  }

  /** `t` occurs in `s` starting at position `i`. */
  ghost predicate OccursAt(s: string, t: string, i: int)
  {
    0 <= i && i + |t| <= |s| && s[i..i + |t|] == t
  }

  /** Python's `t in s` for strings. */
  function Contains(s: string, t: string): bool
    decreases |s|
  {
    if |s| < |t| then false else s[..|t|] == t || Contains(s[1..], t)
  }

  /** A match found by `Contains` is an occurrence. */
  lemma {:induction false} ContainsWitness(s: string, t: string) returns (i: nat)
    requires Contains(s, t)
    ensures OccursAt(s, t, i)
    decreases |s|
  {
    if s[..|t|] == t {
      i := 0;
    } else {
      var k := ContainsWitness(s[1..], t);
      assert s[1..][k..k + |t|] == s[k + 1..k + 1 + |t|];
      i := k + 1;
    }
  }

  /** Every occurrence is found by `Contains`. */
  lemma {:induction false} OccursContained(s: string, t: string, i: int)
    requires OccursAt(s, t, i)
    ensures Contains(s, t)
    decreases i
  {
    if i > 0 {
      assert s[1..][i - 1..i - 1 + |t|] == s[i..i + |t|];
      OccursContained(s[1..], t, i - 1);
    }
  }

  lemma ContainsIffOccurs(s: string, t: string)
    ensures Contains(s, t) <==> exists i :: OccursAt(s, t, i)
  {
    forall i | OccursAt(s, t, i) ensures Contains(s, t) { OccursContained(s, t, i); }
    if Contains(s, t) { var i := ContainsWitness(s, t); }
  }

  /** Python's `sep.join(ws)`. */
  function Join(ws: seq<string>, sep: string): string
  {
    if |ws| == 0 then "" else if |ws| == 1 then ws[0] else ws[0] + sep + Join(ws[1..], sep)
  }

  /** Joining two non-empty lists equals joining each and gluing with one separator. */
  lemma {:induction false} JoinAppend(a: seq<string>, b: seq<string>, sep: string)
    requires |a| > 0 && |b| > 0
    ensures Join(a + b, sep) == Join(a, sep) + sep + Join(b, sep)
  {
    if |a| > 1 {
      assert (a + b)[1..] == a[1..] + b;
      JoinAppend(a[1..], b, sep);
    } else {
      assert (a + b)[1..] == b;
    }
  }
}
