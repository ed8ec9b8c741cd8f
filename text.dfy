/** The string operations the scripts use: Python's `str.strip()`,
    `str.upper()` as far as the `"TRUE"` test needs it, and the code-point
    order that `sorted` puts strings in. */
module Text {

  /** Python's `str.isspace()`: the characters `str.strip()` removes. */
  predicate IsSpace(c: char) {
    || c == ' '
    || ('\t' <= c <= '\r')
    || ('\U{1C}' <= c <= '\U{1F}')
    || c == '\U{85}' || c == '\U{A0}' || c == '\U{1680}'
    || ('\U{2000}' <= c <= '\U{200A}')
    || c == '\U{2028}' || c == '\U{2029}' || c == '\U{202F}'
    || c == '\U{205F}' || c == '\U{3000}'
  }

  /** Neither the first nor the last character is whitespace. */
  predicate IsStripped(s: string) {
    s == [] || (!IsSpace(s[0]) && !IsSpace(s[|s| - 1]))
  }

  /** `s.lstrip()`. */
  function TrimLeft(s: string): string {
    if s != [] && IsSpace(s[0]) then TrimLeft(s[1..]) else s
  }

  /** `s.rstrip()`. */
  function TrimRight(s: string): string {
    if s != [] && IsSpace(s[|s| - 1]) then TrimRight(s[..|s| - 1]) else s
  }

  /** `s.strip()`. */
  function Strip(s: string): string {
    TrimRight(TrimLeft(s))
  }

  /** `lstrip` drops exactly the leading whitespace. */
  lemma {:induction false} TrimLeftMeaning(s: string)
    ensures |TrimLeft(s)| <= |s| && TrimLeft(s) == s[|s| - |TrimLeft(s)|..]
    ensures forall k :: 0 <= k < |s| - |TrimLeft(s)| ==> IsSpace(s[k])
    ensures TrimLeft(s) == [] || !IsSpace(TrimLeft(s)[0])
  {
    if s != [] && IsSpace(s[0]) {
      var rest := s[1..];
      TrimLeftMeaning(rest);
      var t := TrimLeft(rest);
      assert TrimLeft(s) == t;
      assert rest[|rest| - |t|..] == s[|s| - |t|..];
      forall k | 0 <= k < |s| - |t| ensures IsSpace(s[k]) {
        if k > 0 {
          assert s[k] == rest[k - 1];
        }
      }
    }
  }

  /** `rstrip` drops exactly the trailing whitespace. */
  lemma {:induction false} TrimRightMeaning(s: string)
    ensures |TrimRight(s)| <= |s| && TrimRight(s) == s[..|TrimRight(s)|]
    ensures forall k :: |TrimRight(s)| <= k < |s| ==> IsSpace(s[k])
    ensures TrimRight(s) == [] || !IsSpace(TrimRight(s)[|TrimRight(s)| - 1])
  {
    if s != [] && IsSpace(s[|s| - 1]) {
      var front := s[..|s| - 1];
      TrimRightMeaning(front);
      var t := TrimRight(front);
      assert TrimRight(s) == t;
      assert front[..|t|] == s[..|t|];
      forall k | |t| <= k < |s| ensures IsSpace(s[k]) {
        if k < |front| {
          assert s[k] == front[k];
        }
      }
    }
  }

  /** `strip` leaves no whitespace at either end. */
  lemma StripStripped(s: string)
    ensures IsStripped(Strip(s))
  {
    var t := TrimLeft(s);
    TrimLeftMeaning(s);
    TrimRightMeaning(t);
    var r := TrimRight(t);
    assert r != [] ==> r[0] == t[0];
  }

  /** `strip` leaves the middle of `s`, from its first to its last
      non-whitespace character, and nothing around it is kept. */
  lemma StripMeaning(s: string)
    ensures var i := |s| - |TrimLeft(s)|;
      && 0 <= i <= |s| - |Strip(s)| && Strip(s) == s[i..i + |Strip(s)|]
      && (forall k :: 0 <= k < i ==> IsSpace(s[k]))
      && (forall k :: i + |Strip(s)| <= k < |s| ==> IsSpace(s[k]))
  {
    var t := TrimLeft(s);
    TrimLeftMeaning(s);
    TrimRightMeaning(t);
    var r := TrimRight(t);
    var i := |s| - |t|;
    assert r == s[i..i + |r|];
    forall k | i + |r| <= k < |s| ensures IsSpace(s[k]) {
      assert s[k] == t[k - i];
    }
  }

  /** A string without surrounding whitespace is its own strip. */
  lemma {:induction false} StripFixed(s: string)
    requires IsStripped(s)
    ensures Strip(s) == s
  {
    assert TrimLeft(s) == s;
    assert TrimRight(s) == s;
  }

  /** Stripping twice is stripping once. */
  lemma StripIdempotent(s: string)
    ensures Strip(Strip(s)) == Strip(s)
  {
    StripStripped(s);
    StripFixed(Strip(s));
  }

  /** Every character of `s` is whitespace exactly when it strips to "". */
  lemma StripEmpty(s: string)
    ensures Strip(s) == [] <==> forall k :: 0 <= k < |s| ==> IsSpace(s[k])
  {
    StripMeaning(s);
    StripStripped(s);
    if Strip(s) != [] {
      assert s[|s| - |TrimLeft(s)|] == Strip(s)[0];
    }
  }

  /** `c.upper()` for the ASCII letters; every other character is kept. */
  function UpperChar(c: char): char {
    if 'a' <= c <= 'z' then (c as int - 32) as char else c
  }

  function Upper(s: string): string {
    seq(|s|, i requires 0 <= i < |s| => UpperChar(s[i]))
  }

  /** `field.upper() == "TRUE"`. */
  predicate IsTrueFlag(field: string) {
    Upper(field) == "TRUE"
  }

  /** The flag test accepts exactly the sixteen case spellings of "true". */
  lemma TrueFlagSpellings(field: string)
    ensures IsTrueFlag(field) <==>
      && |field| == 4
      && (field[0] == 't' || field[0] == 'T')
      && (field[1] == 'r' || field[1] == 'R')
      && (field[2] == 'u' || field[2] == 'U')
      && (field[3] == 'e' || field[3] == 'E')
  {
    if IsTrueFlag(field) {
      var u := Upper(field);
      assert |field| == 4;
      assert u[0] == 'T' && u[1] == 'R' && u[2] == 'U' && u[3] == 'E';
      assert UpperChar(field[0]) == 'T' && UpperChar(field[1]) == 'R';
      assert UpperChar(field[2]) == 'U' && UpperChar(field[3]) == 'E';
    }
  }

  /** Python's `a < b` on strings: lexicographic by code point, a proper
      prefix first. */
  predicate Below(a: string, b: string)
    decreases |a|
  {
    |b| > 0 && (|a| == 0 || a[0] < b[0] || (a[0] == b[0] && Below(a[1..], b[1..])))
  }

  lemma {:induction false} BelowIrreflexive(a: string)
    ensures !Below(a, a)
    decreases |a|
  {
    if |a| > 0 {
      BelowIrreflexive(a[1..]);
    }
  }

  lemma {:induction false} BelowTransitive(a: string, b: string, c: string)
    requires Below(a, b) && Below(b, c)
    ensures Below(a, c)
    decreases |a|
  {
    if |a| > 0 && a[0] == b[0] && b[0] == c[0] {
      BelowTransitive(a[1..], b[1..], c[1..]);
    }
  }

  lemma {:induction false} BelowTotal(a: string, b: string)
    requires a != b
    ensures Below(a, b) || Below(b, a)
    decreases |a|
  {
    if |a| > 0 && |b| > 0 && a[0] == b[0] {
      BelowTotal(a[1..], b[1..]);
    }
  }

  lemma BelowAsymmetric(a: string, b: string)
    requires Below(a, b)
    ensures !Below(b, a)
  {
    if Below(b, a) {
      BelowTransitive(a, b, a);
      BelowIrreflexive(a);
    }
  }
}
