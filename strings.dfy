/** Small string operations of the .NET base library that the translator relies on. */
module Strings {

  /** Concatenation regroups freely. */
  lemma Associative(a: string, b: string, c: string)
    ensures (a + b) + c == a + (b + c)
  {
  }

  /** Char.IsWhiteSpace on .NET Framework 3.5: the space, line and paragraph separators of
      its Unicode tables (U+180E among them), U+0009..U+000D and U+0085. */
  predicate IsWhiteSpace(c: char) {
    var n := c as int;
    (0x09 <= n <= 0x0D) || n == 0x20 || n == 0x85 || n == 0xA0 || n == 0x1680 || n == 0x180E
    || (0x2000 <= n <= 0x200A) || n == 0x2028 || n == 0x2029 || n == 0x202F
    || n == 0x205F || n == 0x3000
  }

  /** String.IsNullOrWhiteSpace (a null string is not modelled). */
  predicate AllWhite(s: string) {
    forall i :: 0 <= i < |s| ==> IsWhiteSpace(s[i])
  }

  /** The characters String.Trim removes on .NET Framework 3.5 (a fixed list, not
      Char.IsWhiteSpace): U+0009..U+000D, space, U+0085, U+00A0, U+1680, U+2000..U+200B,
      U+2028, U+2029, U+3000 and U+FEFF. */
  predicate IsTrimChar(c: char) {
    var n := c as int;
    (0x09 <= n <= 0x0D) || n == 0x20 || n == 0x85 || n == 0xA0 || n == 0x1680
    || (0x2000 <= n <= 0x200B) || n == 0x2028 || n == 0x2029 || n == 0x3000 || n == 0xFEFF
  }

  predicate AllTrimChars(s: string) {
    forall i :: 0 <= i < |s| ==> IsTrimChar(s[i])
  }

  /** Neither end of `s` is a character Trim removes: what String.Trim leaves. */
  predicate IsTrimmed(s: string) {
    s == [] || (!IsTrimChar(s[0]) && !IsTrimChar(s[|s| - 1]))
  }

  /** String.TrimStart(): a suffix of `s` that starts with a character Trim keeps; only
      characters Trim removes are dropped. */
  function TrimStart(s: string): (r: string)
    ensures |r| <= |s| && r == s[|s| - |r|..]
    ensures r == [] || !IsTrimChar(r[0])
    decreases |s|
  {
    if s != [] && IsTrimChar(s[0]) then TrimStart(s[1..]) else s
  }

  /** String.TrimEnd(): a prefix of `s` that ends with a character Trim keeps; only
      characters Trim removes are dropped. */
  function TrimEnd(s: string): (r: string)
    ensures |r| <= |s| && r == s[..|r|]
    ensures r == [] || !IsTrimChar(r[|r| - 1])
    decreases |s|
  {
    if s != [] && IsTrimChar(s[|s| - 1]) then TrimEnd(s[..|s| - 1]) else s
  }

  /** TrimStart drops only characters Trim removes. */
  lemma {:induction false} TrimStartDropsTrimChars(s: string)
    ensures AllTrimChars(s[..|s| - |TrimStart(s)|])
    decreases |s|
  {
    if s != [] && IsTrimChar(s[0]) {
      var d := |s| - |TrimStart(s)|;
      TrimStartDropsTrimChars(s[1..]);
      assert s[..d] == [s[0]] + s[1..][..d - 1];
    }
  }

  /** TrimEnd drops only characters Trim removes. */
  lemma {:induction false} TrimEndDropsTrimChars(s: string)
    ensures AllTrimChars(s[|TrimEnd(s)|..])
    decreases |s|
  {
    if s != [] && IsTrimChar(s[|s| - 1]) {
      var r := TrimEnd(s);
      TrimEndDropsTrimChars(s[..|s| - 1]);
      assert s[|r|..] == s[..|s| - 1][|r|..] + [s[|s| - 1]];
    }
  }

  /** String.Trim(): the piece of `s` left once the characters Trim removes are dropped from
      both ends; it has no removable character at either end. */
  function Trim(s: string): (r: string)
    ensures IsTrimmed(r)
    ensures |r| <= |s|
  {
    var t := TrimStart(s);
    var r := TrimEnd(t);
    assert r != [] ==> r[0] == t[0];
    r
  }

  lemma {:induction false} TrimStartOfTrimmed(s: string)
    requires s == [] || !IsTrimChar(s[0])
    ensures TrimStart(s) == s
  {
  }

  lemma {:induction false} TrimEndOfTrimmed(s: string)
    requires s == [] || !IsTrimChar(s[|s| - 1])
    ensures TrimEnd(s) == s
  {
  }

  /** A string that already has no removable character at its ends is left alone by Trim, so Trim is idempotent. */
  lemma TrimIdempotent(s: string)
    ensures Trim(Trim(s)) == Trim(s)
  {
    var r := Trim(s);
    TrimStartOfTrimmed(r);
    assert TrimStart(r) == r;
    TrimEndOfTrimmed(r);
    assert TrimEnd(r) == r;
  }

  lemma {:induction false} TrimStartSkipsWhite(p: string, x: string)
    requires AllTrimChars(p)
    ensures TrimStart(p + x) == TrimStart(x)
    decreases |p|
  {
    if p != [] {
      assert (p + x)[0] == p[0];
      assert (p + x)[1..] == p[1..] + x;
      assert TrimStart(p + x) == TrimStart(p[1..] + x);
      assert AllTrimChars(p[1..]);
      TrimStartSkipsWhite(p[1..], x);
    } else {
      assert p + x == x;
    }
  }

  lemma {:induction false} TrimEndSkipsWhite(x: string, q: string)
    requires AllTrimChars(q)
    ensures TrimEnd(x + q) == TrimEnd(x)
    decreases |q|
  {
    if q != [] {
      assert (x + q)[|x + q| - 1] == q[|q| - 1];
      assert (x + q)[..|x + q| - 1] == x + q[..|q| - 1];
      assert TrimEnd(x + q) == TrimEnd(x + q[..|q| - 1]);
      assert AllTrimChars(q[..|q| - 1]);
      TrimEndSkipsWhite(x, q[..|q| - 1]);
    } else {
      assert x + q == x;
    }
  }

  lemma {:induction false} TrimStartKeepsTail(s: string, q: string)
    requires !AllTrimChars(s)
    ensures TrimStart(s + q) == TrimStart(s) + q
    decreases |s|
  {
    if IsTrimChar(s[0]) {
      assert (s + q)[1..] == s[1..] + q;
      assert !AllTrimChars(s[1..]) by {
        var i :| 0 <= i < |s| && !IsTrimChar(s[i]);
        assert s[1..][i - 1] == s[i];
      }
      TrimStartKeepsTail(s[1..], q);
    }
  }

  /** Trim's list is not Char.IsWhiteSpace: it removes a byte-order mark, and keeps a narrow
      no-break space. */
  lemma TrimListExamples(y: char)
    requires !IsTrimChar(y)
    ensures Trim(['\U{FEFF}', y]) == [y] && !IsWhiteSpace('\U{FEFF}')
    ensures Trim(['\U{202F}', y]) == ['\U{202F}', y] && IsWhiteSpace('\U{202F}')
  {
    var bom, narrow := '\U{FEFF}', '\U{202F}';
    assert IsTrimChar(bom) && !IsWhiteSpace(bom);
    assert !IsTrimChar(narrow) && IsWhiteSpace(narrow);
    TrimPair(bom, y);
    TrimPair(narrow, y);
  }

  /** Trim on two characters whose second is kept: the first goes exactly when Trim removes it. */
  lemma TrimPair(x: char, y: char)
    requires !IsTrimChar(y)
    ensures Trim([x, y]) == if IsTrimChar(x) then [y] else [x, y]
  {
    var s := [x, y];
    assert s[1..] == [y];
    TrimStartOfTrimmed([y]);
    if IsTrimChar(x) {
      assert TrimStart(s) == [y];
      TrimEndOfTrimmed([y]);
    } else {
      TrimStartOfTrimmed(s);
      TrimEndOfTrimmed(s);
    }
  }

  /** Trim gives back exactly the text between removable padding, when that text has no
      removable character at either end. */
  lemma TrimOfPadded(p: string, s: string, q: string)
    requires AllTrimChars(p) && AllTrimChars(q) && IsTrimmed(s)
    ensures Trim(p + s + q) == s
  {
    TrimIgnoresPadding(p, s, q);
    TrimStartOfTrimmed(s);
    TrimEndOfTrimmed(s);
  }

  /** Every string is Trim's result with removable characters on either side; with TrimOfPadded
      this fixes Trim's value. */
  lemma TrimSplit(s: string)
    ensures exists p, q :: AllTrimChars(p) && AllTrimChars(q) && s == p + Trim(s) + q
  {
    var t := TrimStart(s);
    var r := TrimEnd(t);
    TrimStartDropsTrimChars(s);
    TrimEndDropsTrimChars(t);
    SplitBeforeSuffix(s, t);
    SplitAfterPrefix(t, r);
    var p, q := s[..|s| - |t|], t[|r|..];
    Associative(p, r, q);
    assert AllTrimChars(p) && AllTrimChars(q) && s == p + Trim(s) + q;
  }

  lemma SplitBeforeSuffix(s: string, t: string)
    requires |t| <= |s| && t == s[|s| - |t|..]
    ensures s == s[..|s| - |t|] + t
  {
  }

  lemma SplitAfterPrefix(t: string, r: string)
    requires |r| <= |t| && r == t[..|r|]
    ensures t == r + t[|r|..]
  {
  }

  /** Removable characters added on either side never change what Trim returns. */
  lemma TrimIgnoresPadding(p: string, s: string, q: string)
    requires AllTrimChars(p) && AllTrimChars(q)
    ensures Trim(p + s + q) == Trim(s)
  {
    assert p + s + q == p + (s + q);
    TrimStartSkipsWhite(p, s + q);
    if AllTrimChars(s) {
      assert AllTrimChars(s + q) by {
        forall i | 0 <= i < |s + q| ensures IsTrimChar((s + q)[i]) {
          if i >= |s| { assert (s + q)[i] == q[i - |s|]; }
        }
      }
      assert TrimStart(s + q) == [];
      assert TrimStart(s) == [];
    } else {
      TrimStartKeepsTail(s, q);
      TrimEndSkipsWhite(TrimStart(s), q);
    }
  }

  /** The simple upper-case mapping of OrdinalIgnoreCase, restricted to ASCII letters. */
  function FoldCase(c: char): char {
    if 'a' <= c <= 'z' then (c as int - 32) as char else c
  }

  /** String.Equals(a, b, StringComparison.OrdinalIgnoreCase) for ASCII case differences. */
  predicate EqualsIgnoreCase(a: string, b: string) {
    |a| == |b| && forall i :: 0 <= i < |a| ==> FoldCase(a[i]) == FoldCase(b[i])
  }

  /** String.Contains(string): ordinal substring search. */
  predicate Contains(s: string, sub: string)
    decreases |s|
  {
    sub <= s || (s != [] && Contains(s[1..], sub))
  }

  /** `sub` occurs in `s` starting at position `i`. */
  predicate OccursAt(s: string, sub: string, i: int) {
    0 <= i <= |s| - |sub| && s[i..i + |sub|] == sub
  }

  /** An occurrence past the first position is an occurrence in the tail, and back. */
  lemma OccursInTail(s: string, sub: string, i: int)
    requires s != [] && 1 <= i
    ensures OccursAt(s, sub, i) <==> OccursAt(s[1..], sub, i - 1)
  {
    if 0 <= i - 1 <= |s[1..]| - |sub| {
      assert s[1..][i - 1..i - 1 + |sub|] == s[i..i + |sub|];
    }
  }

  /** Contains holds exactly when `sub` occurs at some position of `s`. */
  lemma {:induction false} ContainsIff(s: string, sub: string)
    ensures Contains(s, sub) <==> exists i :: OccursAt(s, sub, i)
    decreases |s|
  {
    if sub <= s {
      assert OccursAt(s, sub, 0);
    } else if s == [] {
      assert forall i :: !OccursAt(s, sub, i);
    } else {
      ContainsIff(s[1..], sub);
      assert !OccursAt(s, sub, 0);
      if exists i :: OccursAt(s, sub, i) {
        var i :| OccursAt(s, sub, i);
        OccursInTail(s, sub, i);
      }
      if exists j :: OccursAt(s[1..], sub, j) {
        var j :| OccursAt(s[1..], sub, j);
        OccursInTail(s, sub, j + 1);
      }
    }
  }

  /** A string in which the first character of `sub` never appears does not contain `sub`. */
  lemma MissingFirstChar(s: string, sub: string)
    requires sub != [] && forall i :: 0 <= i < |s| ==> s[i] != sub[0]
    ensures !Contains(s, sub)
  {
    ContainsIff(s, sub);
    forall i | 0 <= i <= |s| - |sub| ensures !OccursAt(s, sub, i) {
      assert s[i..i + |sub|][0] == s[i];
    }
  }

  /** What the pattern [\d-] removes: ASCII and full-width decimal digits, and the hyphen-minus. */
  predicate IsDigitOrDash(c: char) {
    ('0' <= c <= '9') || ('\U{FF10}' <= c <= '\U{FF19}') || c == '-'
  }

  /** Regex.Replace(s, @"[\d-]", string.Empty). */
  function StripDigitsAndDashes(s: string): (r: string)
    ensures |r| <= |s|
    ensures forall i :: 0 <= i < |r| ==> !IsDigitOrDash(r[i])
    decreases |s|
  {
    if s == [] then []
    else if IsDigitOrDash(s[0]) then StripDigitsAndDashes(s[1..])
    else [s[0]] + StripDigitsAndDashes(s[1..])
  }

  /** On one character the replacement removes it exactly when it is a digit or a hyphen. */
  lemma StripOne(c: char)
    ensures StripDigitsAndDashes([c]) == if IsDigitOrDash(c) then [] else [c]
  {
  }

  /** The replacement works character by character: every other character is kept, in order. */
  lemma {:induction false} StripAppend(a: string, b: string)
    ensures StripDigitsAndDashes(a + b) == StripDigitsAndDashes(a) + StripDigitsAndDashes(b)
    decreases |a|
  {
    if a == [] {
      assert a + b == b;
    } else {
      assert (a + b)[0] == a[0] && (a + b)[1..] == a[1..] + b;
      StripAppend(a[1..], b);
    }
  }

  /** A character that is neither a digit, a hyphen nor white space. */
  predicate Significant(c: char) {
    !IsDigitOrDash(c) && !IsWhiteSpace(c)
  }

  /** After removing digits and hyphens something non-blank is left exactly when `s` has
      a character that is neither a digit, a hyphen nor white space. */
  lemma {:induction false} StripBlankIff(s: string)
    ensures !AllWhite(StripDigitsAndDashes(s)) <==> exists i :: 0 <= i < |s| && Significant(s[i])
    decreases |s|
  {
    if s != [] {
      var t := StripDigitsAndDashes(s[1..]);
      StripBlankIff(s[1..]);
      assert (exists i :: 0 <= i < |s| && Significant(s[i])) <==>
             Significant(s[0]) || exists j :: 0 <= j < |s[1..]| && Significant(s[1..][j]) by {
        if exists i :: 0 <= i < |s| && Significant(s[i]) {
          var i :| 0 <= i < |s| && Significant(s[i]);
          if i > 0 { assert s[1..][i - 1] == s[i]; }
        }
        if exists j :: 0 <= j < |s[1..]| && Significant(s[1..][j]) {
          var j :| 0 <= j < |s[1..]| && Significant(s[1..][j]);
          assert s[j + 1] == s[1..][j];
        }
      }
      if !IsDigitOrDash(s[0]) {
        var r := [s[0]] + t;
        assert StripDigitsAndDashes(s) == r;
        assert r[0] == s[0];
        assert forall k :: 0 < k < |r| ==> r[k] == t[k - 1];
        if !AllWhite(t) {
          var k :| 0 <= k < |t| && !IsWhiteSpace(t[k]);
          assert r[k + 1] == t[k];
        }
      }
    }
  }
}
