/** The java.lang.String operations the page objects compare labels with,
    written out so that their edge cases are visible: String.trim,
    toLowerCase and equalsIgnoreCase (for ASCII letters), startsWith,
    contains, split with the default limit, String.valueOf(int), and the
    XPath function normalize-space used inside element locators. */
module JavaText {

  /** String.trim removes every character up to and including U+0020. */
  predicate IsTrimmed(c: char) { c <= ' ' }

  function TrimStart(s: string): (r: string)
    ensures |r| <= |s|
    decreases |s|
  {
    if s != [] && IsTrimmed(s[0]) then TrimStart(s[1..]) else s
  }

  /** TrimStart drops the longest trimmable prefix. */
  lemma {:induction false} TrimStartDropsPrefix(s: string)
    ensures var r := TrimStart(s);
      && r == s[|s| - |r|..]
      && (r == [] || !IsTrimmed(r[0]))
      && forall i :: 0 <= i < |s| - |r| ==> IsTrimmed(s[i])
    decreases |s|
  {
    if s != [] && IsTrimmed(s[0]) {
      TrimStartDropsPrefix(s[1..]);
      var r := TrimStart(s);
      forall i | 0 <= i < |s| - |r| ensures IsTrimmed(s[i]) {
        if i > 0 {
          assert s[i] == s[1..][i - 1];
        }
      }
    }
  }

  function TrimEnd(s: string): (r: string)
    ensures |r| <= |s|
    decreases |s|
  {
    if s != [] && IsTrimmed(s[|s| - 1]) then TrimEnd(s[..|s| - 1]) else s
  }

  /** TrimEnd drops the longest trimmable suffix. */
  lemma {:induction false} TrimEndDropsSuffix(s: string)
    ensures var r := TrimEnd(s);
      && r == s[..|r|]
      && (r == [] || !IsTrimmed(r[|r| - 1]))
      && forall i :: |r| <= i < |s| ==> IsTrimmed(s[i])
    decreases |s|
  {
    if s != [] && IsTrimmed(s[|s| - 1]) {
      var u := s[..|s| - 1];
      TrimEndDropsSuffix(u);
      var r := TrimEnd(s);
      assert r == TrimEnd(u);
      assert r == u[..|r|] == s[..|r|];
      forall i | |r| <= i < |s| ensures IsTrimmed(s[i]) {
        if i < |u| {
          assert s[i] == u[i];
        }
      }
    }
  }

  /** String.trim: the longest infix with no trimmable character at either end. */
  function Trim(s: string): (r: string)
    ensures |r| <= |s|
  {
    TrimEnd(TrimStart(s))
  }

  /** Text that begins and ends with a visible character is its own trim. */
  lemma TrimOfVisibleEnds(s: string)
    requires s != [] && !IsTrimmed(s[0]) && !IsTrimmed(s[|s| - 1])
    ensures Trim(s) == s
  {
  }

  lemma {:induction false} TrimIdempotent(s: string)
    ensures Trim(Trim(s)) == Trim(s)
  {
    var u := TrimStart(s);
    var t := Trim(s);
    TrimStartDropsPrefix(s);
    TrimEndDropsSuffix(u);
    assert t == [] || (!IsTrimmed(t[0]) && !IsTrimmed(t[|t| - 1])) by {
      assert t == u[..|t|];
      if t != [] { assert t[0] == u[0]; }
    }
    assert TrimStart(t) == t;
    assert TrimEnd(t) == t;
  }

  /** Character.toLowerCase restricted to ASCII: 'A'..'Z' become 'a'..'z'. */
  function LowerChar(c: char): char
  {
    if 'A' <= c <= 'Z' then (c as int + 32) as char else c
  }

  /** String.toLowerCase, for ASCII letters. */
  function ToLower(s: string): (r: string)
    ensures |r| == |s| && forall i :: 0 <= i < |s| ==> r[i] == LowerChar(s[i])
  {
    seq(|s|, i requires 0 <= i < |s| => LowerChar(s[i]))
  }

  /** String.equalsIgnoreCase: same length, and equal characters once case is folded. */
  predicate EqualsIgnoreCase(a: string, b: string)
  {
    |a| == |b| && forall i :: 0 <= i < |a| ==> LowerChar(a[i]) == LowerChar(b[i])
  }

  lemma EqualsIgnoreCaseIsLowerEquality(a: string, b: string)
    ensures EqualsIgnoreCase(a, b) <==> ToLower(a) == ToLower(b)
  {
    if ToLower(a) == ToLower(b) {
      forall i | 0 <= i < |a| ensures LowerChar(a[i]) == LowerChar(b[i]) {
        assert ToLower(a)[i] == ToLower(b)[i];
      }
    }
  }

  lemma EqualsIgnoreCaseTrans(a: string, b: string, c: string)
    requires EqualsIgnoreCase(a, b) && EqualsIgnoreCase(b, c)
    ensures EqualsIgnoreCase(a, c)
  {
  }

  /** The space after a shorter space-free word faces a visible character. */
  lemma SpaceOffsets(x: string, y: string, x': string, y': string)
    requires FreeOf(x', {' '})
    ensures |x| < |x'| ==> !EqualsIgnoreCase(x + " " + y, x' + " " + y')
  {
    if |x| < |x'| {
      var a, b := x + " " + y, x' + " " + y';
      assert a[|x|] == ' ' && b[|x|] == x'[|x|];
    }
  }

  /** Two "word space rest" texts that are equal ignoring case agree, ignoring
      case, on the word and on the rest, when neither word holds a space:
      the first space sits at the same offset in both. */
  lemma EqualsIgnoreCaseAtSpace(x: string, y: string, x': string, y': string)
    requires FreeOf(x, {' '}) && FreeOf(x', {' '})
    requires EqualsIgnoreCase(x + " " + y, x' + " " + y')
    ensures EqualsIgnoreCase(x, x') && EqualsIgnoreCase(y, y')
  {
    var a, b := x + " " + y, x' + " " + y';
    SpaceOffsets(x, y, x', y');
    SpaceOffsets(x', y', x, y);
    forall i | 0 <= i < |x| ensures LowerChar(x[i]) == LowerChar(x'[i]) {
      assert a[i] == x[i] && b[i] == x'[i];
    }
    forall i | 0 <= i < |y| ensures LowerChar(y[i]) == LowerChar(y'[i]) {
      assert a[|x| + 1 + i] == y[i] && b[|x| + 1 + i] == y'[i];
    }
  }

  predicate StartsWith(s: string, prefix: string)
  {
    |prefix| <= |s| && s[..|prefix|] == prefix
  }

  predicate OccursAt(s: string, t: string, i: int)
  {
    0 <= i <= |s| - |t| && s[i..i + |t|] == t
  }

  /** String.contains: the text occurs at some offset. */
  predicate Contains(s: string, t: string)
  {
    exists i :: 0 <= i <= |s| - |t| && OccursAt(s, t, i)
  }

  /** A prefix is an occurrence at offset 0, so `startsWith(x) && contains(x)`
      is just `startsWith(x)`. */
  lemma StartsWithImpliesContains(s: string, t: string)
    requires StartsWith(s, t)
    ensures Contains(s, t)
  {
    assert OccursAt(s, t, 0);
  }

  // ---------------------------------------------------------------------
  // String.split(regex) with the default limit 0, for a regex that is a
  // class of single characters ("[: ]", " ", ":").

  /** The pieces between delimiters, empty ones included. */
  function Fields(s: string, delims: set<char>): (r: seq<string>)
    ensures |r| >= 1
    decreases |s|
  {
    if s == [] then [[]]
    else
      var rest := Fields(s[1..], delims);
      if s[0] in delims then [[]] + rest else [[s[0]] + rest[0]] + rest[1..]
  }

  function DropTrailingEmpty(xs: seq<string>): (r: seq<string>)
    decreases |xs|
  {
    if xs != [] && xs[|xs| - 1] == [] then DropTrailingEmpty(xs[..|xs| - 1]) else xs
  }

  /** Dropping trailing empty strings keeps a non-empty first string. */
  lemma {:induction false} DropTrailingEmptyKeepsFirst(xs: seq<string>)
    requires xs != [] && xs[0] != []
    ensures var r := DropTrailingEmpty(xs);
      r != [] && r[0] == xs[0]
    decreases |xs|
  {
    if xs[|xs| - 1] == [] {
      var init := xs[..|xs| - 1];
      assert init[0] == xs[0];
      DropTrailingEmptyKeepsFirst(init);
    }
  }

  /** Java's split: the empty string splits to [""] (no delimiter found, so the
      input itself), otherwise the fields with trailing empty strings removed,
      so that " ".split(" ") has no element at all. */
  function Split(s: string, delims: set<char>): seq<string>
  {
    if s == [] then [[]] else DropTrailingEmpty(Fields(s, delims))
  }

  predicate FreeOf(s: string, delims: set<char>)
  {
    forall i :: 0 <= i < |s| ==> s[i] !in delims
  }

  lemma {:induction false} FieldsOfPlain(a: string, delims: set<char>)
    requires FreeOf(a, delims)
    ensures Fields(a, delims) == [a]
    decreases |a|
  {
    if a != [] {
      FieldsOfPlain(a[1..], delims);
      assert [a[0]] + a[1..] == a;
    }
  }

  /** A delimiter-free word followed by a delimiter is one field. */
  lemma {:induction false} FieldsOfWordThen(a: string, c: char, rest: string, delims: set<char>)
    requires FreeOf(a, delims) && c in delims
    ensures Fields(a + [c] + rest, delims) == [a] + Fields(rest, delims)
    decreases |a|
  {
    var s := a + [c] + rest;
    if a == [] {
      assert s[0] == c && s[1..] == rest;
    } else {
      assert s[0] == a[0];
      assert s[1..] == a[1..] + [c] + rest;
      FieldsOfWordThen(a[1..], c, rest, delims);
      assert [a[0]] + a[1..] == a;
    }
  }

  // ---------------------------------------------------------------------
  // Decimal text of integers (String.valueOf(int), "" + int).

  function DigitChar(d: int): char
    requires 0 <= d < 10
  {
    ('0' as int + d) as char
  }

  function NatToString(n: nat): (r: string)
    ensures |r| >= 1
    ensures forall i :: 0 <= i < |r| ==> '0' <= r[i] <= '9'
    decreases n
  {
    if n < 10 then [DigitChar(n)] else NatToString(n / 10) + [DigitChar(n % 10)]
  }

  /** The decimal text of a positive number has no leading zero. */
  lemma {:induction false} NatToStringNoLeadingZero(n: nat)
    requires n > 0
    ensures NatToString(n)[0] != '0'
    decreases n
  {
    if n >= 10 {
      NatToStringNoLeadingZero(n / 10);
    }
  }

  /** Different numbers have different decimal texts. */
  lemma {:induction false} NatToStringInjective(a: nat, b: nat)
    requires NatToString(a) == NatToString(b)
    ensures a == b
    decreases a
  {
    if a >= 10 && b >= 10 {
      var x, y := NatToString(a), NatToString(b);
      assert x[|x| - 1] == DigitChar(a % 10) && y[|y| - 1] == DigitChar(b % 10);
      assert x[..|x| - 1] == NatToString(a / 10) && y[..|y| - 1] == NatToString(b / 10);
      NatToStringInjective(a / 10, b / 10);
    }
  }

  function IntToString(n: int): (r: string)
    ensures |r| >= 1 && (r[0] == '-' <==> n < 0)
    ensures forall i :: 0 <= i < |r| ==> r[i] == '-' || '0' <= r[i] <= '9'
  {
    if n < 0 then "-" + NatToString(-n) else NatToString(n)
  }

  lemma IntToStringInjective(a: int, b: int)
    requires IntToString(a) == IntToString(b)
    ensures a == b
  {
    var x := IntToString(a);
    assert (a < 0) == (x[0] == '-') == (b < 0);
    if a < 0 {
      assert NatToString(-a) == x[1..] == NatToString(-b);
      NatToStringInjective(-a, -b);
    } else {
      NatToStringInjective(a, b);
    }
  }

  /** Text with no upper-case ASCII letter, e.g. a number. */
  predicate NoUpper(s: string)
  {
    forall i :: 0 <= i < |s| ==> !('A' <= s[i] <= 'Z')
  }

  /** For such texts, equalsIgnoreCase is plain equality. */
  lemma EqualsIgnoreCaseNoUpper(a: string, b: string)
    requires NoUpper(a) && NoUpper(b) && EqualsIgnoreCase(a, b)
    ensures a == b
  {
    forall i | 0 <= i < |a| ensures a[i] == b[i] {
      assert LowerChar(a[i]) == a[i] && LowerChar(b[i]) == b[i];
    }
  }

  // ---------------------------------------------------------------------
  // XPath 1.0 normalize-space(): leading and trailing white space removed,
  // inner runs of white space replaced by one space.

  predicate IsXmlSpace(c: char) { c == ' ' || c == '\t' || c == '\r' || c == '\n' }

  /** `started`: a visible character has been emitted; `pending`: white space
      was seen since the last emitted character. */
  function Collapse(s: string, started: bool, pending: bool): string
    requires pending ==> started
    decreases |s|
  {
    if s == [] then []
    else if IsXmlSpace(s[0]) then Collapse(s[1..], started, started)
    else (if pending then " " else "") + [s[0]] + Collapse(s[1..], true, false)
  }

  /** Collapse emits only spaces and visible characters, never ends with a
      space, and starts with a visible character unless something was emitted
      before. */
  lemma {:induction false} CollapseShape(s: string, started: bool, pending: bool)
    requires pending ==> started
    ensures var r := Collapse(s, started, pending);
      && (forall i :: 0 <= i < |r| ==> r[i] == ' ' || !IsXmlSpace(r[i]))
      && (r != [] ==> !IsXmlSpace(r[|r| - 1]))
      && (!started ==> r == [] || !IsXmlSpace(r[0]))
    decreases |s|
  {
    if s != [] {
      if IsXmlSpace(s[0]) {
        CollapseShape(s[1..], started, started);
      } else {
        CollapseShape(s[1..], true, false);
        var tail := Collapse(s[1..], true, false);
        var head := (if pending then " " else "") + [s[0]];
        assert Collapse(s, started, pending) == head + tail;
      }
    }
  }

  function NormalizeSpace(s: string): string
  {
    Collapse(s, false, false)
  }

  /** normalize-space neither starts nor ends with white space. */
  lemma NormalizeSpaceEnds(s: string)
    ensures var r := NormalizeSpace(s);
      r == [] || (!IsXmlSpace(r[0]) && !IsXmlSpace(r[|r| - 1]))
  {
    CollapseShape(s, false, false);
  }

  /** White space at index i of s is one space followed by a visible character. */
  predicate SingleSpaceAt(s: string, i: nat)
    requires i < |s|
  {
    IsXmlSpace(s[i]) ==> s[i] == ' ' && i < |s| - 1 && !IsXmlSpace(s[i + 1])
  }

  predicate SpacesSingle(s: string)
  {
    forall i :: 0 <= i < |s| ==> SingleSpaceAt(s, i)
  }

  /** Text in which every white-space character is a single space between two
      visible characters is left unchanged by normalize-space. */
  predicate IsNormalized(s: string)
  {
    (s == [] || (!IsXmlSpace(s[0]) && !IsXmlSpace(s[|s| - 1]))) && SpacesSingle(s)
  }

  lemma {:induction false} CollapseNormalized(s: string, started: bool)
    requires s == [] || !IsXmlSpace(s[0]) || (started && s[0] == ' ' && |s| > 1 && !IsXmlSpace(s[1]))
    requires s == [] || !IsXmlSpace(s[|s| - 1])
    requires SpacesSingle(s)
    ensures Collapse(s, started, false) == s
    decreases |s|
  {
    if s != [] {
      if IsXmlSpace(s[0]) {
        var u := s[1..];
        var t := s[2..];
        assert u[1..] == t;
        SpacesStaySingle(s, 2);
        StartOfSuffix(s, 2);
        CollapseNormalized(t, true);
        assert Collapse(s, started, false) == Collapse(u, true, true);
        assert Collapse(u, true, true) == " " + [u[0]] + Collapse(t, true, false);
        assert s == " " + [s[1]] + t;
      } else {
        var t := s[1..];
        SpacesStaySingle(s, 1);
        StartOfSuffix(s, 1);
        CollapseNormalized(t, true);
        assert Collapse(s, started, false) == [s[0]] + Collapse(t, true, false);
        assert s == [s[0]] + t;
      }
    }
  }

  /** Every suffix keeps the single, inner spaces of the text. */
  lemma SpacesStaySingle(s: string, d: nat)
    requires d <= |s| && SpacesSingle(s)
    ensures SpacesSingle(s[d..])
  {
    var t := s[d..];
    forall i | 0 <= i < |t| ensures SingleSpaceAt(t, i) {
      assert SingleSpaceAt(s, i + d);
      assert t[i] == s[i + d];
      if i + 1 < |t| {
        assert t[i + 1] == s[i + 1 + d];
      }
    }
  }

  /** A suffix of such text starts with a visible character or with one space
      before a visible character, and ends as the text does. */
  lemma StartOfSuffix(s: string, d: nat)
    requires d <= |s| && SpacesSingle(s)
    requires s == [] || !IsXmlSpace(s[|s| - 1])
    ensures var t := s[d..];
      (t == [] || !IsXmlSpace(t[0]) || (t[0] == ' ' && |t| > 1 && !IsXmlSpace(t[1])))
      && (t == [] || !IsXmlSpace(t[|t| - 1]))
  {
    var t := s[d..];
    if t != [] {
      assert SingleSpaceAt(s, d);
      assert t[0] == s[d] && t[|t| - 1] == s[|s| - 1];
      if |t| > 1 {
        assert t[1] == s[d + 1];
      }
    }
  }

  lemma NormalizeSpaceKeepsNormalized(s: string)
    requires IsNormalized(s)
    ensures NormalizeSpace(s) == s
  {
    CollapseNormalized(s, false);
  }
}
