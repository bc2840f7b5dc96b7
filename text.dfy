/** The two string primitives the job form's validation relies on:
    `String.prototype.trim` and the relational operators on strings, which
    compare character by character. */
module Text {

  /** The characters `trim` removes: the ECMAScript WhiteSpace and
      LineTerminator productions (tab, vertical tab, form feed, space,
      no-break space, the byte order mark, the Unicode space separators,
      line feed, carriage return, line and paragraph separators). */
  const Whitespace: set<char> := {
    '\t', '\U{000B}', '\U{000C}', ' ', '\U{00A0}', '\U{FEFF}',
    '\U{1680}', '\U{2000}', '\U{2001}', '\U{2002}', '\U{2003}', '\U{2004}',
    '\U{2005}', '\U{2006}', '\U{2007}', '\U{2008}', '\U{2009}', '\U{200A}',
    '\U{202F}', '\U{205F}', '\U{3000}',
    '\n', '\r', '\U{2028}', '\U{2029}'
  }

  predicate IsWhitespace(c: char) {
    c in Whitespace
  }

  /** Every character of `s` is whitespace (the empty string included). */
  predicate IsBlank(s: string) {
    forall i :: 0 <= i < |s| ==> IsWhitespace(s[i])
  }

  /** `s` with its leading whitespace removed; empty exactly when `s` is
      blank, and otherwise starting with a character that is not
      whitespace. */
  function TrimStart(s: string): (r: string)
    ensures r == [] <==> IsBlank(s)
    ensures r != [] ==> !IsWhitespace(r[0])
  {
    if |s| > 0 && IsWhitespace(s[0]) then TrimStart(s[1..]) else s
  }

  /** `s` with its trailing whitespace removed; empty exactly when `s` is
      blank, and otherwise ending with a character that is not whitespace. */
  function TrimEnd(s: string): (r: string)
    ensures r == [] <==> IsBlank(s)
    ensures r != [] ==> !IsWhitespace(r[|r| - 1])
  {
    if |s| > 0 && IsWhitespace(s[|s| - 1]) then TrimEnd(s[..|s| - 1]) else s
  }

  /** What TrimStart removes is a blank prefix: `s` is that prefix followed
      by the result. */
  lemma {:induction false} TrimStartRemovesBlankPrefix(s: string)
    ensures |TrimStart(s)| <= |s|
    ensures s == s[..|s| - |TrimStart(s)|] + TrimStart(s)
    ensures IsBlank(s[..|s| - |TrimStart(s)|])
    decreases |s|
  {
    if |s| > 0 && IsWhitespace(s[0]) {
      var t := s[1..];
      TrimStartRemovesBlankPrefix(t);
      assert s[..|s| - |TrimStart(s)|] == [s[0]] + t[..|t| - |TrimStart(t)|];
    }
  }

  /** What TrimEnd removes is a blank suffix: `s` is the result followed by
      that suffix. */
  lemma {:induction false} TrimEndRemovesBlankSuffix(s: string)
    ensures |TrimEnd(s)| <= |s|
    ensures s == TrimEnd(s) + s[|TrimEnd(s)|..]
    ensures IsBlank(s[|TrimEnd(s)|..])
    decreases |s|
  {
    if |s| > 0 && IsWhitespace(s[|s| - 1]) {
      var t := s[..|s| - 1];
      TrimEndRemovesBlankSuffix(t);
      assert s[|TrimEnd(s)|..] == t[|TrimEnd(t)|..] + [s[|s| - 1]];
    }
  }

  /** `s.trim()`: leading and trailing whitespace removed. The result is
      empty exactly when `s` holds nothing but whitespace, which is what
      `!s.trim()` tests. */
  function Trim(s: string): (r: string)
    ensures r == [] <==> IsBlank(s)
  {
    TrimEnd(TrimStart(s))
  }

  /** A non-empty trimmed string neither starts nor ends with whitespace. */
  lemma TrimEnds(s: string)
    ensures Trim(s) != [] ==> !IsWhitespace(Trim(s)[0]) && !IsWhitespace(Trim(s)[|Trim(s)| - 1])
  {
    var t := TrimStart(s);
    if Trim(s) != [] {
      TrimEndRemovesBlankSuffix(t);
      assert Trim(s)[0] == t[0];
    }
  }

  /** Strict order of the string relational operators (`a < b`): the first
      differing character decides, and a proper prefix is smaller. */
  predicate LexLt(a: string, b: string)
    decreases |a|
  {
    if b == [] then false
    else if a == [] then true
    else if a[0] != b[0] then a[0] < b[0]
    else LexLt(a[1..], b[1..])
  }

  /** Non-strict order of the string relational operators (`a <= b`);
      LexLeIffNotLt shows it is `!(b < a)`, as JavaScript defines it. */
  predicate LexLe(a: string, b: string)
    decreases |a|
  {
    if a == [] then true
    else if b == [] then false
    else if a[0] != b[0] then a[0] < b[0]
    else LexLe(a[1..], b[1..])
  }

  lemma {:induction false} LexLtIrreflexive(a: string)
    ensures !LexLt(a, a)
  {
    if a != [] {
      LexLtIrreflexive(a[1..]);
    }
  }

  lemma {:induction false} LexLeReflexive(a: string)
    ensures LexLe(a, a)
  {
    if a != [] {
      LexLeReflexive(a[1..]);
    }
  }

  /** `a <= b` holds exactly when `b < a` does not: the order is total. */
  lemma {:induction false} LexLeIffNotLt(a: string, b: string)
    ensures LexLe(a, b) <==> !LexLt(b, a)
    decreases |a|
  {
    if a != [] && b != [] && a[0] == b[0] {
      LexLeIffNotLt(a[1..], b[1..]);
    }
  }

  /** `a <= b` holds exactly when `a == b` or `a < b`. */
  lemma {:induction false} LexLeIffLtOrEq(a: string, b: string)
    ensures LexLe(a, b) <==> (a == b || LexLt(a, b))
    decreases |a|
  {
    if a == [] {
    } else if b == [] {
    } else if a[0] != b[0] {
      assert a != b by { assert a[0] != b[0]; }
    } else {
      LexLeIffLtOrEq(a[1..], b[1..]);
      assert a == b <==> a[1..] == b[1..] by {
        assert a == [a[0]] + a[1..];
        assert b == [b[0]] + b[1..];
      }
    }
  }

  /** String `<` is transitive. */
  lemma {:induction false} LexLtTransitive(a: string, b: string, c: string)
    requires LexLt(a, b) && LexLt(b, c)
    ensures LexLt(a, c)
  {
    LexLeIffLtOrEq(a, b);
    LexLeIffLtOrEq(b, c);
    LexLeTransitive(a, b, c);
    LexLeIffLtOrEq(a, c);
    if a == c {
      LexLeIffNotLt(a, b);
    }
  }

  lemma {:induction false} LexLeTransitive(a: string, b: string, c: string)
    requires LexLe(a, b) && LexLe(b, c)
    ensures LexLe(a, c)
    decreases |a|
  {
    if a != [] && b != [] && c != [] && a[0] == b[0] == c[0] {
      LexLeTransitive(a[1..], b[1..], c[1..]);
    }
  }

  lemma {:induction false} LexLeAntisymmetric(a: string, b: string)
    requires LexLe(a, b) && LexLe(b, a)
    ensures a == b
  {
    LexLeIffLtOrEq(a, b);
    LexLeIffNotLt(b, a);
  }
}
