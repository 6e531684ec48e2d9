/** The string primitives the quiz utilities build on: JavaScript's
    `toLowerCase`, `trim` and the regular-expression class `\s`. */
module Text {

  /** The characters ECMAScript counts as WhiteSpace or LineTerminator: exactly
      the characters `String.prototype.trim` strips and `\s` matches. */
  predicate IsWhitespace(c: char) {
    c == '\t' || c == '\n' || c == '\U{000B}' || c == '\U{000C}' || c == '\r' || c == ' '
    || c == '\U{00A0}' || c == '\U{1680}' || ('\U{2000}' <= c <= '\U{200A}')
    || c == '\U{2028}' || c == '\U{2029}' || c == '\U{202F}' || c == '\U{205F}'
    || c == '\U{3000}' || c == '\U{FEFF}'
  }

  predicate AllWhitespace(s: string) {
    forall k | 0 <= k < |s| :: IsWhitespace(s[k])
  }

  /** `toLowerCase` on one character, restricted to the ASCII letters. */
  function Lower(c: char): (r: char)
    ensures 'A' <= c <= 'Z' ==> 'a' <= r <= 'z'
    ensures !('A' <= c <= 'Z') ==> r == c
    ensures IsWhitespace(r) <==> IsWhitespace(c)
  {
    if 'A' <= c <= 'Z' then (c as int - 'A' as int + 'a' as int) as char else c
  }

  function LowerStr(s: string): (r: string)
    ensures |r| == |s|
  {
    seq(|s|, k requires 0 <= k < |s| => Lower(s[k]))
  }

  /** True of a string that `toLowerCase` leaves as it is. */
  predicate IsLower(s: string) {
    forall k | 0 <= k < |s| :: Lower(s[k]) == s[k]
  }

  lemma LowerStrIsLower(s: string)
    ensures IsLower(LowerStr(s))
    ensures IsLower(s) ==> LowerStr(s) == s
  {
  }

  lemma SuffixIsLower(s: string, i: nat)
    requires IsLower(s) && i <= |s|
    ensures IsLower(s[i..])
  {
    assert forall k | 0 <= k < |s| - i :: s[i..][k] == s[i + k];
  }

  lemma ConsIsLower(c: char, s: string)
    requires Lower(c) == c && IsLower(s)
    ensures IsLower([c] + s)
  {
    assert forall k | 0 < k <= |s| :: ([c] + s)[k] == s[k - 1];
  }

  /** `trimStart`: drops the leading whitespace and nothing else. */
  function TrimStart(s: string): (r: string)
    ensures |r| <= |s| && r == s[|s| - |r|..]
    ensures AllWhitespace(s[..|s| - |r|])
    ensures r == [] || !IsWhitespace(r[0])
  {
    if |s| > 0 && IsWhitespace(s[0]) then
      var r := TrimStart(s[1..]);
      assert s[..|s| - |r|] == [s[0]] + s[1..][..|s| - 1 - |r|];
      r
    else s
  }

  /** `trimEnd`: drops the trailing whitespace and nothing else. */
  function TrimEnd(s: string): (r: string)
    ensures |r| <= |s| && r == s[..|r|]
    ensures AllWhitespace(s[|r|..])
    ensures r == [] || !IsWhitespace(r[|r| - 1])
  {
    if |s| > 0 && IsWhitespace(s[|s| - 1]) then
      var r := TrimEnd(s[..|s| - 1]);
      assert s[|r|..] == s[..|s| - 1][|r|..] + [s[|s| - 1]];
      r
    else s
  }

  /** `trim`: what is left once the whitespace at both ends is gone. */
  function Trim(s: string): (r: string)
    ensures |r| <= |s|
    ensures r == [] || (!IsWhitespace(r[0]) && !IsWhitespace(r[|r| - 1]))
  {
    TrimEnd(TrimStart(s))
  }

  /** Whitespace in front of a string that does not start with whitespace is
      exactly what `trimStart` removes. */
  lemma {:induction false} TrimStartOfWhitespace(w: string, b: string)
    requires AllWhitespace(w) && (b == [] || !IsWhitespace(b[0]))
    ensures TrimStart(w + b) == b
  {
    if w != [] {
      assert (w + b)[0] == w[0] && (w + b)[1..] == w[1..] + b;
      TrimStartOfWhitespace(w[1..], b);
    } else {
      assert w + b == b;
    }
  }

  /** Once a string ends with a character that is not whitespace, what comes
      after it is out of reach of `trimStart`. */
  lemma {:induction false} TrimStartAppend(x: string, z: string)
    requires x != [] && !IsWhitespace(x[|x| - 1])
    ensures TrimStart(x + z) == TrimStart(x) + z
  {
    assert (x + z)[0] == x[0];
    if IsWhitespace(x[0]) {
      assert (x + z)[1..] == x[1..] + z;
      TrimStartAppend(x[1..], z);
    }
  }

  /** The mirror image: before a string that starts with a character that is
      not whitespace, nothing is in reach of `trimEnd`. */
  lemma {:induction false} TrimEndAppend(z: string, y: string)
    requires y != [] && !IsWhitespace(y[0])
    ensures TrimEnd(z + y) == z + TrimEnd(y)
  {
    assert (z + y)[|z + y| - 1] == y[|y| - 1];
    if IsWhitespace(y[|y| - 1]) {
      assert (z + y)[..|z + y| - 1] == z + y[..|y| - 1];
      TrimEndAppend(z, y[..|y| - 1]);
    }
  }

  /** A last character that is not whitespace survives `trimStart`. */
  lemma {:induction false} TrimStartKeepsLast(s: string)
    requires s != [] && !IsWhitespace(s[|s| - 1])
    ensures TrimStart(s) != [] && TrimStart(s)[|TrimStart(s)| - 1] == s[|s| - 1]
  {
    if IsWhitespace(s[0]) {
      TrimStartKeepsLast(s[1..]);
    }
  }

  /** A first character that is not whitespace survives `trimEnd`. */
  lemma {:induction false} TrimEndKeepsFirst(s: string)
    requires s != [] && !IsWhitespace(s[0])
    ensures TrimEnd(s) != [] && TrimEnd(s)[0] == s[0]
  {
    if IsWhitespace(s[|s| - 1]) {
      TrimEndKeepsFirst(s[..|s| - 1]);
    }
  }

  lemma ConcatAssoc<T>(p: seq<T>, q: seq<T>, r: seq<T>)
    ensures (p + q) + r == p + (q + r)
  {
  }

  lemma LowerStrAppend(x: string, y: string)
    ensures LowerStr(x + y) == LowerStr(x) + LowerStr(y)
  {
  }

  lemma LowerStrWhitespace(w: string)
    requires AllWhitespace(w)
    ensures AllWhitespace(LowerStr(w))
  {
  }

  /** Where `Trim(s)` starts within `s`. */
  function TrimOffset(s: string): nat {
    |s| - |TrimStart(s)|
  }

  /** `Trim(s)` is an infix of `s`, and only whitespace lies on either side
      of it. */
  lemma TrimInfix(s: string)
    ensures TrimOffset(s) + |Trim(s)| <= |s|
    ensures Trim(s) == s[TrimOffset(s)..TrimOffset(s) + |Trim(s)|]
    ensures AllWhitespace(s[..TrimOffset(s)])
    ensures AllWhitespace(s[TrimOffset(s) + |Trim(s)|..])
  {
    InfixOfSuffix(s, TrimOffset(s), TrimStart(s), Trim(s));
  }

  lemma InfixOfSuffix(s: string, i: nat, t: string, r: string)
    requires i <= |s| && t == s[i..] && AllWhitespace(s[..i])
    requires |r| <= |t| && r == t[..|r|] && AllWhitespace(t[|r|..])
    ensures i + |r| <= |s| && r == s[i..i + |r|]
    ensures AllWhitespace(s[i + |r|..])
  {
    assert s[i + |r|..] == t[|r|..];
  }

  /** A string without whitespace at either end is its own trim. */
  lemma TrimNoop(s: string)
    requires s == [] || (!IsWhitespace(s[0]) && !IsWhitespace(s[|s| - 1]))
    ensures Trim(s) == s
  {
    assert TrimStart(s) == s;
    assert TrimEnd(s) == s;
  }

  lemma TrimIsLower(s: string)
    requires IsLower(s)
    ensures IsLower(Trim(s))
  {
    var r, i := Trim(s), TrimOffset(s);
    TrimInfix(s);
    assert forall k | 0 <= k < |r| :: r[k] == s[i + k];
  }

  /** The characters of `s` that are not whitespace, in order. */
  function Visible(s: string): (r: string)
    ensures |r| <= |s|
  {
    if s == [] then []
    else if IsWhitespace(s[0]) then Visible(s[1..])
    else [s[0]] + Visible(s[1..])
  }

  lemma {:induction false} VisibleAppend(a: string, b: string)
    ensures Visible(a + b) == Visible(a) + Visible(b)
  {
    if a != [] {
      assert (a + b)[0] == a[0];
      assert (a + b)[1..] == a[1..] + b;
      VisibleAppend(a[1..], b);
    } else {
      assert a + b == b;
    }
  }

  lemma {:induction false} VisibleOfWhitespace(s: string)
    requires AllWhitespace(s)
    ensures Visible(s) == []
  {
    if s != [] {
      VisibleOfWhitespace(s[1..]);
    }
  }

  /** Trimming removes only whitespace. */
  lemma VisibleTrim(s: string)
    ensures Visible(Trim(s)) == Visible(s)
  {
    TrimInfix(s);
    VisibleOfInfix(s, TrimOffset(s), Trim(s));
  }

  lemma VisibleOfInfix(s: string, i: nat, r: string)
    requires i + |r| <= |s| && r == s[i..i + |r|]
    requires AllWhitespace(s[..i]) && AllWhitespace(s[i + |r|..])
    ensures Visible(r) == Visible(s)
  {
    var before, after := s[..i], s[i + |r|..];
    assert s == before + (r + after);
    VisibleAppend(before, r + after);
    VisibleAppend(r, after);
    VisibleOfWhitespace(before);
    VisibleOfWhitespace(after);
  }
}
