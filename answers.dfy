/** Answer checking: `checkAnswerWithTypoTolerance` (exact match after
    lower-casing and trimming, else an edit-distance budget that depends on
    the length of the correct answer) and `normalizeAnswer`. */
module Answers {
  import opened Text
  import opened Distance

  /** An answer as `checkAnswerWithTypoTolerance` compares it: lower-cased,
      then trimmed. */
  function Prepare(s: string): (r: string) {
    Trim(LowerStr(s))
  }

  /** The prepared answer is lower-case and has no whitespace at either
      end. */
  lemma PrepareShape(s: string)
    ensures IsLower(Prepare(s))
    ensures Prepare(s) == [] || (!IsWhitespace(Prepare(s)[0]) && !IsWhitespace(Prepare(s)[|Prepare(s)| - 1]))
  {
    LowerStrIsLower(s);
    TrimIsLower(LowerStr(s));
  }

  /** The prepared answer keeps every character of the answer that is not
      whitespace, lower-cased, in order. */
  lemma PrepareVisible(s: string)
    ensures Visible(Prepare(s)) == Visible(LowerStr(s))
  {
    VisibleTrim(LowerStr(s));
  }

  /** The number of typos allowed against a correct answer of length
      `wordLength`: one up to three characters, two up to five, `maxTypos`
      beyond that. */
  function AllowedTypos(wordLength: nat, maxTypos: int): (n: int)
    ensures wordLength <= 5 ==> 1 <= n <= 2
  {
    if wordLength <= 3 then 1
    else if wordLength <= 5 then 2
    else maxTypos
  }

  /** `checkAnswerWithTypoTolerance`. */
  function CheckAnswerWithTypoTolerance(userAnswer: string, correctAnswer: string, maxTypos: int := 3): (ok: bool)
    ensures Prepare(userAnswer) == Prepare(correctAnswer) ==> ok
  {
    var user := Prepare(userAnswer);
    var correct := Prepare(correctAnswer);
    if user == correct then true
    else Levenshtein(user, correct) <= AllowedTypos(|correct|, maxTypos)
  }

  /** Both prepared answers are already lower-case, so the second
      lower-casing inside `levenshteinDistance` changes nothing. */
  lemma DistanceOfPrepared(userAnswer: string, correctAnswer: string)
    ensures Levenshtein(Prepare(userAnswer), Prepare(correctAnswer))
            == EditDistance(Prepare(userAnswer), Prepare(correctAnswer))
  {
    PrepareShape(userAnswer);
    PrepareShape(correctAnswer);
    LowerStrIsLower(Prepare(userAnswer));
    LowerStrIsLower(Prepare(correctAnswer));
  }

  /** With a budget that is not negative, an answer is accepted exactly when
      it is within the budget's number of edits of the correct answer. */
  lemma CheckAnswerWithinBudget(userAnswer: string, correctAnswer: string, maxTypos: int)
    requires maxTypos >= 0
    ensures CheckAnswerWithTypoTolerance(userAnswer, correctAnswer, maxTypos)
            <==> EditDistance(Prepare(userAnswer), Prepare(correctAnswer))
                 <= AllowedTypos(|Prepare(correctAnswer)|, maxTypos)
  {
    DistanceOfPrepared(userAnswer, correctAnswer);
    EditDistanceZero(Prepare(userAnswer), Prepare(correctAnswer));
  }

  /** An answer that differs from the correct one in no more characters than
      the budget allows, at the same length, is accepted. */
  lemma CheckAnswerAcceptsSubstitutions(userAnswer: string, correctAnswer: string, maxTypos: int)
    requires |Prepare(userAnswer)| == |Prepare(correctAnswer)|
    requires Mismatches(Prepare(userAnswer), Prepare(correctAnswer), |Prepare(correctAnswer)|)
             <= AllowedTypos(|Prepare(correctAnswer)|, maxTypos)
    ensures CheckAnswerWithTypoTolerance(userAnswer, correctAnswer, maxTypos)
  {
    DistanceOfPrepared(userAnswer, correctAnswer);
    EditDistanceMismatches(Prepare(userAnswer), Prepare(correctAnswer));
  }

  /** An accepted answer that is not an exact match is at most the budget's
      number of characters longer or shorter than the correct one. */
  lemma CheckAnswerLengthBound(userAnswer: string, correctAnswer: string, maxTypos: int)
    requires CheckAnswerWithTypoTolerance(userAnswer, correctAnswer, maxTypos)
    requires Prepare(userAnswer) != Prepare(correctAnswer)
    ensures |Prepare(userAnswer)| - |Prepare(correctAnswer)| <= AllowedTypos(|Prepare(correctAnswer)|, maxTypos)
    ensures |Prepare(correctAnswer)| - |Prepare(userAnswer)| <= AllowedTypos(|Prepare(correctAnswer)|, maxTypos)
  {
    DistanceOfPrepared(userAnswer, correctAnswer);
    EditDistanceBounds(Prepare(userAnswer), Prepare(correctAnswer));
  }

  /** For correct answers of at most five characters `maxTypos` plays no
      part. */
  lemma CheckAnswerShortIgnoresMax(userAnswer: string, correctAnswer: string, m1: int, m2: int)
    requires |Prepare(correctAnswer)| <= 5
    ensures CheckAnswerWithTypoTolerance(userAnswer, correctAnswer, m1)
            == CheckAnswerWithTypoTolerance(userAnswer, correctAnswer, m2)
  {
  }

  /** Raising `maxTypos` never rejects an answer that was accepted. */
  lemma CheckAnswerMonotone(userAnswer: string, correctAnswer: string, m1: int, m2: int)
    requires m1 <= m2 && CheckAnswerWithTypoTolerance(userAnswer, correctAnswer, m1)
    ensures CheckAnswerWithTypoTolerance(userAnswer, correctAnswer, m2)
  {
  }

  /** A negative `maxTypos` is not rejected: for a correct answer longer than
      five characters it leaves only the exact match. */
  lemma CheckAnswerNegativeMax(userAnswer: string, correctAnswer: string, maxTypos: int)
    requires maxTypos < 0 && |Prepare(correctAnswer)| > 5
    ensures CheckAnswerWithTypoTolerance(userAnswer, correctAnswer, maxTypos)
            <==> Prepare(userAnswer) == Prepare(correctAnswer)
  {
  }

  /** Letter case does not matter. */
  lemma CheckAnswerIgnoresCase(userAnswer: string, correctAnswer: string, maxTypos: int)
    ensures CheckAnswerWithTypoTolerance(LowerStr(userAnswer), LowerStr(correctAnswer), maxTypos)
            == CheckAnswerWithTypoTolerance(userAnswer, correctAnswer, maxTypos)
  {
    LowerStrIsLower(userAnswer);
    LowerStrIsLower(LowerStr(userAnswer));
    LowerStrIsLower(correctAnswer);
    LowerStrIsLower(LowerStr(correctAnswer));
    assert Prepare(LowerStr(userAnswer)) == Prepare(userAnswer);
    assert Prepare(LowerStr(correctAnswer)) == Prepare(correctAnswer);
  }

  /** Every whitespace character is a plain space, and none follows
      another. */
  predicate Collapsed(s: string) {
    forall k | 0 <= k < |s| && IsWhitespace(s[k]) :: s[k] == ' ' && (k + 1 == |s| || !IsWhitespace(s[k + 1]))
  }

  lemma CollapsedTail(s: string)
    requires s != [] && Collapsed(s)
    ensures Collapsed(s[1..])
  {
    forall k | 0 <= k < |s| - 1 && IsWhitespace(s[1..][k])
      ensures s[1..][k] == ' ' && (k + 1 == |s| - 1 || !IsWhitespace(s[1..][k + 1]))
    {
      assert s[1..][k] == s[k + 1];
      if k + 1 < |s| - 1 {
        assert s[1..][k + 1] == s[k + 2];
      }
    }
  }

  /** `replace(/\s+/g, ' ')`: every maximal run of whitespace becomes a single
      space. */
  function CollapseWhitespace(s: string): (r: string)
    ensures |r| <= |s|
    decreases |s|
  {
    if s == [] then []
    else if IsWhitespace(s[0]) then [' '] + CollapseWhitespace(TrimStart(s[1..]))
    else [s[0]] + CollapseWhitespace(s[1..])
  }

  /** Collapsing keeps the input's emptiness and whether it starts or ends
      with whitespace. */
  lemma {:induction false} CollapseEnds(s: string)
    ensures CollapseWhitespace(s) == [] <==> s == []
    ensures CollapseWhitespace(s) != [] ==>
              (IsWhitespace(CollapseWhitespace(s)[0]) <==> IsWhitespace(s[0]))
              && (IsWhitespace(CollapseWhitespace(s)[|CollapseWhitespace(s)| - 1])
                  <==> IsWhitespace(s[|s| - 1]))
    decreases |s|
  {
    if s != [] {
      if IsWhitespace(s[0]) {
        var t := TrimStart(s[1..]);
        CollapseEnds(t);
        if t == [] {
          if |s| > 1 {
            assert s[1..][|s| - 2] == s[|s| - 1];
          }
        } else {
          assert t[|t| - 1] == s[|s| - 1];
        }
      } else {
        CollapseEnds(s[1..]);
        if s[1..] != [] {
          assert s[1..][|s| - 2] == s[|s| - 1];
        }
      }
    }
  }

  /** A character in front of a collapsed string keeps it collapsed, unless
      it is whitespace other than one space before a word. */
  lemma ConsCollapsed(c: char, s: string)
    requires Collapsed(s)
    requires IsWhitespace(c) ==> c == ' ' && (s == [] || !IsWhitespace(s[0]))
    ensures Collapsed([c] + s)
  {
    var r := [c] + s;
    forall k | 0 <= k < |r| && IsWhitespace(r[k])
      ensures r[k] == ' ' && (k + 1 == |r| || !IsWhitespace(r[k + 1]))
    {
      if k > 0 {
        assert r[k] == s[k - 1];
        if k + 1 < |r| {
          assert r[k + 1] == s[k];
        }
      }
    }
  }

  /** After collapsing, whitespace comes only as single spaces. */
  lemma {:induction false} CollapseCollapsed(s: string)
    ensures Collapsed(CollapseWhitespace(s))
    decreases |s|
  {
    if s != [] {
      if IsWhitespace(s[0]) {
        var t := TrimStart(s[1..]);
        CollapseCollapsed(t);
        CollapseEnds(t);
        ConsCollapsed(' ', CollapseWhitespace(t));
      } else {
        CollapseCollapsed(s[1..]);
        ConsCollapsed(s[0], CollapseWhitespace(s[1..]));
      }
    }
  }

  /** Collapsing only ever replaces whitespace by whitespace. */
  lemma {:induction false} VisibleCollapse(s: string)
    ensures Visible(CollapseWhitespace(s)) == Visible(s)
    decreases |s|
  {
    if s != [] {
      if IsWhitespace(s[0]) {
        var u := s[1..];
        var t := TrimStart(u);
        var c := CollapseWhitespace(t);
        VisibleCollapse(t);
        assert ([' '] + c)[1..] == c;
        var pre := u[..|u| - |t|];
        assert u == pre + t;
        VisibleAppend(pre, t);
        VisibleOfWhitespace(pre);
      } else {
        var c := CollapseWhitespace(s[1..]);
        VisibleCollapse(s[1..]);
        assert ([s[0]] + c)[0] == s[0] && ([s[0]] + c)[1..] == c;
      }
    }
  }

  /** In a collapsed string a leading whitespace character is a space with
      no whitespace after it. */
  lemma CollapsedHead(s: string)
    requires s != [] && Collapsed(s) && IsWhitespace(s[0])
    ensures s[0] == ' ' && TrimStart(s[1..]) == s[1..]
  {
    assert s[1..] == [] || s[1..][0] == s[1];
  }

  /** An already collapsed string is left alone. */
  lemma {:induction false} CollapseNoop(s: string)
    requires Collapsed(s)
    ensures CollapseWhitespace(s) == s
    decreases |s|
  {
    if s != [] {
      CollapsedTail(s);
      CollapseNoop(s[1..]);
      if IsWhitespace(s[0]) {
        CollapsedHead(s);
      }
      assert s == [s[0]] + s[1..];
    }
  }

  lemma {:induction false} CollapseIsLower(s: string)
    requires IsLower(s)
    ensures IsLower(CollapseWhitespace(s))
    decreases |s|
  {
    if s != [] {
      SuffixIsLower(s, 1);
      if IsWhitespace(s[0]) {
        var t := TrimStart(s[1..]);
        SuffixIsLower(s[1..], |s| - 1 - |t|);
        CollapseIsLower(t);
        ConsIsLower(' ', CollapseWhitespace(t));
      } else {
        CollapseIsLower(s[1..]);
        ConsIsLower(s[0], CollapseWhitespace(s[1..]));
      }
    }
  }

  lemma CollapseSpliceEmpty(w: string, b: string)
    requires w != [] && AllWhitespace(w)
    requires b == [] || !IsWhitespace(b[0])
    ensures CollapseWhitespace(w + b) == [' '] + CollapseWhitespace(b)
  {
    assert (w + b)[0] == w[0] && (w + b)[1..] == w[1..] + b;
    TrimStartOfWhitespace(w[1..], b);
  }

  /** The two ways `replace(/\s+/g, ' ')` treats the first character. */
  lemma CollapseCons(c: char, x: string)
    ensures !IsWhitespace(c) ==> CollapseWhitespace([c] + x) == [c] + CollapseWhitespace(x)
    ensures IsWhitespace(c) ==> CollapseWhitespace([c] + x) == [' '] + CollapseWhitespace(TrimStart(x))
  {
    assert ([c] + x)[0] == c && ([c] + x)[1..] == x;
  }

  /** Collapsing distributes over a cut that does not split a run of
      whitespace: the left part is empty or ends in a non-whitespace
      character. */
  lemma {:induction false} CollapseAppend(x: string, y: string)
    requires x == [] || !IsWhitespace(x[|x| - 1])
    ensures CollapseWhitespace(x + y) == CollapseWhitespace(x) + CollapseWhitespace(y)
    decreases |x|
  {
    if x == [] {
      assert x + y == y;
    } else {
      var c, u := x[0], x[1..];
      assert x == [c] + u && x + y == [c] + (u + y);
      CollapseCons(c, u);
      CollapseCons(c, u + y);
      if IsWhitespace(c) {
        var t := TrimStart(u);
        TrimStartAppend(u, y);
        TrimStartKeepsLast(u);
        CollapseAppend(t, y);
        ConcatAssoc([' '], CollapseWhitespace(t), CollapseWhitespace(y));
      } else {
        CollapseAppend(u, y);
        ConcatAssoc([c], CollapseWhitespace(u), CollapseWhitespace(y));
      }
    }
  }

  /** A run of whitespace between two words becomes exactly one space: the
      words on either side are collapsed on their own and joined by `' '`. */
  lemma CollapseSplice(a: string, w: string, b: string)
    requires w != [] && AllWhitespace(w)
    requires a == [] || !IsWhitespace(a[|a| - 1])
    requires b == [] || !IsWhitespace(b[0])
    ensures CollapseWhitespace(a + w + b) == CollapseWhitespace(a) + [' '] + CollapseWhitespace(b)
  {
    ConcatAssoc(a, w, b);
    CollapseAppend(a, w + b);
    CollapseSpliceEmpty(w, b);
    ConcatAssoc(CollapseWhitespace(a), [' '], CollapseWhitespace(b));
  }

  /** `normalizeAnswer`: lower-case, trim, and collapse every run of
      whitespace into one space. */
  function NormalizeAnswer(answer: string): (r: string)
    ensures |r| <= |answer|
  {
    CollapseWhitespace(Prepare(answer))
  }

  /** `w` is a run of whitespace with a word on either side of it. */
  predicate WordBreak(a: string, w: string, b: string) {
    w != [] && AllWhitespace(w)
    && a != [] && !IsWhitespace(a[|a| - 1])
    && b != [] && !IsWhitespace(b[0])
  }

  /** Lower-casing and trimming two words with whitespace between them
      trims only the outer ends: the lower-cased whitespace in the middle is
      kept as it is. */
  lemma PrepareSplice(a: string, w: string, b: string)
    requires WordBreak(a, w, b)
    ensures Prepare(a + w + b) == Prepare(a) + LowerStr(w) + Prepare(b)
    ensures WordBreak(Prepare(a), LowerStr(w), Prepare(b))
  {
    var la, lw, lb := LowerStr(a), LowerStr(w), LowerStr(b);
    LowerStrWhitespace(w);
    LowerStrAppend(a + w, b);
    LowerStrAppend(a, w);
    assert la[|la| - 1] == Lower(a[|a| - 1]) && lb[0] == Lower(b[0]);
    var ta, te := TrimStart(la), TrimEnd(lb);
    TrimStartKeepsLast(la);
    TrimEndKeepsFirst(lb);
    assert TrimEnd(ta) == ta;
    assert TrimStart(lb) == lb;
    ConcatAssoc(la, lw, lb);
    TrimStartAppend(la, lw + lb);
    ConcatAssoc(ta, lw, lb);
    TrimEndAppend(ta + lw, lb);
  }

  /** A cost helper for `NormalizeSplice`: `CollapseSplice` with the
      concatenation given a name. */
  lemma SpliceOfParts(p: string, x: string, w: string, y: string)
    requires p == x + w + y && WordBreak(x, w, y)
    ensures CollapseWhitespace(p) == CollapseWhitespace(x) + [' '] + CollapseWhitespace(y)
  {
    CollapseSplice(x, w, y);
  }

  /** Normalising two words with whitespace between them normalises each word
      and joins them with a single space: no space between words is lost and
      none is added. */
  lemma NormalizeSplice(a: string, w: string, b: string)
    requires WordBreak(a, w, b)
    ensures NormalizeAnswer(a + w + b) == NormalizeAnswer(a) + [' '] + NormalizeAnswer(b)
  {
    PrepareSplice(a, w, b);
    SpliceOfParts(Prepare(a + w + b), Prepare(a), LowerStr(w), Prepare(b));
  }

  /** The normalised form is lower-case. */
  lemma NormalizeIsLower(answer: string)
    ensures IsLower(NormalizeAnswer(answer))
  {
    PrepareShape(answer);
    CollapseIsLower(Prepare(answer));
  }

  /** The normalised form has no whitespace at either end, and whitespace only
      as single spaces between the words. */
  lemma NormalizeShape(answer: string)
    ensures Collapsed(NormalizeAnswer(answer))
    ensures NormalizeAnswer(answer) == []
            || (!IsWhitespace(NormalizeAnswer(answer)[0])
                && !IsWhitespace(NormalizeAnswer(answer)[|NormalizeAnswer(answer)| - 1]))
  {
    var p := Prepare(answer);
    assert p == [] || (!IsWhitespace(p[0]) && !IsWhitespace(p[|p| - 1]));
    CollapseCollapsed(p);
    CollapseEnds(p);
  }

  /** Every whitespace character left in the normalised form is a single
      space with a character that is not whitespace on each side. */
  lemma NormalizeSpacesBetweenWords(answer: string)
    ensures forall k | 0 <= k < |NormalizeAnswer(answer)| && IsWhitespace(NormalizeAnswer(answer)[k]) ::
              NormalizeAnswer(answer)[k] == ' ' && 0 < k < |NormalizeAnswer(answer)| - 1
              && !IsWhitespace(NormalizeAnswer(answer)[k - 1])
              && !IsWhitespace(NormalizeAnswer(answer)[k + 1])
  {
    var r := NormalizeAnswer(answer);
    NormalizeShape(answer);
    forall k | 0 <= k < |r| && IsWhitespace(r[k])
      ensures r[k] == ' ' && 0 < k < |r| - 1 && !IsWhitespace(r[k - 1]) && !IsWhitespace(r[k + 1])
    {
      assert k > 0;
      assert !IsWhitespace(r[k - 1]);
    }
  }

  /** Normalising keeps every character that is not whitespace, lower-cased,
      in order. */
  lemma NormalizeVisible(answer: string)
    ensures Visible(NormalizeAnswer(answer)) == Visible(LowerStr(answer))
  {
    PrepareVisible(answer);
    VisibleCollapse(Prepare(answer));
  }

  /** Normalising twice is normalising once. */
  lemma NormalizeIdempotent(answer: string)
    ensures NormalizeAnswer(NormalizeAnswer(answer)) == NormalizeAnswer(answer)
  {
    var r := NormalizeAnswer(answer);
    NormalizeIsLower(answer);
    NormalizeShape(answer);
    LowerStrIsLower(r);
    TrimNoop(r);
    assert Prepare(r) == r;
    CollapseNoop(r);
  }

  /** Letter case does not matter. */
  lemma NormalizeIgnoresCase(answer: string)
    ensures NormalizeAnswer(LowerStr(answer)) == NormalizeAnswer(answer)
  {
    LowerStrIsLower(answer);
    LowerStrIsLower(LowerStr(answer));
    assert Prepare(LowerStr(answer)) == Prepare(answer);
  }
}
