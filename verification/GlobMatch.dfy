/**
 The backtracking wildcard matcher used by include and exclude patterns.  `*` matches any run,
 `?` a single character.  The matcher tests literal equality before `*`, so a `*` in the text can
 swallow a `*` of the pattern.
 */
module GlobMatch {

  datatype Star = NoStar | At(pattern: nat, text: nat)

  // ---- what matching means ----

  /** pattern from p matches all of text from t. */
  ghost predicate Matches(pattern: string, text: string, p: nat, t: nat)
    requires p <= |pattern| && t <= |text|
    decreases |pattern| - p, |text| - t
  {
    if p == |pattern| then t == |text|
    else if pattern[p] == '*' then Matches(pattern, text, p + 1, t) || (t < |text| && Matches(pattern, text, p, t + 1))
    else t < |text| && (pattern[p] == '?' || pattern[p] == text[t]) && Matches(pattern, text, p + 1, t + 1)
  }

  // ---- what the loop computes ----

  predicate OnlyStars(pattern: string, p: nat)
    requires p <= |pattern|
  {
    forall i :: p <= i < |pattern| ==> pattern[i] == '*'
  }

  ghost predicate InRange(pattern: string, text: string, p: nat, t: nat, star: Star) {
    && p <= |pattern| && t <= |text|
    && (star.At? ==> star.pattern < p && star.text <= t)
  }

  /** The answer the loop gives from positions p and t with the last star remembered. */
  ghost function Answer(pattern: string, text: string, p: nat, t: nat, star: Star): bool
    requires InRange(pattern, text, p, t, star)
    decreases if star.NoStar? then |text| + 1 else |text| - star.text,
              if star.NoStar? then |pattern| else |pattern| - star.pattern,
              |text| - t
  {
    if t == |text| then OnlyStars(pattern, p)
    else if p < |pattern| && (pattern[p] == '?' || pattern[p] == text[t]) then Answer(pattern, text, p + 1, t + 1, star)
    else if p < |pattern| && pattern[p] == '*' then Answer(pattern, text, p + 1, t, At(p, t))
    else if star.At? then Answer(pattern, text, star.pattern + 1, star.text + 1, At(star.pattern, star.text + 1))
    else false
  }

  method GlobMatch(pattern: string, text: string) returns (matched: bool)
    ensures matched == Answer(pattern, text, 0, 0, NoStar)
    ensures '*' !in text ==> (matched <==> Matches(pattern, text, 0, 0))
  {
    if '*' !in text {
      AnswerIsMatch(pattern, text, 0, 0, NoStar);
    }
    var p: nat, t: nat := 0, 0;
    var star := NoStar;
    while t < |text|
      invariant InRange(pattern, text, p, t, star)
      invariant Answer(pattern, text, p, t, star) == Answer(pattern, text, 0, 0, NoStar)
      decreases if star.NoStar? then |text| + 1 else |text| - star.text,
                if star.NoStar? then |pattern| else |pattern| - star.pattern,
                |text| - t
    {
      if p < |pattern| && (pattern[p] == '?' || pattern[p] == text[t]) {
        p, t := p + 1, t + 1;
      } else if p < |pattern| && pattern[p] == '*' {
        star := At(p, t);
        p := p + 1;
      } else if star.At? {
        p := star.pattern + 1;
        star := At(star.pattern, star.text + 1);
        t := star.text;
      } else {
        return false;
      }
    }
    while p < |pattern| && pattern[p] == '*'
      invariant p <= |pattern|
      invariant OnlyStars(pattern, p) == Answer(pattern, text, 0, 0, NoStar)
    {
      p := p + 1;
    }
    matched := p == |pattern|;
  }

  // ---- the loop finds a match exactly when there is one ----

  /** pattern from p matches some suffix of text from t on. */
  ghost predicate MatchesSomewhere(pattern: string, text: string, p: nat, t: nat)
    requires p <= |pattern|
  {
    exists s :: t <= s <= |text| && Matches(pattern, text, p, s)
  }

  /** A star matches whatever stretch lets the rest match. */
  lemma {:induction false} StarMatches(pattern: string, text: string, p: nat, t: nat)
    requires p < |pattern| && pattern[p] == '*' && t <= |text|
    ensures Matches(pattern, text, p, t) <==> MatchesSomewhere(pattern, text, p + 1, t)
    decreases |text| - t
  {
    if t < |text| {
      StarMatches(pattern, text, p, t + 1);
    }
    NowOrLater(pattern, text, p + 1, t);
  }

  lemma NowOrLater(pattern: string, text: string, p: nat, t: nat)
    requires p <= |pattern| && t <= |text|
    ensures MatchesSomewhere(pattern, text, p, t) <==> Matches(pattern, text, p, t) || MatchesSomewhere(pattern, text, p, t + 1)
  {
    if MatchesSomewhere(pattern, text, p, t) {
      var s :| t <= s <= |text| && Matches(pattern, text, p, s);
      assert s == t || t + 1 <= s;
    }
  }

  /** A stretch of pattern without stars consumes one character of text per character. */
  lemma {:induction false} LiteralStretch(pattern: string, text: string, p: nat, q: nat, t: nat)
    requires p <= q <= |pattern| && t <= |text| && forall i :: p <= i < q ==> pattern[i] != '*'
    requires Matches(pattern, text, p, t)
    ensures t + (q - p) <= |text| && Matches(pattern, text, q, t + (q - p))
    decreases q - p
  {
    if p < q {
      LiteralStretch(pattern, text, p + 1, q, t + 1);
    }
  }

  /** A pattern without stars matches exactly the texts of its length that agree with it wherever it has no
      question mark. */
  lemma {:induction false} StarFreeExactlyWhen(pattern: string, text: string, p: nat, t: nat)
    requires p <= |pattern| && t <= |text| && forall i :: p <= i < |pattern| ==> pattern[i] != '*'
    ensures Matches(pattern, text, p, t) <==>
            |pattern| - p == |text| - t && forall i :: p <= i < |pattern| ==> pattern[i] == '?' || pattern[i] == text[t + (i - p)]
    decreases |pattern| - p
  {
    if p < |pattern| && t < |text| {
      StarFreeExactlyWhen(pattern, text, p + 1, t + 1);
    }
  }

  /** Some longer stretch for the remembered star still leads to a match. */
  ghost predicate RetryMatches(pattern: string, text: string, star: Star) {
    star.At? && star.pattern < |pattern| && MatchesSomewhere(pattern, text, star.pattern + 1, star.text + 1)
  }

  /** What holds between remembering a star and the current positions: everything in between was
      matched character by character. */
  ghost predicate SinceStar(pattern: string, p: nat, t: nat, star: Star) {
    star.At? ==>
      && star.pattern < p <= |pattern| && pattern[star.pattern] == '*'
      && p - (star.pattern + 1) == t - star.text
      && forall i :: star.pattern < i < p ==> pattern[i] != '*'
  }

  /** Moving the remembered star forward loses no match: a match through the earlier star passes
      the stretch since then and reaches the newer star further right. */
  lemma LastStarSuffices(pattern: string, text: string, p: nat, t: nat, star: Star)
    requires InRange(pattern, text, p, t, star) && SinceStar(pattern, p, t, star)
    requires p < |pattern| && pattern[p] == '*' && RetryMatches(pattern, text, star)
    ensures Matches(pattern, text, p, t)
  {
    var first, rest := star.pattern + 1, p + 1;
    var s :| star.text < s <= |text| && Matches(pattern, text, first, s);
    LiteralStretch(pattern, text, first, p, s);
    var u := s + (p - first);
    StarMatches(pattern, text, p, u);
    var v :| u <= v <= |text| && Matches(pattern, text, rest, v);
    assert MatchesSomewhere(pattern, text, rest, t);
    StarMatches(pattern, text, p, t);
  }

  /** At the end of the text no retry can match: it would need characters that are not there. */
  lemma NoRetryAtEnd(pattern: string, text: string, p: nat, star: Star)
    requires InRange(pattern, text, p, |text|, star) && SinceStar(pattern, p, |text|, star)
    ensures !RetryMatches(pattern, text, star)
  {
    if RetryMatches(pattern, text, star) {
      var first := star.pattern + 1;
      var s :| star.text < s <= |text| && Matches(pattern, text, first, s);
      LiteralStretch(pattern, text, first, p, s);
    }
  }

  lemma {:induction false} EndMatches(pattern: string, text: string, p: nat)
    requires p <= |pattern|
    ensures Matches(pattern, text, p, |text|) <==> OnlyStars(pattern, p)
    decreases |pattern| - p
  {
    if p < |pattern| {
      EndMatches(pattern, text, p + 1);
    }
  }

  lemma {:induction false} AnswerIsMatch(pattern: string, text: string, p: nat, t: nat, star: Star)
    requires '*' !in text
    requires InRange(pattern, text, p, t, star) && SinceStar(pattern, p, t, star)
    ensures Answer(pattern, text, p, t, star) <==> Matches(pattern, text, p, t) || RetryMatches(pattern, text, star)
    decreases if star.NoStar? then |text| + 1 else |text| - star.text,
              if star.NoStar? then |pattern| else |pattern| - star.pattern,
              |text| - t
  {
    if t == |text| {
      EndMatches(pattern, text, p);
      NoRetryAtEnd(pattern, text, p, star);
    } else if p < |pattern| && (pattern[p] == '?' || pattern[p] == text[t]) {
      assert pattern[p] != '*';
      AnswerIsMatch(pattern, text, p + 1, t + 1, star);
    } else if p < |pattern| && pattern[p] == '*' {
      AnswerIsMatch(pattern, text, p + 1, t, At(p, t));
      NowOrLater(pattern, text, p + 1, t);
      StarMatches(pattern, text, p, t);
      if RetryMatches(pattern, text, star) {
        LastStarSuffices(pattern, text, p, t, star);
      }
    } else if star.At? {
      AnswerIsMatch(pattern, text, star.pattern + 1, star.text + 1, At(star.pattern, star.text + 1));
      NowOrLater(pattern, text, star.pattern + 1, star.text + 1);
    }
  }

  // ---- texts that contain a star ----

  /** Positionwise literal matching runs straight through to the end of the text. */
  lemma {:induction false} StraightThrough(pattern: string, text: string, t: nat)
    requires t <= |text| <= |pattern|
    requires forall i :: t <= i < |text| ==> pattern[i] == '?' || pattern[i] == text[i]
    ensures Answer(pattern, text, t, t, NoStar) == OnlyStars(pattern, |text|)
    decreases |text| - t
  {
    if t < |text| {
      StraightThrough(pattern, text, t + 1);
    }
  }

  /** A run of `?` matches exactly as many characters. */
  lemma {:induction false} MarksMatch(pattern: string, text: string, p: nat, t: nat)
    requires p <= |pattern| && t <= |text| && |pattern| - p == |text| - t
    requires forall i :: p <= i < |pattern| ==> pattern[i] == '?'
    ensures Matches(pattern, text, p, t)
    decreases |text| - t
  {
    if t < |text| {
      MarksMatch(pattern, text, p + 1, t + 1);
    }
  }

  lemma {:induction false} MarksThenStar(pattern: string, text: string, i: nat, p: nat)
    requires p <= i < |text| && |pattern| == |text| + 1 && pattern[i] == '*'
    requires forall j :: 0 <= j < |pattern| && j != i ==> pattern[j] == '?'
    ensures Matches(pattern, text, p, p)
    decreases i - p
  {
    if p < i {
      MarksThenStar(pattern, text, i, p + 1);
    } else {
      MarksMatch(pattern, text, i + 1, i);
    }
  }

  /** The pattern `?..?*?..?` whose star meets the text's star at position i: it matches with an
      empty run, and the matcher says it does not. */
  lemma StarInTextFails(text: string, i: nat) returns (pattern: string)
    requires i < |text| && text[i] == '*'
    ensures Matches(pattern, text, 0, 0) && !Answer(pattern, text, 0, 0, NoStar)
  {
    pattern := seq(|text| + 1, j => if j == i then '*' else '?');
    MarksThenStar(pattern, text, i, 0);
    StraightThrough(pattern, text, 0);
    assert pattern[|text|] == '?';
  }

  /** The matcher implements wildcard matching for every pattern exactly on texts without `*`. */
  lemma GlobExactlyWhen(text: string)
    ensures (forall pattern :: Answer(pattern, text, 0, 0, NoStar) <==> Matches(pattern, text, 0, 0)) <==> '*' !in text
  {
    if '*' in text {
      var i :| 0 <= i < |text| && text[i] == '*';
      var pattern := StarInTextFails(text, i);
    } else {
      forall pattern: string ensures Answer(pattern, text, 0, 0, NoStar) <==> Matches(pattern, text, 0, 0) {
        AnswerIsMatch(pattern, text, 0, 0, NoStar);
      }
    }
  }
}
