/**
 * The prompt text of a question (script.js:67-74): the definition with every whole-word,
 * case-insensitive occurrence of the term replaced by `<blank>`, then one leading "to",
 * "when you" or "if you" before that marker removed.
 *
 * The term is matched as literal text (script.js interpolates it into a regular expression
 * unescaped; this model covers terms without regular-expression metacharacters), `\b` is
 * decided by `Text.IsWordChar` and case is folded on ASCII letters.
 */
module Blanking {
  import opened Text

  const BlankMarker: string := "<blank>"

  /** Whether position `k` of `s` holds a word character; positions outside `s` do not. */
  predicate IsWordAt(s: string, k: int) {
    0 <= k < |s| && IsWordChar(s[k])
  }

  /** `\b` at position `p`: a word character on exactly one side. */
  predicate IsBoundary(s: string, p: int) {
    IsWordAt(s, p - 1) != IsWordAt(s, p)
  }

  /** `/\bterm\b/i` matches `s` at position `p`. */
  predicate MatchesAt(s: string, term: string, p: nat) {
    p + |term| <= |s| && Lower(s[p..p + |term|]) == Lower(term) && IsBoundary(s, p) && IsBoundary(s, p + |term|)
  }

  /** `term` occurs in `s` as a whole word, ignoring case. */
  predicate Occurs(s: string, term: string) {
    exists p: nat | p <= |s| :: MatchesAt(s, term, p)
  }

  /** `s.replace(/\bterm\b/gi, '<blank>')` from position `p` on: leftmost matches, none overlapping. */
  function ReplaceFrom(s: string, term: string, p: nat): (r: string)
    requires term != [] && p <= |s|
    ensures forall c | c in r :: c in s[p..] || c in BlankMarker
    decreases |s| - p
  {
    if p == |s| then []
    else if MatchesAt(s, term, p) then
      assert forall c | c in s[p + |term|..] :: c in s[p..];
      BlankMarker + ReplaceFrom(s, term, p + |term|)
    else
      assert forall c | c in s[p + 1..] :: c in s[p..];
      [s[p]] + ReplaceFrom(s, term, p + 1)
  }

  /** script.js:70-71: every whole-word occurrence of `term` in `s` becomes `<blank>`. */
  function Blank(s: string, term: string): (r: string)
    requires term != []
    ensures !Occurs(s, term) ==> r == s
  {
    if Occurs(s, term) then ReplaceFrom(s, term, 0)
    else ReplaceFromNoMatch(s, term, 0); ReplaceFrom(s, term, 0)
  }

  lemma {:induction false} ReplaceFromNoMatch(s: string, term: string, p: nat)
    requires term != [] && p <= |s|
    requires forall q: nat | p <= q <= |s| :: !MatchesAt(s, term, q)
    ensures ReplaceFrom(s, term, p) == s[p..]
    decreases |s| - p
  {
    if p < |s| {
      ReplaceFromNoMatch(s, term, p + 1);
    }
  }

  lemma LowerCharWord(c: char)
    ensures IsWordChar(LowerChar(c)) <==> IsWordChar(c)
  {
  }

  lemma MatchStartsWithWordChar(s: string, term: string, p: nat)
    requires term != [] && IsWordChar(term[0]) && MatchesAt(s, term, p)
    ensures IsWordChar(s[p])
  {
    assert Lower(s[p..p + |term|])[0] == LowerChar(s[p]);
    assert Lower(term)[0] == LowerChar(term[0]);
    LowerCharWord(s[p]);
    LowerCharWord(term[0]);
  }

  lemma ReplaceFromAtMatch(s: string, term: string, p: nat)
    requires term != [] && IsWordChar(term[0]) && p <= |s| && MatchesAt(s, term, p)
    ensures ReplaceFrom(s, term, p) != s[p..]
  {
    MatchStartsWithWordChar(s, term, p);
    assert ReplaceFrom(s, term, p)[0] == '<';
  }

  lemma ReplaceFromPastChar(s: string, term: string, p: nat)
    requires term != [] && p < |s| && !MatchesAt(s, term, p)
    requires ReplaceFrom(s, term, p + 1) != s[p + 1..]
    ensures ReplaceFrom(s, term, p) != s[p..]
  {
    assert s[p..] == [s[p]] + s[p + 1..];
  }

  lemma {:induction false} ReplaceFromChanges(s: string, term: string, p: nat, q: nat)
    requires term != [] && IsWordChar(term[0])
    requires p <= q <= |s| && MatchesAt(s, term, q)
    ensures ReplaceFrom(s, term, p) != s[p..]
    decreases |s| - p
  {
    if MatchesAt(s, term, p) {
      ReplaceFromAtMatch(s, term, p);
    } else {
      ReplaceFromChanges(s, term, p + 1, q);
      ReplaceFromPastChar(s, term, p);
    }
  }

  /** The text is left unchanged exactly when the term does not occur in it as a whole word. */
  lemma BlankUnchangedIff(s: string, term: string)
    requires term != [] && IsWordChar(term[0])
    ensures Blank(s, term) == s <==> !Occurs(s, term)
  {
    if Occurs(s, term) {
      var q: nat :| q <= |s| && MatchesAt(s, term, q);
      ReplaceFromChanges(s, term, 0, q);
    } else {
      ReplaceFromNoMatch(s, term, 0);
    }
  }

  /**
   * A term for which whole-word matching behaves as plain text matching: it begins and ends with
   * a word character, so `\b` sits at its two ends, and it cannot be found inside `<blank>`.
   */
  predicate BlankableTerm(term: string) {
    && term != []
    && IsWordChar(term[0]) && IsWordChar(term[|term| - 1])
    && '<' !in term && '>' !in term
    && Lower(term) != "blank"
  }

  /** `<blank>` starts at position `i` of `r`. */
  predicate MarkerAt(r: string, i: nat) {
    i + |BlankMarker| <= |r| && r[i..i + |BlankMarker|] == BlankMarker
  }

  /** `<blank>` appears somewhere in `r`. */
  predicate ContainsMarker(r: string) {
    exists i: nat | i < |r| :: MarkerAt(r, i)
  }

  /** A match holds the term's characters, position by position, up to case. */
  lemma MatchChar(s: string, term: string, p: nat, i: nat)
    requires i < |term|
    ensures MatchesAt(s, term, p) ==> p + i < |s| && LowerChar(s[p + i]) == LowerChar(term[i])
  {
    if MatchesAt(s, term, p) {
      assert Lower(s[p..p + |term|])[i] == LowerChar(s[p + i]);
      assert Lower(term)[i] == LowerChar(term[i]);
    }
  }

  /** A character other than a letter folds to itself only. */
  lemma LowerCharFixed(c: char, d: char)
    requires !IsUpper(d) && !('a' <= d <= 'z')
    ensures LowerChar(c) == d <==> c == d
  {
  }

  /** A match of a term with word characters at both ends has word characters at both ends. */
  lemma MatchEnds(s: string, term: string, p: nat)
    requires term != [] && IsWordChar(term[0]) && IsWordChar(term[|term| - 1])
    ensures MatchesAt(s, term, p) ==> IsWordAt(s, p) && IsWordAt(s, p + |term| - 1)
  {
    MatchChar(s, term, p, 0);
    MatchChar(s, term, p, |term| - 1);
    if MatchesAt(s, term, p) {
      LowerCharWord(s[p]);
      LowerCharWord(term[0]);
      LowerCharWord(s[p + |term| - 1]);
      LowerCharWord(term[|term| - 1]);
    }
  }

  /** A match cannot hold a non-letter that the term does not hold. */
  lemma MatchAvoids(s: string, term: string, p: nat, i: nat, d: char)
    requires i < |term| && d !in term && !IsUpper(d) && !('a' <= d <= 'z')
    ensures MatchesAt(s, term, p) ==> s[p + i] != d
  {
    MatchChar(s, term, p, i);
    assert term[i] in term;
    LowerCharFixed(term[i], d);
    if MatchesAt(s, term, p) {
      LowerCharFixed(s[p + i], d);
    }
  }

  /** A word character just before `k` rules out an occurrence at `k`. */
  lemma NoMatchAfterWord(s: string, term: string, k: nat)
    requires BlankableTerm(term)
    ensures IsWordAt(s, k - 1) ==> !MatchesAt(s, term, k)
  {
    MatchEnds(s, term, k);
  }

  lemma MarkerChars(x: string, y: string)
    ensures var r, m := x + BlankMarker + y, |x|;
            r[m] == '<' && r[m + 1] == 'b' && r[m + 2] == 'l' && r[m + 3] == 'a' &&
            r[m + 4] == 'n' && r[m + 5] == 'k' && r[m + 6] == '>'
  {
  }

  /** No occurrence of a blankable term begins inside a `<blank>` marker. */
  lemma MarkerNoMatch(x: string, y: string, term: string, q: nat)
    requires BlankableTerm(term) && |x| <= q < |x| + |BlankMarker|
    ensures !MatchesAt(x + BlankMarker + y, term, q)
  {
    var r := x + BlankMarker + y;
    var m := |x|;
    MarkerChars(x, y);
    if q == m {
      MatchEnds(r, term, q);
    } else if q + |term| > m + 6 {
      MatchAvoids(r, term, q, m + 6 - q, '>');
    } else if q + |term| < m + 6 {
      assert IsWordAt(r, q + |term| - 1) && IsWordAt(r, q + |term|);
    } else if q > m + 1 {
      assert IsWordAt(r, q - 1) && IsWordAt(r, q);
    } else {
      assert r[q..q + |term|] == "blank";
      LowerKeepsLower("blank");
    }
  }

  /** When the scan at `p` has just copied a character or placed a marker, the output so far, `pre`, sits before it. */
  predicate AlignedAt(s: string, pre: string, p: nat) {
    IsWordAt(pre, |pre| - 1) == IsWordAt(s, p - 1) || !IsWordAt(s, p)
  }

  /** Where the output from `p` holds no `<` up to the scan's position `e`, the scan copied `s[p..e]`. */
  lemma {:induction false} CopyRun(s: string, term: string, p: nat, e: nat)
    requires term != [] && p <= e && p <= |s| && e - p <= |ReplaceFrom(s, term, p)|
    requires forall i | 0 <= i < e - p :: ReplaceFrom(s, term, p)[i] != '<'
    ensures e <= |s| && ReplaceFrom(s, term, p) == s[p..e] + ReplaceFrom(s, term, e)
    decreases e - p
  {
    if p < e {
      var r := ReplaceFrom(s, term, p);
      assert r[0] != '<';
      assert p < |s| && !MatchesAt(s, term, p);
      var rest := ReplaceFrom(s, term, p + 1);
      assert r == [s[p]] + rest;
      assert forall i | 0 <= i < e - (p + 1) :: rest[i] == r[i + 1];
      CopyRun(s, term, p + 1, e);
      calc {
        r;
        [s[p]] + (s[p + 1..e] + ReplaceFrom(s, term, e));
        ([s[p]] + s[p + 1..e]) + ReplaceFrom(s, term, e);
        { assert [s[p]] + s[p + 1..e] == s[p..e]; }
        s[p..e] + ReplaceFrom(s, term, e);
      }
    }
  }

  lemma FirstOut(s: string, term: string, k: nat)
    requires term != [] && k <= |s|
    ensures k == |s| ==> ReplaceFrom(s, term, k) == []
    ensures k < |s| && !MatchesAt(s, term, k) ==> ReplaceFrom(s, term, k) != [] && ReplaceFrom(s, term, k)[0] == s[k]
  {
  }

  lemma Regroup(pre: string, c: char, a: string, b: string)
    ensures pre + [c] + (a + b) == pre + ([c] + a) + b
  {
  }

  /**
   * An occurrence right after `pre` in `pre + s[p..p + |term|] + after`, where `after` continues
   * as the text does, is an occurrence in the text at `p`.
   */
  lemma LiftAcross(s: string, term: string, p: nat, pre: string, after: string)
    requires BlankableTerm(term) && p + |term| <= |s| && AlignedAt(s, pre, p)
    requires p + |term| == |s| ==> after == []
    requires p + |term| < |s| && !MatchesAt(s, term, p + |term|) ==> after != [] && after[0] == s[p + |term|]
    ensures MatchesAt(pre + s[p..p + |term|] + after, term, |pre|) ==> MatchesAt(s, term, p)
  {
    var n := |term|;
    var mid := s[p..p + n];
    var r := pre + mid + after;
    var q := |pre|;
    if MatchesAt(r, term, q) {
      assert r[q..q + n] == mid;
      MatchEnds(r, term, q);
      assert r[q] == s[p] && r[q + n - 1] == s[p + n - 1];
      NoMatchAfterWord(s, term, p + n);
      if q > 0 {
        assert r[q - 1] == pre[q - 1];
      }
      if after != [] {
        assert r[q + n] == after[0];
      }
    }
  }

  /** A blankable term holds no `<`, so neither does any occurrence of it. */
  lemma MatchNoAngle(r: string, term: string, q: nat)
    requires BlankableTerm(term)
    ensures MatchesAt(r, term, q) ==> q + |term| <= |r| && '<' !in r[q..q + |term|]
  {
    if MatchesAt(r, term, q) {
      var occurrence := r[q..q + |term|];
      forall i | 0 <= i < |term|
        ensures occurrence[i] != '<'
      {
        MatchAvoids(r, term, q, i, '<');
      }
    }
  }

  lemma NoAngleShift(r: string, pre: string, c: char, rest: string, n: nat)
    requires r == pre + [c] + rest && |pre| + n <= |r| && n > 0
    requires '<' !in r[|pre|..|pre| + n]
    ensures n - 1 <= |rest| && forall i | 0 <= i < n - 1 :: rest[i] != '<'
  {
    forall i | 0 <= i < n - 1
      ensures rest[i] != '<'
    {
      assert rest[i] == r[|pre|..|pre| + n][i + 1];
    }
  }

  lemma RegroupRun(s: string, p: nat, e: nat, pre: string, rest: string, after: string)
    requires p < e <= |s| && rest == s[p + 1..e] + after
    ensures pre + [s[p]] + rest == pre + s[p..e] + after
  {
    calc {
      pre + [s[p]] + rest;
      pre + [s[p]] + (s[p + 1..e] + after);
      { Regroup(pre, s[p], s[p + 1..e], after); }
      pre + ([s[p]] + s[p + 1..e]) + after;
      { assert [s[p]] + s[p + 1..e] == s[p..e]; }
      pre + s[p..e] + after;
    }
  }

  lemma CopiedLift(s: string, term: string, p: nat, pre: string, rest: string, after: string)
    requires BlankableTerm(term) && p < |s| && AlignedAt(s, pre, p) && p + |term| <= |s|
    requires rest == s[p + 1..p + |term|] + after
    requires p + |term| == |s| ==> after == []
    requires p + |term| < |s| && !MatchesAt(s, term, p + |term|) ==> after != [] && after[0] == s[p + |term|]
    ensures MatchesAt(pre + [s[p]] + rest, term, |pre|) ==> MatchesAt(s, term, p)
  {
    RegroupRun(s, p, p + |term|, pre, rest, after);
    LiftAcross(s, term, p, pre, after);
  }

  /**
   * An occurrence in the output at a character the scan copied, after a `pre` aligned with the
   * text, is an occurrence in the text at that character.
   */
  lemma CopiedMatchLifts(s: string, term: string, p: nat, pre: string, r: string, rest: string)
    requires BlankableTerm(term) && p < |s| && AlignedAt(s, pre, p)
    requires rest == ReplaceFrom(s, term, p + 1) && r == pre + [s[p]] + rest
    ensures MatchesAt(r, term, |pre|) ==> MatchesAt(s, term, p)
  {
    MatchNoAngle(r, term, |pre|);
    if |pre| + |term| <= |r| && '<' !in r[|pre|..|pre| + |term|] {
      NoAngleShift(r, pre, s[p], rest, |term|);
      CopiedRun(s, term, p, rest);
      FirstOut(s, term, p + |term|);
      CopiedLift(s, term, p, pre, rest, ReplaceFrom(s, term, p + |term|));
    }
  }

  lemma CopiedRun(s: string, term: string, p: nat, rest: string)
    requires term != [] && p < |s| && rest == ReplaceFrom(s, term, p + 1) && |term| - 1 <= |rest|
    requires forall i | 0 <= i < |term| - 1 :: rest[i] != '<'
    ensures p + |term| <= |s| && rest == s[p + 1..p + |term|] + ReplaceFrom(s, term, p + |term|)
  {
    CopyRun(s, term, p + 1, p + |term|);
  }

  /** A marker placed at `p` starts no occurrence, given that the rest of the output starts none. */
  lemma MarkerStep(s: string, term: string, p: nat, pre: string, rest: string)
    requires BlankableTerm(term) && p < |s| && MatchesAt(s, term, p)
    requires rest == ReplaceFrom(s, term, p + |term|)
    requires forall q: nat | |pre + BlankMarker| <= q :: !MatchesAt(pre + BlankMarker + rest, term, q)
    ensures forall q: nat | |pre| <= q :: !MatchesAt(pre + ReplaceFrom(s, term, p), term, q)
  {
    ReplaceFromMatch(s, term, p);
    AppendAssoc(pre, BlankMarker, rest);
    forall q: nat | |pre| <= q < |pre + BlankMarker|
      ensures !MatchesAt(pre + BlankMarker + rest, term, q)
    {
      MarkerNoMatch(pre, rest, term, q);
    }
  }

  /** A character copied at `p` starts no occurrence, given that the rest of the output starts none. */
  lemma CopyStep(s: string, term: string, p: nat, pre: string, rest: string)
    requires BlankableTerm(term) && p < |s| && !MatchesAt(s, term, p) && AlignedAt(s, pre, p)
    requires rest == ReplaceFrom(s, term, p + 1)
    requires forall q: nat | |pre + [s[p]]| <= q :: !MatchesAt(pre + [s[p]] + rest, term, q)
    ensures forall q: nat | |pre| <= q :: !MatchesAt(pre + ReplaceFrom(s, term, p), term, q)
  {
    ReplaceFromCopy(s, term, p);
    AppendAssoc(pre, [s[p]], rest);
    CopiedMatchLifts(s, term, p, pre, pre + [s[p]] + rest, rest);
  }

  /** No occurrence starts in the output of the scan from `p`, placed after an aligned `pre`. */
  lemma {:induction false} NoMatchAfter(s: string, term: string, p: nat, pre: string)
    requires BlankableTerm(term) && p <= |s| && AlignedAt(s, pre, p)
    ensures forall q: nat | |pre| <= q :: !MatchesAt(pre + ReplaceFrom(s, term, p), term, q)
    decreases |s| - p
  {
    if p < |s| {
      if MatchesAt(s, term, p) {
        MatchEnds(s, term, p);
        NoMatchAfter(s, term, p + |term|, pre + BlankMarker);
        MarkerStep(s, term, p, pre, ReplaceFrom(s, term, p + |term|));
      } else {
        NoMatchAfter(s, term, p + 1, pre + [s[p]]);
        CopyStep(s, term, p, pre, ReplaceFrom(s, term, p + 1));
      }
    }
  }

  /**
   * The `g` flag: no whole-word occurrence of the term is left once the text is blanked
   * (for the term "blank" itself see `BlankTermSurvives`).
   */
  lemma BlankRemovesEvery(s: string, term: string)
    requires BlankableTerm(term)
    ensures !Occurs(Blank(s, term), term)
  {
    NoMatchAfter(s, term, 0, []);
    assert [] + Blank(s, term) == Blank(s, term);
  }

  lemma MarkerShift(c: char, rest: string, i: nat)
    requires MarkerAt(rest, i)
    ensures MarkerAt([c] + rest, i + 1)
  {
    assert ([c] + rest)[i + 1..i + 1 + |BlankMarker|] == rest[i..i + |BlankMarker|];
  }

  lemma {:induction false} MarkerFrom(s: string, term: string, p: nat, q: nat)
    requires term != [] && p <= q <= |s| && MatchesAt(s, term, q)
    ensures ContainsMarker(ReplaceFrom(s, term, p))
    decreases |s| - p
  {
    if MatchesAt(s, term, p) {
      ReplaceFromMatch(s, term, p);
      assert MarkerAt(ReplaceFrom(s, term, p), 0);
    } else {
      assert p < q;
      MarkerFrom(s, term, p + 1, q);
      var rest := ReplaceFrom(s, term, p + 1);
      var i: nat :| i < |rest| && MarkerAt(rest, i);
      ReplaceFromCopy(s, term, p);
      MarkerShift(s[p], rest, i);
    }
  }

  /** Where the term occurs, the blanked text shows `<blank>`. */
  lemma BlankMarksOccurrence(s: string, term: string)
    requires term != []
    ensures Occurs(s, term) ==> ContainsMarker(Blank(s, term))
  {
    if Occurs(s, term) {
      var q: nat :| q <= |s| && MatchesAt(s, term, q);
      MarkerFrom(s, term, 0, q);
    }
  }

  /** Putting the term back for every `<blank>` restores the text, up to case, when the text had no `<`. */
  function Unblank(r: string, term: string): string
  {
    if |r| >= |BlankMarker| && r[..|BlankMarker|] == BlankMarker then term + Unblank(r[|BlankMarker|..], term)
    else if r == [] then []
    else [r[0]] + Unblank(r[1..], term)
  }

  lemma UnblankMarker(rest: string, term: string)
    ensures Unblank(BlankMarker + rest, term) == term + Unblank(rest, term)
  {
    var r := BlankMarker + rest;
    assert r[..|BlankMarker|] == BlankMarker && r[|BlankMarker|..] == rest;
  }

  lemma ReplaceFromMatch(s: string, term: string, p: nat)
    requires term != [] && p <= |s| && MatchesAt(s, term, p)
    ensures ReplaceFrom(s, term, p) == BlankMarker + ReplaceFrom(s, term, p + |term|)
  {
  }

  lemma ReplaceFromCopy(s: string, term: string, p: nat)
    requires term != [] && p < |s| && !MatchesAt(s, term, p)
    ensures ReplaceFrom(s, term, p) == [s[p]] + ReplaceFrom(s, term, p + 1)
  {
  }

  lemma AppendAssoc(a: string, b: string, c: string)
    ensures a + (b + c) == a + b + c
  {
  }

  lemma LowerJoin(a: string, b: string, c: string, d: string)
    requires Lower(a) == Lower(c) && Lower(b) == Lower(d)
    ensures Lower(a + b) == Lower(c + d)
  {
    LowerAppend(a, b);
    LowerAppend(c, d);
  }

  lemma LowerUnblankMarker(rest: string, term: string, a: string, b: string)
    requires Lower(term) == Lower(a) && Lower(Unblank(rest, term)) == Lower(b)
    ensures Lower(Unblank(BlankMarker + rest, term)) == Lower(a + b)
  {
    UnblankMarker(rest, term);
    LowerJoin(term, Unblank(rest, term), a, b);
  }

  lemma SliceSplit(s: string, p: nat, n: nat)
    requires p <= n <= |s|
    ensures s[p..n] + s[n..] == s[p..]
  {
  }

  lemma {:induction false} UnblankAtMatch(s: string, term: string, p: nat)
    requires term != [] && p <= |s| && MatchesAt(s, term, p)
    requires Lower(Unblank(ReplaceFrom(s, term, p + |term|), term)) == Lower(s[p + |term|..])
    ensures Lower(Unblank(ReplaceFrom(s, term, p), term)) == Lower(s[p..])
  {
    var n := p + |term|;
    var rest := ReplaceFrom(s, term, n);
    calc {
      Lower(Unblank(ReplaceFrom(s, term, p), term));
      { ReplaceFromMatch(s, term, p); }
      Lower(Unblank(BlankMarker + rest, term));
      { LowerUnblankMarker(rest, term, s[p..n], s[n..]); }
      Lower(s[p..n] + s[n..]);
      { SliceSplit(s, p, n); }
      Lower(s[p..]);
    }
  }

  lemma {:induction false} UnblankPastChar(s: string, term: string, p: nat)
    requires term != [] && p < |s| && !MatchesAt(s, term, p) && s[p] != '<'
    requires Lower(Unblank(ReplaceFrom(s, term, p + 1), term)) == Lower(s[p + 1..])
    ensures Lower(Unblank(ReplaceFrom(s, term, p), term)) == Lower(s[p..])
  {
    var rest := ReplaceFrom(s, term, p + 1);
    var r := [s[p]] + rest;
    calc {
      Lower(Unblank(ReplaceFrom(s, term, p), term));
      Lower(Unblank(r, term));
      { assert |r| >= |BlankMarker| ==> r[..|BlankMarker|][0] != BlankMarker[0];
        assert r[1..] == rest; }
      Lower([s[p]] + Unblank(rest, term));
      { LowerAppend([s[p]], Unblank(rest, term)); }
      Lower([s[p]]) + Lower(Unblank(rest, term));
      Lower([s[p]]) + Lower(s[p + 1..]);
      { LowerAppend([s[p]], s[p + 1..]); }
      Lower([s[p]] + s[p + 1..]);
      { assert [s[p]] + s[p + 1..] == s[p..]; }
      Lower(s[p..]);
    }
  }

  lemma AbsentFromSuffix(s: string, p: nat, q: nat, c: char)
    requires p <= q <= |s| && c !in s[p..]
    ensures c !in s[q..]
  {
    assert forall d | d in s[q..] :: d in s[p..];
  }

  lemma {:induction false} UnblankReplaceFrom(s: string, term: string, p: nat)
    requires term != [] && p <= |s|
    requires '<' !in s[p..]
    ensures Lower(Unblank(ReplaceFrom(s, term, p), term)) == Lower(s[p..])
    decreases |s| - p
  {
    if p < |s| {
      assert s[p] in s[p..];
      if MatchesAt(s, term, p) {
        var n := p + |term|;
        AbsentFromSuffix(s, p, n, '<');
        UnblankReplaceFrom(s, term, n);
        UnblankAtMatch(s, term, p);
      } else {
        AbsentFromSuffix(s, p, p + 1, '<');
        UnblankReplaceFrom(s, term, p + 1);
        UnblankPastChar(s, term, p);
      }
    }
  }

  /** Blanking loses only the case of the replaced occurrences: un-blanking gives the text back. */
  lemma UnblankBlank(s: string, term: string)
    requires term != [] && '<' !in s
    ensures Lower(Unblank(Blank(s, term), term)) == Lower(s)
  {
    UnblankReplaceFrom(s, term, 0);
  }

  lemma UnblankChar(c: char, rest: string, term: string)
    requires c != '<'
    ensures Unblank([c] + rest, term) == [c] + Unblank(rest, term)
  {
    var r := [c] + rest;
    assert |r| >= |BlankMarker| ==> r[..|BlankMarker|][0] != BlankMarker[0];
    assert r[1..] == rest;
  }

  lemma ExactMatchStep(s: string, term: string, p: nat)
    requires term != [] && p <= |s| && MatchesAt(s, term, p) && s[p..p + |term|] == term
    requires Unblank(ReplaceFrom(s, term, p + |term|), term) == s[p + |term|..]
    ensures Unblank(ReplaceFrom(s, term, p), term) == s[p..]
  {
    var n := p + |term|;
    ReplaceFromMatch(s, term, p);
    UnblankMarker(ReplaceFrom(s, term, n), term);
    SliceSplit(s, p, n);
  }

  lemma ExactCopyStep(s: string, term: string, p: nat)
    requires term != [] && p < |s| && !MatchesAt(s, term, p) && s[p] != '<'
    requires Unblank(ReplaceFrom(s, term, p + 1), term) == s[p + 1..]
    ensures Unblank(ReplaceFrom(s, term, p), term) == s[p..]
  {
    ReplaceFromCopy(s, term, p);
    UnblankChar(s[p], ReplaceFrom(s, term, p + 1), term);
    assert [s[p]] + s[p + 1..] == s[p..];
  }

  lemma {:induction false} UnblankReplaceFromExact(s: string, term: string, p: nat)
    requires term != [] && p <= |s| && '<' !in s[p..]
    requires forall q: nat | p <= q <= |s| && MatchesAt(s, term, q) :: s[q..q + |term|] == term
    ensures Unblank(ReplaceFrom(s, term, p), term) == s[p..]
    decreases |s| - p
  {
    if p < |s| {
      assert s[p] in s[p..];
      if MatchesAt(s, term, p) {
        var written := s[p..p + |term|];
        assert written == term;
        AbsentFromSuffix(s, p, p + |term|, '<');
        UnblankReplaceFromExact(s, term, p + |term|);
        ExactMatchStep(s, term, p);
      } else {
        AbsentFromSuffix(s, p, p + 1, '<');
        UnblankReplaceFromExact(s, term, p + 1);
        ExactCopyStep(s, term, p);
      }
    }
  }

  /**
   * Where every occurrence is written exactly as the term, putting the term back gives the text
   * back exactly: blanking changes nothing but the occurrences.
   */
  lemma UnblankBlankExact(s: string, term: string)
    requires term != [] && '<' !in s
    requires forall q: nat | q <= |s| && MatchesAt(s, term, q) :: s[q..q + |term|] == term
    ensures Unblank(Blank(s, term), term) == s
  {
    UnblankReplaceFromExact(s, term, 0);
    assert s[0..] == s;
  }

  /** The lead-ins the clean-up removes before a `<blank>`. */
  const LeadIns: seq<string> := ["to", "when you", "if you"]

  /** `/^lead\s+<blank>/i` matches `t` with the whitespace ending, and `<blank>` starting, at `k`. */
  predicate LeadInAt(t: string, lead: string, k: nat) {
    && |lead| < k && k + |BlankMarker| <= |t|
    && Lower(t[..|lead|]) == lead
    && AllSpace(t[|lead|..k])
    && Lower(t[k..k + |BlankMarker|]) == BlankMarker
  }

  /** The length of the prefix `/^lead\s+<blank>/i` matches in `t`, or 0 when it does not match. */
  function LeadInLength(t: string, lead: string): (n: nat)
    ensures n <= |t|
    ensures n > 0 ==> n >= |BlankMarker| && LeadInAt(t, lead, n - |BlankMarker|)
  {
    if |lead| < |t| && Lower(t[..|lead|]) == lead && IsSpace(t[|lead|]) then
      var k := SkipSpaces(t, |lead|);
      if k + |BlankMarker| <= |t| && Lower(t[k..k + |BlankMarker|]) == BlankMarker then
        assert AllSpace(t[|lead|..k]) by {
          forall i | 0 <= i < k - |lead|
            ensures IsSpace(t[|lead|..k][i])
          {
            assert t[|lead|..k][i] == t[|lead| + i];
          }
        }
        k + |BlankMarker|
      else 0
    else 0
  }

  /** Whenever the lead-in pattern matches, the match is the one `LeadInLength` measures. */
  lemma LeadInUnique(t: string, lead: string)
    ensures forall k: nat | LeadInAt(t, lead, k) :: LeadInLength(t, lead) == k + |BlankMarker|
  {
    forall k: nat | LeadInAt(t, lead, k)
      ensures LeadInLength(t, lead) == k + |BlankMarker|
    {
      var spaces := t[|lead|..k];
      assert IsSpace(t[|lead|]) by {
        assert spaces[0] == t[|lead|];
      }
      assert t[k] == '<' by {
        assert Lower(t[k..k + |BlankMarker|])[0] == LowerChar(t[k]);
        LowerCharFixed(t[k], '<');
      }
      forall m | |lead| <= m < k
        ensures IsSpace(t[m])
      {
        assert spaces[m - |lead|] == t[m];
      }
      assert SkipSpaces(t, |lead|) == k;
    }
  }

  /**
   * `t.replace(/^(to|when you|if you)\s+<blank>/i, '<blank>')`: a lead-in and the whitespace after
   * it are dropped before a leading `<blank>`, and nothing else changes.
   */
  function StripLeadIn(t: string): (r: string)
    ensures r != t ==> exists lead: string, k: nat ::
              lead in LeadIns && LeadInAt(t, lead, k) && r == BlankMarker + t[k + |BlankMarker|..]
    ensures (exists lead: string, k: nat :: lead in LeadIns && LeadInAt(t, lead, k)) ==> r != t
  {
    LeadInUnique(t, "to");
    LeadInUnique(t, "when you");
    LeadInUnique(t, "if you");
    var lead := if LeadInLength(t, "to") > 0 then "to"
                else if LeadInLength(t, "when you") > 0 then "when you"
                else "if you";
    var n := LeadInLength(t, lead);
    if n > 0 then BlankMarker + t[n..] else t
  }

  lemma NoLeadInBeforeMarker(r: string, lead: string)
    requires r != [] && r[0] == '<' && lead != [] && lead[0] != '<'
    ensures LeadInLength(r, lead) == 0
  {
    if |lead| < |r| {
      assert Lower(r[..|lead|])[0] == '<';
    }
  }

  /** The clean-up applies at most once: a stripped prompt begins with `<blank>`, never with a lead-in. */
  lemma StripLeadInIdempotent(t: string)
    ensures StripLeadIn(StripLeadIn(t)) == StripLeadIn(t)
  {
    var r := StripLeadIn(t);
    if r != t {
      assert r[0] == r[..|BlankMarker|][0] == '<';
      NoLeadInBeforeMarker(r, "to");
      NoLeadInBeforeMarker(r, "when you");
      NoLeadInBeforeMarker(r, "if you");
    }
  }

  /** Only the text from the last character of the prefix on decides an occurrence past the prefix. */
  lemma ShiftMatch(w1: string, w2: string, z: string, term: string, q: nat)
    requires w1 != [] && w2 != [] && w1[|w1| - 1] == w2[|w2| - 1] && |w1| <= q
    ensures MatchesAt(w1 + z, term, q) ==> MatchesAt(w2 + z, term, q - |w1| + |w2|)
  {
    var u, v := w1 + z, w2 + z;
    var q' := q - |w1| + |w2|;
    if MatchesAt(u, term, q) {
      assert u[q..q + |term|] == v[q'..q' + |term|];
      assert u[q - 1] == v[q' - 1];
      assert q < |u| ==> u[q] == v[q'];
      assert q + |term| < |u| ==> u[q + |term|] == v[q' + |term|];
      assert u[q + |term| - 1] == v[q' + |term| - 1];
    }
  }

  lemma TakeDrop(b: string, i: nat)
    requires i <= |b|
    ensures b == b[..i] + b[i..]
  {
  }

  /** Putting `<blank>` in place of a prefix that ends in `>` cannot create an occurrence. */
  lemma MarkerForPrefix(w: string, z: string, term: string)
    requires BlankableTerm(term) && w != [] && w[|w| - 1] == '>' && !Occurs(w + z, term)
    ensures !Occurs(BlankMarker + z, term)
  {
    var r := BlankMarker + z;
    forall q: nat | q <= |r|
      ensures !MatchesAt(r, term, q)
    {
      if q < |BlankMarker| {
        MarkerNoMatch([], z, term, q);
        assert [] + BlankMarker + z == r;
      } else {
        ShiftMatch(BlankMarker, w, z, term, q);
      }
    }
  }

  /** Dropping a lead-in cannot bring the term back into a text that no longer holds it. */
  lemma StripLeadInNoMatch(b: string, term: string)
    requires BlankableTerm(term) && !Occurs(b, term)
    ensures !Occurs(StripLeadIn(b), term)
  {
    var r := StripLeadIn(b);
    if r != b {
      var lead: string, k: nat :| lead in LeadIns && LeadInAt(b, lead, k) && r == BlankMarker + b[k + |BlankMarker|..];
      var w, z := b[..k + |BlankMarker|], b[k + |BlankMarker|..];
      TakeDrop(b, k + |BlankMarker|);
      assert w[|w| - 1] == '>' by {
        assert Lower(b[k..k + |BlankMarker|])[6] == LowerChar(b[k + 6]);
        LowerCharFixed(b[k + 6], '>');
      }
      MarkerForPrefix(w, z, term);
    }
  }

  /** Dropping a lead-in keeps `<blank>` on show. */
  lemma StripLeadInKeepsMarker(b: string)
    ensures ContainsMarker(b) ==> ContainsMarker(StripLeadIn(b))
  {
    var r := StripLeadIn(b);
    if r != b {
      assert MarkerAt(r, 0);
    }
  }

  /**
   * script.js:67-74: the question text for `term` with definition `definition`. It never shows a
   * blankable term, and it shows `<blank>` wherever the definition used the term.
   */
  function Prompt(definition: string, term: string): (r: string)
    requires term != []
    ensures BlankableTerm(term) ==> !Occurs(r, term)
    ensures Occurs(definition, term) ==> ContainsMarker(r)
  {
    var b := Blank(definition, term);
    BlankMarksOccurrence(definition, term);
    StripLeadInKeepsMarker(b);
    if BlankableTerm(term) then
      BlankRemovesEvery(definition, term);
      StripLeadInNoMatch(b, term);
      StripLeadIn(b)
    else
      StripLeadIn(b)
  }

  /** A definition that never uses the term and has no lead-in before a `<blank>` is shown as it is. */
  lemma PromptUnchanged(definition: string, term: string)
    requires term != [] && !Occurs(definition, term)
    requires StripLeadIn(definition) == definition
    ensures Prompt(definition, term) == definition
  {
    ReplaceFromNoMatch(definition, term, 0);
  }

  /**
   * The term "blank" is not gone from its own prompt: blanking it produces the marker, and the
   * marker itself holds "blank" as a whole word (between `<` and `>`).
   */
  lemma BlankTermSurvives()
    ensures Blank("blank", "blank") == BlankMarker
    ensures Occurs(Blank("blank", "blank"), "blank")
  {
    assert MatchesAt(BlankMarker, "blank", 1);
  }
}
