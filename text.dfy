/**
 * Character classes and string helpers that script.js gets from the JavaScript runtime:
 * `String.prototype.trim`, `toLowerCase`, `split('\n')`, `includes(':')`, and the
 * character classes `\s` and `\w` of its regular expressions.
 */
module Text {

  /** The characters JavaScript counts as WhiteSpace or LineTerminator: what `trim` removes and `\s` matches. */
  predicate IsSpace(c: char) {
    || c == ' ' || c == '\t' || c == '\n' || c == '\r' || c == '\U{000B}' || c == '\U{000C}'
    || c == '\U{00A0}' || c == '\U{1680}' || ('\U{2000}' <= c <= '\U{200A}')
    || c == '\U{2028}' || c == '\U{2029}' || c == '\U{202F}' || c == '\U{205F}'
    || c == '\U{3000}' || c == '\U{FEFF}'
  }

  /** The characters of `\w`, which decide where `\b` holds. */
  predicate IsWordChar(c: char) {
    ('a' <= c <= 'z') || ('A' <= c <= 'Z') || ('0' <= c <= '9') || c == '_'
  }

  predicate IsUpper(c: char) {
    'A' <= c <= 'Z'
  }

  predicate AllSpace(s: string) {
    forall i | 0 <= i < |s| :: IsSpace(s[i])
  }

  /** A string with no whitespace at either end, as `trim` leaves it. */
  predicate IsTrimmed(s: string) {
    s == [] || (!IsSpace(s[0]) && !IsSpace(s[|s| - 1]))
  }

  /** A string `toLowerCase` leaves as it is (on the ASCII letters this model folds). */
  predicate IsLower(s: string) {
    forall i | 0 <= i < |s| :: !IsUpper(s[i])
  }

  function LowerChar(c: char): (d: char)
    ensures !IsUpper(d)
    ensures IsUpper(c) ==> d as int == c as int + 32
    ensures !IsUpper(c) ==> d == c
  {
    if IsUpper(c) then (c as int + 32) as char else c
  }

  /** `toLowerCase`, folding only the ASCII letters. */
  function Lower(s: string): (r: string)
    ensures |r| == |s|
    ensures forall i {:trigger r[i]} | 0 <= i < |s| :: r[i] == LowerChar(s[i])
    ensures IsLower(r)
  {
    seq(|s|, i requires 0 <= i < |s| => LowerChar(s[i]))
  }

  lemma LowerKeepsLower(s: string)
    requires IsLower(s)
    ensures Lower(s) == s
  {
    assert forall i | 0 <= i < |s| :: Lower(s)[i] == s[i];
  }

  lemma LowerAppend(a: string, b: string)
    ensures Lower(a + b) == Lower(a) + Lower(b)
  {
    assert forall i | 0 <= i < |a + b| :: Lower(a + b)[i] == (Lower(a) + Lower(b))[i];
  }

  /** Folding case never adds or removes a colon or whitespace. */
  lemma LowerKeepsClasses(s: string)
    ensures ':' in Lower(s) <==> ':' in s
    ensures IsTrimmed(s) ==> IsTrimmed(Lower(s))
    ensures (s == []) <==> (Lower(s) == [])
  {
    if ':' in s {
      var i :| 0 <= i < |s| && s[i] == ':';
      assert Lower(s)[i] == ':';
    }
    if ':' in Lower(s) {
      var i :| 0 <= i < |s| && Lower(s)[i] == ':';
      assert s[i] == ':';
    }
  }

  /** The index of the first character at or after `i` that is not whitespace (the greedy `\s*`). */
  function SkipSpaces(s: string, i: nat): (k: nat)
    requires i <= |s|
    ensures i <= k <= |s|
    ensures forall m | i <= m < k :: IsSpace(s[m])
    ensures k == |s| || !IsSpace(s[k])
    decreases |s| - i
  {
    if i < |s| && IsSpace(s[i]) then SkipSpaces(s, i + 1) else i
  }

  /** The index just past the last character before `j` that is not whitespace. */
  function SkipSpacesBack(s: string, j: nat): (k: nat)
    requires j <= |s|
    ensures k <= j
    ensures forall m | k <= m < j :: IsSpace(s[m])
    ensures k == 0 || !IsSpace(s[k - 1])
  {
    if 0 < j && IsSpace(s[j - 1]) then SkipSpacesBack(s, j - 1) else j
  }

  /** `String.prototype.trim`: `s` without the whitespace at either end. */
  function Trim(s: string): (r: string)
    ensures IsTrimmed(r)
    ensures |r| <= |s|
    ensures forall c | c in r :: c in s
    ensures r == [] <==> AllSpace(s)
    ensures IsTrimmed(s) ==> r == s
  {
    var i := SkipSpaces(s, 0);
    var t := s[i..];
    var j := SkipSpacesBack(t, |t|);
    assert !AllSpace(s) ==> j > 0 by {
      if !AllSpace(s) {
        var m :| 0 <= m < |s| && !IsSpace(s[m]);
        assert i <= m && !IsSpace(t[0]);
      }
    }
    assert forall c | c in t[..j] :: c in s by {
      forall c | c in t[..j] ensures c in s {
        var m :| 0 <= m < j && t[m] == c;
        assert s[i + m] == c;
      }
    }
    t[..j]
  }

  /** What `trim` removes is whitespace at the two ends and nothing else. */
  lemma TrimSlice(s: string)
    ensures exists i | 0 <= i <= |s| - |Trim(s)| ::
              Trim(s) == s[i..i + |Trim(s)|] && AllSpace(s[..i]) && AllSpace(s[i + |Trim(s)|..])
  {
    var i := SkipSpaces(s, 0);
    var t := s[i..];
    var j := SkipSpacesBack(t, |t|);
    assert t[..j] == s[i..i + j];
    assert AllSpace(s[..i]);
    assert s[i + j..] == t[j..];
  }

  /** The first position of `c` in `s`. */
  function FirstIndex(s: string, c: char): (k: nat)
    requires c in s
    ensures k < |s| && s[k] == c
    ensures c !in s[..k]
  {
    if s[0] == c then 0 else 1 + FirstIndex(s[1..], c)
  }

  lemma {:induction false} FirstIndexPastPrefix(a: string, b: string, c: char)
    requires c !in a
    ensures c in a + [c] + b && FirstIndex(a + [c] + b, c) == |a|
  {
    assert (a + [c] + b)[|a|] == c;
    if a != [] {
      assert (a + [c] + b)[1..] == a[1..] + [c] + b;
      FirstIndexPastPrefix(a[1..], b, c);
    }
  }

  /** `s.split(sep)` with a one-character separator. */
  function Split(s: string, sep: char): (r: seq<string>)
    ensures |r| >= 1
    ensures forall l | l in r :: sep !in l
    decreases |s|
  {
    if sep !in s then [s]
    else
      var k := FirstIndex(s, sep);
      [s[..k]] + Split(s[k + 1..], sep)
  }

  /** `lines.join(sep)`, the inverse of `Split`. */
  function Join(ls: seq<string>, sep: char): (r: string)
    ensures ls != [] ==> |ls[0]| <= |r| && r[..|ls[0]|] == ls[0]
    ensures ls != [] ==> |ls[|ls| - 1]| <= |r| && r[|r| - |ls[|ls| - 1]|..] == ls[|ls| - 1]
    ensures |ls| >= 2 ==> sep in r
  {
    if |ls| == 0 then []
    else if |ls| == 1 then ls[0]
    else ls[0] + [sep] + Join(ls[1..], sep)
  }

  lemma SplitCons(a: string, rest: string, sep: char)
    requires sep !in a
    ensures Split(a + [sep] + rest, sep) == [a] + Split(rest, sep)
  {
    var s := a + [sep] + rest;
    FirstIndexPastPrefix(a, rest, sep);
    assert s[..|a|] == a;
    assert s[|a| + 1..] == rest;
  }

  lemma JoinCons(l: string, ls: seq<string>, sep: char)
    requires |ls| >= 1
    ensures Join([l] + ls, sep) == l + [sep] + Join(ls, sep)
  {
    assert ([l] + ls)[1..] == ls;
  }

  /** Splitting loses nothing: joining the pieces back gives the text. */
  lemma {:induction false} JoinSplit(s: string, sep: char)
    ensures Join(Split(s, sep), sep) == s
    decreases |s|
  {
    if sep in s {
      var k := FirstIndex(s, sep);
      var rest := s[k + 1..];
      calc {
        Join(Split(s, sep), sep);
        Join([s[..k]] + Split(rest, sep), sep);
        { JoinCons(s[..k], Split(rest, sep), sep); }
        s[..k] + [sep] + Join(Split(rest, sep), sep);
        { JoinSplit(rest, sep); }
        s[..k] + [sep] + rest;
        { assert s[k] == sep; }
        s;
      }
    }
  }

  /** Splitting a join of separator-free lines gives the lines back. */
  lemma {:induction false} SplitJoin(ls: seq<string>, sep: char)
    requires |ls| >= 1
    requires forall l | l in ls :: sep !in l
    ensures Split(Join(ls, sep), sep) == ls
  {
    if |ls| > 1 {
      var tail := ls[1..];
      assert ls == [ls[0]] + tail;
      var rest := Join(tail, sep);
      JoinCons(ls[0], tail, sep);
      assert sep !in ls[0] by { assert ls[0] in ls; }
      SplitCons(ls[0], rest, sep);
      assert forall l | l in tail :: l in ls;
      SplitJoin(tail, sep);
    }
  }
}
