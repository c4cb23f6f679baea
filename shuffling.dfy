/**
 * The random reorderings of script.js. `[...xs].sort(() => Math.random() - 0.5)` (lines 78 and 92)
 * yields some permutation of `xs` depending on the random numbers drawn; `Shuffle` models it as a
 * function of arbitrary draws `picks`, proved to give a permutation for every draw and to be able
 * to give every permutation. Nothing is claimed about how likely each permutation is.
 */
module Shuffling {
  import opened Sequences

  /** `s` without the element at `k`. */
  function RemoveAt<T>(s: seq<T>, k: nat): (r: seq<T>)
    requires k < |s|
    ensures |r| == |s| - 1
    ensures multiset(s) == multiset(r) + multiset{s[k]}
  {
    assert s == s[..k] + [s[k]] + s[k + 1..];
    s[..k] + s[k + 1..]
  }

  /**
   * Takes the element at the position the first draw names (the first element if it names none),
   * then orders the rest by the remaining draws.
   */
  function Shuffle<T>(s: seq<T>, picks: seq<nat>): (r: seq<T>)
    ensures multiset(r) == multiset(s)
    ensures |r| == |s|
    decreases |s|
  {
    if s == [] then []
    else
      var k := if picks != [] && picks[0] < |s| then picks[0] else 0;
      var tail := Shuffle(RemoveAt(s, k), if picks == [] then [] else picks[1..]);
      assert multiset([s[k]] + tail) == multiset{s[k]} + multiset(tail);
      [s[k]] + tail
  }

  /** A reordering holds the elements it started with and no others. */
  lemma ShuffleMembers<T>(s: seq<T>, picks: seq<nat>)
    ensures forall x | x in Shuffle(s, picks) :: x in s
    ensures forall x | x in s :: x in Shuffle(s, picks)
  {
    var r := Shuffle(s, picks);
    forall x | x in r ensures x in s {
      assert x in multiset(r);
    }
    forall x | x in s ensures x in r {
      assert x in multiset(s);
    }
  }

  lemma RemoveAtNoDuplicates<T>(s: seq<T>, k: nat)
    requires NoDuplicates(s) && k < |s|
    ensures NoDuplicates(RemoveAt(s, k)) && s[k] !in RemoveAt(s, k)
  {
    var r := RemoveAt(s, k);
    assert forall i | 0 <= i < |r| :: r[i] == if i < k then s[i] else s[i + 1];
  }

  lemma ConsNoDuplicates<T>(x: T, t: seq<T>)
    requires x !in t && NoDuplicates(t)
    ensures NoDuplicates([x] + t)
  {
  }

  /** A reordering of distinct elements repeats none of them. */
  lemma {:induction false} ShuffleNoDuplicates<T>(s: seq<T>, picks: seq<nat>)
    ensures NoDuplicates(s) ==> NoDuplicates(Shuffle(s, picks))
    decreases |s|
  {
    if s != [] && NoDuplicates(s) {
      var k := if picks != [] && picks[0] < |s| then picks[0] else 0;
      var more := if picks == [] then [] else picks[1..];
      var rest := RemoveAt(s, k);
      RemoveAtNoDuplicates(s, k);
      ShuffleNoDuplicates(rest, more);
      var tail := Shuffle(rest, more);
      assert s[k] !in multiset(tail);
      ConsNoDuplicates(s[k], tail);
    }
  }

  lemma MultisetCancel<T>(a: multiset<T>, b: multiset<T>, x: T)
    requires a + multiset{x} == b + multiset{x}
    ensures a == b
  {
    assert a == (a + multiset{x}) - multiset{x};
    assert b == (b + multiset{x}) - multiset{x};
  }

  lemma ShuffleFirstDraw<T>(s: seq<T>, k: nat, more: seq<nat>)
    requires k < |s|
    ensures Shuffle(s, [k] + more) == [s[k]] + Shuffle(RemoveAt(s, k), more)
  {
    assert ([k] + more)[0] == k && ([k] + more)[1..] == more;
  }

  lemma HeadTail<T>(r: seq<T>)
    requires r != []
    ensures [r[0]] + r[1..] == r
  {
  }

  /** Taking the same element off two permutations of each other leaves permutations of each other. */
  lemma PermutationTail<T>(s: seq<T>, r: seq<T>, k: nat)
    requires multiset(r) == multiset(s) && r != [] && k < |s| && s[k] == r[0]
    ensures multiset(r[1..]) == multiset(RemoveAt(s, k))
  {
    assert r == [r[0]] + r[1..];
    assert multiset(r) == multiset{r[0]} + multiset(r[1..]);
    MultisetCancel(multiset(r[1..]), multiset(RemoveAt(s, k)), r[0]);
  }

  /** The draws under which `Shuffle` produces the permutation `r` of `s`. */
  lemma {:induction false} DrawsFor<T>(s: seq<T>, r: seq<T>) returns (picks: seq<nat>)
    requires multiset(r) == multiset(s)
    ensures Shuffle(s, picks) == r
    decreases |s|
  {
    assert |r| == |multiset(r)| == |s|;
    if s == [] {
      picks := [];
    } else {
      assert r[0] in multiset(s);
      var k: nat :| k < |s| && s[k] == r[0];
      PermutationTail(s, r, k);
      var more := DrawsFor(RemoveAt(s, k), r[1..]);
      picks := [k] + more;
      calc {
        Shuffle(s, picks);
        { ShuffleFirstDraw(s, k, more); }
        [s[k]] + Shuffle(RemoveAt(s, k), more);
        [r[0]] + r[1..];
        { HeadTail(r); }
        r;
      }
    }
  }

  /** Every permutation of `s` is the outcome of some draws: the model leaves no ordering out. */
  lemma ShuffleReachesEvery<T>(s: seq<T>, r: seq<T>)
    requires multiset(r) == multiset(s)
    ensures exists picks: seq<nat> :: Shuffle(s, picks) == r
  {
    var picks := DrawsFor(s, r);
  }
}
