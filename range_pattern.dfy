/** The residue-range pattern `(-?[0-9]+[A-Z]?)-(-?[0-9]+[A-Z]?)` that both
    domain_imgae.py (`ptn`) and rainbow.py (inside `seg_ptn`) use: a start
    bound, a hyphen, an end bound, where a bound is an optionally negative
    residue number with an optional upper-case insertion code.

    The regular expression is modelled by a greedy scanner that works on
    positions of a string, so that it can be run at the start of a range
    (`ptn.match`) and in the middle of a longer text (`seg_ptn.finditer`).
    The lemmas RangeAtIsRegexMatch and MatchRangeIsRegexMatch show that the
    scanner finds a match exactly when the regular expression does, with
    the groups Python's backtracking matcher reports. */
module RangePattern {
  import opened Wrappers

  predicate IsDigit(c: char) { '0' <= c <= '9' }

  predicate IsUpper(c: char) { 'A' <= c <= 'Z' }

  /** `[A-Za-z0-9]`. */
  predicate IsAlnum(c: char) {
    IsUpper(c) || ('a' <= c <= 'z') || IsDigit(c)
  }

  /** Membership of `t` in the language of `-?[0-9]+[A-Z]?`. */
  predicate IsBound(t: string) {
    var a := if |t| > 0 && t[0] == '-' then 1 else 0;
    var b := if |t| > 0 && IsUpper(t[|t| - 1]) then |t| - 1 else |t|;
    a < b && forall k :: a <= k < b ==> IsDigit(t[k])
  }

  // ---------------------------------------------------------------------
  // One bound

  /** The number of digits in `s` from position `i` on. */
  function DigitsFrom(s: string, i: nat): (n: nat)
    requires i <= |s|
    ensures i + n <= |s|
    ensures i + n < |s| ==> !IsDigit(s[i + n])
    decreases |s| - i
  {
    if i == |s| || !IsDigit(s[i]) then 0 else 1 + DigitsFrom(s, i + 1)
  }

  lemma {:induction false} DigitsFromDigits(s: string, i: nat)
    requires i <= |s|
    ensures forall k :: i <= k < i + DigitsFrom(s, i) ==> IsDigit(s[k])
    decreases |s| - i
  {
    if i < |s| && IsDigit(s[i]) {
      DigitsFromDigits(s, i + 1);
    }
  }

  /** A run of `m` digits at `i` is counted in full. */
  lemma {:induction false} DigitsFromAtLeast(s: string, i: nat, m: nat)
    requires i + m <= |s|
    requires forall k :: i <= k < i + m ==> IsDigit(s[k])
    ensures m <= DigitsFrom(s, i)
    decreases m
  {
    if m > 0 {
      DigitsFromAtLeast(s, i + 1, m - 1);
    }
  }

  /** Where the longest bound starting at position `i` of `s` ends, if one
      starts there. */
  function BoundAt(s: string, i: nat): (r: Option<nat>)
    requires i <= |s|
    ensures r.Some? ==> i < r.value <= |s|
  {
    var sign := if i < |s| && s[i] == '-' then 1 else 0;
    var d := DigitsFrom(s, i + sign);
    if d == 0 then None
    else
      var n := i + sign + d;
      Some(if n < |s| && IsUpper(s[n]) then n + 1 else n)
  }

  /** What BoundAt reports is a bound, with no hyphen after its sign. */
  lemma BoundAtFound(s: string, i: nat)
    requires i <= |s| && BoundAt(s, i).Some?
    ensures IsBound(s[i..BoundAt(s, i).value])
    ensures forall k :: i < k < BoundAt(s, i).value ==> s[k] != '-'
  {
    var sign := if i < |s| && s[i] == '-' then 1 else 0;
    var d := DigitsFrom(s, i + sign);
    DigitsFromDigits(s, i + sign);
    var n := i + sign + d;
    var j := BoundAt(s, i).value;
    var t := s[i..j];
    assert t[0] == s[i];
    assert t[|t| - 1] == s[j - 1];
    assert j == n ==> IsDigit(s[n - 1]);
    forall k | sign <= k < n - i ensures IsDigit(t[k]) {
      assert t[k] == s[i + k];
    }
  }

  /** Every bound starting at `i` is found, and ends no later than the one
      BoundAt reports: the greedy bound is the longest. */
  lemma BoundAtLongest(s: string, i: nat, j: nat)
    requires i <= j <= |s| && IsBound(s[i..j])
    ensures BoundAt(s, i).Some? && j <= BoundAt(s, i).value
  {
    var t := s[i..j];
    var sign := if i < |s| && s[i] == '-' then 1 else 0;
    var a := if |t| > 0 && t[0] == '-' then 1 else 0;
    var b := if |t| > 0 && IsUpper(t[|t| - 1]) then |t| - 1 else |t|;
    assert t[0] == s[i];
    assert a == sign;
    forall k | i + sign <= k < i + b ensures IsDigit(s[k]) {
      assert s[k] == t[k - i];
    }
    DigitsFromAtLeast(s, i + sign, b - sign);
    if b == |t| - 1 {
      assert IsUpper(s[j - 1]);
    }
  }

  // ---------------------------------------------------------------------
  // A range at a position

  /** The regular expression matches at position `p` of `s` with the start
      bound `s[p..i]` and the end bound `s[i + 1..j]`. */
  predicate RangeMatchesAt(s: string, p: nat, i: nat, j: nat) {
    p < i < j <= |s| && IsBound(s[p..i]) && s[i] == '-' && IsBound(s[i + 1..j])
  }

  /** The greedy match at position `p`: the position of the hyphen and the
      end of the match. */
  function RangeAt(s: string, p: nat): (r: Option<(nat, nat)>)
    requires p <= |s|
    ensures r.Some? ==> p < r.value.0 && r.value.0 + 1 < r.value.1 <= |s|
  {
    match BoundAt(s, p)
    case None => None
    case Some(n) =>
      if n < |s| && s[n] == '-' then
        match BoundAt(s, n + 1)
        case None => None
        case Some(e) => Some((n, e))
      else None
  }

  /** What RangeAt reports is a match. */
  lemma RangeAtSound(s: string, p: nat)
    requires p <= |s| && RangeAt(s, p).Some?
    ensures RangeMatchesAt(s, p, RangeAt(s, p).value.0, RangeAt(s, p).value.1)
  {
    var n := BoundAt(s, p).value;
    BoundAtFound(s, p);
    BoundAtFound(s, n + 1);
  }

  /** Every match at `p` has RangeAt's hyphen and ends no later. */
  lemma RangeAtForced(s: string, p: nat, i: nat, j: nat)
    requires RangeMatchesAt(s, p, i, j)
    ensures RangeAt(s, p).Some?
    ensures i == RangeAt(s, p).value.0 && j <= RangeAt(s, p).value.1
  {
    BoundAtLongest(s, p, i);
    var n := BoundAt(s, p).value;
    assert i == n by {
      BoundAtFound(s, p);
    }
    BoundAtLongest(s, n + 1, j);
  }

  /** RangeAt agrees with the regular expression at position `p`: it
      succeeds exactly when some match starts there, the hyphen it reports
      is the only one possible, and its end is the furthest possible (the
      one greedy backtracking yields). */
  lemma RangeAtIsRegexMatch(s: string, p: nat)
    requires p <= |s|
    ensures RangeAt(s, p).Some? <==> exists i: nat, j: nat :: RangeMatchesAt(s, p, i, j)
    ensures RangeAt(s, p).Some? ==>
              var m := RangeAt(s, p).value;
              && RangeMatchesAt(s, p, m.0, m.1)
              && forall i: nat, j: nat :: RangeMatchesAt(s, p, i, j) ==> i == m.0 && j <= m.1
  {
    forall i: nat, j: nat | RangeMatchesAt(s, p, i, j)
      ensures RangeAt(s, p).Some?
      ensures i == RangeAt(s, p).value.0 && j <= RangeAt(s, p).value.1
    {
      RangeAtForced(s, p, i, j);
    }
    if RangeAt(s, p).Some? {
      RangeAtSound(s, p);
    }
  }

  // ---------------------------------------------------------------------
  // ptn.match(r)

  /** The regular expression matches at the start of `r` with the start
      bound `r[..i]` and the end bound `r[i + 1..j]`. */
  predicate MatchesAt(r: string, i: nat, j: nat) {
    i < j <= |r| && IsBound(r[..i]) && r[i] == '-' && IsBound(r[i + 1..j])
  }

  lemma MatchesAtFromStart(r: string, i: nat, j: nat)
    ensures MatchesAt(r, i, j) <==> RangeMatchesAt(r, 0, i, j)
  {
    if i <= |r| {
      assert r[0..i] == r[..i];
    }
  }

  /** Python's `ptn.match(r)`: the start and end groups of the match at the
      beginning of `r`, or None.  Text after the match is not looked at. */
  function MatchRange(r: string): Option<(string, string)> {
    match RangeAt(r, 0)
    case None => None
    case Some(m) => Some((r[..m.0], r[m.0 + 1..m.1]))
  }

  /** The length of the text a successful match consumes. */
  function MatchLength(m: (string, string)): nat {
    |m.0| + 1 + |m.1|
  }

  /** What MatchRange reports is a match of the regular expression. */
  lemma MatchRangeSound(r: string)
    requires MatchRange(r).Some?
    ensures MatchesAt(r, |MatchRange(r).value.0|, MatchLength(MatchRange(r).value))
  {
    var m := RangeAt(r, 0).value;
    RangeAtSound(r, 0);
    MatchesAtFromStart(r, m.0, m.1);
  }

  /** Both groups of a match are bounds. */
  lemma MatchRangeBounds(r: string)
    requires MatchRange(r).Some?
    ensures IsBound(MatchRange(r).value.0) && IsBound(MatchRange(r).value.1)
  {
    var m := RangeAt(r, 0).value;
    RangeAtSound(r, 0);
    assert r[0..m.0] == r[..m.0];
  }

  /** The text a match consumes is the start group, a hyphen and the end
      group; whatever follows it is not part of the match. */
  lemma MatchRangePrefix(r: string)
    requires MatchRange(r).Some?
    ensures MatchLength(MatchRange(r).value) <= |r|
    ensures r[..MatchLength(MatchRange(r).value)] == MatchRange(r).value.0 + "-" + MatchRange(r).value.1
  {
    var m := RangeAt(r, 0).value;
    RangeAtSound(r, 0);
    assert r[..m.1] == r[..m.0] + "-" + r[m.0 + 1..m.1];
  }

  /** MatchRange agrees with the regular expression: it succeeds exactly
      when some split of a prefix of `r` matches, the start group it reports
      is the only one possible, and the end group is the longest possible
      (the one greedy backtracking yields). */
  lemma MatchRangeIsRegexMatch(r: string)
    ensures MatchRange(r).Some? <==> exists i: nat, j: nat :: MatchesAt(r, i, j)
    ensures MatchRange(r).Some? ==>
              var m := MatchRange(r).value;
              && MatchesAt(r, |m.0|, MatchLength(m))
              && r[..MatchLength(m)] == m.0 + "-" + m.1
              && forall i: nat, j: nat :: MatchesAt(r, i, j) ==> i == |m.0| && j <= MatchLength(m)
  {
    forall i: nat, j: nat | MatchesAt(r, i, j)
      ensures MatchRange(r).Some?
      ensures i == |MatchRange(r).value.0| && j <= MatchLength(MatchRange(r).value)
    {
      MatchesAtFromStart(r, i, j);
      RangeAtForced(r, 0, i, j);
    }
    if MatchRange(r).Some? {
      MatchRangeSound(r);
      MatchRangePrefix(r);
    }
  }

  /** A match whose end is as far as any match reaches fixes MatchRange's
      groups. */
  lemma MatchRangeDetermined(r: string, i: nat, j: nat)
    requires MatchesAt(r, i, j)
    requires forall i': nat, j': nat :: MatchesAt(r, i', j') ==> j' <= j
    ensures MatchRange(r) == Some((r[..i], r[i + 1..j]))
  {
    MatchesAtFromStart(r, i, j);
    RangeAtForced(r, 0, i, j);
    var m := RangeAt(r, 0).value;
    RangeAtSound(r, 0);
    MatchesAtFromStart(r, m.0, m.1);
    assert m.1 <= j;
  }

  /** Round trip: a token written as two bounds around a hyphen matches
      with exactly those bounds as groups. */
  lemma MatchRangeOfBounds(lo: string, hi: string)
    requires IsBound(lo) && IsBound(hi)
    ensures MatchRange(lo + "-" + hi) == Some((lo, hi))
  {
    var r := lo + "-" + hi;
    assert r[..|lo|] == lo && r[|lo| + 1..|r|] == hi;
    assert MatchesAt(r, |lo|, |r|);
    MatchRangeDetermined(r, |lo|, |r|);
  }

  /** Text after the match does not change the groups: matching only the
      consumed prefix gives the same result. */
  lemma MatchRangeIgnoresTail(r: string)
    requires MatchRange(r).Some?
    ensures MatchLength(MatchRange(r).value) <= |r|
    ensures MatchRange(r[..MatchLength(MatchRange(r).value)]) == MatchRange(r)
  {
    var m := MatchRange(r).value;
    MatchRangeBounds(r);
    MatchRangePrefix(r);
    MatchRangeOfBounds(m.0, m.1);
  }
}
