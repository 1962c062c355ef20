/** The Python 2 string built-ins the scripts rely on (`str.split`,
    `str.join`, `str.strip`, `str.split()` on whitespace, tuple unpacking of
    a split) and the order-preserving de-duplication idiom
    `if x not in l: l.append(x)`, as functions with the facts the model
    needs about them. */
module Text {
  import opened Wrappers

  /** Python 2 whitespace for byte strings: tab, line feed, vertical tab,
      form feed, carriage return (codes 9 to 13) and space. */
  predicate IsWhitespace(c: char) {
    c == ' ' || ('\t' <= c <= '\r')
  }

  predicate AllWhitespace(s: string) {
    forall k :: 0 <= k < |s| ==> IsWhitespace(s[k])
  }

  predicate StartsWithMinus(s: string) {
    |s| > 0 && s[0] == '-'
  }

  // ---------------------------------------------------------------------
  // s.split(sep) and sep.join(parts)

  /** `s.split(sep)` for a one-character separator: the pieces between
      occurrences of `sep`, empty pieces included. */
  function Split(s: string, sep: char): (parts: seq<string>)
    ensures |parts| >= 1
  {
    if s == [] then [[]]
    else
      var rest := Split(s[1..], sep);
      if s[0] == sep then [[]] + rest
      else [[s[0]] + rest[0]] + rest[1..]
  }

  /** No piece of a split holds the separator. */
  lemma {:induction false} SplitPiecesLackSeparator(s: string, sep: char)
    ensures forall k :: 0 <= k < |Split(s, sep)| ==> sep !in Split(s, sep)[k]
  {
    if s != [] {
      SplitPiecesLackSeparator(s[1..], sep);
    }
  }

  /** `sep.join(parts)`. */
  function Join(parts: seq<string>, sep: string): string {
    if |parts| == 0 then []
    else if |parts| == 1 then parts[0]
    else parts[0] + sep + Join(parts[1..], sep)
  }

  /** Joining the pieces of a split with the separator gives back the string. */
  lemma {:induction false} JoinSplit(s: string, sep: char)
    ensures Join(Split(s, sep), [sep]) == s
  {
    if s != [] {
      var rest := Split(s[1..], sep);
      JoinSplit(s[1..], sep);
      if s[0] == sep {
        assert Split(s, sep) == [[]] + rest;
        assert Join([[]] + rest, [sep]) == [] + [sep] + Join(rest, [sep]);
      } else {
        var parts := [[s[0]] + rest[0]] + rest[1..];
        assert Split(s, sep) == parts;
        if |rest| == 1 {
          assert Join(parts, [sep]) == [s[0]] + rest[0];
        } else {
          assert parts[1..] == rest[1..];
          assert Join(rest, [sep]) == rest[0] + [sep] + Join(rest[1..], [sep]);
          assert Join(parts, [sep]) == [s[0]] + rest[0] + [sep] + Join(rest[1..], [sep]);
        }
        assert s == [s[0]] + s[1..];
      }
    }
  }

  lemma {:induction false} SplitNoSeparator(s: string, sep: char)
    requires sep !in s
    ensures Split(s, sep) == [s]
  {
    if s != [] {
      SplitNoSeparator(s[1..], sep);
      assert s == [s[0]] + s[1..];
    }
  }

  lemma {:induction false} SplitAtSeparator(x: string, sep: char, y: string)
    requires sep !in x
    ensures Split(x + [sep] + y, sep) == [x] + Split(y, sep)
  {
    if x == [] {
      assert x + [sep] + y == [sep] + y;
      assert ([sep] + y)[1..] == y;
    } else {
      assert (x + [sep] + y)[1..] == x[1..] + [sep] + y;
      SplitAtSeparator(x[1..], sep, y);
      assert x == [x[0]] + x[1..];
    }
  }

  /** Splitting a join of separator-free pieces gives back the pieces. */
  lemma {:induction false} SplitJoin(parts: seq<string>, sep: char)
    requires |parts| >= 1
    requires forall k :: 0 <= k < |parts| ==> sep !in parts[k]
    ensures Split(Join(parts, [sep]), sep) == parts
  {
    if |parts| == 1 {
      SplitNoSeparator(parts[0], sep);
    } else {
      SplitJoin(parts[1..], sep);
      SplitAtSeparator(parts[0], sep, Join(parts[1..], [sep]));
      assert parts == [parts[0]] + parts[1..];
    }
  }

  /** A split yields one piece more than there are separators. */
  lemma {:induction false} SplitCount(s: string, sep: char)
    ensures |Split(s, sep)| == multiset(s)[sep] + 1
  {
    if s != [] {
      SplitCount(s[1..], sep);
      assert s == [s[0]] + s[1..];
      assert multiset(s) == multiset{s[0]} + multiset(s[1..]);
    }
  }

  /** sep.join(a + b) puts one separator between the two joins. */
  lemma {:induction false} JoinAppend(a: seq<string>, b: seq<string>, sep: string)
    requires |a| >= 1 && |b| >= 1
    ensures Join(a + b, sep) == Join(a, sep) + sep + Join(b, sep)
  {
    if |a| > 1 {
      JoinAppend(a[1..], b, sep);
      assert (a + b)[1..] == a[1..] + b;
    } else {
      assert (a + b)[1..] == b;
    }
  }

  /** `first, second = token.split(sep)` succeeds: the split has exactly two
      pieces. */
  predicate IsPair(token: string, sep: char) {
    |Split(token, sep)| == 2
  }

  /** A token unpacks exactly when the separator occurs in it once. */
  lemma IsPairCount(token: string, sep: char)
    ensures IsPair(token, sep) <==> multiset(token)[sep] == 1
  {
    SplitCount(token, sep);
  }

  /** `first, second = token.split(sep)`: unpacking succeeds exactly when the
      separator occurs once, and then gives the text before and after it;
      otherwise it raises. */
  function SplitPair(token: string, sep: char): (r: Result<(string, string), PyException>)
    ensures r.Success? <==> IsPair(token, sep)
    ensures r.Success? <==> multiset(token)[sep] == 1
    ensures r.Success? ==> r.value.0 + [sep] + r.value.1 == token && sep !in r.value.0 && sep !in r.value.1
    ensures r.Failure? ==> r.error == UnpackError(token)
  {
    var parts := Split(token, sep);
    IsPairCount(token, sep);
    JoinSplit(token, sep);
    SplitPiecesLackSeparator(token, sep);
    if |parts| == 2 then
      assert Join(parts, [sep]) == parts[0] + [sep] + parts[1];
      Success((parts[0], parts[1]))
    else Failure(UnpackError(token))
  }

  /** Unpacks every token in turn, as a loop over the tokens would, stopping
      at the first token that does not unpack. */
  function ParsePairs(tokens: seq<string>, sep: char): (r: Result<seq<(string, string)>, PyException>)
    ensures r.Success? ==> |r.value| == |tokens|
  {
    if tokens == [] then Success([])
    else
      var init := tokens[..|tokens| - 1];
      var front := ParsePairs(init, sep);
      var p := SplitPair(tokens[|tokens| - 1], sep);
      if front.Failure? then front
      else if p.Failure? then Failure(p.error)
      else Success(front.value + [p.value])
  }

  /** A successful unpack holds, at each position, the unpacking of the
      token there: the text before and after its one separator. */
  lemma {:induction false} ParsePairsAt(tokens: seq<string>, sep: char, k: nat)
    requires ParsePairs(tokens, sep).Success? && k < |tokens|
    ensures IsPair(tokens[k], sep)
    ensures ParsePairs(tokens, sep).value[k] == SplitPair(tokens[k], sep).value
    ensures var p := ParsePairs(tokens, sep).value[k];
            tokens[k] == p.0 + [sep] + p.1 && sep !in p.0 && sep !in p.1
  {
    var init := tokens[..|tokens| - 1];
    if k < |init| {
      assert init[k] == tokens[k];
      ParsePairsAt(init, sep, k);
    } else {
    }
  }

  /** Unpacking succeeds exactly when every token holds the separator
      exactly once. */
  lemma {:induction false} ParsePairsSuccess(tokens: seq<string>, sep: char)
    ensures ParsePairs(tokens, sep).Success? <==> forall k :: 0 <= k < |tokens| ==> IsPair(tokens[k], sep)
  {
    if ParsePairs(tokens, sep).Success? {
      forall k | 0 <= k < |tokens| ensures IsPair(tokens[k], sep) {
        ParsePairsAt(tokens, sep, k);
      }
    } else {
      ParsePairsFirstFailure(tokens, sep);
    }
  }

  /** A failing unpack reports the first token that does not unpack. */
  lemma {:induction false} ParsePairsFirstFailure(tokens: seq<string>, sep: char)
    requires ParsePairs(tokens, sep).Failure?
    ensures exists k :: 0 <= k < |tokens| && !IsPair(tokens[k], sep)
                        && (forall j :: 0 <= j < k ==> IsPair(tokens[j], sep))
                        && ParsePairs(tokens, sep).error == UnpackError(tokens[k])
  {
    var init := tokens[..|tokens| - 1];
    var last := tokens[|tokens| - 1];
    if ParsePairs(init, sep).Failure? {
      ParsePairsFirstFailure(init, sep);
      var k :| 0 <= k < |init| && !IsPair(init[k], sep)
               && (forall j :: 0 <= j < k ==> IsPair(init[j], sep))
               && ParsePairs(init, sep).error == UnpackError(init[k]);
      assert forall j :: 0 <= j <= k ==> init[j] == tokens[j];
    } else {
      forall j | 0 <= j < |init| ensures IsPair(tokens[j], sep) {
        assert init[j] == tokens[j];
        ParsePairsAt(init, sep, j);
      }
      assert ParsePairs(tokens, sep).error == UnpackError(last);
    }
  }

  /** Once a prefix fails to unpack, every longer prefix fails the same way. */
  lemma {:induction false} ParsePairsFailureExtends(tokens: seq<string>, sep: char, i: nat)
    requires i <= |tokens|
    requires ParsePairs(tokens[..i], sep).Failure?
    ensures ParsePairs(tokens, sep) == ParsePairs(tokens[..i], sep)
    decreases |tokens| - i
  {
    if i < |tokens| {
      assert tokens[..i + 1][..i] == tokens[..i];
      ParsePairsFailureExtends(tokens, sep, i + 1);
    } else {
      assert tokens[..i] == tokens;
    }
  }

  /** A successful prefix followed by a token that does not unpack: the
      whole sequence raises on that token. */
  lemma ParsePairsRaises(tokens: seq<string>, sep: char, i: nat, ps: seq<(string, string)>)
    requires i < |tokens|
    requires ParsePairs(tokens[..i], sep) == Success(ps)
    requires SplitPair(tokens[i], sep).Failure?
    ensures ParsePairs(tokens, sep) == Failure(UnpackError(tokens[i]))
  {
    assert tokens[..i + 1][..i] == tokens[..i];
    ParsePairsFailureExtends(tokens, sep, i + 1);
  }

  /** Extending a successful prefix by one token that unpacks. */
  lemma ParsePairsStep(tokens: seq<string>, sep: char, i: nat, ps: seq<(string, string)>)
    requires i < |tokens|
    requires ParsePairs(tokens[..i], sep) == Success(ps)
    requires SplitPair(tokens[i], sep).Success?
    ensures ParsePairs(tokens[..i + 1], sep) == Success(ps + [SplitPair(tokens[i], sep).value])
  {
    assert tokens[..i + 1][..i] == tokens[..i];
  }

  // ---------------------------------------------------------------------
  // strip() and split() on whitespace

  /** `s.lstrip()`. */
  function TrimLeft(s: string): (r: string)
    ensures |r| <= |s|
    ensures r != [] ==> !IsWhitespace(r[0])
  {
    if s != [] && IsWhitespace(s[0]) then TrimLeft(s[1..]) else s
  }

  /** `lstrip()` removes a run of whitespace from the front and nothing
      else. */
  lemma {:induction false} TrimLeftSuffix(s: string)
    ensures var r := TrimLeft(s);
            r == s[|s| - |r|..] && AllWhitespace(s[..|s| - |r|])
  {
    if s != [] && IsWhitespace(s[0]) {
      TrimLeftSuffix(s[1..]);
      var r := TrimLeft(s);
      assert s[1..][|s| - 1 - |r|..] == s[|s| - |r|..];
      assert forall k :: 1 <= k < |s| - |r| ==> s[k] == s[1..][..|s| - 1 - |r|][k - 1];
    }
  }

  /** `s.rstrip()`. */
  function TrimRight(s: string): (r: string)
    ensures |r| <= |s|
    ensures r != [] ==> !IsWhitespace(r[|r| - 1])
  {
    if s != [] && IsWhitespace(s[|s| - 1]) then TrimRight(s[..|s| - 1]) else s
  }

  /** `rstrip()` removes a run of whitespace from the back and nothing
      else. */
  lemma {:induction false} TrimRightPrefix(s: string)
    ensures var r := TrimRight(s);
            r == s[..|r|] && AllWhitespace(s[|r|..])
  {
    if s != [] && IsWhitespace(s[|s| - 1]) {
      var init := s[..|s| - 1];
      TrimRightPrefix(init);
      var r := TrimRight(s);
      assert init[..|r|] == s[..|r|];
      assert forall k :: |r| <= k < |s| - 1 ==> s[k] == init[|r|..][k - |r|];
    }
  }

  /** `s.strip()`: `s` without the whitespace at both ends. */
  function Strip(s: string): (r: string)
    ensures |r| <= |s|
  {
    TrimRight(TrimLeft(s))
  }

  /** What `strip()` leaves is a slice of `s` with only whitespace on
      either side of it, and neither starts nor ends with whitespace. */
  lemma StripIsSlice(s: string)
    ensures exists i, j :: 0 <= i <= j <= |s| && Strip(s) == s[i..j]
                           && AllWhitespace(s[..i]) && AllWhitespace(s[j..])
    ensures Strip(s) != [] ==> !IsWhitespace(Strip(s)[0]) && !IsWhitespace(Strip(s)[|Strip(s)| - 1])
  {
    var t := TrimLeft(s);
    var r := TrimRight(t);
    TrimLeftSuffix(s);
    TrimRightPrefix(t);
    var i := |s| - |t|;
    assert r == s[i..i + |r|];
    assert s[i + |r|..] == t[|r|..];
  }

  /** The length of the run of non-whitespace characters that starts `s`. */
  function WordLength(s: string): (n: nat)
    ensures n <= |s|
    ensures forall k :: 0 <= k < n ==> !IsWhitespace(s[k])
    ensures n < |s| ==> IsWhitespace(s[n])
  {
    if s == [] || IsWhitespace(s[0]) then 0 else 1 + WordLength(s[1..])
  }

  /** A non-empty run of non-whitespace characters. */
  predicate IsWord(w: string) {
    w != [] && forall k :: 0 <= k < |w| ==> !IsWhitespace(w[k])
  }

  /** `s.split()`: the maximal runs of non-whitespace characters, in order. */
  function SplitWhitespace(s: string): (words: seq<string>)
    ensures forall k :: 0 <= k < |words| ==> IsWord(words[k])
    decreases |s|
  {
    var t := TrimLeft(s);
    if t == [] then []
    else
      var n := WordLength(t);
      [t[..n]] + SplitWhitespace(t[n..])
  }

  /** The characters of `s` that are not whitespace, in order. */
  function NonWhitespace(s: string): string {
    if s == [] then []
    else (if IsWhitespace(s[0]) then [] else [s[0]]) + NonWhitespace(s[1..])
  }

  function Concat(words: seq<string>): string {
    if words == [] then [] else words[0] + Concat(words[1..])
  }

  lemma {:induction false} NonWhitespaceAppend(a: string, b: string)
    ensures NonWhitespace(a + b) == NonWhitespace(a) + NonWhitespace(b)
  {
    if a != [] {
      assert (a + b)[1..] == a[1..] + b;
      NonWhitespaceAppend(a[1..], b);
    } else {
      assert a + b == b;
    }
  }

  lemma {:induction false} NonWhitespaceOfWhitespace(s: string)
    requires AllWhitespace(s)
    ensures NonWhitespace(s) == []
  {
    if s != [] {
      NonWhitespaceOfWhitespace(s[1..]);
    }
  }

  lemma {:induction false} NonWhitespaceOfWord(s: string)
    requires forall k :: 0 <= k < |s| ==> !IsWhitespace(s[k])
    ensures NonWhitespace(s) == s
  {
    if s != [] {
      NonWhitespaceOfWord(s[1..]);
      assert s == [s[0]] + s[1..];
    }
  }

  /** Whitespace in front of `s` contributes no characters. */
  lemma NonWhitespaceOfTrimLeft(s: string)
    ensures NonWhitespace(s) == NonWhitespace(TrimLeft(s))
  {
    var t := TrimLeft(s);
    TrimLeftSuffix(s);
    var lead := s[..|s| - |t|];
    assert s == lead + t;
    NonWhitespaceAppend(lead, t);
    NonWhitespaceOfWhitespace(lead);
  }

  /** The first word of `t` followed by the rest of it. */
  lemma NonWhitespaceOfFirstWord(t: string)
    ensures NonWhitespace(t) == t[..WordLength(t)] + NonWhitespace(t[WordLength(t)..])
  {
    var n := WordLength(t);
    assert t == t[..n] + t[n..];
    NonWhitespaceAppend(t[..n], t[n..]);
    NonWhitespaceOfWord(t[..n]);
  }

  /** `s.split()` loses exactly the whitespace of `s`: the words laid end to
      end are the non-whitespace characters of `s`. */
  lemma {:induction false} SplitWhitespaceKeepsText(s: string)
    ensures Concat(SplitWhitespace(s)) == NonWhitespace(s)
    decreases |s|
  {
    NonWhitespaceOfTrimLeft(s);
    var t := TrimLeft(s);
    if t != [] {
      var n := WordLength(t);
      NonWhitespaceOfFirstWord(t);
      SplitWhitespaceKeepsText(t[n..]);
      var words := SplitWhitespace(s);
      assert words == [t[..n]] + SplitWhitespace(t[n..]);
      assert words[1..] == SplitWhitespace(t[n..]);
    }
  }

  /** The whitespace around the words of `s.split()`: the run before the
      first word, the runs between words and the run after the last. */
  function Gaps(s: string): (gs: seq<string>)
    ensures |gs| >= 1
    decreases |s|
  {
    var t := TrimLeft(s);
    var lead := s[..|s| - |t|];
    if t == [] then [lead]
    else
      var n := WordLength(t);
      [lead] + Gaps(t[n..])
  }

  /** `gaps[0] + words[0] + gaps[1] + ... + words[n - 1] + gaps[n]`. */
  function Weave(gaps: seq<string>, words: seq<string>): string
    requires |gaps| == |words| + 1
  {
    if words == [] then gaps[0] else gaps[0] + words[0] + Weave(gaps[1..], words[1..])
  }

  /** Whitespace only, with something in it (the run between two words). */
  predicate IsSeparatingGap(g: string) {
    g != [] && AllWhitespace(g)
  }

  /** The leading whitespace `lstrip()` removes from a string that starts
      with whitespace is not empty. */
  lemma TrimLeftOfWhitespaceLead(s: string)
    requires s != [] && IsWhitespace(s[0])
    ensures |TrimLeft(s)| < |s|
  {
  }

  /** `s.split()` cuts `s` into maximal runs: `s` is the words woven with
      whitespace-only gaps, and the gaps between two words are not empty, so
      no word could be extended into its neighbours. */
  lemma SplitWhitespaceLayout(s: string)
    ensures var ws := SplitWhitespace(s);
            var gs := Gaps(s);
            && |gs| == |ws| + 1
            && Weave(gs, ws) == s
            && AllWhitespace(gs[0]) && AllWhitespace(gs[|gs| - 1])
            && forall k :: 0 < k < |gs| - 1 ==> IsSeparatingGap(gs[k])
  {
    GapsCount(s);
    GapsWeave(s);
    GapsWhitespace(s);
  }

  /** One word and the whitespace in front of it. */
  lemma GapsStep(s: string)
    requires TrimLeft(s) != []
    ensures var t := TrimLeft(s);
            var n := WordLength(t);
            var lead := s[..|s| - |t|];
            && Gaps(s) == [lead] + Gaps(t[n..])
            && SplitWhitespace(s) == [t[..n]] + SplitWhitespace(t[n..])
            && s == lead + t[..n] + t[n..]
            && AllWhitespace(lead)
            && |t[n..]| < |s|
  {
    GapsLayoutStep(s);
  }

  /** The lead gap, the first word and the rest make up `s`. */
  lemma GapsLayoutStep(s: string)
    requires TrimLeft(s) != []
    ensures var t := TrimLeft(s);
            var n := WordLength(t);
            var lead := s[..|s| - |t|];
            && s == lead + t[..n] + t[n..]
            && AllWhitespace(lead)
            && |t[n..]| < |s|
  {
    var t := TrimLeft(s);
    var n := WordLength(t);
    var lead := s[..|s| - |t|];
    assert s == lead + t && AllWhitespace(lead) by {
      TrimLeftSuffix(s);
    }
    assert t == t[..n] + t[n..];
  }

  lemma {:induction false} GapsCount(s: string)
    ensures |Gaps(s)| == |SplitWhitespace(s)| + 1
    decreases |s|
  {
    var t := TrimLeft(s);
    if t != [] {
      GapsStep(s);
      GapsCount(t[WordLength(t)..]);
    }
  }

  lemma {:induction false} GapsWeave(s: string)
    ensures |Gaps(s)| == |SplitWhitespace(s)| + 1
    ensures Weave(Gaps(s), SplitWhitespace(s)) == s
    decreases |s|
  {
    GapsCount(s);
    var t := TrimLeft(s);
    if t != [] {
      var n := WordLength(t);
      var rest := t[n..];
      GapsStep(s);
      GapsWeave(rest);
      var ws, gs := SplitWhitespace(s), Gaps(s);
      assert ws[1..] == SplitWhitespace(rest) && gs[1..] == Gaps(rest);
    } else {
      TrimLeftSuffix(s);
    }
  }

  /** Every gap is whitespace only; every gap but the first and the last
      is non-empty. */
  lemma {:induction false} GapsWhitespace(s: string)
    ensures forall k :: 0 <= k < |Gaps(s)| ==> AllWhitespace(Gaps(s)[k])
    ensures forall k :: 0 < k < |Gaps(s)| - 1 ==> Gaps(s)[k] != []
    decreases |s|
  {
    var t := TrimLeft(s);
    TrimLeftSuffix(s);
    if t != [] {
      var n := WordLength(t);
      var rest := t[n..];
      GapsStep(s);
      GapsWhitespace(rest);
      if rest != [] {
        TrimLeftOfWhitespaceLead(rest);
      }
      var gs := Gaps(s);
      forall k | 0 < k < |gs| ensures gs[k] == Gaps(rest)[k - 1] {
      }
    }
  }

  // ---------------------------------------------------------------------
  // [f(x) for x in xs]

  /** `f` applied to every element, in order. */
  function Map<A, B>(f: A -> B, xs: seq<A>): (ys: seq<B>)
    ensures |ys| == |xs|
  {
    if xs == [] then [] else Map(f, xs[..|xs| - 1]) + [f(xs[|xs| - 1])]
  }

  lemma {:induction false} MapAt<A, B>(f: A -> B, xs: seq<A>)
    ensures forall k :: 0 <= k < |xs| ==> Map(f, xs)[k] == f(xs[k])
  {
    if xs != [] {
      var init := xs[..|xs| - 1];
      MapAt(f, init);
      forall k | 0 <= k < |xs| ensures Map(f, xs)[k] == f(xs[k]) {
        if k < |init| {
          assert init[k] == xs[k];
        }
      }
    }
  }

  lemma MapSnoc<A, B>(f: A -> B, xs: seq<A>, x: A)
    ensures Map(f, xs + [x]) == Map(f, xs) + [f(x)]
  {
    assert (xs + [x])[..|xs|] == xs;
  }

  // ---------------------------------------------------------------------
  // `if x not in l: l.append(x)`

  /** The elements of `xs` with repeats removed, each kept where it first
      occurs. */
  function Dedup<T(==,!new)>(xs: seq<T>): (d: seq<T>)
    ensures |d| <= |xs|
  {
    if xs == [] then []
    else
      var d := Dedup(xs[..|xs| - 1]);
      if xs[|xs| - 1] in d then d else d + [xs[|xs| - 1]]
  }

  /** De-duplicating a non-empty sequence leaves at least one element. */
  lemma DedupNonEmpty<T(!new)>(xs: seq<T>)
    requires |xs| >= 1
    ensures |Dedup(xs)| >= 1
  {
    DedupMembers(xs);
    assert xs[0] in Dedup(xs);
  }

  /** Appending one element keeps it only when it is new. */
  lemma DedupSnoc<T(!new)>(xs: seq<T>, x: T)
    ensures Dedup(xs + [x]) == if x in Dedup(xs) then Dedup(xs) else Dedup(xs) + [x]
  {
    assert (xs + [x])[..|xs|] == xs;
  }

  /** The position of the first occurrence of `x` in `xs`. */
  function FirstIndex<T(==)>(xs: seq<T>, x: T): (k: nat)
    requires x in xs
    ensures k < |xs| && xs[k] == x
    ensures forall j :: 0 <= j < k ==> xs[j] != x
  {
    if xs[0] == x then 0 else 1 + FirstIndex(xs[1..], x)
  }

  lemma FirstIndexOfPrefix<T>(xs: seq<T>, y: T, x: T)
    requires x in xs
    ensures FirstIndex(xs + [y], x) == FirstIndex(xs, x)
  {
    var k := FirstIndex(xs, x);
    var k' := FirstIndex(xs + [y], x);
    assert (xs + [y])[k] == x;
    assert k' <= k;
    assert xs[k'] == x;
  }

  /** De-duplication keeps every element and no element twice. */
  lemma {:induction false} DedupMembers<T(!new)>(xs: seq<T>)
    ensures forall x :: x in Dedup(xs) <==> x in xs
    ensures forall i, j :: 0 <= i < j < |Dedup(xs)| ==> Dedup(xs)[i] != Dedup(xs)[j]
  {
    if xs != [] {
      var init := xs[..|xs| - 1];
      DedupMembers(init);
      assert xs == init + [xs[|xs| - 1]];
    }
  }

  /** The de-duplicated sequence lists the elements in the order of their
      first occurrences. */
  lemma {:induction false} DedupFirstOccurrenceOrder<T(!new)>(xs: seq<T>)
    ensures forall i, j :: 0 <= i < j < |Dedup(xs)| ==>
              (Dedup(xs)[i] in xs && Dedup(xs)[j] in xs
               && FirstIndex(xs, Dedup(xs)[i]) < FirstIndex(xs, Dedup(xs)[j]))
  {
    DedupMembers(xs);
    if xs != [] {
      var init := xs[..|xs| - 1];
      var last := xs[|xs| - 1];
      assert xs == init + [last];
      DedupFirstOccurrenceOrder(init);
      DedupMembers(init);
      var d := Dedup(init);
      forall x | x in init
        ensures FirstIndex(xs, x) == FirstIndex(init, x) < |init|
      {
        FirstIndexOfPrefix(init, last, x);
      }
      if last !in d {
        assert last !in init;
        assert FirstIndex(xs, last) == |init|;
      }
    }
  }

  // ---------------------------------------------------------------------
  // Residue indexes in selections

  /** A residue index starting with a minus sign would read as a selection
      operator in a PyMOL selection, so both scripts escape it with a
      backslash. */
  function Escape(b: string): string {
    if StartsWithMinus(b) then "\\" + b else b
  }

  /** An escaped index never starts with a minus sign and ends with the
      index itself, after at most one added character. */
  lemma EscapeShape(b: string)
    ensures var e := Escape(b);
            && !StartsWithMinus(e)
            && |b| <= |e| <= |b| + 1 && e[|e| - |b|..] == b
  {
    if StartsWithMinus(b) {
      var e := "\\" + b;
      assert e[0] == '\\';
      assert e[1..] == b;
    }
  }

  /** How PyMOL reads an escaped index back. */
  function Unescape(e: string): string {
    if |e| >= 2 && e[0] == '\\' && e[1] == '-' then e[1..] else e
  }

  /** Escaping loses nothing for an index that does not itself start with a
      backslash, such as every bound of the range pattern. */
  lemma EscapeRoundTrip(b: string)
    requires |b| == 0 || b[0] != '\\'
    ensures Unescape(Escape(b)) == b
    ensures Escape(b) != b <==> StartsWithMinus(b)
  {
    if StartsWithMinus(b) {
      var e := "\\" + b;
      assert e[0] == '\\' && e[1] == '-';
      assert e[1..] == b;
    }
  }
}
