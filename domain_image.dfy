/** The string and decision logic of the ECOD domain-image script
    (domain_imgae.py): translating a domain range such as `A:12-80,B:-3-40`
    into a PyMOL selection, splitting the optional arguments into a ligand
    annotation and assembly partner ranges, sorting ligands into spheres and
    sticks, choosing cartoon or ribbon for each of the three images, and
    building the zoom and assembly selections.

    Renderer queries are parameters: the residue name PyMOL's `iterate`
    stores for a ligand selection is the oracle `resn`, and atom counts are
    plain numbers. */
module DomainImage {
  import opened Wrappers
  import opened Text
  import opened RangePattern

  /** HET ligands made of a single atom; these are shown as spheres. The
      names are in alphabetical order, in three parts so that membership
      stays cheap to decide. */
  const AtomicLigands: set<string> := AtomicFirst + AtomicMiddle + AtomicLast

  const AtomicFirst: set<string> := {
    "3CO", "3NI", "4MO", "6MO", "AG", "AL", "AR", "ARS",
    "AU", "AU3", "BA", "BR", "BRO", "BS3", "CA", "CD",
    "CE", "CL", "CLO", "CO", "CR", "CS", "CU", "CU1",
    "CU3", "D8U", "DUM", "DY", "ER3", "EU", "EU3", "F"
  }

  const AtomicMiddle: set<string> := {
    "FE", "FE2", "FLO", "GA", "GD", "GD3", "H", "HG",
    "HO", "HO3", "IDO", "IN", "IOD", "IR", "IR3", "K",
    "KR", "LA", "LI", "LU", "MG", "MN", "MN3", "MO",
    "NA", "NGN", "NI", "O", "OS", "OS4", "OX", "OXO"
  }

  const AtomicLast: set<string> := {
    "PB", "PD", "PR", "PT", "PT4", "QTR", "RB", "RE",
    "RH", "RH3", "RU", "S", "SB", "SE", "SM", "SR",
    "TA0", "TB", "TE", "TL", "U1", "UNX", "V", "W",
    "XE", "Y1", "YB", "YB2", "YT3", "ZN", "ZN2"
  }

  /** The selection clause for chain `c` and residue text `r`. */
  function Clause(c: string, r: string): string {
    "c. " + c + " & i. " + r
  }

  /** The residue text of a range: the two matched bounds, escaped, around a
      hyphen, or the raw text when the pattern does not match. */
  function RangeText(r: string): string {
    match MatchRange(r)
    case None => r
    case Some(m) => Escape(m.0) + "-" + Escape(m.1)
  }

  /** A range that matches is rebuilt from its bounds: each is read back
      unchanged, neither starts with a minus sign, and any text after the
      match is dropped. */
  lemma RangeTextOfMatch(r: string)
    requires MatchRange(r).Some?
    ensures var m := MatchRange(r).value;
            && MatchLength(m) <= |r|
            && RangeText(r) == RangeText(r[..MatchLength(m)])
            && exists lo, hi :: RangeText(r) == lo + "-" + hi
                 && Unescape(lo) == m.0 && Unescape(hi) == m.1
                 && !StartsWithMinus(lo) && !StartsWithMinus(hi)
  {
    var m := MatchRange(r).value;
    MatchRangeIgnoresTail(r);
    MatchRangeBounds(r);
    EscapeRoundTrip(m.0);
    EscapeRoundTrip(m.1);
    EscapeShape(m.0);
    EscapeShape(m.1);
    var lo, hi := Escape(m.0), Escape(m.1);
    assert RangeText(r) == lo + "-" + hi;
  }

  /** A range that does not match is kept as written. */
  lemma RangeTextOfMalformed(r: string)
    requires MatchRange(r).None?
    ensures RangeText(r) == r
  {
  }

  /** Round trip: a well-formed range `lo-hi` yields exactly its escaped
      bounds. */
  lemma RangeTextOfBounds(lo: string, hi: string)
    requires IsBound(lo) && IsBound(hi)
    ensures RangeText(lo + "-" + hi) == Escape(lo) + "-" + Escape(hi)
  {
    MatchRangeOfBounds(lo, hi);
  }

  // ---------------------------------------------------------------------
  // range2sele

  /** What `range2sele` returns, with the warnings it prints: the joined
      selection, the chain IDs, and each token whose range did not match. */
  datatype RangeSele = RangeSele(sele: string, chains: seq<string>, warnings: seq<string>)

  /** The clause of one token split into its chain and range parts. */
  function TokenClause(p: (string, string)): string {
    Clause(p.0, RangeText(p.1))
  }

  /** The clause of every token, in order. */
  function Clauses(pairs: seq<(string, string)>): seq<string> {
    Map(TokenClause, pairs)
  }

  /** The chain ID of one token: its chain part, stripped. */
  function ChainOf(p: (string, string)): string {
    Strip(p.0)
  }

  /** The chain ID of every token, in order. */
  function ChainIds(pairs: seq<(string, string)>): seq<string> {
    Map(ChainOf, pairs)
  }

  /** The tokens, written back as `chain:range`, whose range does not match. */
  function Malformed(pairs: seq<(string, string)>): (w: seq<string>)
    ensures |w| <= |pairs|
  {
    if pairs == [] then []
    else
      var init := pairs[..|pairs| - 1];
      var last := pairs[|pairs| - 1];
      Malformed(init) + (if MatchRange(last.1).None? then [last.0 + ":" + last.1] else [])
  }

  lemma {:induction false} MalformedMembers(pairs: seq<(string, string)>)
    ensures forall t :: t in Malformed(pairs) <==>
              exists k :: 0 <= k < |pairs| && t == pairs[k].0 + ":" + pairs[k].1
                          && MatchRange(pairs[k].1).None?
  {
    if pairs != [] {
      var init := pairs[..|pairs| - 1];
      MalformedMembers(init);
      assert forall k :: 0 <= k < |init| ==> init[k] == pairs[k];
    }
  }

  /** The result of `range2sele(rangeStr)`. */
  function RangeSelection(rangeStr: string): Result<RangeSele, PyException> {
    var pairs :- ParsePairs(Split(rangeStr, ','), ':');
    Success(RangeSele(Join(Clauses(pairs), " | "), Dedup(ChainIds(pairs)), Malformed(pairs)))
  }

  lemma RangeSelectionUnfold(rangeStr: string)
    ensures var pp := ParsePairs(Split(rangeStr, ','), ':');
            && (pp.Failure? ==> RangeSelection(rangeStr) == Failure(pp.error))
            && (pp.Success? ==>
                  RangeSelection(rangeStr) ==
                  Success(RangeSele(Join(Clauses(pp.value), " | "), Dedup(ChainIds(pp.value)), Malformed(pp.value))))
  {
  }

  /** The positions of the tokens whose range does not match, in order. */
  function MalformedAt(pairs: seq<(string, string)>): seq<nat> {
    if pairs == [] then []
    else
      var init := pairs[..|pairs| - 1];
      MalformedAt(init) + (if MatchRange(pairs[|pairs| - 1].1).None? then [|pairs| - 1] else [])
  }

  /** The warnings are the malformed tokens in token order, one warning per
      malformed token (a token repeated in the input is warned about each
      time). */
  lemma {:induction false} MalformedPositions(pairs: seq<(string, string)>)
    ensures var w, ps := Malformed(pairs), MalformedAt(pairs);
            && |w| == |ps|
            && (forall m :: 0 <= m < |ps| ==> ps[m] < |pairs| && w[m] == pairs[ps[m]].0 + ":" + pairs[ps[m]].1)
            && (forall m, n :: 0 <= m < n < |ps| ==> ps[m] < ps[n])
  {
    if pairs != [] {
      var init := pairs[..|pairs| - 1];
      MalformedPositions(init);
      var w0, ps0 := Malformed(init), MalformedAt(init);
      assert forall m :: 0 <= m < |ps0| ==> init[ps0[m]] == pairs[ps0[m]];
      if MatchRange(pairs[|pairs| - 1].1).None? {
        assert Malformed(pairs) == w0 + [pairs[|pairs| - 1].0 + ":" + pairs[|pairs| - 1].1];
        assert MalformedAt(pairs) == ps0 + [|pairs| - 1];
      } else {
        assert Malformed(pairs) == w0 && MalformedAt(pairs) == ps0;
      }
    }
  }

  /** Every malformed token has its position listed, and no other. */
  lemma {:induction false} MalformedAtMembers(pairs: seq<(string, string)>)
    ensures forall k :: 0 <= k < |pairs| ==> (k in MalformedAt(pairs) <==> MatchRange(pairs[k].1).None?)
  {
    if pairs != [] {
      var init := pairs[..|pairs| - 1];
      MalformedAtMembers(init);
      MalformedPositions(init);
      assert forall k :: 0 <= k < |init| ==> init[k] == pairs[k];
    }
  }

  /** One more token: its text is a warning when its range does not match. */
  lemma MalformedSnoc(pairs: seq<(string, string)>, tok: string)
    requires SplitPair(tok, ':').Success?
    ensures var p := SplitPair(tok, ':').value;
            Malformed(pairs + [p]) == Malformed(pairs) + (if MatchRange(p.1).None? then [tok] else [])
  {
    var p := SplitPair(tok, ':').value;
    assert (pairs + [p])[..|pairs|] == pairs;
    assert [':'] == ":";
  }

  /** `ptn.match(r)` and the escaping of the two bounds: the range text a
      clause uses, and whether the pattern matched at all. */
  method EscapeRange(r: string) returns (rng: string, matched: bool)
    ensures rng == RangeText(r)
    ensures matched <==> MatchRange(r).Some?
  {
    rng := r;
    var m := MatchRange(r);
    matched := m.Some?;
    if matched {
      var start, end := m.value.0, m.value.1;
      if StartsWithMinus(start) {
        start := "\\" + start;
      }
      if StartsWithMinus(end) {
        end := "\\" + end;
      }
      rng := start + "-" + end;
    }
  }

  /** What one more token adds to each part of the result. */
  lemma RangeSeleStep(toks: seq<string>, i: nat, pairs: seq<(string, string)>)
    requires i < |toks|
    requires ParsePairs(toks[..i], ':') == Success(pairs)
    requires SplitPair(toks[i], ':').Success?
    ensures var p := SplitPair(toks[i], ':').value;
            && ParsePairs(toks[..i + 1], ':') == Success(pairs + [p])
            && Clauses(pairs + [p]) == Clauses(pairs) + [Clause(p.0, RangeText(p.1))]
            && ChainIds(pairs + [p]) == ChainIds(pairs) + [Strip(p.0)]
            && Malformed(pairs + [p]) == Malformed(pairs) + (if MatchRange(p.1).None? then [toks[i]] else [])
  {
    var p := SplitPair(toks[i], ':').value;
    ParsePairsStep(toks, ':', i, pairs);
    MapSnoc(TokenClause, pairs, p);
    MapSnoc(ChainOf, pairs, p);
    MalformedSnoc(pairs, toks[i]);
  }

  /** Appending a chain ID unless it is already listed. */
  method AddChain(chains: seq<string>, chain: string, ghost ids: seq<string>) returns (r: seq<string>)
    requires chains == Dedup(ids)
    ensures r == Dedup(ids + [chain])
  {
    DedupSnoc(ids, chain);
    r := chains;
    if chain !in chains {
      r := chains + [chain];
    }
  }

  /** The body of the `range2sele` loop for one token `c:r`: its clause,
      its stripped chain ID, and whether its range matched. */
  method RangeToken(tok: string) returns (res: Result<(string, string, bool), PyException>)
    ensures res.Failure? <==> SplitPair(tok, ':').Failure?
    ensures res.Failure? ==> res.error == UnpackError(tok)
    ensures res.Success? ==>
              var p := SplitPair(tok, ':').value;
              res.value == (Clause(p.0, RangeText(p.1)), Strip(p.0), MatchRange(p.1).Some?)
  {
    var p := SplitPair(tok, ':');
    if p.Failure? {
      return Failure(p.error);
    }
    var c, r := p.value.0, p.value.1;
    var rng, matched := EscapeRange(r);
    res := Success((Clause(c, rng), Strip(c), matched));
  }

  /** The loop raises at token `i`: the result is that token's error, and
      the warnings printed are those of the tokens before it. */
  lemma RangeSeleRaises(rangeStr: string, i: nat, pairs: seq<(string, string)>)
    requires i < |Split(rangeStr, ',')|
    requires ParsePairs(Split(rangeStr, ',')[..i], ':') == Success(pairs)
    requires SplitPair(Split(rangeStr, ',')[i], ':').Failure?
    ensures RangeSelection(rangeStr) == Failure(UnpackError(Split(rangeStr, ',')[i]))
    ensures PrintedWarnings(rangeStr) == Malformed(pairs)
  {
    var toks := Split(rangeStr, ',');
    assert ParsePairs(toks, ':') == Failure(UnpackError(toks[i])) by {
      ParsePairsRaises(toks, ':', i, pairs);
    }
    RangeSelectionUnfold(rangeStr);
    assert Printed(toks) == Malformed(pairs) by {
      PrintedAtFailure(toks, i);
    }
  }

  /** The loop runs to the end with the pairs of every token. */
  lemma RangeSeleReturns(rangeStr: string, pairs: seq<(string, string)>)
    requires ParsePairs(Split(rangeStr, ','), ':') == Success(pairs)
    ensures RangeSelection(rangeStr) == Success(RangeSele(Join(Clauses(pairs), " | "), Dedup(ChainIds(pairs)), Malformed(pairs)))
    ensures PrintedWarnings(rangeStr) == Malformed(pairs)
  {
    RangeSelectionUnfold(rangeStr);
    PrintedOfSuccess(Split(rangeStr, ','));
  }

  /** `range2sele`: one pass over the comma-separated tokens, appending a
      clause per token and each new stripped chain ID; a token that does not
      unpack as `chain:range` raises. */
  method Range2Sele(rangeStr: string) returns (res: Result<RangeSele, PyException>, printed: seq<string>)
    ensures res == RangeSelection(rangeStr)
    ensures printed == PrintedWarnings(rangeStr)
  {
    var toks := Split(rangeStr, ',');
    var sele: seq<string> := [];
    var chains: seq<string> := [];
    var warnings: seq<string> := [];
    ghost var pairs: seq<(string, string)> := [];
    var i := 0;
    assert toks[..i] == [];
    while i < |toks|
      invariant 0 <= i <= |toks|
      invariant ParsePairs(toks[..i], ':') == Success(pairs)
      invariant sele == Clauses(pairs)
      invariant chains == Dedup(ChainIds(pairs))
      invariant warnings == Malformed(pairs)
    {
      var tok := toks[i];
      var t := RangeToken(tok);
      if t.Failure? {
        RangeSeleRaises(rangeStr, i, pairs);
        return Failure(t.error), warnings;
      }
      ghost var p := SplitPair(tok, ':').value;
      RangeSeleStep(toks, i, pairs);
      var (clause, chain, matched) := t.value;
      if !matched {
        warnings := warnings + [tok];
      }
      sele := sele + [clause];
      chains := AddChain(chains, chain, ChainIds(pairs));
      pairs := pairs + [p];
      i := i + 1;
    }
    assert toks[..i] == toks;
    RangeSeleReturns(rangeStr, pairs);
    res := Success(RangeSele(Join(sele, " | "), chains, warnings));
    printed := warnings;
  }

  /** `range2sele` raises exactly when some token does not hold exactly one
      colon, and then names the first such token. */
  lemma RangeSelectionFailure(rangeStr: string)
    ensures var toks := Split(rangeStr, ',');
            RangeSelection(rangeStr).Failure? <==> exists k :: 0 <= k < |toks| && !IsPair(toks[k], ':')
    ensures var toks := Split(rangeStr, ',');
            RangeSelection(rangeStr).Failure? ==>
              exists k :: 0 <= k < |toks| && !IsPair(toks[k], ':')
                          && (forall j :: 0 <= j < k ==> IsPair(toks[j], ':'))
                          && RangeSelection(rangeStr).error == UnpackError(toks[k])
  {
    var toks := Split(rangeStr, ',');
    RangeSelectionUnfold(rangeStr);
    ParsePairsSuccess(toks, ':');
    if ParsePairs(toks, ':').Failure? {
      ParsePairsFirstFailure(toks, ':');
    }
  }

  /** Each token is its chain part, a colon, and its range part. */
  predicate Unpacked(toks: seq<string>, pairs: seq<(string, string)>) {
    && |pairs| == |toks|
    && forall k :: 0 <= k < |toks| ==>
         toks[k] == pairs[k].0 + ":" + pairs[k].1 && ':' !in pairs[k].0 && ':' !in pairs[k].1
  }

  lemma UnpackedTokens(toks: seq<string>)
    requires ParsePairs(toks, ':').Success?
    ensures Unpacked(toks, ParsePairs(toks, ':').value)
  {
    forall k | 0 <= k < |toks|
      ensures var p := ParsePairs(toks, ':').value[k];
              toks[k] == p.0 + ":" + p.1 && ':' !in p.0 && ':' !in p.1
    {
      ParsePairsAt(toks, ':', k);
      assert [':'] == ":";
    }
  }

  /** One clause per comma-separated token, in input order, joined by ` | `:
      the chain part as written and the range text of the range part. */
  lemma RangeSelectionClauses(rangeStr: string)
    requires RangeSelection(rangeStr).Success?
    ensures var toks := Split(rangeStr, ',');
            var pairs := ParsePairs(toks, ':').value;
            && Unpacked(toks, pairs)
            && RangeSelection(rangeStr).value.sele == Join(Clauses(pairs), " | ")
            && |Clauses(pairs)| == |toks|
            && forall k :: 0 <= k < |toks| ==> Clauses(pairs)[k] == Clause(pairs[k].0, RangeText(pairs[k].1))
  {
    RangeSelectionUnfold(rangeStr);
    UnpackedTokens(Split(rangeStr, ','));
    MapAt(TokenClause, ParsePairs(Split(rangeStr, ','), ':').value);
  }

  /** The deduplicated chain IDs of some tokens: each token's stripped chain
      part and nothing else, no entry twice, in first-occurrence order. */
  lemma ChainsOfPairs(pairs: seq<(string, string)>)
    ensures var ids := ChainIds(pairs);
            var chains := Dedup(ids);
            && |ids| == |pairs|
            && (forall k :: 0 <= k < |ids| ==> ids[k] == Strip(pairs[k].0))
            && (|pairs| >= 1 ==> |chains| >= 1)
            && (forall x :: x in chains <==> x in ids)
            && (forall i, j :: 0 <= i < j < |chains| ==> chains[i] != chains[j])
            && (forall i, j :: 0 <= i < j < |chains| ==> FirstIndex(ids, chains[i]) < FirstIndex(ids, chains[j]))
  {
    var ids := ChainIds(pairs);
    MapAt(ChainOf, pairs);
    DedupMembers(ids);
    DedupFirstOccurrenceOrder(ids);
    if |pairs| >= 1 {
      DedupNonEmpty(ids);
    }
  }

  /** The chain list of `range2sele` is the deduplicated chain IDs of the
      tokens; there is at least one, as splitting always yields a token. */
  lemma RangeSelectionChains(rangeStr: string)
    requires RangeSelection(rangeStr).Success?
    ensures var pairs := ParsePairs(Split(rangeStr, ','), ':').value;
            && |pairs| == |Split(rangeStr, ',')| >= 1
            && RangeSelection(rangeStr).value.chains == Dedup(ChainIds(pairs))
            && |RangeSelection(rangeStr).value.chains| >= 1
  {
    var pairs := ParsePairs(Split(rangeStr, ','), ':').value;
    assert ParsePairs(Split(rangeStr, ','), ':').Success?
           && RangeSelection(rangeStr).value.chains == Dedup(ChainIds(pairs)) by {
      RangeSelectionUnfold(rangeStr);
    }
    ChainsOfPairs(pairs);
  }

  /** A warning is printed for exactly the tokens whose range part does not
      match the range pattern. */
  lemma RangeSelectionWarnings(rangeStr: string)
    requires RangeSelection(rangeStr).Success?
    ensures var toks := Split(rangeStr, ',');
            var pairs := ParsePairs(toks, ':').value;
            forall t :: t in RangeSelection(rangeStr).value.warnings <==>
              exists k :: 0 <= k < |toks| && t == toks[k] && MatchRange(pairs[k].1).None?
  {
    var toks := Split(rangeStr, ',');
    RangeSelectionUnfold(rangeStr);
    UnpackedTokens(toks);
    var pairs := ParsePairs(toks, ':').value;
    MalformedMembers(pairs);
  }

  /** The warnings are the malformed tokens, one per such token, in token
      order: warning `m` is the token at position `MalformedAt(pairs)[m]`,
      and those positions increase and are exactly the malformed ones. */
  lemma RangeSelectionWarningOrder(rangeStr: string)
    requires RangeSelection(rangeStr).Success?
    ensures var toks := Split(rangeStr, ',');
            var pairs := ParsePairs(toks, ':').value;
            var w, ps := RangeSelection(rangeStr).value.warnings, MalformedAt(pairs);
            && |w| == |ps|
            && (forall m :: 0 <= m < |ps| ==> ps[m] < |toks| && w[m] == toks[ps[m]])
            && (forall m, n :: 0 <= m < n < |ps| ==> ps[m] < ps[n])
            && (forall k :: 0 <= k < |toks| ==> (k in ps <==> MatchRange(pairs[k].1).None?))
  {
    var toks := Split(rangeStr, ',');
    var pairs := ParsePairs(toks, ':').value;
    assert Unpacked(toks, pairs) && RangeSelection(rangeStr).value.warnings == Malformed(pairs) by {
      RangeSelectionUnfold(rangeStr);
      UnpackedTokens(toks);
    }
    WarnedPositions(toks, pairs);
  }

  /** The positions of the warnings, read on the tokens themselves. */
  lemma WarnedPositions(toks: seq<string>, pairs: seq<(string, string)>)
    requires Unpacked(toks, pairs)
    ensures var w, ps := Malformed(pairs), MalformedAt(pairs);
            && |w| == |ps|
            && (forall m :: 0 <= m < |ps| ==> ps[m] < |toks| && w[m] == toks[ps[m]])
            && (forall m, n :: 0 <= m < n < |ps| ==> ps[m] < ps[n])
            && (forall k :: 0 <= k < |toks| ==> (k in ps <==> MatchRange(pairs[k].1).None?))
  {
    MalformedPositions(pairs);
    MalformedAtMembers(pairs);
    var w, ps := Malformed(pairs), MalformedAt(pairs);
    forall m | 0 <= m < |ps| ensures w[m] == toks[ps[m]] {
      assert toks[ps[m]] == pairs[ps[m]].0 + ":" + pairs[ps[m]].1;
    }
  }

  /** A token whose range does not match still gets its clause, with the
      raw range text. */
  lemma RangeSelectionMalformedClause(rangeStr: string)
    requires RangeSelection(rangeStr).Success?
    ensures var toks := Split(rangeStr, ',');
            var pairs := ParsePairs(toks, ':').value;
            && |pairs| == |toks|
            && forall k :: 0 <= k < |toks| && MatchRange(pairs[k].1).None? ==>
                 Clauses(pairs)[k] == Clause(pairs[k].0, pairs[k].1)
  {
    var pairs := ParsePairs(Split(rangeStr, ','), ':').value;
    MalformedKeepsClause(pairs);
  }

  /** A token whose range does not match keeps its raw range text in its
      clause. */
  lemma MalformedKeepsClause(pairs: seq<(string, string)>)
    ensures forall k :: 0 <= k < |pairs| && MatchRange(pairs[k].1).None? ==>
              Clauses(pairs)[k] == Clause(pairs[k].0, pairs[k].1)
  {
    MapAt(TokenClause, pairs);
    forall k | 0 <= k < |pairs| && MatchRange(pairs[k].1).None?
      ensures Clauses(pairs)[k] == Clause(pairs[k].0, pairs[k].1)
    {
      RangeTextOfMalformed(pairs[k].1);
    }
  }

  /** The warnings `range2sele` prints while it walks the tokens, up to the
      end or up to the first token that does not unpack. */
  function Printed(toks: seq<string>): seq<string> {
    if toks == [] then []
    else
      var init := toks[..|toks| - 1];
      var last := toks[|toks| - 1];
      var p := SplitPair(last, ':');
      if ParsePairs(init, ':').Failure? || p.Failure? then Printed(init)
      else Printed(init) + (if MatchRange(p.value.1).None? then [last] else [])
  }

  /** The warnings printed by `range2sele(rangeStr)`, whether it returns or
      raises. */
  function PrintedWarnings(rangeStr: string): seq<string> {
    Printed(Split(rangeStr, ','))
  }

  /** When every token unpacks, the printed warnings are the malformed
      tokens. */
  lemma {:induction false} PrintedOfSuccess(toks: seq<string>)
    requires ParsePairs(toks, ':').Success?
    ensures Printed(toks) == Malformed(ParsePairs(toks, ':').value)
  {
    if toks != [] {
      var init := toks[..|toks| - 1];
      var last := toks[|toks| - 1];
      var pairs := ParsePairs(init, ':').value;
      PrintedOfSuccess(init);
      assert ParsePairs(toks, ':').value == pairs + [SplitPair(last, ':').value];
      MalformedSnoc(pairs, last);
    }
  }

  /** Nothing more is printed once a token has raised. */
  lemma {:induction false} PrintedFailureExtends(toks: seq<string>, i: nat)
    requires i <= |toks|
    requires ParsePairs(toks[..i], ':').Failure?
    ensures Printed(toks) == Printed(toks[..i])
    decreases |toks| - i
  {
    if i < |toks| {
      var pre := toks[..i + 1];
      assert pre[..i] == toks[..i] && pre[i] == toks[i];
      assert ParsePairs(pre, ':').Failure?;
      assert Printed(pre) == Printed(toks[..i]);
      PrintedFailureExtends(toks, i + 1);
    } else {
      assert toks[..i] == toks;
    }
  }

  /** The token that raises prints nothing. */
  lemma PrintedAtFailure(toks: seq<string>, k: nat)
    requires k < |toks| && ParsePairs(toks[..k], ':').Success? && !IsPair(toks[k], ':')
    ensures ParsePairs(toks[..k + 1], ':').Failure?
    ensures Printed(toks) == Malformed(ParsePairs(toks[..k], ':').value)
  {
    var pre := toks[..k + 1];
    assert pre[..k] == toks[..k] && pre[k] == toks[k];
    PrintedOfSuccess(toks[..k]);
    PrintedFailureExtends(toks, k + 1);
  }

  /** What `range2sele` prints: the warnings it returns when it returns;
      when it raises on the first token that does not unpack, the warnings
      of the malformed tokens before that one, which were printed before
      the error. */
  lemma RangeSelectionPrinted(rangeStr: string)
    ensures var toks := Split(rangeStr, ',');
            RangeSelection(rangeStr).Success? ==> PrintedWarnings(rangeStr) == RangeSelection(rangeStr).value.warnings
    ensures var toks := Split(rangeStr, ',');
            RangeSelection(rangeStr).Failure? ==>
              exists k :: 0 <= k < |toks| && RangeSelection(rangeStr).error == UnpackError(toks[k])
                          && ParsePairs(toks[..k], ':').Success?
                          && PrintedWarnings(rangeStr) == Malformed(ParsePairs(toks[..k], ':').value)
  {
    var toks := Split(rangeStr, ',');
    RangeSelectionUnfold(rangeStr);
    if ParsePairs(toks, ':').Success? {
      PrintedOfSuccess(toks);
    } else {
      ParsePairsFirstFailure(toks, ':');
      var k :| 0 <= k < |toks| && !IsPair(toks[k], ':')
               && (forall j :: 0 <= j < k ==> IsPair(toks[j], ':'))
               && ParsePairs(toks, ':').error == UnpackError(toks[k]);
      ParsePairsSuccess(toks[..k], ':');
      PrintedAtFailure(toks, k);
    }
  }

  // ---------------------------------------------------------------------
  // Optional arguments

  function HasHyphen(opt: string): bool { '-' in opt }

  /** The ligand annotation: the last optional argument without a hyphen. */
  function LastLigand(opts: seq<string>): Option<string> {
    if opts == [] then None
    else
      var last := opts[|opts| - 1];
      if !HasHyphen(last) then Some(last) else LastLigand(opts[..|opts| - 1])
  }

  /** The assembly partner ranges: the optional arguments with a hyphen. */
  function AssemblyRanges(opts: seq<string>): seq<string> {
    if opts == [] then []
    else
      var last := opts[|opts| - 1];
      AssemblyRanges(opts[..|opts| - 1]) + (if HasHyphen(last) then [last] else [])
  }

  /** There is no ligand exactly when every optional argument has a hyphen;
      otherwise the ligand is the last argument without one. */
  lemma {:induction false} LastLigandIsLast(opts: seq<string>)
    ensures LastLigand(opts).None? <==> forall k :: 0 <= k < |opts| ==> HasHyphen(opts[k])
    ensures LastLigand(opts).Some? ==>
              exists k :: 0 <= k < |opts| && opts[k] == LastLigand(opts).value && !HasHyphen(opts[k])
                          && forall j :: k < j < |opts| ==> HasHyphen(opts[j])
  {
    if opts != [] {
      var init := opts[..|opts| - 1];
      LastLigandIsLast(init);
      assert forall k :: 0 <= k < |init| ==> init[k] == opts[k];
    }
  }

  /** The assembly ranges are exactly the optional arguments with a
      hyphen. */
  lemma {:induction false} AssemblyRangesMembers(opts: seq<string>)
    ensures forall x :: x in AssemblyRanges(opts) <==> x in opts && HasHyphen(x)
  {
    if opts != [] {
      var init := opts[..|opts| - 1];
      AssemblyRangesMembers(init);
      assert opts == init + [opts[|opts| - 1]];
    }
  }

  /** The number of ligand annotations given. */
  function LigandCount(opts: seq<string>): nat {
    if opts == [] then 0
    else LigandCount(opts[..|opts| - 1]) + (if HasHyphen(opts[|opts| - 1]) then 0 else 1)
  }

  /** The ligand, the assembly ranges, and how many times the
      "Overwriting" warning is printed. */
  datatype OptionArgs = OptionArgs(ligand: Option<string>, assemblyRanges: seq<string>, overwrites: nat)

  function SplitOptions(opts: seq<string>): OptionArgs {
    var n := LigandCount(opts);
    OptionArgs(LastLigand(opts), AssemblyRanges(opts), if n == 0 then 0 else n - 1)
  }

  /** The loop over the arguments after uid, pdb and range. */
  method PartitionOptions(opts: seq<string>) returns (res: OptionArgs)
    ensures res == SplitOptions(opts)
  {
    var ligand: Option<string> := None;
    var asbRange: seq<string> := [];
    var overwrites := 0;
    var i := 0;
    while i < |opts|
      invariant 0 <= i <= |opts|
      invariant ligand == LastLigand(opts[..i])
      invariant asbRange == AssemblyRanges(opts[..i])
      invariant overwrites == if LigandCount(opts[..i]) == 0 then 0 else LigandCount(opts[..i]) - 1
      invariant ligand.None? <==> LigandCount(opts[..i]) == 0
    {
      var opt := opts[i];
      assert opts[..i + 1][..i] == opts[..i];
      if !HasHyphen(opt) {
        if ligand.Some? {
          overwrites := overwrites + 1;
        }
        ligand := Some(opt);
      } else {
        asbRange := asbRange + [opt];
      }
      i := i + 1;
    }
    assert opts[..i] == opts;
    res := OptionArgs(ligand, asbRange, overwrites);
  }

  /** Every optional argument is either the ligand kind or an assembly
      range, and assembly ranges keep their order: splitting a concatenation
      is concatenating the splits. */
  lemma {:induction false} OptionsPartition(opts: seq<string>)
    ensures LigandCount(opts) + |AssemblyRanges(opts)| == |opts|
    ensures LastLigand(opts).None? <==> LigandCount(opts) == 0
  {
    if opts != [] {
      OptionsPartition(opts[..|opts| - 1]);
    }
  }

  lemma {:induction false} AssemblyRangesAppend(a: seq<string>, b: seq<string>)
    ensures AssemblyRanges(a + b) == AssemblyRanges(a) + AssemblyRanges(b)
    decreases |b|
  {
    if b == [] {
      assert a + b == a;
    } else {
      var b' := b[..|b| - 1];
      assert (a + b)[..|a + b| - 1] == a + b';
      AssemblyRangesAppend(a, b');
    }
  }

  // ---------------------------------------------------------------------
  // Ligands

  /** The ligands shown as spheres and as sticks, each in input order. */
  datatype LigandSele = LigandSele(spheres: seq<string>, sticks: seq<string>)

  /** The selection of ligand token `c:i`. */
  function LigandClause(p: (string, string)): string {
    Clause(p.0, Escape(p.1))
  }

  /** `stored.name` after iterating over each selection in turn: `iterate`
      sets it only when the selection has atoms, so it is the residue name
      of the last selection that has any, or the initial empty string. */
  function StoredName(seles: seq<string>, resn: string -> Option<string>): string {
    if seles == [] then ""
    else
      match resn(seles[|seles| - 1])
      case Some(n) => n
      case None => StoredName(seles[..|seles| - 1], resn)
  }

  /** The stored name stays empty when no selection has atoms. */
  lemma {:induction false} StoredNameNoAtoms(seles: seq<string>, resn: string -> Option<string>)
    requires forall k :: 0 <= k < |seles| ==> resn(seles[k]).None?
    ensures StoredName(seles, resn) == ""
  {
    if seles != [] {
      var init := seles[..|seles| - 1];
      assert forall k :: 0 <= k < |init| ==> init[k] == seles[k];
      StoredNameNoAtoms(init, resn);
    }
  }

  /** Otherwise it is the residue name of the last selection with atoms. */
  lemma {:induction false} StoredNameLastMatch(seles: seq<string>, resn: string -> Option<string>, k: nat)
    requires k < |seles| && resn(seles[k]).Some?
    requires forall j :: k < j < |seles| ==> resn(seles[j]).None?
    ensures StoredName(seles, resn) == resn(seles[k]).value
  {
    if k < |seles| - 1 {
      var init := seles[..|seles| - 1];
      assert forall j :: 0 <= j < |init| ==> init[j] == seles[j];
      StoredNameLastMatch(init, resn, k);
    }
  }

  /** Sorting the ligand selections by the name stored after each one:
      a selection is a sphere when that name is in `atomic` (the script
      passes AtomicLigands) and a stick otherwise. */
  function SortLigands(seles: seq<string>, resn: string -> Option<string>, atomic: set<string>): LigandSele {
    if seles == [] then LigandSele([], [])
    else
      var init := seles[..|seles| - 1];
      var last := seles[|seles| - 1];
      var s := SortLigands(init, resn, atomic);
      if StoredName(seles, resn) in atomic then LigandSele(s.spheres + [last], s.sticks)
      else LigandSele(s.spheres, s.sticks + [last])
  }

  /** The selection of every ligand token, in order. */
  function LigandClauses(pairs: seq<(string, string)>): seq<string> {
    Map(LigandClause, pairs)
  }

  /** The ligand sorting for the annotation `ligand`. */
  function LigandSelection(ligand: string, resn: string -> Option<string>, atomic: set<string>): Result<LigandSele, PyException> {
    var pairs :- ParsePairs(Split(ligand, ','), ':');
    Success(SortLigands(LigandClauses(pairs), resn, atomic))
  }

  lemma LigandSelectionUnfold(ligand: string, resn: string -> Option<string>, atomic: set<string>)
    ensures var pp := ParsePairs(Split(ligand, ','), ':');
            && (pp.Failure? ==> LigandSelection(ligand, resn, atomic) == Failure(pp.error))
            && (pp.Success? ==>
                  LigandSelection(ligand, resn, atomic) == Success(SortLigands(LigandClauses(pp.value), resn, atomic)))
  {
  }

  /** The loop raises at token `i` with that token's error. */
  lemma LigandSeleRaises(ligand: string, resn: string -> Option<string>, atomic: set<string>, i: nat, pairs: seq<(string, string)>)
    requires i < |Split(ligand, ',')|
    requires ParsePairs(Split(ligand, ',')[..i], ':') == Success(pairs)
    requires SplitPair(Split(ligand, ',')[i], ':').Failure?
    ensures LigandSelection(ligand, resn, atomic) == Failure(UnpackError(Split(ligand, ',')[i]))
  {
    var toks := Split(ligand, ',');
    assert ParsePairs(toks, ':') == Failure(UnpackError(toks[i])) by {
      ParsePairsRaises(toks, ':', i, pairs);
    }
    LigandSelectionUnfold(ligand, resn, atomic);
  }

  /** What one more ligand selection does to the stored name and the two
      lists. */
  lemma SortLigandsSnoc(seles: seq<string>, x: string, resn: string -> Option<string>, atomic: set<string>)
    ensures StoredName(seles + [x], resn) == if resn(x).Some? then resn(x).value else StoredName(seles, resn)
    ensures var s := SortLigands(seles, resn, atomic);
            SortLigands(seles + [x], resn, atomic) ==
              if StoredName(seles + [x], resn) in atomic then LigandSele(s.spheres + [x], s.sticks)
              else LigandSele(s.spheres, s.sticks + [x])
  {
    assert (seles + [x])[..|seles|] == seles;
  }

  /** The selection of ligand token `c:i`, escaping a negative index. */
  method LigandSeleOf(c: string, idx: string) returns (sele: string)
    ensures sele == LigandClause((c, idx))
  {
    var i := idx;
    if StartsWithMinus(i) {
      i := "\\" + i;
    }
    sele := Clause(c, i);
  }

  /** One ligand selection: look up its residue name, keeping the previous
      name when it selects no atom, and append it to the spheres or the
      sticks. */
  method FileLigand(spheres: seq<string>, sticks: seq<string>, stored: string, ligSele: string,
                    resn: string -> Option<string>, atomic: set<string>, ghost seles: seq<string>)
    returns (spheres': seq<string>, sticks': seq<string>, stored': string)
    requires stored == StoredName(seles, resn)
    requires LigandSele(spheres, sticks) == SortLigands(seles, resn, atomic)
    ensures stored' == StoredName(seles + [ligSele], resn)
    ensures LigandSele(spheres', sticks') == SortLigands(seles + [ligSele], resn, atomic)
  {
    SortLigandsSnoc(seles, ligSele, resn, atomic);
    spheres', sticks', stored' := spheres, sticks, stored;
    var found := resn(ligSele);
    if found.Some? {
      stored' := found.value;
    }
    if stored' in atomic {
      spheres' := spheres + [ligSele];
    } else {
      sticks' := sticks + [ligSele];
    }
  }

  /** The ligand loop: build each token's selection, look up its residue
      name, and append it to the spheres or the sticks. */
  method ClassifyLigands(ligand: string, resn: string -> Option<string>, atomic: set<string>) returns (res: Result<LigandSele, PyException>)
    ensures res == LigandSelection(ligand, resn, atomic)
  {
    var toks := Split(ligand, ',');
    var spheres: seq<string> := [];
    var sticks: seq<string> := [];
    var stored := "";
    ghost var pairs: seq<(string, string)> := [];
    ghost var seles: seq<string> := [];
    var i := 0;
    assert toks[..i] == [];
    while i < |toks|
      invariant 0 <= i <= |toks|
      invariant ParsePairs(toks[..i], ':') == Success(pairs)
      invariant seles == LigandClauses(pairs)
      invariant stored == StoredName(seles, resn)
      invariant LigandSele(spheres, sticks) == SortLigands(seles, resn, atomic)
    {
      var p := SplitPair(toks[i], ':');
      if p.Failure? {
        LigandSeleRaises(ligand, resn, atomic, i, pairs);
        return Failure(p.error);
      }
      ParsePairsStep(toks, ':', i, pairs);
      MapSnoc(LigandClause, pairs, p.value);
      var ligSele := LigandSeleOf(p.value.0, p.value.1);
      spheres, sticks, stored := FileLigand(spheres, sticks, stored, ligSele, resn, atomic, seles);
      pairs := pairs + [p.value];
      seles := seles + [ligSele];
      i := i + 1;
    }
    assert toks[..i] == toks;
    LigandSelectionUnfold(ligand, resn, atomic);
    res := Success(LigandSele(spheres, sticks));
  }

  /** Every ligand selection goes to exactly one of the two lists. */
  lemma {:induction false} SortLigandsPartition(seles: seq<string>, resn: string -> Option<string>, atomic: set<string>)
    ensures var s := SortLigands(seles, resn, atomic);
            |s.spheres| + |s.sticks| == |seles|
            && multiset(s.spheres) + multiset(s.sticks) == multiset(seles)
  {
    if seles != [] {
      var init := seles[..|seles| - 1];
      SortLigandsPartition(init, resn, atomic);
      assert seles == init + [seles[|seles| - 1]];
    }
  }

  /** The two lists hold exactly the ligand selections. */
  lemma {:induction false} SortLigandsMembers(seles: seq<string>, resn: string -> Option<string>, atomic: set<string>)
    ensures var s := SortLigands(seles, resn, atomic);
            forall x :: x in s.spheres || x in s.sticks <==> x in seles
  {
    if seles != [] {
      var init := seles[..|seles| - 1];
      var last := seles[|seles| - 1];
      SortLigandsMembers(init, resn, atomic);
      assert seles == init + [last];
      SortLigandsSnoc(init, last, resn, atomic);
    }
  }

  /** When every ligand selection matches atoms, a selection is a sphere
      exactly when its own residue name is a single-atom ligand. */
  lemma {:induction false} SortLigandsByOwnName(seles: seq<string>, resn: string -> Option<string>, atomic: set<string>)
    requires forall k :: 0 <= k < |seles| ==> resn(seles[k]).Some?
    ensures var s := SortLigands(seles, resn, atomic);
            && (forall x :: x in s.spheres <==> x in seles && resn(x).value in atomic)
            && (forall x :: x in s.sticks <==> x in seles && resn(x).value !in atomic)
  {
    if seles != [] {
      var init := seles[..|seles| - 1];
      assert forall k :: 0 <= k < |init| ==> init[k] == seles[k];
      SortLigandsByOwnName(init, resn, atomic);
      assert seles == init + [seles[|seles| - 1]];
    }
  }

  /** With the script's own set, single-atom ligands such as zinc and
      magnesium ions are drawn as spheres and a haem group as sticks. */
  lemma AtomicLigandsSorted(seles: seq<string>, resn: string -> Option<string>)
    requires forall k :: 0 <= k < |seles| ==> resn(seles[k]).Some?
    ensures var s := SortLigands(seles, resn, AtomicLigands);
            && (forall x :: x in s.spheres <==> x in seles && resn(x).value in AtomicLigands)
            && (forall x :: x in seles && resn(x) == Some("ZN") ==> x in s.spheres && x !in s.sticks)
            && (forall x :: x in seles && resn(x) == Some("MG") ==> x in s.spheres && x !in s.sticks)
            && (forall x :: x in seles && resn(x) == Some("HEM") ==> x in s.sticks && x !in s.spheres)
  {
    SortLigandsByOwnName(seles, resn, AtomicLigands);
    AtomicMembers();
    HaemNotAtomic();
  }

  /** Zinc and magnesium are in the set. */
  lemma AtomicMembers()
    ensures "ZN" in AtomicLigands && "MG" in AtomicLigands
  {
  }

  /** Haem is not. */
  lemma HaemNotAtomic()
    ensures "HEM" !in AtomicLigands
  {
    HaemNotInFirst();
    HaemNotInMiddle();
    HaemNotInLast();
  }

  lemma HaemNotInFirst()
    ensures "HEM" !in AtomicFirst
  {
  }

  lemma HaemNotInMiddle()
    ensures "HEM" !in AtomicMiddle
  {
  }

  lemma HaemNotInLast()
    ensures "HEM" !in AtomicLast
  {
  }

  /** Order within each list is the input order: sorting a longer list only
      appends to the lists of its prefix. */
  lemma {:induction false} SortLigandsPrefix(seles: seq<string>, resn: string -> Option<string>, atomic: set<string>, i: nat)
    requires i <= |seles|
    ensures var s, t := SortLigands(seles[..i], resn, atomic), SortLigands(seles, resn, atomic);
            && s.spheres <= t.spheres && s.sticks <= t.sticks
    decreases |seles| - i
  {
    if i < |seles| {
      SortLigandsPrefix(seles, resn, atomic, i + 1);
      assert seles[..i + 1][..i] == seles[..i];
    } else {
      assert seles[..i] == seles;
    }
  }

  /** Each ligand token `c:i` becomes the selection of chain `c` and the
      escaped index `i`, and lands in exactly one of the two lists. */
  lemma LigandSelectionClauses(ligand: string, resn: string -> Option<string>, atomic: set<string>)
    requires LigandSelection(ligand, resn, atomic).Success?
    ensures var toks := Split(ligand, ',');
            var pairs := ParsePairs(toks, ':').value;
            var seles := LigandClauses(pairs);
            var s := LigandSelection(ligand, resn, atomic).value;
            && Unpacked(toks, pairs)
            && |seles| == |toks|
            && (forall k :: 0 <= k < |seles| ==> seles[k] == Clause(pairs[k].0, Escape(pairs[k].1)))
            && |s.spheres| + |s.sticks| == |toks|
            && (forall x :: x in s.spheres || x in s.sticks <==> x in seles)
  {
    var toks := Split(ligand, ',');
    LigandSelectionUnfold(ligand, resn, atomic);
    UnpackedTokens(toks);
    var pairs := ParsePairs(toks, ':').value;
    var seles := LigandClauses(pairs);
    MapAt(LigandClause, pairs);
    SortLigandsMembers(seles, resn, atomic);
    SortLigandsPartition(seles, resn, atomic);
  }

  // ---------------------------------------------------------------------
  // Representation

  datatype Rep = Cartoon | Ribbon

  /** The representation and whether `ribbon_trace_atoms` is switched on. */
  datatype RepChoice = RepChoice(rep: Rep, traceAtoms: bool)

  /** More atoms than this force the ribbon representation. */
  const MaxCartoonAtoms: nat := 99999

  /** Up to this many atoms, the structure image is drawn normally; above it
      a Gaussian surface is drawn instead. */
  const MaxDrawnAtoms: nat := 499999

  /** `n_num * 1.0 / ca_num < 0.33`: too few backbone nitrogens bonded to
      the CA atoms for a cartoon. */
  predicate SparseBackbone(n: nat, ca: nat)
    requires ca > 0
  {
    (n as real) / (ca as real) < 0.33
  }

  /** The ratio test in integers. */
  lemma SparseBackboneInt(n: nat, ca: nat)
    requires ca > 0
    ensures SparseBackbone(n, ca) <==> 100 * n < 33 * ca
  {
    var q := (n as real) / (ca as real);
    assert q * (ca as real) == n as real;
    if q < 0.33 {
      assert (n as real) < 0.33 * (ca as real);
    } else {
      assert (n as real) >= 0.33 * (ca as real);
    }
  }

  /** The ratio test, then the atom-count override. */
  function CountsChoice(n: nat, ca: nat, atoms: nat): (c: RepChoice)
    requires ca > 0
    ensures c.traceAtoms <==> 100 * n < 33 * ca
    ensures c.rep == Cartoon <==> 100 * n >= 33 * ca && atoms <= MaxCartoonAtoms
  {
    SparseBackboneInt(n, ca);
    var c := if SparseBackbone(n, ca) then RepChoice(Ribbon, true) else RepChoice(Cartoon, false);
    if atoms > MaxCartoonAtoms then c.(rep := Ribbon) else c
  }

  /** The structure image: the representation and whether the structure is
      drawn normally (true) or as a Gaussian surface (false). */
  datatype PdbView = PdbView(choice: RepChoice, drawn: bool)

  /** The structure context: `ca` CA atoms with `n` bonded nitrogens among
      `natoms` atoms.  No CA atom divides by zero. */
  function PdbContext(n: nat, ca: nat, natoms: nat): (r: Result<PdbView, PyException>)
    ensures r.Failure? <==> ca == 0
    ensures r.Failure? ==> r.error == ZeroDivisionError
    ensures r.Success? ==> (r.value.choice.traceAtoms <==> 100 * n < 33 * ca)
    ensures r.Success? ==> (r.value.choice.rep == Cartoon <==> 100 * n >= 33 * ca && natoms <= MaxCartoonAtoms)
    ensures r.Success? ==> (r.value.drawn <==> natoms <= MaxDrawnAtoms)
    ensures r.Success? && !r.value.drawn ==> r.value.choice.rep == Ribbon
  {
    if ca == 0 then Failure(ZeroDivisionError)
    else Success(PdbView(CountsChoice(n, ca, natoms), natoms <= MaxDrawnAtoms))
  }

  /** The chain context guards against chains without CA atoms by choosing
      ribbon, with trace atoms left off. */
  function ChainContext(n: nat, ca: nat, chainAtoms: nat): (c: RepChoice)
    ensures c.traceAtoms <==> ca > 0 && 100 * n < 33 * ca
    ensures c.rep == Cartoon <==> ca > 0 && 100 * n >= 33 * ca && chainAtoms <= MaxCartoonAtoms
  {
    if ca == 0 then RepChoice(Ribbon, false)
    else CountsChoice(n, ca, chainAtoms)
  }

  /** The domain context, unguarded like the structure context. */
  function DomainContext(n: nat, ca: nat, domAtoms: nat): (r: Result<RepChoice, PyException>)
    ensures r.Failure? <==> ca == 0
    ensures r.Failure? ==> r.error == ZeroDivisionError
    ensures r.Success? ==> (r.value.traceAtoms <==> 100 * n < 33 * ca)
    ensures r.Success? ==> (r.value.rep == Cartoon <==> 100 * n >= 33 * ca && domAtoms <= MaxCartoonAtoms)
  {
    if ca == 0 then Failure(ZeroDivisionError)
    else Success(CountsChoice(n, ca, domAtoms))
  }

  // ---------------------------------------------------------------------
  // rotateView

  /** `sum(xs)`, left to right from 0. */
  function Sum(xs: seq<real>): real {
    if xs == [] then 0.0 else Sum(xs[..|xs| - 1]) + xs[|xs| - 1]
  }

  /** What `rotateView` does: whether it turns the view half a turn about
      the y axis, and whether it returns True. */
  datatype Rotation = Rotation(turned: bool, found: bool)

  /** `rotateView(front, back)` given the depths (view-space z) of the CA
      atoms of each selection: no domain CA atom gives up, with nothing
      turned; otherwise the mean depths are compared, and a back selection
      without CA atoms divides by zero. */
  function RotateView(frontZ: seq<real>, backZ: seq<real>): (r: Result<Rotation, PyException>)
    ensures r.Failure? <==> frontZ != [] && backZ == []
    ensures r.Failure? ==> r.error == ZeroDivisionError
    ensures r.Success? ==> (r.value.found <==> frontZ != [])
    ensures r.Success? && r.value.turned ==> r.value.found
  {
    if frontZ == [] then Success(Rotation(false, false))
    else if backZ == [] then Failure(ZeroDivisionError)
    else
      var fz := Sum(frontZ) / |frontZ| as real;
      var bz := Sum(backZ) / |backZ| as real;
      Success(Rotation(fz < bz, true))
  }

  /** The view is turned exactly when the front selection lies deeper on
      average than the back one, compared without division. */
  lemma RotateViewCompares(frontZ: seq<real>, backZ: seq<real>)
    requires frontZ != [] && backZ != []
    ensures RotateView(frontZ, backZ).Success?
    ensures RotateView(frontZ, backZ).value.turned <==>
              Sum(frontZ) * |backZ| as real < Sum(backZ) * |frontZ| as real
  {
    var f, b := Sum(frontZ), Sum(backZ);
    var n, m := |frontZ| as real, |backZ| as real;
    assert RotateView(frontZ, backZ) == Success(Rotation(f / n < b / m, true));
    MeanBelow(f, b, n, m);
  }

  /** Comparing two means by cross-multiplying. */
  lemma MeanBelow(f: real, b: real, n: real, m: real)
    requires n > 0.0 && m > 0.0
    ensures f / n < b / m <==> f * m < b * n
  {
    var fz, bz := f / n, b / m;
    assert fz * n == f && bz * m == b;
    var p := n * m;
    assert fz * p == f * m by {
      assert fz * (n * m) == (fz * n) * m;
    }
    assert bz * p == b * n by {
      assert bz * (n * m) == (bz * m) * n;
    }
    var x := fz - bz;
    assert x * p == fz * p - bz * p;
    SignOfProduct(x, p);
    assert x < 0.0 <==> f * m - b * n < 0.0;
  }

  lemma SignOfProduct(x: real, p: real)
    requires p > 0.0
    ensures x < 0.0 <==> x * p < 0.0
  {
    if x < 0.0 {
      assert x * p < 0.0 * p;
    } else {
      assert x * p >= 0.0 * p;
    }
  }

  // ---------------------------------------------------------------------
  // Chain, zoom and assembly selections

  /** The clause selecting one whole chain. */
  function ChainClause(c: string): string {
    "c. " + c
  }

  /** The selection of whole chains. */
  function ChainSelection(chains: seq<string>): string {
    Join(Map(ChainClause, chains), " | ")
  }

  /** One chain selects just that chain; one more chain adds one clause. */
  lemma ChainSelectionAppend(chains: seq<string>, c: string)
    ensures ChainSelection([c]) == "c. " + c
    ensures |chains| >= 1 ==> ChainSelection(chains + [c]) == ChainSelection(chains) + " | c. " + c
  {
    assert Map(ChainClause, [c]) == [ChainClause(c)] by {
      MapSnoc(ChainClause, [], c);
    }
    if |chains| >= 1 {
      MapSnoc(ChainClause, chains, c);
      JoinAppend(Map(ChainClause, chains), [ChainClause(c)], " | ");
    }
  }

  /** The zoom target: the base selection, then the sticks, then the
      spheres, each list added only when it is not empty. */
  method ZoomTarget(base: string, lig: LigandSele) returns (comb: string)
    ensures comb == Join([base] + lig.sticks + lig.spheres, " | ")
  {
    comb := base;
    assert Join([base], " | ") == base;
    assert [base] + [] == [base];
    assert [base] + lig.sticks + [] == [base] + lig.sticks;
    if |lig.sticks| > 0 {
      JoinAppend([base], lig.sticks, " | ");
      comb := comb + " | " + Join(lig.sticks, " | ");
    }
    assert comb == Join([base] + lig.sticks, " | ");
    if |lig.spheres| > 0 {
      JoinAppend([base] + lig.sticks, lig.spheres, " | ");
      comb := comb + " | " + Join(lig.spheres, " | ");
    }
    assert [base] + lig.sticks + lig.spheres == ([base] + lig.sticks) + lig.spheres;
  }

  /** The selections of the assembly partner ranges, in order; the first
      partner range that does not unpack raises. */
  function AssemblyParts(asb: seq<string>): (r: Result<seq<string>, PyException>)
    ensures r.Success? ==> |r.value| == |asb|
  {
    if asb == [] then Success([])
    else
      var init := asb[..|asb| - 1];
      var last := asb[|asb| - 1];
      assert forall k :: 0 <= k < |init| ==> init[k] == asb[k];
      var front := AssemblyParts(init);
      var p := RangeSelection(last);
      if front.Failure? then front
      else if p.Failure? then Failure(p.error)
      else Success(front.value + [p.value.sele])
  }

  lemma AssemblyPartsUnfold(asb: seq<string>)
    requires asb != []
    ensures var front := AssemblyParts(asb[..|asb| - 1]);
            var p := RangeSelection(asb[|asb| - 1]);
            AssemblyParts(asb) ==
              if front.Failure? then front
              else if p.Failure? then Failure(p.error)
              else Success(front.value + [p.value.sele])
  {
  }

  /** Extending a prefix of the partner ranges by one more partner. */
  lemma AssemblyPartsStep(asb: seq<string>, i: nat, parts: seq<string>)
    requires i < |asb| && AssemblyParts(asb[..i]) == Success(parts)
    ensures RangeSelection(asb[i]).Failure? ==> AssemblyParts(asb[..i + 1]) == Failure(RangeSelection(asb[i]).error)
    ensures RangeSelection(asb[i]).Success? ==>
              AssemblyParts(asb[..i + 1]) == Success(parts + [RangeSelection(asb[i]).value.sele])
  {
    var pre := asb[..i + 1];
    assert pre[..|pre| - 1] == asb[..i];
    assert pre[|pre| - 1] == asb[i];
    AssemblyPartsUnfold(pre);
  }

  /** Each partner contributes its own `range2sele` selection. */
  lemma {:induction false} AssemblyPartsAt(asb: seq<string>, k: nat)
    requires AssemblyParts(asb).Success? && k < |asb|
    ensures RangeSelection(asb[k]).Success?
    ensures AssemblyParts(asb).value[k] == RangeSelection(asb[k]).value.sele
  {
    var init := asb[..|asb| - 1];
    var front := AssemblyParts(init);
    var p := RangeSelection(asb[|asb| - 1]);
    AssemblyPartsUnfold(asb);
    assert front.Success? && p.Success?;
    assert AssemblyParts(asb).value == front.value + [p.value.sele];
    if k < |init| {
      assert init[k] == asb[k];
      AssemblyPartsAt(init, k);
      assert AssemblyParts(asb).value[k] == front.value[k];
    } else {
      assert k == |front.value|;
    }
  }

  /** The partner selections exist exactly when every partner range
      unpacks. */
  lemma {:induction false} AssemblyPartsSuccess(asb: seq<string>)
    ensures AssemblyParts(asb).Success? <==> forall k :: 0 <= k < |asb| ==> RangeSelection(asb[k]).Success?
  {
    if AssemblyParts(asb).Success? {
      forall k | 0 <= k < |asb| ensures RangeSelection(asb[k]).Success? {
        AssemblyPartsAt(asb, k);
      }
    } else if asb != [] {
      var init := asb[..|asb| - 1];
      if AssemblyParts(init).Failure? {
        AssemblyPartsSuccess(init);
        var k :| 0 <= k < |init| && RangeSelection(init[k]).Failure?;
        assert init[k] == asb[k];
      } else {
        assert RangeSelection(asb[|asb| - 1]).Failure?;
      }
    }
  }

  /** The domain selection followed by each partner's selection. */
  function AssemblySelection(sele: string, asb: seq<string>): Result<string, PyException> {
    var parts :- AssemblyParts(asb);
    Success(Join([sele] + parts, " | "))
  }

  /** `sele += ''.join([' | %s' % range2sele(i)[0] for i in asb_range])`. */
  method AssembleDomain(sele: string, asb: seq<string>) returns (res: Result<string, PyException>)
    ensures res == AssemblySelection(sele, asb)
  {
    var acc := sele;
    ghost var parts: seq<string> := [];
    var i := 0;
    assert asb[..0] == [];
    assert [sele] + [] == [sele];
    while i < |asb|
      invariant 0 <= i <= |asb|
      invariant AssemblyParts(asb[..i]) == Success(parts)
      invariant acc == Join([sele] + parts, " | ")
    {
      var part, _ := Range2Sele(asb[i]);
      AssemblyPartsStep(asb, i, parts);
      if part.Failure? {
        AssemblyFailureExtends(asb, i + 1);
        return Failure(part.error);
      }
      JoinSnoc(sele, parts, part.value.sele, " | ");
      acc := acc + " | " + part.value.sele;
      parts := parts + [part.value.sele];
      i := i + 1;
    }
    assert asb[..i] == asb;
    res := Success(acc);
  }

  /** Appending one more piece to a join adds one separator and the piece. */
  lemma JoinSnoc(head: string, parts: seq<string>, x: string, sep: string)
    ensures Join([head] + (parts + [x]), sep) == Join([head] + parts, sep) + sep + x
    ensures Join([head] + parts, sep) + sep + x == Join([head] + parts, sep) + (sep + x)
  {
    JoinAppend([head] + parts, [x], sep);
    assert [head] + parts + [x] == [head] + (parts + [x]);
  }

  /** Once a prefix of the partner ranges fails, the whole list fails the
      same way. */
  lemma {:induction false} AssemblyFailureExtends(asb: seq<string>, i: nat)
    requires i <= |asb|
    requires AssemblyParts(asb[..i]).Failure?
    ensures AssemblyParts(asb) == AssemblyParts(asb[..i])
    decreases |asb| - i
  {
    if i < |asb| {
      var pre := asb[..i + 1];
      assert pre[..|pre| - 1] == asb[..i];
      AssemblyPartsUnfold(pre);
      AssemblyFailureExtends(asb, i + 1);
    } else {
      assert asb[..i] == asb;
    }
  }
}
