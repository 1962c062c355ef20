/** rainbow.py: colour the residues of a range string such as
    `B:2-29,A:1-21` along the rainbow, in the order the segments are written.

    The segments are found by scanning the string left to right with
    `([A-Za-z0-9]{1}):(-?[0-9]+[A-Z]?)-(-?[0-9]+[A-Z]?)`; each segment's
    alpha-carbon residue numbers come from `cmd.iterate`, given here as the
    oracle `ca`; every residue then gets a global rank, a hue from its rank,
    and the RGB colour of that hue, packed and written in hexadecimal.
    `colorsys.hsv_to_rgb` followed by `int(x * 255)` is the oracle `rgb`. */
module Rainbow {
  import opened Wrappers
  import opened Text
  import opened RangePattern

  // ---------------------------------------------------------------------
  // seg_ptn.finditer(range_string)

  /** A match of the segment pattern: where it starts and ends in the
      scanned string, and its three groups. */
  datatype SegMatch = SegMatch(start: nat, end: nat, chain: char, lo: string, hi: string)

  /** The match of the segment pattern at position `p`, if any: one chain
      character, a colon, and a range. */
  function SegAt(s: string, p: nat): (r: Option<SegMatch>)
    requires p <= |s|
    ensures r.Some? ==> r.value.start == p && p + 2 < r.value.end <= |s|
  {
    if p + 2 <= |s| && IsAlnum(s[p]) && s[p + 1] == ':' then
      match RangeAt(s, p + 2)
      case None => None
      case Some(m) => Some(SegMatch(p, m.1, s[p], s[p + 2..m.0], s[m.0 + 1..m.1]))
    else None
  }

  /** The text of a match: its chain, a colon, its bounds around a hyphen,
      each group in the language of its part of the pattern. */
  lemma SegAtSound(s: string, p: nat)
    requires p <= |s| && SegAt(s, p).Some?
    ensures var m := SegAt(s, p).value;
            && IsAlnum(m.chain) && IsBound(m.lo) && IsBound(m.hi)
            && s[p..m.end] == [m.chain] + ":" + m.lo + "-" + m.hi
  {
    var m := SegAt(s, p).value;
    RangeAtSound(s, p + 2);
    var h := RangeAt(s, p + 2).value.0;
    assert s[p..m.end] == [s[p]] + [s[p + 1]] + s[p + 2..h] + [s[h]] + s[h + 1..m.end];
  }

  /** The segment pattern matches at `p` with the hyphen at `i`, ending at
      `j`. */
  predicate SegMatchesAt(s: string, p: nat, i: nat, j: nat) {
    p + 2 <= |s| && IsAlnum(s[p]) && s[p + 1] == ':' && RangeMatchesAt(s, p + 2, i, j)
  }

  /** SegAt agrees with the regular expression at `p`: it finds a match
      exactly when the pattern can match there, with the only possible
      hyphen and the longest end, which is what backtracking reports. */
  lemma SegAtIsRegexMatch(s: string, p: nat)
    requires p <= |s|
    ensures SegAt(s, p).Some? <==> exists i: nat, j: nat :: SegMatchesAt(s, p, i, j)
    ensures SegAt(s, p).Some? ==>
              var m := SegAt(s, p).value;
              forall i: nat, j: nat :: SegMatchesAt(s, p, i, j) ==> s[p + 2..i] == m.lo && j <= m.end
  {
    if p + 2 <= |s| {
      RangeAtIsRegexMatch(s, p + 2);
      if SegAt(s, p).Some? {
        var r := RangeAt(s, p + 2).value;
        assert SegMatchesAt(s, p, r.0, r.1);
      }
    }
  }

  /** `finditer` from position `p`: try the pattern at each position in
      turn and, after a match, go on where it ends. */
  function FindSegments(s: string, p: nat): seq<SegMatch>
    requires p <= |s|
    decreases |s| - p
  {
    if p == |s| then []
    else
      match SegAt(s, p)
      case Some(m) => [m] + FindSegments(s, m.end)
      case None => FindSegments(s, p + 1)
  }

  /** One step of the scan. */
  lemma FindSegmentsUnfold(s: string, p: nat)
    requires p < |s|
    ensures SegAt(s, p).Some? ==>
              FindSegments(s, p) == [SegAt(s, p).value] + FindSegments(s, SegAt(s, p).value.end)
    ensures SegAt(s, p).None? ==> FindSegments(s, p) == FindSegments(s, p + 1)
  {
  }

  /** `m` is the pattern's match at its own start in `s`. */
  predicate MatchOf(s: string, m: SegMatch) {
    m.start < m.end <= |s| && SegAt(s, m.start) == Some(m)
  }

  /** Every match found is the pattern's match at its own start, at or
      after `p`. */
  lemma {:induction false} FindSegmentsSound(s: string, p: nat)
    requires p <= |s|
    ensures var ms := FindSegments(s, p);
            forall k :: 0 <= k < |ms| ==> p <= ms[k].start && MatchOf(s, ms[k])
    decreases |s| - p
  {
    if p < |s| {
      FindSegmentsUnfold(s, p);
      if SegAt(s, p).Some? {
        FindSegmentsSound(s, SegAt(s, p).value.end);
      } else {
        FindSegmentsSound(s, p + 1);
      }
    }
  }

  /** The matches come in string order and do not overlap. */
  lemma {:induction false} FindSegmentsOrdered(s: string, p: nat)
    requires p <= |s|
    ensures var ms := FindSegments(s, p);
            forall k :: 0 <= k < |ms| - 1 ==> ms[k].end <= ms[k + 1].start
    decreases |s| - p
  {
    if p < |s| {
      FindSegmentsUnfold(s, p);
      if SegAt(s, p).Some? {
        var e := SegAt(s, p).value.end;
        FindSegmentsOrdered(s, e);
        FindSegmentsSound(s, e);
      } else {
        FindSegmentsOrdered(s, p + 1);
      }
    }
  }

  /** Position `q` is inside one of the matches `ms`. */
  predicate Covered(ms: seq<SegMatch>, q: nat) {
    exists k :: 0 <= k < |ms| && ms[k].start <= q < ms[k].end
  }

  /** A position from `p` on where the pattern matches starts a match found
      or lies inside one. */
  lemma {:induction false} FindSegmentsCovers(s: string, p: nat, q: nat)
    requires p <= q < |s| && SegAt(s, q).Some?
    ensures Covered(FindSegments(s, p), q)
    decreases |s| - p
  {
    FindSegmentsUnfold(s, p);
    var here := SegAt(s, p);
    if here.Some? {
      var m := here.value;
      var rest := FindSegments(s, m.end);
      assert FindSegments(s, p) == [m] + rest;
      if q < m.end {
        CoveredHead(m, rest, q);
      } else {
        FindSegmentsCovers(s, m.end, q);
        CoveredCons(m, rest, q);
      }
    } else {
      assert p != q;
      assert FindSegments(s, p) == FindSegments(s, p + 1);
      FindSegmentsCovers(s, p + 1, q);
    }
  }

  lemma CoveredHead(m: SegMatch, rest: seq<SegMatch>, q: nat)
    requires m.start <= q < m.end
    ensures Covered([m] + rest, q)
  {
    assert ([m] + rest)[0] == m;
  }

  lemma CoveredCons(m: SegMatch, rest: seq<SegMatch>, q: nat)
    requires Covered(rest, q)
    ensures Covered([m] + rest, q)
  {
    var k :| 0 <= k < |rest| && rest[k].start <= q < rest[k].end;
    assert ([m] + rest)[k + 1] == rest[k];
  }

  /** No match is skipped: every position where the pattern matches starts
      a match found or lies inside one. */
  lemma FindSegmentsComplete(s: string)
    ensures forall q :: 0 <= q < |s| && SegAt(s, q).Some? ==> Covered(FindSegments(s, 0), q)
  {
    forall q | 0 <= q < |s| && SegAt(s, q).Some?
      ensures Covered(FindSegments(s, 0), q)
    {
      FindSegmentsCovers(s, 0, q);
    }
  }

  // ---------------------------------------------------------------------
  // The residues of each segment

  /** The selection handed to `cmd.iterate` for a segment. It is built from
      the groups as matched: the escaped copies of the bounds the loop
      computes are never used. */
  function IterateSele(m: SegMatch): string {
    "c. " + [m.chain] + " and i. " + m.lo + "-" + m.hi + " and n. CA"
  }

  /** The selection the escaped bounds would have given. */
  function EscapedSele(m: SegMatch): string {
    "c. " + [m.chain] + " and i. " + Escape(m.lo) + "-" + Escape(m.hi) + " and n. CA"
  }

  /** `local_space` after the iterate: the chain and its residue numbers. */
  datatype Seg = Seg(chain: char, resnums: seq<string>)

  /** `all_resi`: one entry per match, in match order. */
  function SegResidues(ms: seq<SegMatch>, ca: string -> seq<string>): (all: seq<Seg>)
    ensures |all| == |ms|
  {
    if ms == [] then []
    else
      var last := ms[|ms| - 1];
      SegResidues(ms[..|ms| - 1], ca) + [Seg(last.chain, ca(IterateSele(last)))]
  }

  lemma {:induction false} SegResiduesAt(ms: seq<SegMatch>, ca: string -> seq<string>)
    ensures var all := SegResidues(ms, ca);
            forall k :: 0 <= k < |ms| ==> all[k] == Seg(ms[k].chain, ca(IterateSele(ms[k])))
  {
    if ms != [] {
      var init := ms[..|ms| - 1];
      SegResiduesAt(init, ca);
      assert forall k :: 0 <= k < |init| ==> init[k] == ms[k];
    }
  }

  /** No selection handed to `cmd.iterate` carries an escape, so a segment
      with a negative bound is looked up with the bare minus sign, unlike
      what the escaped copies of its bounds would give. */
  lemma IterateSeleUnescaped(s: string)
    ensures var ms := FindSegments(s, 0);
            forall k :: 0 <= k < |ms| ==>
              && '\\' !in IterateSele(ms[k])
              && (IterateSele(ms[k]) == EscapedSele(ms[k]) <==>
                    !StartsWithMinus(ms[k].lo) && !StartsWithMinus(ms[k].hi))
  {
    FindSegmentsSound(s, 0);
    forall m | MatchOf(s, m)
      ensures '\\' !in IterateSele(m)
      ensures IterateSele(m) == EscapedSele(m) <==> !StartsWithMinus(m.lo) && !StartsWithMinus(m.hi)
    {
      SegAtSound(s, m.start);
      SelectionsOfBounds(m);
    }
  }

  lemma BoundHasNoBackslash(t: string)
    requires IsBound(t)
    ensures '\\' !in t
  {
    forall k | 0 <= k < |t| ensures t[k] != '\\' {
      if k > 0 && k < |t| - 1 {
        assert IsDigit(t[k]);
      }
    }
  }

  lemma SelectionsOfBounds(m: SegMatch)
    requires IsAlnum(m.chain) && IsBound(m.lo) && IsBound(m.hi)
    ensures '\\' !in IterateSele(m)
    ensures IterateSele(m) == EscapedSele(m) <==> !StartsWithMinus(m.lo) && !StartsWithMinus(m.hi)
  {
    BoundHasNoBackslash(m.lo);
    BoundHasNoBackslash(m.hi);
    var sel := IterateSele(m);
    assert '\\' !in "c. " + [m.chain] + " and i. ";
    assert '\\' !in " and n. CA";
    assert '\\' !in sel;
    if StartsWithMinus(m.lo) || StartsWithMinus(m.hi) {
      var pre := "c. " + [m.chain] + " and i. ";
      var esc := EscapedSele(m);
      if StartsWithMinus(m.lo) {
        assert esc[|pre|] == '\\';
      } else {
        EscapeShape(m.lo);
        assert esc[|pre| + |m.lo| + 1] == '\\';
      }
      assert '\\' in esc;
    }
  }

  // ---------------------------------------------------------------------
  // total and the rank of each residue

  /** `total`: `reduce` adding up the lengths of the residue lists, left to
      right from 0. */
  function Total(all: seq<Seg>): nat {
    if all == [] then 0 else Total(all[..|all| - 1]) + |all[|all| - 1].resnums|
  }

  /** The number of residues in the segments before segment `g`. */
  function Offset(all: seq<Seg>, g: nat): nat
    requires g <= |all|
  {
    Total(all[..g])
  }

  /** Residue `j` of segment `g` has rank `k`. */
  predicate RankIs(all: seq<Seg>, g: nat, j: nat, k: nat) {
    g < |all| && j < |all[g].resnums| && Offset(all, g) + j == k
  }

  /** Every rank below `total` belongs to some residue. */
  lemma {:induction false} RankOnto(all: seq<Seg>, k: nat)
    requires k < Total(all)
    ensures exists g: nat, j: nat :: RankIs(all, g, j, k)
  {
    var init := all[..|all| - 1];
    var g := |all| - 1;
    if k < Total(init) {
      RankOnto(init, k);
      var g': nat, j: nat :| RankIs(init, g', j, k);
      assert init[..g'] == all[..g'];
      assert RankIs(all, g', j, k);
      assert init[g'] == all[g'];
    } else {
      assert all[..g] == init;
      assert RankIs(all, g, k - Total(init), k);
    }
  }

  /** The residues of the segments before `h` and those of segment `h`. */
  lemma TotalSnoc(all: seq<Seg>, h: nat)
    requires h < |all|
    ensures Offset(all, h + 1) == Offset(all, h) + |all[h].resnums|
  {
    assert all[..h + 1][..h] == all[..h];
  }

  /** More segments hold at least as many residues. */
  lemma {:induction false} TotalMonotone(all: seq<Seg>, g: nat, h: nat)
    requires g <= h <= |all|
    ensures Offset(all, g) <= Offset(all, h)
    decreases h - g
  {
    if g < h {
      TotalMonotone(all, g, h - 1);
      TotalSnoc(all, h - 1);
    }
  }

  /** Different residues get different ranks. */
  lemma RankInjective(all: seq<Seg>, g: nat, j: nat, g': nat, j': nat)
    requires g < |all| && j < |all[g].resnums|
    requires g' < |all| && j' < |all[g'].resnums|
    requires Offset(all, g) + j == Offset(all, g') + j'
    ensures g == g' && j == j'
  {
    if g < g' {
      TotalSnoc(all, g);
      TotalMonotone(all, g + 1, g');
    } else if g' < g {
      TotalSnoc(all, g');
      TotalMonotone(all, g' + 1, g);
    }
  }

  // ---------------------------------------------------------------------
  // Hue and colour

  /** `colorsys.TWO_THIRD`. */
  const TwoThirds: real := 2.0 / 3.0

  /** The hue of rank `k` out of `total`, computed exactly. */
  function Hue(k: nat, total: nat): real
    requires total >= 2
  {
    TwoThirds - TwoThirds * k as real / (total - 1) as real
  }

  /** The first residue is blue (hue 2/3), the last red (hue 0). */
  lemma HueEnds(total: nat)
    requires total >= 2
    ensures Hue(0, total) == TwoThirds
    ensures Hue(total - 1, total) == 0.0
  {
  }

  /** The hue falls strictly with the rank and stays within [0, 2/3]. */
  lemma HueDecreasing(k: nat, k': nat, total: nat)
    requires total >= 2 && k < k' < total
    ensures 0.0 <= Hue(k', total) < Hue(k, total) <= TwoThirds
  {
    var d := (total - 1) as real;
    assert TwoThirds * k as real < TwoThirds * k' as real;
    assert TwoThirds * k as real / d < TwoThirds * k' as real / d;
    assert TwoThirds * k' as real <= TwoThirds * d;
    assert TwoThirds * k' as real / d <= TwoThirds;
  }

  /** A colour channel, `int(x * 255)` of an `hsv_to_rgb` component. */
  type Channel = x: int | 0 <= x < 256

  /** `(red << 16) + (green << 8) + blue`. */
  function Pack(r: Channel, g: Channel, b: Channel): nat {
    r * 0x10000 + g * 0x100 + b
  }

  /** A packed colour fits in 24 bits and gives back its three channels. */
  lemma PackUnpack(r: Channel, g: Channel, b: Channel)
    ensures Pack(r, g, b) <= 0xFF_FFFF
    ensures Pack(r, g, b) / 0x10000 == r
    ensures Pack(r, g, b) / 0x100 % 0x100 == g
    ensures Pack(r, g, b) % 0x100 == b
  {
  }

  // ---------------------------------------------------------------------
  // hex(): the colour as PyMOL receives it

  /** The digit of `d` in `0123456789abcdef`. */
  function HexDigit(d: nat): char
    requires d < 16
  {
    if d < 10 then ('0' as int + d) as char else ('a' as int + d - 10) as char
  }

  /** The digits of `hex(n)`: lower case, most significant first. */
  function HexDigits(n: nat): (t: string)
    ensures |t| >= 1
    decreases n
  {
    if n < 16 then [HexDigit(n)] else HexDigits(n / 16) + [HexDigit(n % 16)]
  }

  /** Python's `hex(n)` for a non-negative `int`. */
  function Hex(n: nat): string {
    "0x" + HexDigits(n)
  }

  /** The value of a hexadecimal digit. */
  function HexValue(c: char): nat {
    if '0' <= c <= '9' then c as nat - '0' as nat
    else if 'a' <= c <= 'f' then c as nat - 'a' as nat + 10
    else 0
  }

  /** Reading hexadecimal digits, most significant first. */
  function ParseHex(t: string): nat {
    if t == [] then 0 else ParseHex(t[..|t| - 1]) * 16 + HexValue(t[|t| - 1])
  }

  predicate IsHexDigit(c: char) {
    '0' <= c <= '9' || 'a' <= c <= 'f'
  }

  /** `hex(n)` writes only lower-case hexadecimal digits. */
  lemma {:induction false} HexDigitsAlphabet(n: nat)
    ensures forall k :: 0 <= k < |HexDigits(n)| ==> IsHexDigit(HexDigits(n)[k])
    decreases n
  {
    if n >= 16 {
      var t := HexDigits(n / 16);
      HexDigitsAlphabet(n / 16);
      assert HexDigits(n) == t + [HexDigit(n % 16)];
    }
  }

  /** `hex(n)` can be read back to `n`. */
  lemma {:induction false} HexDigitsRoundTrip(n: nat)
    ensures ParseHex(HexDigits(n)) == n
    decreases n
  {
    if n >= 16 {
      var t := HexDigits(n / 16);
      HexDigitsRoundTrip(n / 16);
      assert (t + [HexDigit(n % 16)])[..|t|] == t;
    }
  }

  /** `hex(n)` has no leading zero unless `n` is itself zero. */
  lemma {:induction false} HexDigitsLeading(n: nat)
    ensures HexDigits(n)[0] == '0' <==> n == 0
    decreases n
  {
    if n >= 16 {
      var t := HexDigits(n / 16);
      HexDigitsLeading(n / 16);
      assert (t + [HexDigit(n % 16)])[0] == t[0];
    }
  }

  // ---------------------------------------------------------------------
  // The colour calls

  /** A call `cmd.color(hexcolor, selection)`. */
  datatype ColorCall = ColorCall(color: string, sele: string)

  /** The hexadecimal colour of a hue, under the RGB conversion `rgb`. */
  function ColorOf(rgb: real -> (Channel, Channel, Channel), hue: real): string {
    var c := rgb(hue);
    Hex(Pack(c.0, c.1, c.2))
  }

  /** The selection of one residue of a chain. */
  function ResidueSele(c: char, resi: string): string {
    "c. " + [c] + " and i. " + resi
  }

  /** What `rainbow(range_string)` does with the residue lookup `ca` and
      the RGB conversion `rgb`: the colour calls it makes, or the division
      by zero it reaches when there is exactly one residue. */
  function RainbowCalls(rangeString: string, ca: string -> seq<string>, rgb: real -> (Channel, Channel, Channel)): Result<seq<ColorCall>, PyException> {
    var all := SegResidues(FindSegments(rangeString, 0), ca);
    var total := Total(all);
    if total == 1 then Failure(ZeroDivisionError) else Success(AllCalls(all, total, rgb))
  }

  /** The `for seg in seg_ptn.finditer(...)` loop building `all_resi`. */
  method CollectResidues(segs: seq<SegMatch>, ca: string -> seq<string>) returns (allResi: seq<Seg>)
    ensures allResi == SegResidues(segs, ca)
  {
    allResi := [];
    for i := 0 to |segs|
      invariant allResi == SegResidues(segs[..i], ca)
    {
      var seg := segs[i];
      assert segs[..i + 1][..i] == segs[..i];
      allResi := allResi + [Seg(seg.chain, ca(IterateSele(seg)))];
    }
    assert segs[..|segs|] == segs;
  }

  /** The hue of rank `cnt` and its colour in hexadecimal. */
  method RankColor(cnt: nat, total: nat, rgb: real -> (Channel, Channel, Channel)) returns (hexcolor: string)
    requires total >= 2
    ensures hexcolor == ColorOf(rgb, Hue(cnt, total))
  {
    var hue := TwoThirds - TwoThirds * cnt as real / (total - 1) as real;
    var c := rgb(hue);
    hexcolor := Hex(Pack(c.0, c.1, c.2));
  }

  /** The call for residue `resi` of chain `c` at rank `k`. */
  function CallFor(c: char, resi: string, k: nat, total: nat, rgb: real -> (Channel, Channel, Channel)): ColorCall
    requires total >= 2
  {
    ColorCall(ColorOf(rgb, Hue(k, total)), ResidueSele(c, resi))
  }

  /** The calls for the residues `rs` of chain `c`, ranked from `k0` on. */
  function SegCalls(c: char, rs: seq<string>, k0: nat, total: nat, rgb: real -> (Channel, Channel, Channel)): (cs: seq<ColorCall>)
    requires rs == [] || total >= 2
    ensures |cs| == |rs|
  {
    if rs == [] then []
    else
      var n := |rs| - 1;
      SegCalls(c, rs[..n], k0, total, rgb) + [CallFor(c, rs[n], k0 + n, total, rgb)]
  }

  lemma SegCallsSnoc(c: char, rs: seq<string>, j: nat, k0: nat, total: nat, rgb: real -> (Channel, Channel, Channel))
    requires j < |rs| && total >= 2
    ensures SegCalls(c, rs[..j + 1], k0, total, rgb)
            == SegCalls(c, rs[..j], k0, total, rgb) + [CallFor(c, rs[j], k0 + j, total, rgb)]
  {
    assert rs[..j + 1][..j] == rs[..j];
  }

  /** The `i`-th call of a segment colours its `i`-th residue with the hue
      of rank `k0 + i`. */
  lemma {:induction false} SegCallsAt(c: char, rs: seq<string>, k0: nat, total: nat, rgb: real -> (Channel, Channel, Channel), i: nat)
    requires total >= 2 && i < |rs|
    ensures SegCalls(c, rs, k0, total, rgb)[i] == CallFor(c, rs[i], k0 + i, total, rgb)
  {
    var n := |rs| - 1;
    if i < n {
      SegCallsAt(c, rs[..n], k0, total, rgb, i);
    }
  }

  /** The calls for all segments, in the order the nested loop makes them:
      segment by segment, each residue ranked after those before it. */
  function AllCalls(all: seq<Seg>, total: nat, rgb: real -> (Channel, Channel, Channel)): (cs: seq<ColorCall>)
    requires total >= 2 || Total(all) == 0
    ensures |cs| == Total(all)
  {
    if all == [] then []
    else
      var init, last := all[..|all| - 1], all[|all| - 1];
      AllCalls(init, total, rgb) + SegCalls(last.chain, last.resnums, Total(init), total, rgb)
  }

  /** Residue `j` of segment `g` receives call number `Offset(all, g) + j`,
      which colours exactly that residue with the hue of that rank. */
  lemma {:induction false} AllCallsAt(all: seq<Seg>, total: nat, rgb: real -> (Channel, Channel, Channel), g: nat, j: nat)
    requires total >= 2 && g < |all| && j < |all[g].resnums|
    ensures Offset(all, g) + j < Total(all)
    ensures AllCalls(all, total, rgb)[Offset(all, g) + j]
            == CallFor(all[g].chain, all[g].resnums[j], Offset(all, g) + j, total, rgb)
  {
    if g == |all| - 1 {
      AllCallsLast(all, total, rgb, j);
    } else {
      AllCallsAt(all[..|all| - 1], total, rgb, g, j);
      AllCallsFront(all, total, rgb, g, j);
    }
  }

  /** The calls of the last segment come after those of the others. */
  lemma AllCallsLast(all: seq<Seg>, total: nat, rgb: real -> (Channel, Channel, Channel), j: nat)
    requires total >= 2 && all != [] && j < |all[|all| - 1].resnums|
    ensures Offset(all, |all| - 1) + j < Total(all)
    ensures AllCalls(all, total, rgb)[Offset(all, |all| - 1) + j]
            == CallFor(all[|all| - 1].chain, all[|all| - 1].resnums[j], Offset(all, |all| - 1) + j, total, rgb)
  {
    var init, last := all[..|all| - 1], all[|all| - 1];
    var front, back := AllCalls(init, total, rgb), SegCalls(last.chain, last.resnums, Total(init), total, rgb);
    assert AllCalls(all, total, rgb) == front + back;
    assert all[..|all| - 1] == init;
    SegCallsAt(last.chain, last.resnums, Total(init), total, rgb, j);
    assert (front + back)[|front| + j] == back[j];
  }

  /** The calls of the segments before the last are those of the shorter
      list. */
  lemma AllCallsFront(all: seq<Seg>, total: nat, rgb: real -> (Channel, Channel, Channel), g: nat, j: nat)
    requires total >= 2 && g < |all| - 1 && j < |all[g].resnums|
    requires var init := all[..|all| - 1];
             Offset(init, g) + j < Total(init) &&
             AllCalls(init, total, rgb)[Offset(init, g) + j] == CallFor(init[g].chain, init[g].resnums[j], Offset(init, g) + j, total, rgb)
    ensures Offset(all, g) + j < Total(all)
    ensures AllCalls(all, total, rgb)[Offset(all, g) + j]
            == CallFor(all[g].chain, all[g].resnums[j], Offset(all, g) + j, total, rgb)
  {
    var init, last := all[..|all| - 1], all[|all| - 1];
    var front, back := AllCalls(init, total, rgb), SegCalls(last.chain, last.resnums, Total(init), total, rgb);
    assert AllCalls(all, total, rgb) == front + back;
    assert init[..g] == all[..g];
    assert init[g] == all[g];
    assert (front + back)[Offset(init, g) + j] == front[Offset(init, g) + j];
  }

  /** The inner loop over the residues of one segment, whose first residue
      has rank `cnt0`: one colour call each, or the division by zero when
      `total` is 1. */
  method ColorSegment(seg: Seg, total: nat, rgb: real -> (Channel, Channel, Channel), cnt0: nat)
    returns (res: Result<seq<ColorCall>, PyException>)
    requires cnt0 + |seg.resnums| <= total
    ensures res.Failure? <==> total == 1 && seg.resnums != []
    ensures res.Failure? ==> res.error == ZeroDivisionError
    ensures res.Success? ==> (seg.resnums == [] || total >= 2) && res.value == SegCalls(seg.chain, seg.resnums, cnt0, total, rgb)
  {
    var calls := [];
    var cnt := cnt0;
    for j := 0 to |seg.resnums|
      invariant cnt == cnt0 + j
      invariant total >= 2 || j == 0
      invariant total >= 2 ==> calls == SegCalls(seg.chain, seg.resnums[..j], cnt0, total, rgb)
      invariant total < 2 ==> calls == []
    {
      if total - 1 == 0 {
        return Failure(ZeroDivisionError);
      }
      var hexcolor := RankColor(cnt, total, rgb);
      SegCallsSnoc(seg.chain, seg.resnums, j, cnt0, total, rgb);
      calls := calls + [ColorCall(hexcolor, ResidueSele(seg.chain, seg.resnums[j]))];
      cnt := cnt + 1;
    }
    assert seg.resnums[..|seg.resnums|] == seg.resnums;
    res := Success(calls);
  }

  /** `rainbow`: collect the residues of each segment, count them, and
      colour them one by one with a hue falling along their rank. */
  method ColorRainbow(rangeString: string, ca: string -> seq<string>, rgb: real -> (Channel, Channel, Channel))
    returns (res: Result<seq<ColorCall>, PyException>)
    ensures res == RainbowCalls(rangeString, ca, rgb)
  {
    var allResi := CollectResidues(FindSegments(rangeString, 0), ca);
    var total := Total(allResi);
    var calls: seq<ColorCall> := [];
    var cnt := 0;
    assert allResi[..0] == [];
    for g := 0 to |allResi|
      invariant cnt == Offset(allResi, g)
      invariant total >= 2 || cnt == 0
      invariant calls == AllCalls(allResi[..g], total, rgb)
    {
      TotalSnoc(allResi, g);
      TotalMonotone(allResi, g + 1, |allResi|);
      assert allResi[..|allResi|] == allResi;
      var r := ColorSegment(allResi[g], total, rgb, cnt);
      if r.Failure? {
        return Failure(r.error);
      }
      assert allResi[..g + 1][..g] == allResi[..g];
      calls := calls + r.value;
      cnt := cnt + |allResi[g].resnums|;
    }
    assert allResi[..|allResi|] == allResi;
    res := Success(calls);
  }

  /** `rainbow` fails exactly when there is a single residue; otherwise it
      makes one call per residue, and residue `j` of what `cmd.iterate`
      returns for match `g` is coloured with the hue of its rank. */
  lemma RainbowColorsEachResidue(rangeString: string, ca: string -> seq<string>, rgb: real -> (Channel, Channel, Channel), g: nat, j: nat)
    requires var ms := FindSegments(rangeString, 0);
             g < |ms| && j < |ca(IterateSele(ms[g]))|
    ensures var ms := FindSegments(rangeString, 0);
            var all := SegResidues(ms, ca);
            var r := RainbowCalls(rangeString, ca, rgb);
            && (r.Failure? <==> Total(all) == 1)
            && (r.Success? ==>
                  && |r.value| == Total(all)
                  && Offset(all, g) + j < Total(all)
                  && r.value[Offset(all, g) + j]
                     == ColorCall(ColorOf(rgb, Hue(Offset(all, g) + j, Total(all))),
                                  ResidueSele(ms[g].chain, ca(IterateSele(ms[g]))[j])))
  {
    var ms := FindSegments(rangeString, 0);
    var all := SegResidues(ms, ca);
    assert all[g] == Seg(ms[g].chain, ca(IterateSele(ms[g]))) by {
      SegResiduesAt(ms, ca);
    }
    if Total(all) != 1 {
      assert Total(all) >= 2 by {
        TotalSnoc(all, g);
        TotalMonotone(all, g + 1, |all|);
        assert all[..|all|] == all;
      }
      AllCallsAt(all, Total(all), rgb, g, j);
    }
  }
}
