# PyMOL domain scripts: a Dafny model

This project models the string and decision logic of three PyMOL scripts
from the ECOD domain pipeline, and proves what that logic guarantees.

- **domain_imgae.py** renders the images of one protein domain. It turns a
  domain range such as `A:12-80,B:-3-40` into a PyMOL selection with the
  deduplicated chain list (`range2sele`). It splits its optional arguments
  into a ligand annotation and assembly partner ranges. It sorts the
  ligand residues into spheres (single-atom HET groups) and sticks. It
  chooses cartoon or ribbon for the structure, chain and domain images from
  backbone-atom counts. It builds the chain, zoom and assembly selections.
  It also decides whether to turn a large structure so the domain faces the
  viewer (`rotateView`).
- **rainbow.py** colours a multi-chain domain along the rainbow in the
  order its segments are written. It scans the range string for segments,
  asks PyMOL for each segment's CA residues, ranks every residue globally,
  and gives residue `k` of `total` the hue `2/3 - 2/3*k/(total-1)`, packed
  to a hexadecimal RGB colour.
- **fetch.py** replaces PyMOL's `fetch` with `fetchd`. Each
  whitespace-separated code is classified as a PDB chain (`1astA`), a SCOP
  domain (`d1asta_`) or anything else. Chain and SCOP codes are loaded and
  shown in the publication preset. The first code of any other kind hands
  the whole list back to PyMOL's own `fetch` and ends the command.

Modules:

| file | module | contents |
|---|---|---|
| wrappers.dfy | `Wrappers` | `Option`, `Result`, and the Python exceptions the scripts raise |
| text.dfy | `Text` | the Python 2 string built-ins the scripts use (`split`, `join`, `strip`, `split()`, tuple unpacking), order-preserving deduplication, index escaping |
| range_pattern.dfy | `RangePattern` | the range regular expression `(-?[0-9]+[A-Z]?)-(-?[0-9]+[A-Z]?)` as a greedy scanner, proved equal to the regular expression's semantics |
| domain_image.dfy | `DomainImage` | domain_imgae.py |
| rainbow.dfy | `Rainbow` | rainbow.py |
| fetch.dfy | `Fetch` | fetch.py |

Each loop of the scripts is a Dafny `method` with loop invariants. Each is
proved equal to a specification function, such as `Range2Sele` to
`RangeSelection`, `ColorRainbow` to `RainbowCalls` and `Fetchd` to
`FetchdOutcome`. The properties the scripts promise are lemmas about those
functions.

Everything PyMOL or the network answers is a parameter:

- `resn` is the residue name `cmd.iterate` stores for a ligand selection, or `None` when the selection has no atom.
- `ca` is the list of CA residue numbers `cmd.iterate` collects for a rainbow segment.
- `rgb` is `colorsys.hsv_to_rgb` followed by `int(x * 255)`.
- `download` is the text the SCOP server returns for a URL.
- Atom counts are plain numbers, and CA depths are sequences of reals.

PyMOL calls that only render are recorded as values: `ColorCall` in the rainbow and `Action` in `fetchd`.

Where the code and its documentation disagree, the model follows the code:

- `range2sele` still emits a clause, with the raw range text, for a token whose range does not match the pattern. It prints a warning but does not skip the token.
- `rainbow` with exactly one residue divides by zero. Nothing guards against it.
- The SCOP pattern is anchored only at the start, so the eighth character of an eight-character code is not checked.
- `rainbow` computes escaped copies of the bounds but builds the `cmd.iterate` selection from the unescaped groups.

## Model

| member | source | states |
|---|---|---|
| Text.Split | domain_imgae.py:58 | `str.split(sep)` always yields at least one piece |
| Text.SplitPiecesLackSeparator | domain_imgae.py:58 | no piece of a split contains the separator |
| Text.JoinSplit | domain_imgae.py:58 | joining the pieces with the separator gives back the string |
| Text.SplitJoin | domain_imgae.py:58 | splitting a join of separator-free pieces gives back the pieces |
| Text.SplitCount | domain_imgae.py:58-59 | a split has one piece more than the separator has occurrences |
| Text.JoinAppend | domain_imgae.py:75 | joining a concatenation puts exactly one separator between the two joins |
| Text.Join | domain_imgae.py:75 | reference definition of `sep.join(parts)`: the parts with one separator between neighbours; JoinSplit, SplitJoin and JoinAppend are its properties |
| Text.IsPairCount | domain_imgae.py:59 | `c, r = i.split(':')` unpacks exactly when `:` occurs once |
| Text.SplitPair | domain_imgae.py:59 | unpacking succeeds exactly when the separator occurs once, and then the two pieces are the text before and after it, neither containing it; otherwise it raises naming the token |
| Text.ParsePairs | domain_imgae.py:58-59 | unpacking every token in turn gives one pair per token |
| Text.ParsePairsAt | domain_imgae.py:58-59 | after a successful unpack, pair `k` is token `k` split at its one separator |
| Text.ParsePairsSuccess | domain_imgae.py:58-59 | the loop unpacks every token exactly when every token holds the separator once |
| Text.ParsePairsFirstFailure | domain_imgae.py:58-59 | a failing loop raises on the first token that does not unpack |
| Text.ParsePairsFailureExtends | domain_imgae.py:58-59 | once a prefix of the tokens raises, the whole loop raises the same way |
| Text.ParsePairsRaises | domain_imgae.py:58-59 | when the tokens before `i` unpack and token `i` does not, the loop raises on token `i` |
| Text.TrimLeft | domain_imgae.py:72 | `lstrip` leaves no leading whitespace |
| Text.TrimLeftSuffix | domain_imgae.py:72 | `lstrip` removes a run of whitespace from the front and nothing else |
| Text.TrimRight | domain_imgae.py:72 | `rstrip` leaves no trailing whitespace |
| Text.TrimRightPrefix | domain_imgae.py:72 | `rstrip` removes a run of whitespace from the back and nothing else |
| Text.StripIsSlice | domain_imgae.py:72 | `strip` yields a slice of the string with only whitespace on either side, and the slice neither starts nor ends with whitespace |
| Text.Strip | domain_imgae.py:72 | reference definition of `strip()` as `rstrip` after `lstrip`; never longer than its input, and StripIsSlice characterises it |
| Text.WordLength | fetch.py:33 | the first word runs up to the first whitespace character |
| Text.SplitWhitespace | fetch.py:33 | `code.split()` yields only non-empty words without whitespace; SplitWhitespaceLayout shows they are the maximal runs |
| Text.SplitWhitespaceKeepsText | fetch.py:33 | the words laid end to end are exactly the non-whitespace characters of the code, in order |
| Text.SplitWhitespaceLayout | fetch.py:33 | the words are maximal runs: the code is the words woven with whitespace-only gaps, and every gap between two words is non-empty |
| Text.MapAt | domain_imgae.py:271 | a list comprehension applies the function at every position |
| Text.Dedup | domain_imgae.py:73-74 | de-duplication never lengthens the list |
| Text.DedupNonEmpty | domain_imgae.py:73-74 | de-duplicating a non-empty list leaves at least one entry |
| Text.FirstIndex | domain_imgae.py:73-74 | the position of the first occurrence holds the element, and no earlier position does |
| Text.DedupMembers | domain_imgae.py:73-74 | the de-duplicated list holds exactly the elements of the input, none twice |
| Text.DedupFirstOccurrenceOrder | domain_imgae.py:73-74 | the de-duplicated list is in the order of first occurrence |
| Text.EscapeShape | domain_imgae.py:66-69 | an escaped index never starts with `-` and is the index behind at most one added character |
| Text.EscapeRoundTrip | domain_imgae.py:66-69 | escaping can be undone, and changes an index exactly when the index starts with `-` |
| Text.Escape | domain_imgae.py:66-69 | reference definition: a backslash in front of an index that starts with `-`, nothing otherwise; EscapeShape and EscapeRoundTrip are its properties |
| RangePattern.DigitsFrom | domain_imgae.py:36 | a run of digits is counted to the first non-digit |
| RangePattern.DigitsFromDigits | domain_imgae.py:36 | every counted character is a digit |
| RangePattern.DigitsFromAtLeast | domain_imgae.py:36 | a run of `m` digits is counted in full |
| RangePattern.BoundAt | domain_imgae.py:36 | a bound found at `i` ends after `i` and within the string |
| RangePattern.BoundAtFound | domain_imgae.py:36 | the text found is in the language of `-?[0-9]+[A-Z]?` and has no hyphen after its sign |
| RangePattern.BoundAtLongest | domain_imgae.py:36 | every bound starting at `i` is found, and none is longer than the one reported |
| RangePattern.RangeAt | rainbow.py:25 | a range found at `p` has its hyphen after `p` and ends within the string |
| RangePattern.RangeAtSound | rainbow.py:25 | what the scanner reports at `p` is a match of the range pattern |
| RangePattern.RangeAtForced | rainbow.py:25 | any match at `p` has the scanner's hyphen and ends no later |
| RangePattern.RangeAtIsRegexMatch | rainbow.py:25 | the scanner matches at `p` exactly when the regular expression can, with the only possible hyphen and the longest end that backtracking reports |
| RangePattern.MatchesAtFromStart | domain_imgae.py:61 | a match at the start of the text is a match at position 0 |
| RangePattern.MatchRange | domain_imgae.py:61 | reference definition of `ptn.match(r).groups()`: the scanner run at position 0, its two groups cut out of `r`; MatchRangeIsRegexMatch ties it to the regular expression |
| RangePattern.MatchRangeSound | domain_imgae.py:61 | `ptn.match(r)` reports an actual match of the pattern |
| RangePattern.MatchRangeBounds | domain_imgae.py:61-65 | both groups of a match are bounds |
| RangePattern.MatchRangePrefix | domain_imgae.py:61-65 | the matched text is the start group, a hyphen and the end group, at the start of `r` |
| RangePattern.MatchRangeIsRegexMatch | domain_imgae.py:61 | `ptn.match` succeeds exactly when some prefix of `r` matches; the start group is forced and the end group is the longest |
| RangePattern.MatchRangeDetermined | domain_imgae.py:61-65 | a match reaching as far as any match fixes the reported groups |
| RangePattern.MatchRangeOfBounds | domain_imgae.py:61-65 | round trip: `lo-hi` with two bounds matches with exactly `lo` and `hi` as groups |
| RangePattern.MatchRangeIgnoresTail | domain_imgae.py:61-65 | text after the match does not change the groups |
| DomainImage.RangeTextOfMatch | domain_imgae.py:61-70 | a matching range is rebuilt as two escaped bounds around a hyphen; each bound reads back as its group, neither starts with `-`, and trailing text is dropped |
| DomainImage.RangeTextOfMalformed | domain_imgae.py:62-63 | a range that does not match is kept as written |
| DomainImage.RangeTextOfBounds | domain_imgae.py:65-70 | a well-formed `lo-hi` becomes exactly its escaped bounds |
| DomainImage.Malformed | domain_imgae.py:62-63 | there are at most as many warnings as tokens |
| DomainImage.MalformedMembers | domain_imgae.py:62-63 | a token is warned about exactly when its range part does not match |
| DomainImage.MalformedSnoc | domain_imgae.py:62-63 | one more token adds its own text to the warnings exactly when its range does not match |
| DomainImage.RangeSelection | domain_imgae.py:54-75 | reference definition of `range2sele`: unpack every token, then the clauses joined by spaced bars, the deduplicated stripped chains and the warnings; Range2Sele is proved equal to it and RangeSelectionFailure, RangeSelectionClauses, RangeSelectionChains and RangeSelectionWarnings state its meaning |
| DomainImage.EscapeRange | domain_imgae.py:61-70 | the rebuilt range text, and whether `ptn.match` matched |
| DomainImage.RangeSeleStep | domain_imgae.py:58-74 | one more token adds its clause, its stripped chain and possibly its warning |
| DomainImage.AddChain | domain_imgae.py:72-74 | the chain list stays the deduplication of the chains seen so far |
| DomainImage.RangeToken | domain_imgae.py:59-72 | one token raises exactly when it does not unpack; otherwise it yields its clause, its stripped chain and whether its range matched |
| DomainImage.Range2Sele | domain_imgae.py:54-75 | the loop returns exactly `RangeSelection` of its input, error case included, and the warnings it printed are exactly `PrintedWarnings` of its input, those printed before a raise included |
| DomainImage.RangeSelectionFailure | domain_imgae.py:58-59 | `range2sele` raises exactly when some token lacks exactly one `:`, naming the first such token |
| DomainImage.UnpackedTokens | domain_imgae.py:59 | each token is its chain part, a colon and its range part |
| DomainImage.RangeSelectionClauses | domain_imgae.py:58-75 | exactly one clause `c. C & i. R` per comma-separated token, in input order, joined by spaced bars |
| DomainImage.ChainsOfPairs | domain_imgae.py:72-74 | the chain IDs are the stripped chain parts; the list keeps them all, none twice, in first-occurrence order |
| DomainImage.RangeSelectionChains | domain_imgae.py:72-75 | the returned chains are the deduplicated stripped chain IDs, at least one |
| DomainImage.RangeSelectionWarnings | domain_imgae.py:62-63 | the warnings name exactly the tokens whose range does not match |
| DomainImage.MalformedPositions | domain_imgae.py:58-63 | warning `m` is the token at the `m`-th malformed position, and the positions increase |
| DomainImage.MalformedAtMembers | domain_imgae.py:58-63 | a position is listed exactly when the range part of its token does not match |
| DomainImage.RangeSelectionWarningOrder | domain_imgae.py:58-63 | one warning per malformed token, in token order: warning `m` is the token at the `m`-th increasing malformed position, and a position is malformed exactly when its range does not match |
| DomainImage.RangeSelectionMalformedClause | domain_imgae.py:62-71 | a token whose range does not match still gets its clause, with the range text as written |
| DomainImage.PrintedOfSuccess | domain_imgae.py:58-63 | when every token unpacks, the printed warnings are the warnings of all the malformed tokens |
| DomainImage.PrintedFailureExtends | domain_imgae.py:58-59 | once a token raises, the later tokens print nothing |
| DomainImage.PrintedAtFailure | domain_imgae.py:58-63 | when token `k` is the first that does not unpack, the loop raises there, and the printed warnings are those of the malformed tokens before it |
| DomainImage.RangeSelectionPrinted | domain_imgae.py:58-63 | on return the printed warnings are the returned ones; on a raise at token `k`, the tokens before `k` unpack and the printed warnings are those of their malformed ranges |
| DomainImage.LastLigandIsLast | domain_imgae.py:116-125 | no ligand exactly when every option has a hyphen; otherwise the ligand is the last option without one |
| DomainImage.AssemblyRangesMembers | domain_imgae.py:116-125 | the assembly ranges are exactly the options with a hyphen |
| DomainImage.PartitionOptions | domain_imgae.py:116-125 | the option loop yields the last ligand, the ranges in order, and one overwrite warning per extra ligand |
| DomainImage.OptionsPartition | domain_imgae.py:116-125 | every option is either a ligand annotation or an assembly range |
| DomainImage.SplitOptions | domain_imgae.py:116-125 | reference definition of the option loop: the last option without a hyphen, the options with one, and one overwrite warning per extra ligand; PartitionOptions is proved equal to it |
| DomainImage.AssemblyRangesAppend | domain_imgae.py:116-125 | assembly ranges keep their order: the ranges of a concatenation are the concatenated ranges |
| DomainImage.StoredNameNoAtoms | domain_imgae.py:185-192 | `stored.name` stays empty while no ligand selection has atoms |
| DomainImage.StoredNameLastMatch | domain_imgae.py:185-192 | otherwise it is the residue name of the last selection with atoms |
| DomainImage.StoredName | domain_imgae.py:185-192 | reference definition of `pymol.stored.name` after the `iterate` calls so far: the name of the last selection with atoms, or the empty string |
| DomainImage.SortLigands | domain_imgae.py:192-196 | reference definition of the sorting step: each selection joins the spheres when the stored name is in the single-atom set, and the sticks otherwise |
| DomainImage.LigandSelection | domain_imgae.py:183-196 | reference definition of the ligand loop: unpack every `c:i` token, build its selection and sort it; ClassifyLigands is proved equal to it |
| DomainImage.LigandSeleOf | domain_imgae.py:188-191 | a ligand token becomes the clause of its chain and its escaped index |
| DomainImage.FileLigand | domain_imgae.py:192-196 | one loop step keeps the stored name and the two lists equal to their specification |
| DomainImage.ClassifyLigands | domain_imgae.py:183-196 | the ligand loop returns exactly `LigandSelection`, error case included |
| DomainImage.SortLigandsPartition | domain_imgae.py:193-196 | the ligands are split between the two lists, as multisets |
| DomainImage.SortLigandsMembers | domain_imgae.py:193-196 | the two lists hold exactly the ligand selections |
| DomainImage.SortLigandsByOwnName | domain_imgae.py:193-196 | when every selection has atoms, a ligand is a sphere exactly when its residue name is in the single-atom set (lines 41-50) |
| DomainImage.AtomicLigands | domain_imgae.py:41-50 | the 95 single-atom residue names of `atomic_ligands` |
| DomainImage.AtomicMembers | domain_imgae.py:41-50 | zinc (`ZN`) and magnesium (`MG`) are single-atom ligands |
| DomainImage.HaemNotAtomic | domain_imgae.py:41-50 | haem (`HEM`) is not a single-atom ligand |
| DomainImage.AtomicLigandsSorted | domain_imgae.py:193-196 | with the script's own set and every selection having atoms, the spheres are exactly the single-atom ligands; a zinc or magnesium ligand is a sphere and a haem a stick |
| DomainImage.SortLigandsPrefix | domain_imgae.py:194-196 | sorting a longer list only appends, so each list keeps the input order |
| DomainImage.LigandSelectionClauses | domain_imgae.py:186-196 | each token `c:i` becomes `c. c & i. i` with `i` escaped, and lands in exactly one of the two lists |
| DomainImage.SparseBackboneInt | domain_imgae.py:221 | `n * 1.0 / ca < 0.33` is `100 n < 33 ca` |
| DomainImage.CountsChoice | domain_imgae.py:221-228 | trace atoms exactly when the ratio is below 0.33; cartoon exactly when it is not and there are at most 99999 atoms |
| DomainImage.PdbContext | domain_imgae.py:218-241 | structure context: no CA atom divides by zero; otherwise the choice above, drawn normally exactly when at most 499999 atoms, and ribbon when not |
| DomainImage.ChainContext | domain_imgae.py:271-287 | chain context: no CA atom gives ribbon without trace atoms; otherwise the choice above |
| DomainImage.DomainContext | domain_imgae.py:310-319 | domain context: no CA atom divides by zero; otherwise the choice above |
| DomainImage.RotateView | domain_imgae.py:96-110 | a front without CA atoms returns False and does not turn; a back without CA atoms divides by zero; the view turns only when it returns True |
| DomainImage.RotateViewCompares | domain_imgae.py:103-109 | the view turns exactly when the front's mean depth is below the back's |
| DomainImage.MeanBelow | domain_imgae.py:103-108 | comparing two means is comparing the cross-multiplied sums |
| DomainImage.ChainSelectionAppend | domain_imgae.py:271 | one chain gives `c. C`; each further chain adds a spaced bar and `c. C` |
| DomainImage.ChainSelection | domain_imgae.py:271 | reference definition of `chain_sele`: `c. C` for each chain, joined by spaced bars; ChainSelectionAppend states how it grows |
| DomainImage.ZoomTarget | domain_imgae.py:289-294 | the zoom target is the base, then the sticks, then the spheres, joined by spaced bars, each list only when non-empty |
| DomainImage.AssemblyParts | domain_imgae.py:308 | on success, one partner selection per partner range |
| DomainImage.AssemblyPartsAt | domain_imgae.py:308 | partner `k` contributes its own `range2sele` selection |
| DomainImage.AssemblyPartsSuccess | domain_imgae.py:308 | the partner selections exist exactly when every partner range unpacks |
| DomainImage.AssembleDomain | domain_imgae.py:306-308 | the `sele +=` accumulation returns exactly `AssemblySelection`, error case included |
| DomainImage.JoinSnoc | domain_imgae.py:308 | appending a spaced bar and a part to a join is joining one more part |
| DomainImage.AssemblyFailureExtends | domain_imgae.py:308 | once a prefix of the partners raises, the whole list raises the same way |
| DomainImage.AssemblySelection | domain_imgae.py:306-308 | reference definition of the assembly selection: the domain selection and each partner's `range2sele` selection, joined by spaced bars, or the first partner's error; AssembleDomain is proved equal to it |
| Rainbow.SegAt | rainbow.py:25 | a segment found at `p` starts at `p` and ends within the string |
| Rainbow.SegAtSound | rainbow.py:25 | the text of a segment is one `[A-Za-z0-9]` chain, a colon and two bounds around a hyphen |
| Rainbow.SegAtIsRegexMatch | rainbow.py:25 | a segment is found at `p` exactly when `seg_ptn` can match there, with the groups backtracking reports |
| Rainbow.FindSegments | rainbow.py:27 | reference definition of `finditer` from a position: a match resumes the scan at its end and a miss moves one position on; FindSegmentsSound, FindSegmentsOrdered and FindSegmentsComplete state its meaning |
| Rainbow.FindSegmentsSound | rainbow.py:27 | every segment found is the pattern's match at its own start |
| Rainbow.FindSegmentsOrdered | rainbow.py:27 | the segments come in string order and do not overlap |
| Rainbow.FindSegmentsCovers | rainbow.py:27 | every position where the pattern matches lies inside some segment found |
| Rainbow.FindSegmentsComplete | rainbow.py:27 | no match is skipped by the scan from the start |
| Rainbow.SegResidues | rainbow.py:27-37 | one `all_resi` entry per segment |
| Rainbow.SegResiduesAt | rainbow.py:28-37 | entry `k` is segment `k`'s chain with the residues looked up for its selection |
| Rainbow.IterateSeleUnescaped | rainbow.py:30-36 | the `cmd.iterate` selection never carries an escape; it differs from the escaped one exactly when a bound is negative |
| Rainbow.BoundHasNoBackslash | rainbow.py:25 | a bound contains no backslash |
| Rainbow.SelectionsOfBounds | rainbow.py:30-36 | for one segment, the selection used equals the escaped one exactly when neither bound is negative |
| Rainbow.RankOnto | rainbow.py:39-50 | every rank below `total` belongs to some residue |
| Rainbow.RankInjective | rainbow.py:41-50 | distinct residues get distinct ranks |
| Rainbow.Total | rainbow.py:39 | reference definition of the `reduce`: the residue list lengths added up segment by segment |
| Rainbow.TotalMonotone | rainbow.py:39 | the earlier segments hold no more residues than a longer prefix |
| Rainbow.HueEnds | rainbow.py:45 | the first residue has hue 2/3, the last hue 0 |
| Rainbow.Hue | rainbow.py:45 | reference definition of `TWO_THIRD - TWO_THIRD * cnt / (total - 1)` in exact reals; HueEnds and HueDecreasing are its properties |
| Rainbow.HueDecreasing | rainbow.py:45 | the hue falls strictly with the rank and stays in [0, 2/3] |
| Rainbow.PackUnpack | rainbow.py:47-48 | the packed colour fits in 24 bits and gives back its three channels |
| Rainbow.Pack | rainbow.py:47-48 | reference definition of the shifted sum of the three channels; PackUnpack is its property |
| Rainbow.HexDigits | rainbow.py:47 | `hex` writes at least one digit |
| Rainbow.HexDigitsRoundTrip | rainbow.py:47 | the digits of `hex(n)` read back as `n` |
| Rainbow.HexDigitsLeading | rainbow.py:47 | `hex(n)` has a leading zero only for `n = 0` |
| Rainbow.HexDigitsAlphabet | rainbow.py:47 | `hex(n)` writes only the digits `0`-`9` and `a`-`f` |
| Rainbow.Hex | rainbow.py:47 | reference definition of `hex(n)` for a non-negative integer: `0x` and the digits |
| Rainbow.CollectResidues | rainbow.py:26-37 | the segment loop builds `all_resi` as specified |
| Rainbow.RankColor | rainbow.py:45-48 | the colour of rank `cnt` is the hex colour of its hue |
| Rainbow.SegCalls | rainbow.py:44-50 | one colour call per residue of a segment |
| Rainbow.SegCallsAt | rainbow.py:44-50 | call `i` of a segment colours residue `i` with the hue of rank `k0 + i` |
| Rainbow.AllCalls | rainbow.py:41-50 | one colour call per residue, `total` in all |
| Rainbow.AllCallsAt | rainbow.py:41-50 | residue `j` of segment `g` gets call number `Offset(g) + j`, which colours that residue with the hue of that rank |
| Rainbow.AllCallsLast | rainbow.py:41-50 | the calls of the last segment come after those of all earlier segments |
| Rainbow.AllCallsFront | rainbow.py:41-50 | adding a segment keeps the calls of the earlier segments |
| Rainbow.ColorSegment | rainbow.py:44-50 | the inner loop divides by zero exactly when `total` is 1 and the segment has residues; otherwise it makes the segment's calls |
| Rainbow.ColorRainbow | rainbow.py:6-50 | `rainbow` makes exactly the calls of `RainbowCalls`, or raises its division by zero |
| Rainbow.RainbowCalls | rainbow.py:25-50 | reference definition of `rainbow`: the segments found, their residues, and one colour call per residue, or the division by zero when `total` is 1; ColorRainbow is proved equal to it and RainbowColorsEachResidue states its meaning |
| Rainbow.RainbowColorsEachResidue | rainbow.py:39-50 | `rainbow` fails exactly when there is one residue; otherwise it makes one call per residue, and residue `j` of segment `g` is coloured with the hue of rank `Offset(g) + j` |
| Fetch.Classify | fetch.py:35-44 | a chain code is its four-character PDB id followed by its chain id; a SCOP code is the code itself |
| Fetch.ChainCodeRoundTrip | fetch.py:35-38 | round trip: every PDB id and chain id glued together classifies back as that pair |
| Fetch.ScopEighthUnconstrained | fetch.py:24 | any eighth character after a 7-character SCOP code still gives a SCOP code |
| Fetch.EscapeNewlines | fetch.py:52 | escaping never shortens the text |
| Fetch.EscapeNewlinesLength | fetch.py:52 | the escaped length is the length plus the number of newlines |
| Fetch.EscapeNewlinesHead | fetch.py:52 | escaped text never starts with a newline |
| Fetch.EscapeNewlinesNoBareNewline | fetch.py:52 | every newline in the escaped text follows a backslash |
| Fetch.EscapeNewlinesRoundTrip | fetch.py:52 | removing the escapes gives back the downloaded text |
| Fetch.FirstPlain | fetch.py:34-56 | the first code of neither kind is at or before the end of the list |
| Fetch.FirstPlainAt | fetch.py:34-56 | scanning up to it, the loop stops exactly at the first code of neither kind |
| Fetch.FirstPlainSpec | fetch.py:34-56 | every code before that position is a chain or SCOP code; the code there, if any, is neither |
| Fetch.HandleCode | fetch.py:35-56 | one loop body handles exactly chain and SCOP codes, appending their calls in source order |
| Fetch.HandleCodes | fetch.py:33-56 | the loop with its early return produces exactly `CodesOutcome` |
| Fetch.CodesOutcome | fetch.py:33-56 | reference definition of the code loop: the calls of every code before the first code of neither kind, then the handover if there is one; CodesPublish and CodesDelegate state its meaning |
| Fetch.HandOver | fetch.py:54-56 | at the first code of neither kind, every code is joined by spaces and handed to PyMOL's `fetch` |
| Fetch.Fetchd | fetch.py:7-56 | `fetchd` produces exactly `FetchdOutcome` |
| Fetch.FetchdOutcome | fetch.py:27-56 | reference definition of `fetchd`: a type other than `pdb` is handed over at once, and otherwise the code loop runs on `code.split()` |
| Fetch.PublishedAppend | fetch.py:35-53 | the selections shown by two runs of calls are those of each run, in order |
| Fetch.PublishedNone | fetch.py:36-42 | calls without a publication show nothing |
| Fetch.PublishedCode | fetch.py:35-53 | a chain or SCOP code shows exactly one selection: `chain`+id or the code |
| Fetch.HandledBeforeFirstPlain | fetch.py:34-56 | all codes before the first code of neither kind are handled |
| Fetch.PublishedSteps | fetch.py:34-53 | handled codes show their selections one each, in order |
| Fetch.CodesDelegate | fetch.py:34-56 | the codes are handed over exactly when some code is of neither kind |
| Fetch.CodesPublish | fetch.py:33-56 | one selection is shown per code before the first code of neither kind, in order, and none after |
| Fetch.PublishedHandOver | fetch.py:55-56 | handing over shows nothing |
| Fetch.CodesDelegateLast | fetch.py:54-56 | a handover is the last call and passes all codes, those already handled included, joined by single spaces |
| Fetch.FetchdOtherType | fetch.py:28-30 | any type other than `pdb` is handed over at once with the arguments unchanged |

## Left out

- All rendering is left out: `cmd.load`, `show`, `hide`, `color` of the
  image scripts, `spectrum`, `orient`, `zoom`, `png`, `save` and
  `set`/`bg_color`. Only the selections and representation choices they
  are given are modelled.
- The choice between `rainbow(r)` and `cmd.spectrum` at domain_imgae.py
  lines 172-175 and 259-262 is left out. It is a single length test on the
  chain list.
- The Gaussian map, isosurface, ramp and transparency settings of the large
  structure image are renderer numerics and are left out.
- `current_coord` and `sele2CA_list` are left out: they apply the view
  matrix to atom coordinates. `rotateView` is given the view-space depths
  of the CA atoms directly.
- The filesystem and process work is left out: path templates,
  `os.makedirs` and `chdir`, gzip and temporary-file decompression, the
  `sys.argv` length check and `sys.exit`.
- Python floats are modelled as exact reals. This covers the `0.33`
  ratio test, the hue, and the mean depths. As a result
  `DomainImage.SparseBackboneInt` and `Rainbow.HueDecreasing` ignore
  rounding.
- `colorsys.hsv_to_rgb` and `int(x * 255)` are the parameter `rgb`,
  because they are floating-point conversions. Shifts in the colour
  packing are written as multiplications by 65536 and 256.
- `cmd.iterate` is a parameter. For a ligand it is `resn`, which yields the
  name stored by the last atom or `None`. For a rainbow segment it is
  `ca`, which yields the CA residue numbers in PyMOL's order.
- The set of single-atom ligands is a parameter of the ligand sorting.
  The script's set is the constant `DomainImage.AtomicLigands`.
- In fetch.py, `urllib2`, the proxy handler and the HTTP request are left
  out. The request is recorded as `OpenUrl` with the proxy, if any, and
  its reply is the parameter `download`.
- What PyMOL's own `fetch` (`pymol_fetch`) does and returns is left
  out. The model records each call to it with its arguments.
- The `int(quiet)` and `int(async)` conversions in fetchd are left out,
  and so are the errors they raise: the model takes integers.
- The messages `fetchd` prints are the three values of `Fetch.Message`.
  `MessageText` gives their text.
- Keyword arguments are a map from names to strings. Only `proxy` is
  inspected; the others are passed through unchanged.
- `fetchd.__doc__` and the `cmd.extend` registrations are left out.
- Among the printed messages of domain_imgae.py, only the warnings of the
  domain range and the count of ligand-overwrite warnings are modelled.
  The domain-range warnings are modelled whether `range2sele` returns or
  raises (`PrintedWarnings`).
- `DomainImage.AssemblyParts` keeps only the selection of each assembly
  partner's `range2sele` call, so the malformed-range warnings those calls
  print (domain_imgae.py line 308, through lines 62-63) are not modelled.
- `Fetch.Fetchd` takes every argument explicitly. The defaults of
  fetch.py line 7 (`name=''`, `type='pdb'`, `quiet=1`, `async=-1`) are
  left to the caller.
- `Text.SplitWhitespace` treats only ASCII whitespace (codes 9 to 13 and
  32) as separators, as Python 2 byte strings do.
