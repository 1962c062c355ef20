/** fetch.py: `fetchd`, the wrapper that replaces PyMOL's `fetch` command.

    Every whitespace-separated code is sorted by its length and by two
    regular expressions into a PDB chain (`1astA`), a SCOP domain
    (`d1asta_`) or something else.  A chain code fetches its entry, hides
    everything and shows the chain in the publication preset; a SCOP code
    downloads the domain's PDB text and shows it the same way; the first
    code of any other kind hands the whole list back to PyMOL's own `fetch`
    and ends the command.

    The calls into PyMOL and the network are recorded as `Action`s; the
    text the SCOP server returns comes from the oracle `download`. */
module Fetch {
  import opened Wrappers
  import opened Text
  import opened RangePattern

  // ---------------------------------------------------------------------
  // ptn_chain and ptn_scop

  /** `[a-z0-9]`. */
  predicate IsLowerOrDigit(c: char) {
    ('a' <= c <= 'z') || IsDigit(c)
  }

  /** `ptn_chain.match(code)`: `[0-9]{1}[A-Za-z0-9]{3}[A-Za-z0-9]{1}` at the
      start of `code`. */
  predicate ChainPrefix(code: string) {
    |code| >= 5 && IsDigit(code[0]) && IsAlnum(code[1]) && IsAlnum(code[2]) && IsAlnum(code[3]) && IsAlnum(code[4])
  }

  /** `ptn_scop.match(code)`: `d[a-z0-9]{4}[A-Za-z0-9.]{1}[0-9_]{1,2}` at the
      start of `code`.  The repetition `{1,2}` needs one character and only
      takes a second when there is one, so whatever follows the seventh
      character does not decide the match. */
  predicate ScopPrefix(code: string) {
    && |code| >= 7
    && code[0] == 'd'
    && IsLowerOrDigit(code[1]) && IsLowerOrDigit(code[2]) && IsLowerOrDigit(code[3]) && IsLowerOrDigit(code[4])
    && (IsAlnum(code[5]) || code[5] == '.')
    && (IsDigit(code[6]) || code[6] == '_')
  }

  /** What `fetchd` makes of one code. */
  datatype Kind =
    | PdbChain(pdbId: string, chainId: char)  // code[:4] and code[4]
    | ScopDomain(sid: string)
    | Plain

  /** The two tests of the loop, in their order. */
  function Classify(code: string): (k: Kind)
    ensures k.PdbChain? ==> |k.pdbId| == 4 && k.pdbId + [k.chainId] == code
    ensures k.ScopDomain? ==> k.sid == code
  {
    if |code| == 5 && ChainPrefix(code) then PdbChain(code[..4], code[4])
    else if (|code| == 7 || |code| == 8) && ScopPrefix(code) then ScopDomain(code)
    else Plain
  }

  predicate IsPlain(code: string) {
    Classify(code).Plain?
  }

  /** A chain code is a four-character PDB identifier starting with a digit
      followed by an alphanumeric chain, and every such pair is read back as
      itself. */
  lemma ClassifyChain(code: string)
    ensures Classify(code).PdbChain? <==>
              |code| == 5 && IsDigit(code[0]) && forall k :: 1 <= k < 5 ==> IsAlnum(code[k])
  {
  }

  lemma ChainCodeRoundTrip(pdbId: string, chainId: char)
    requires |pdbId| == 4 && IsDigit(pdbId[0]) && IsAlnum(pdbId[1]) && IsAlnum(pdbId[2]) && IsAlnum(pdbId[3])
    requires IsAlnum(chainId)
    ensures Classify(pdbId + [chainId]) == PdbChain(pdbId, chainId)
  {
    var code := pdbId + [chainId];
    assert code[..4] == pdbId;
    assert forall k :: 1 <= k < 5 ==> IsAlnum(code[k]) by {
      forall k | 1 <= k < 5 ensures IsAlnum(code[k]) {
        if k < 4 {
          assert code[k] == pdbId[k];
        }
      }
    }
  }

  /** A SCOP code has seven or eight characters, and the eighth, when there
      is one, can be any character at all. */
  lemma ClassifyScop(code: string)
    ensures Classify(code).ScopDomain? <==> (|code| == 7 || |code| == 8) && ScopPrefix(code)
  {
  }

  lemma ScopEighthUnconstrained(sid: string, c: char)
    requires |sid| == 7 && Classify(sid).ScopDomain?
    ensures Classify(sid + [c]) == ScopDomain(sid + [c])
  {
    var code := sid + [c];
    assert forall k :: 0 <= k < 7 ==> code[k] == sid[k];
    assert ScopPrefix(code);
  }

  // ---------------------------------------------------------------------
  // content.replace('\n', '\\\n')

  /** Every newline preceded by a backslash, left to right. */
  function EscapeNewlines(s: string): (t: string)
    ensures |t| >= |s|
  {
    if s == [] then []
    else (if s[0] == '\n' then "\\\n" else [s[0]]) + EscapeNewlines(s[1..])
  }

  /** The number of newlines in `s`. */
  function Newlines(s: string): nat {
    if s == [] then 0 else (if s[0] == '\n' then 1 else 0) + Newlines(s[1..])
  }

  /** Removing the backslash in front of each escaped newline. */
  function UnescapeNewlines(t: string): string
    decreases |t|
  {
    if t == [] then []
    else if |t| >= 2 && t[0] == '\\' && t[1] == '\n' then "\n" + UnescapeNewlines(t[2..])
    else [t[0]] + UnescapeNewlines(t[1..])
  }

  /** Each newline adds exactly one character. */
  lemma {:induction false} EscapeNewlinesLength(s: string)
    ensures |EscapeNewlines(s)| == |s| + Newlines(s)
  {
    if s != [] {
      EscapeNewlinesLength(s[1..]);
    }
  }

  /** The escaped text never starts with a newline. */
  lemma EscapeNewlinesHead(s: string)
    requires s != []
    ensures EscapeNewlines(s)[0] != '\n'
  {
  }

  /** Every newline of the escaped text follows a backslash. */
  lemma {:induction false} EscapeNewlinesNoBareNewline(s: string)
    ensures var t := EscapeNewlines(s);
            forall k :: 0 <= k < |t| && t[k] == '\n' ==> k > 0 && t[k - 1] == '\\'
  {
    if s != [] {
      EscapeNewlinesNoBareNewline(s[1..]);
      var head := if s[0] == '\n' then "\\\n" else [s[0]];
      var rest := EscapeNewlines(s[1..]);
      var t := head + rest;
      assert EscapeNewlines(s) == t;
      if s[1..] != [] {
        EscapeNewlinesHead(s[1..]);
      }
      forall k | 0 <= k < |t| && t[k] == '\n'
        ensures k > 0 && t[k - 1] == '\\'
      {
        if k >= |head| {
          assert t[k] == rest[k - |head|];
          if k > |head| {
            assert t[k - 1] == rest[k - 1 - |head|];
          }
        }
      }
    }
  }

  /** The escaping loses nothing: removing it gives back the text. */
  lemma {:induction false} EscapeNewlinesRoundTrip(s: string)
    ensures UnescapeNewlines(EscapeNewlines(s)) == s
  {
    if s != [] {
      var rest := EscapeNewlines(s[1..]);
      EscapeNewlinesRoundTrip(s[1..]);
      if s[0] == '\n' {
        var t := "\\\n" + rest;
        assert EscapeNewlines(s) == t;
        assert t[2..] == rest;
      } else {
        var t := [s[0]] + rest;
        assert EscapeNewlines(s) == t;
        assert t[1..] == rest;
        if s[0] == '\\' && rest != [] {
          EscapeNewlinesHead(s[1..]);
          assert t[1] == rest[0];
        }
      }
      assert [s[0]] + s[1..] == s;
    }
  }

  // ---------------------------------------------------------------------
  // The calls fetchd makes

  /** The three messages `fetchd` prints. */
  datatype Message = FetchingChain | FetchingScop | NormalFetch

  function MessageText(m: Message): string {
    match m
    case FetchingChain => "Fetching PDB chain..."
    case FetchingScop => "Fetching SCOP domain..."
    case NormalFetch => "Normal pymol fetch..."
  }

  /** A call into PyMOL or the network, or a message printed. */
  datatype Action =
    | Say(message: Message)
    | PymolFetch(code: string, name: string, fetchType: Option<string>, quiet: int, async: int, kwargs: map<string, string>)
    | HideEverything
    | Select(name: string, sele: string)
    | Deselect
    | OpenUrl(url: string, proxy: Option<string>)
    | ReadPdbStr(pdb: string, name: string)
    | Publication(sele: string)

  /** `scop_url % code`. */
  function ScopUrl(code: string): string {
    "http://scop.berkeley.edu/astral/pdbstyle/?id=" + code + "&output=html"
  }

  /** The selection name and the selection of a chain. */
  function ChainName(chainId: char): string {
    "chain" + [chainId]
  }

  function ChainSele(pdbId: string, chainId: char): string {
    pdbId + " and chain " + [chainId]
  }

  /** The proxy named in the keyword arguments, if any. */
  function Proxy(kwargs: map<string, string>): Option<string> {
    if "proxy" in kwargs then Some(kwargs["proxy"]) else None
  }

  /** What a chain code does before showing the chain: fetch its entry
      synchronously, hide everything and select the chain. */
  function ChainLoad(pdbId: string, chainId: char, name: string, quiet: int, kwargs: map<string, string>): seq<Action> {
    [ Say(FetchingChain),
      PymolFetch(pdbId, name, Some("pdb"), quiet, 0, kwargs),
      HideEverything,
      Select(ChainName(chainId), ChainSele(pdbId, chainId)),
      Deselect ]
  }

  /** What a SCOP code does before showing the domain: download it and
      load its text under the code's name. */
  function ScopLoad(sid: string, kwargs: map<string, string>, download: string -> string): seq<Action> {
    [ Say(FetchingScop),
      OpenUrl(ScopUrl(sid), Proxy(kwargs)),
      ReadPdbStr(EscapeNewlines(download(ScopUrl(sid))), sid) ]
  }

  /** The selection a handled code ends up showing. */
  function Shown(code: string): string {
    match Classify(code)
    case PdbChain(_, chainId) => ChainName(chainId)
    case ScopDomain(sid) => sid
    case Plain => ""
  }

  /** The calls for one code handled by `fetchd` itself, the last of which
      shows it in the publication preset; a code of neither kind is not
      handled here. */
  function CodeActions(code: string, name: string, quiet: int, kwargs: map<string, string>, download: string -> string): seq<Action> {
    match Classify(code)
    case PdbChain(pdbId, chainId) => ChainLoad(pdbId, chainId, name, quiet, kwargs) + [Publication(Shown(code))]
    case ScopDomain(sid) => ScopLoad(sid, kwargs, download) + [Publication(Shown(code))]
    case Plain => []
  }

  /** The calls for a run of codes, one code after the other. */
  function Steps(codes: seq<string>, name: string, quiet: int, kwargs: map<string, string>, download: string -> string): seq<Action> {
    if codes == [] then []
    else Steps(codes[..|codes| - 1], name, quiet, kwargs, download) + CodeActions(codes[|codes| - 1], name, quiet, kwargs, download)
  }

  lemma StepsSnoc(codes: seq<string>, i: nat, name: string, quiet: int, kwargs: map<string, string>, download: string -> string)
    requires i < |codes|
    ensures Steps(codes[..i + 1], name, quiet, kwargs, download)
            == Steps(codes[..i], name, quiet, kwargs, download) + CodeActions(codes[i], name, quiet, kwargs, download)
  {
    assert codes[..i + 1][..i] == codes[..i];
  }

  /** The position of the first code of neither kind, or the number of
      codes when there is none. */
  function FirstPlain(codes: seq<string>): (i: nat)
    ensures i <= |codes|
  {
    if codes == [] then 0 else if IsPlain(codes[0]) then 0 else 1 + FirstPlain(codes[1..])
  }

  /** Scanning on from a position not past the first code of neither kind:
      the scan stops at that position exactly when its code is of neither
      kind. */
  lemma {:induction false} FirstPlainAt(codes: seq<string>, i: nat)
    requires i <= FirstPlain(codes) && i < |codes|
    ensures IsPlain(codes[i]) <==> FirstPlain(codes) == i
  {
    if i > 0 {
      FirstPlainAt(codes[1..], i - 1);
    }
  }

  lemma {:induction false} FirstPlainSpec(codes: seq<string>)
    ensures forall k :: 0 <= k < FirstPlain(codes) ==> !IsPlain(codes[k])
    ensures FirstPlain(codes) < |codes| ==> IsPlain(codes[FirstPlain(codes)])
  {
    if codes != [] && !IsPlain(codes[0]) {
      FirstPlainSpec(codes[1..]);
      assert forall k :: 1 <= k < |codes| ==> codes[k] == codes[1..][k - 1];
    }
  }

  /** The result of a `fetchd` call: the calls it made, and whether it
      returned by handing over to PyMOL's `fetch`. */
  datatype Outcome = Outcome(actions: seq<Action>, delegated: bool)

  /** The call that hands the codes back to PyMOL's `fetch`. */
  function Delegate(codes: seq<string>, name: string, quiet: int, async: int, kwargs: map<string, string>): seq<Action> {
    [Say(NormalFetch), PymolFetch(Join(codes, " "), name, None, quiet, async, kwargs)]
  }

  /** The codes of a PDB fetch, handled in order up to the first one of
      neither kind, where the whole list is handed over. */
  function CodesOutcome(codes: seq<string>, name: string, quiet: int, async: int,
                        kwargs: map<string, string>, download: string -> string): Outcome
  {
    var i := FirstPlain(codes);
    var steps := Steps(codes[..i], name, quiet, kwargs, download);
    if i == |codes| then Outcome(steps, false) else Outcome(steps + Delegate(codes, name, quiet, async, kwargs), true)
  }

  /** `fetchd(code, name, type, quiet, async, **kwargs)`. */
  function FetchdOutcome(code: string, name: string, fetchType: string, quiet: int, async: int,
                         kwargs: map<string, string>, download: string -> string): Outcome
  {
    if fetchType != "pdb" then Outcome([PymolFetch(code, name, Some(fetchType), quiet, async, kwargs)], true)
    else CodesOutcome(SplitWhitespace(code), name, quiet, async, kwargs, download)
  }

  // ---------------------------------------------------------------------
  // The loop

  /** One code: the two tests, and for a chain or SCOP code the calls in
      the order they are made. */
  method HandleCode(actions: seq<Action>, code: string, name: string, quiet: int,
                    kwargs: map<string, string>, download: string -> string)
    returns (actions': seq<Action>, handled: bool)
    ensures handled <==> !IsPlain(code)
    ensures actions' == actions + CodeActions(code, name, quiet, kwargs, download)
  {
    actions' := actions;
    handled := true;
    if |code| == 5 && ChainPrefix(code) {
      var pdbId := code[..4];
      var chainId := code[4];
      actions' := actions' + [Say(FetchingChain)];
      actions' := actions' + [PymolFetch(pdbId, name, Some("pdb"), quiet, 0, kwargs)];
      actions' := actions' + [HideEverything];
      actions' := actions' + [Select("chain" + [chainId], pdbId + " and chain " + [chainId])];
      actions' := actions' + [Deselect];
      actions' := actions' + [Publication("chain" + [chainId])];
    } else if (|code| == 7 || |code| == 8) && ScopPrefix(code) {
      actions' := actions' + [Say(FetchingScop)];
      var proxy := if "proxy" in kwargs then Some(kwargs["proxy"]) else None;
      var url := "http://scop.berkeley.edu/astral/pdbstyle/?id=" + code + "&output=html";
      actions' := actions' + [OpenUrl(url, proxy)];
      var content := download(url);
      actions' := actions' + [ReadPdbStr(EscapeNewlines(content), code)];
      actions' := actions' + [Publication(code)];
    } else {
      handled := false;
    }
  }

  /** The `for code in list(code_list)` loop, which returns early at the
      first code of neither kind. */
  method HandleCodes(codeList: seq<string>, name: string, quiet: int, async: int,
                     kwargs: map<string, string>, download: string -> string) returns (out: Outcome)
    ensures out == CodesOutcome(codeList, name, quiet, async, kwargs, download)
  {
    var actions: seq<Action> := [];
    for i := 0 to |codeList|
      invariant i <= FirstPlain(codeList)
      invariant actions == Steps(codeList[..i], name, quiet, kwargs, download)
    {
      var handled;
      actions, handled := HandleCode(actions, codeList[i], name, quiet, kwargs, download);
      FirstPlainAt(codeList, i);
      if !handled {
        out := HandOver(actions, codeList, name, quiet, async, kwargs, download);
        return;
      }
      StepsSnoc(codeList, i, name, quiet, kwargs, download);
    }
    out := Outcome(actions, false);
  }

  /** `return pymol_fetch(' '.join(code_list), ...)` at the first code of
      neither kind. */
  method HandOver(actions: seq<Action>, codeList: seq<string>, name: string, quiet: int, async: int,
                  kwargs: map<string, string>, download: string -> string) returns (out: Outcome)
    requires FirstPlain(codeList) < |codeList|
    requires actions == Steps(codeList[..FirstPlain(codeList)], name, quiet, kwargs, download)
    ensures out == CodesOutcome(codeList, name, quiet, async, kwargs, download)
  {
    var joined := Join(codeList, " ");
    out := Outcome(actions + [Say(NormalFetch), PymolFetch(joined, name, None, quiet, async, kwargs)], true);
  }

  /** `fetchd`: delegate anything that is not a PDB fetch; otherwise split
      the codes on whitespace and handle them. */
  method Fetchd(code: string, name: string, fetchType: string, quiet: int, async: int,
                kwargs: map<string, string>, download: string -> string) returns (out: Outcome)
    ensures out == FetchdOutcome(code, name, fetchType, quiet, async, kwargs, download)
  {
    if fetchType != "pdb" {
      return Outcome([PymolFetch(code, name, Some(fetchType), quiet, async, kwargs)], true);
    }
    var codeList := SplitWhitespace(code);
    out := HandleCodes(codeList, name, quiet, async, kwargs, download);
  }

  // ---------------------------------------------------------------------
  // What a call achieves

  /** The selections shown in the publication preset, in order. */
  function Published(actions: seq<Action>): seq<string> {
    if actions == [] then []
    else
      var last := actions[|actions| - 1];
      Published(actions[..|actions| - 1]) + (if last.Publication? then [last.sele] else [])
  }

  lemma {:induction false} PublishedAppend(a: seq<Action>, b: seq<Action>)
    ensures Published(a + b) == Published(a) + Published(b)
  {
    if b != [] {
      var init := b[..|b| - 1];
      PublishedAppend(a, init);
      var last := b[|b| - 1];
      var tail := if last.Publication? then [last.sele] else [];
      assert (a + b)[..|a + b| - 1] == a + init;
      assert (a + b)[|a + b| - 1] == last;
      assert Published(a + b) == Published(a + init) + tail;
      assert Published(b) == Published(init) + tail;
      assert (Published(a) + Published(init)) + tail == Published(a) + (Published(init) + tail);
    } else {
      assert a + b == a;
    }
  }

  lemma {:induction false} PublishedNone(actions: seq<Action>)
    requires forall k :: 0 <= k < |actions| ==> !actions[k].Publication?
    ensures Published(actions) == []
  {
    if actions != [] {
      PublishedNone(actions[..|actions| - 1]);
    }
  }

  /** A handled code shows exactly one selection. */
  lemma PublishedCode(code: string, name: string, quiet: int, kwargs: map<string, string>, download: string -> string)
    requires !IsPlain(code)
    ensures Published(CodeActions(code, name, quiet, kwargs, download)) == [Shown(code)]
  {
    var load := match Classify(code)
      case PdbChain(pdbId, chainId) => ChainLoad(pdbId, chainId, name, quiet, kwargs)
      case _ => ScopLoad(code, kwargs, download);
    assert CodeActions(code, name, quiet, kwargs, download) == load + [Publication(Shown(code))];
    PublishedNone(load);
    assert (load + [Publication(Shown(code))])[..|load|] == load;
  }

  /** Every code of `codes` is a chain or a SCOP code. */
  predicate AllHandled(codes: seq<string>) {
    codes == [] || (AllHandled(codes[..|codes| - 1]) && !IsPlain(codes[|codes| - 1]))
  }

  /** The codes before the first code of neither kind are all handled. */
  lemma {:induction false} HandledBeforeFirstPlain(codes: seq<string>, i: nat)
    requires i <= FirstPlain(codes)
    ensures AllHandled(codes[..i])
  {
    if i > 0 {
      HandledBeforeFirstPlain(codes, i - 1);
      FirstPlainAt(codes, i - 1);
      assert codes[..i][..i - 1] == codes[..i - 1];
    }
  }

  lemma {:induction false} PublishedSteps(codes: seq<string>, name: string, quiet: int, kwargs: map<string, string>, download: string -> string)
    requires AllHandled(codes)
    ensures Published(Steps(codes, name, quiet, kwargs, download)) == Map(Shown, codes)
  {
    if codes != [] {
      var init, last := codes[..|codes| - 1], codes[|codes| - 1];
      var front, here := Steps(init, name, quiet, kwargs, download), CodeActions(last, name, quiet, kwargs, download);
      assert Published(front) == Map(Shown, init) by {
        PublishedSteps(init, name, quiet, kwargs, download);
      }
      assert Published(here) == [Shown(last)] by {
        PublishedCode(last, name, quiet, kwargs, download);
      }
      assert Published(front + here) == Published(front) + Published(here) by {
        PublishedAppend(front, here);
      }
      assert Map(Shown, codes) == Map(Shown, init) + [Shown(last)] by {
        MapSnoc(Shown, init, last);
        assert init + [last] == codes;
      }
    }
  }

  /** The codes are handed over exactly when some code is of neither
      kind. */
  lemma CodesDelegate(codes: seq<string>, name: string, quiet: int, async: int, kwargs: map<string, string>, download: string -> string)
    ensures (CodesOutcome(codes, name, quiet, async, kwargs, download).delegated
             <==> exists k :: 0 <= k < |codes| && IsPlain(codes[k]))
  {
    FirstPlainSpec(codes);
  }

  /** One selection is shown for each code before the first code of
      neither kind, in order: one for every code when there is none. */
  lemma CodesPublish(codes: seq<string>, name: string, quiet: int, async: int, kwargs: map<string, string>, download: string -> string)
    ensures Published(CodesOutcome(codes, name, quiet, async, kwargs, download).actions)
            == Map(Shown, codes[..FirstPlain(codes)])
  {
    var i := FirstPlain(codes);
    HandledBeforeFirstPlain(codes, i);
    PublishedSteps(codes[..i], name, quiet, kwargs, download);
    if i < |codes| {
      PublishedHandOver(Steps(codes[..i], name, quiet, kwargs, download), codes, name, quiet, async, kwargs);
    }
  }

  /** Handing over shows nothing. */
  lemma PublishedHandOver(actions: seq<Action>, codes: seq<string>, name: string, quiet: int, async: int, kwargs: map<string, string>)
    ensures Published(actions + Delegate(codes, name, quiet, async, kwargs)) == Published(actions)
  {
    var d := Delegate(codes, name, quiet, async, kwargs);
    PublishedAppend(actions, d);
    PublishedNone(d);
  }

  /** A handover to PyMOL's `fetch` is the last call, and it passes every
      code, those already handled included, joined by single spaces. */
  lemma CodesDelegateLast(codes: seq<string>, name: string, quiet: int, async: int, kwargs: map<string, string>, download: string -> string)
    ensures var out := CodesOutcome(codes, name, quiet, async, kwargs, download);
            out.delegated ==>
              && |out.actions| >= 2
              && out.actions[|out.actions| - 1] == PymolFetch(Join(codes, " "), name, None, quiet, async, kwargs)
  {
  }

  /** Any other type is handed over at once, with the arguments unchanged. */
  lemma FetchdOtherType(code: string, name: string, fetchType: string, quiet: int, async: int, kwargs: map<string, string>, download: string -> string)
    requires fetchType != "pdb"
    ensures FetchdOutcome(code, name, fetchType, quiet, async, kwargs, download)
            == Outcome([PymolFetch(code, name, Some(fetchType), quiet, async, kwargs)], true)
  {
  }
}
