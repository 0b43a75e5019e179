/**
 Writing a roster as text and parsing that text back, with the roster
 itself as the existing participants, gives the roster back unchanged:
 same participants, in the same order, with the same ids, emails, hints and
 rules. This holds for rosters the text format can carry (`Writable`)
 whose rule lists the rule checker accepts; fresh ids are never drawn.
 */
module RoundTrip {
  import opened Wrappers
  import opened Text
  import opened Roster
  import opened RosterParse
  import opened Collecting
  import opened ParseProperties
  import opened Looping
  import opened RosterFormat
  import opened JsValues

  /** The rules column written for participant `k`. */
  function RulesText(r: Roster, k: nat): string
    requires k < |r|
  {
    Join(RenderRules(r, r[k].rules), "; ")
  }

  /** What the scan should make of participant `k`'s line. */
  function WrittenLine(r: Roster, k: nat): ParsedLine
    requires k < |r|
  {
    ParsedLine(k + 1, r[k].name, r[k].email, RenderRules(r, r[k].rules))
  }

  /** A token that survives the rules column's splitting and trimming as it is. */
  predicate CleanToken(t: string) {
    t != "" && IsTrimmed(t) && ';' !in t && ',' !in t
  }

  /** A rule written with a writable target name is a clean token. */
  lemma WrittenTokenClean(kind: RuleKind, name: string)
    requires WritableName(name)
    ensures CleanToken([Sigil(kind)] + name)
  {
    var t := [Sigil(kind)] + name;
    assert t[|t| - 1] == name[|name| - 1];
    assert t[1..] == name;
  }

  /** Every token written for participant `k` is clean. */
  lemma TokensClean(r: Roster, k: nat)
    requires Writable(r) && k < |r|
    ensures forall j :: 0 <= j < |RenderRules(r, r[k].rules)| ==> CleanToken(RenderRules(r, r[k].rules)[j])
  {
    var tokens := RenderRules(r, r[k].rules);
    RulesAllRendered(r, k);
    forall j | 0 <= j < |tokens| ensures CleanToken(tokens[j]) {
      WrittenTokenClean(r[k].rules[j].kind, Get(r, r[k].rules[j].target).value.name);
    }
  }

  /** The rules column is trimmed and free of commas. */
  lemma RulesTextClean(r: Roster, k: nat)
    requires Writable(r) && k < |r|
    ensures IsTrimmed(RulesText(r, k)) && ',' !in RulesText(r, k)
  {
    var tokens := RenderRules(r, r[k].rules);
    TokensClean(r, k);
    assert forall j :: 0 <= j < |tokens| ==> tokens[j] != "" && IsTrimmed(tokens[j]) && ',' !in tokens[j] by {
      forall j | 0 <= j < |tokens| ensures tokens[j] != "" && IsTrimmed(tokens[j]) && ',' !in tokens[j] {
        assert CleanToken(tokens[j]);
      }
    }
    if |tokens| > 0 {
      JoinTrimmed(tokens, "; ");
    }
    JoinKeepsOut(tokens, "; ", ',');
  }

  /** Splitting the rules column at `;` and trimming gives back the tokens written. */
  lemma RuleTokensOfRulesText(r: Roster, k: nat)
    requires Writable(r) && k < |r|
    ensures RuleTokens(RulesText(r, k)) == RenderRules(r, r[k].rules)
  {
    var tokens := RenderRules(r, r[k].rules);
    TokensClean(r, k);
    if |tokens| > 0 {
      SplitCleanTokens(tokens);
    }
  }

  /** Clean tokens joined by `"; "` split and trim back into themselves. */
  lemma SplitCleanTokens(tokens: seq<string>)
    requires |tokens| > 0
    requires forall j :: 0 <= j < |tokens| ==> CleanToken(tokens[j])
    ensures RuleTokens(Join(tokens, "; ")) == tokens
  {
    assert forall j :: 0 <= j < |tokens| ==> tokens[j] != "" && IsTrimmed(tokens[j]) by {
      forall j | 0 <= j < |tokens| ensures tokens[j] != "" && IsTrimmed(tokens[j]) {
        assert CleanToken(tokens[j]);
      }
    }
    JoinTrimmed(tokens, "; ");
    TrimSplitCleanTokens(tokens);
  }

  /** The pieces of clean tokens joined by `"; "`, once trimmed, are the tokens. */
  lemma TrimSplitCleanTokens(tokens: seq<string>)
    requires |tokens| > 0
    requires forall j :: 0 <= j < |tokens| ==> CleanToken(tokens[j])
    ensures TrimAll(Split(Join(tokens, "; "), ';')) == tokens
  {
    var pieces := SplitCleanTokensPadded(tokens);
    var trimmed := TrimAll(pieces);
    forall j | 0 <= j < |tokens| ensures trimmed[j] == tokens[j] {
      PieceTrims(tokens, pieces, j);
    }
  }

  /** The pieces of clean tokens joined by `"; "`: each token, all but the first after one space. */
  lemma SplitCleanTokensPadded(tokens: seq<string>) returns (pieces: seq<string>)
    requires |tokens| > 0
    requires forall j :: 0 <= j < |tokens| ==> CleanToken(tokens[j])
    ensures pieces == Split(Join(tokens, "; "), ';')
    ensures |pieces| == |tokens| && pieces[0] == tokens[0]
    ensures forall j :: 1 <= j < |tokens| ==> pieces[j] == " " + tokens[j]
  {
    assert forall j :: 0 <= j < |tokens| ==> ';' !in tokens[j] by {
      forall j | 0 <= j < |tokens| ensures ';' !in tokens[j] {
        assert CleanToken(tokens[j]);
      }
    }
    SplitJoinPadded("", tokens, ';', " ");
    assert [';'] + " " == "; ";
    assert "" + Join(tokens, "; ") == Join(tokens, "; ");
    pieces := Split(Join(tokens, "; "), ';');
    assert pieces[0] == "" + tokens[0];
  }

  /** One piece trims back into its token. */
  lemma PieceTrims(tokens: seq<string>, pieces: seq<string>, j: nat)
    requires j < |tokens| == |pieces| && CleanToken(tokens[j])
    requires j == 0 ==> pieces[j] == tokens[j]
    requires j > 0 ==> pieces[j] == " " + tokens[j]
    ensures Trim(pieces[j]) == tokens[j]
  {
    TrimTrimmed(tokens[j]);
    if j > 0 {
      TrimAfterSpace(" ", tokens[j]);
    }
  }

  /** The columns of participant `k`'s line are its name, its email (or nothing) and its rules column. */
  lemma LineColumns(r: Roster, k: nat)
    requires Writable(r) && k < |r|
    ensures Columns(LineBody(r, r[k])) == [r[k].name, OrEmpty(r[k].email), RulesText(r, k)]
  {
    var p := r[k];
    assert WritableParticipant(r, p);
    var cols := [p.name, OrEmpty(p.email), RulesText(r, k)];
    RulesTextClean(r, k);
    assert forall i :: 0 <= i < 3 ==> ',' !in cols[i] && IsTrimmed(cols[i]);
    SplitJoin(cols, ',');
    assert [','] == ",";
    var trimmed := TrimAll(cols);
    forall i | 0 <= i < 3 ensures trimmed[i] == cols[i] {
      TrimTrimmed(cols[i]);
    }
  }

  /** Participant `k`'s line is not blank: it starts with the name. */
  lemma WrittenLineNotBlank(r: Roster, k: nat)
    requires Writable(r) && k < |r|
    ensures !IsBlank(LineBody(r, r[k]))
  {
    var p := r[k];
    assert WritableParticipant(r, p);
    var line := LineBody(r, p);
    var cols := [p.name, OrEmpty(p.email), RulesText(r, k)];
    assert line == p.name + "," + Join(cols[1..], ",");
    assert line[0] == p.name[0];
    TrimEmptyIff(line);
  }

  /** The name, email and rules columns of participant `k`'s line. */
  lemma WrittenColumns(r: Roster, k: nat)
    requires Writable(r) && k < |r|
    ensures NameColumn(LineBody(r, r[k])) == r[k].name
    ensures EmailColumn(LineBody(r, r[k])) == OrEmpty(r[k].email)
    ensures RulesColumn(LineBody(r, r[k])) == RulesText(r, k)
  {
    LineColumns(r, k);
    var cols := [r[k].name, OrEmpty(r[k].email), RulesText(r, k)];
    assert cols[2..] == [RulesText(r, k)];
    RulesTextClean(r, k);
    TrimTrimmed(RulesText(r, k));
  }

  /** The scan reads participant `k`'s line back as the name, email and tokens written. */
  lemma ScanWrittenLine(r: Roster, k: nat)
    requires Writable(r) && k < |r|
    ensures ScanLine(LineBody(r, r[k]), k + 1) == Success(Some(WrittenLine(r, k)))
  {
    assert WritableParticipant(r, r[k]);
    WrittenLineNotBlank(r, k);
    WrittenColumns(r, k);
    RuleTokensOfRulesText(r, k);
  }

  /** What the scan should make of the whole text: one entry per participant, numbered from 1. */
  function WrittenLines(r: Roster): (ps: seq<ParsedLine>)
    ensures |ps| == |r|
    ensures forall k :: 0 <= k < |r| ==> ps[k] == WrittenLine(r, k)
  {
    seq(|r|, k requires 0 <= k < |r| => WrittenLine(r, k))
  }

  /** Raw line `k`, numbered `k + 1`, scans to entry `ps[k]`. */
  predicate ReadsAs(lines: seq<string>, ps: seq<ParsedLine>, k: nat) {
    k < |lines| && k < |ps| && ScanLine(lines[k], k + 1) == Success(Some(ps[k]))
  }

  /** The scan of the first `n` lines, when none is blank and each reads as the entry at its position. */
  lemma {:induction false} ScanWrittenPrefix(lines: seq<string>, ps: seq<ParsedLine>, n: nat)
    requires n <= |ps| && n <= |lines|
    requires forall k :: 0 <= k < n ==> ReadsAs(lines, ps, k)
    ensures Scan(lines, n).Success? && Scan(lines, n).value == ps[..n]
  {
    var outs := LineOutcomes(lines);
    forall k | 0 <= k < n
      ensures outs[k] == Success(Some(ps[k]))
    {
      assert ReadsAs(lines, ps, k);
    }
    CollectAllPresent(outs, ps, n);
  }

  /** The scan of a writable roster's whole text: the empty line after the last line break adds nothing. */
  lemma ScanWritten(r: Roster)
    requires Writable(r)
    ensures Scan(Split(FormatParticipantText(r), '\n'), |Split(FormatParticipantText(r), '\n')|) == Success(WrittenLines(r))
  {
    FormatLines(r);
    WrittenLinesRead(r);
    ScanThenBlank(Bodies(r, r) + [""], WrittenLines(r));
  }

  /** Lines that each read as their entry, then one empty line, scan to exactly those entries. */
  lemma ScanThenBlank(lines: seq<string>, ps: seq<ParsedLine>)
    requires |lines| == |ps| + 1 && lines[|ps|] == ""
    requires forall k :: 0 <= k < |ps| ==> ReadsAs(lines, ps, k)
    ensures Scan(lines, |lines|) == Success(ps)
  {
    ScanWrittenPrefix(lines, ps, |ps|);
    TakeAll(ps);
    ScanSkipsBlank(lines, |ps|);
  }

  /** Every line of a writable roster's text reads as its participant's entry. */
  lemma WrittenLinesRead(r: Roster)
    requires Writable(r)
    ensures forall k :: 0 <= k < |r| ==> ReadsAs(Bodies(r, r) + [""], WrittenLines(r), k)
  {
    var lines := Bodies(r, r) + [""];
    forall k | 0 <= k < |r| ensures ReadsAs(lines, WrittenLines(r), k) {
      assert lines[k] == LineBody(r, r[k]);
      ScanWrittenLine(r, k);
    }
  }

  /** A blank line adds no entry to a successful scan. */
  lemma ScanSkipsBlank(lines: seq<string>, n: nat)
    requires n < |lines| && lines[n] == ""
    ensures Scan(lines, n + 1) == Scan(lines, n)
  {
    var o := ScanLine(lines[n], n + 1);
    assert IsBlank(lines[n]);
    assert o == Success(None);
    assert LineOutcomes(lines)[n] == Success(None);
  }

  /** Entry `k` carries participant `k`'s name and email. */
  predicate NamedAs(ps: seq<ParsedLine>, r: Roster, k: nat) {
    k < |ps| && k < |r| && ps[k].name == r[k].name && ps[k].email == r[k].email
  }

  /** Participant `k` as the first pass rebuilds it: everything but its rules. */
  predicate Stripped(base: Roster, r: Roster, k: nat) {
    k < |base| && k < |r| && base[k] == r[k].(rules := [])
  }

  /** The first pass over `n` entries named after `r` rebuilt `r`'s first `n` participants without rules. */
  predicate Rebuilt(ps: seq<ParsedLine>, r: Roster, n: nat, base: Roster, nameToId: map<string, Id>) {
    && |base| == n
    && (forall k :: 0 <= k < n ==> Stripped(base, r, k))
    && (forall k :: 0 <= k < n ==> MapsToOwnId(ps, nameToId, base, k))
  }

  /** With the roster as the existing participants, each entry finds its own participant and keeps its id. */
  lemma RebuildsOwn(ps: seq<ParsedLine>, r: Roster, uuids: IdSource, k: nat)
    requires UniqueNames(r) && NamedAs(ps, r, k)
    ensures NewParticipant(ps[k], r, uuids, k) == r[k].(rules := [])
  {
    FindLastByNameUnique(r, k);
  }

  /** One iteration of the first pass over entries named after a writable roster. */
  lemma RebuiltStep(ps: seq<ParsedLine>, r: Roster, uuids: IdSource, n: nat, base: Roster, nameToId: map<string, Id>)
    requires UniqueIds(r) && UniqueNames(r)
    requires 0 < n <= |ps| == |r|
    requires forall k :: 0 <= k < |r| ==> NamedAs(ps, r, k)
    requires Rebuilt(ps, r, n - 1, base, nameToId) && NameMapOk(ps, n - 1, nameToId)
    ensures ps[n - 1].name !in nameToId
    ensures var q := NewParticipant(ps[n - 1], r, uuids, n - 1);
      Rebuilt(ps, r, n, Put(base, q), nameToId[q.name := q.id])
  {
    var name := ps[n - 1].name;
    assert NamedAs(ps, r, n - 1);
    forall k | 0 <= k < n - 1 ensures ps[k].name != name {
      assert NamedAs(ps, r, k);
    }
    assert !NameAmong(ps, n - 1, name);
    var q := NewParticipant(ps[n - 1], r, uuids, n - 1);
    RebuildsOwn(ps, r, uuids, n - 1);
    forall k | 0 <= k < n - 1 ensures base[k].id != q.id {
      assert Stripped(base, r, k);
    }
    assert q.id !in Ids(base);
    var base' := base + [q];
    var m := nameToId[q.name := q.id];
    forall k | 0 <= k < n ensures Stripped(base', r, k) && MapsToOwnId(ps, m, base', k) {
      if k < n - 1 {
        assert Stripped(base, r, k) && MapsToOwnId(ps, nameToId, base, k);
        assert base'[k] == base[k];
      }
    }
  }

  /** The first pass over entries named after a writable roster succeeds and rebuilds it without rules. */
  lemma FirstPassRebuilds(ps: seq<ParsedLine>, r: Roster, uuids: IdSource, n: nat)
    requires UniqueIds(r) && UniqueNames(r)
    requires n <= |ps| == |r|
    requires forall k :: 0 <= k < |r| ==> NamedAs(ps, r, k)
    ensures FirstPass(ps, r, uuids, n).Success?
    ensures Rebuilt(ps, r, n, FirstPass(ps, r, uuids, n).value.0, FirstPass(ps, r, uuids, n).value.1)
  {
    var step := FirstSteps(Recorded, ps, r, uuids);
    var inv := (s: FirstState, k: nat) => k <= |ps| && Rebuilt(ps, r, k, s.0, s.1) && NameMapOk(ps, k, s.1);
    var never := (k: nat) => false;
    var anyError := (e: ParseError, k: nat) => true;
    forall s: FirstState, k: nat | k < n && inv(s, k)
      ensures step(s, k).Success?
      ensures inv(step(s, k).value, k + 1)
    {
      RebuiltStep(ps, r, uuids, k + 1, s.0, s.1);
      FirstStepNames(ps, r, uuids, s, k);
    }
    LoopStopsAtFirstBad(([], map[]), step, n, inv, never, anyError);
  }

  /** Every entry the scan makes of a writable roster's text carries its participant's name and email. */
  lemma WrittenLinesNamed(r: Roster)
    ensures forall k :: 0 <= k < |r| ==> NamedAs(WrittenLines(r), r, k)
  {
  }

  /**
   A rendered rule token reads back as the very rule it was rendered from,
   against any name map that sends its target's name to the target, as
   long as that name survives the token pattern and `trim`.
   */
  lemma RenderedRuleResolves(r: Roster, rule: Rule, nameToId: map<string, Id>)
    requires RenderRule(r, rule).Some?
    requires IsTrimmed(Get(r, rule.target).value.name) && NoLineTerminator(Get(r, rule.target).value.name)
    requires Get(r, rule.target).value.name in nameToId && nameToId[Get(r, rule.target).value.name] == rule.target
    ensures ResolveToken(RenderRule(r, rule).value, nameToId) == Success(rule)
  {
    var name := Get(r, rule.target).value.name;
    var token := RenderRule(r, rule).value;
    assert token[1..] == name;
    TrimTrimmed(name);
  }

  /** The token written for a rule resolves, against the rebuilt name map, to that very rule. */
  lemma WrittenTokenResolves(ps: seq<ParsedLine>, r: Roster, base: Roster, nameToId: map<string, Id>, rule: Rule)
    requires Writable(r) && |ps| == |r|
    requires Get(r, rule.target).Some?
    requires forall k :: 0 <= k < |r| ==> NamedAs(ps, r, k)
    requires Rebuilt(ps, r, |r|, base, nameToId)
    ensures ResolveToken([Sigil(rule.kind)] + Get(r, rule.target).value.name, nameToId) == Success(rule)
  {
    var i := IndexOf(r, rule.target).value;
    TargetWritable(r, rule);
    assert NamedAs(ps, r, i) && MapsToOwnId(ps, nameToId, base, i) && Stripped(base, r, i);
    RenderedRuleResolves(r, rule, nameToId);
  }

  /** Entry `k` holds the tokens written for participant `k`'s rules. */
  predicate TokensAs(ps: seq<ParsedLine>, r: Roster, k: nat) {
    k < |ps| && k < |r| && ps[k].tokens == RenderRules(r, r[k].rules)
  }

  /** The second pass gives participant `k` back its own rules. */
  lemma LineRulesWritten(ps: seq<ParsedLine>, r: Roster, base: Roster, nameToId: map<string, Id>, checkRules: RuleChecker, k: nat)
    requires Writable(r) && |ps| == |r|
    requires forall k :: 0 <= k < |r| ==> NamedAs(ps, r, k)
    requires Rebuilt(ps, r, |r|, base, nameToId)
    requires TokensAs(ps, r, k) && !Truthy(checkRules(r[k].rules))
    ensures LineRules(ps[k], nameToId, checkRules) == Success(r[k].rules)
  {
    var rules := r[k].rules;
    var tokens := ps[k].tokens;
    RulesAllRendered(r, k);
    forall j | 0 <= j < |tokens| ensures ResolveToken(tokens[j], nameToId) == Success(rules[j]) {
      WrittenTokenResolves(ps, r, base, nameToId, rules[j]);
    }
    ResolveTokensFailsAtFirstBadToken(tokens, nameToId);
    var resolved := ResolveTokens(tokens, nameToId).value;
    assert forall j :: 0 <= j < |tokens| ==> resolved[j] == rules[j];
    assert resolved == rules;
  }

  /** The second pass over the rebuilt roster gives back the whole roster, rules included. */
  lemma SecondPassRestores(ps: seq<ParsedLine>, r: Roster, base: Roster, nameToId: map<string, Id>, checkRules: RuleChecker)
    requires Writable(r) && |ps| == |r|
    requires forall k :: 0 <= k < |r| ==> NamedAs(ps, r, k) && TokensAs(ps, r, k) && !Truthy(checkRules(r[k].rules))
    requires Rebuilt(ps, r, |r|, base, nameToId)
    ensures SecondPass(ps, nameToId, checkRules, base, |ps|) == Success(r)
  {
    forall k | 0 <= k < |r| ensures LineRules(ps[k], nameToId, checkRules) == Success(r[k].rules) {
      LineRulesWritten(ps, r, base, nameToId, checkRules, k);
    }
    SecondPassFailsAtFirstBadLine(ps, nameToId, checkRules, base, |ps|);
    assert SecondPass(ps, nameToId, checkRules, base, |ps|).Success?;
    assert UniqueIds(base) by {
      forall i, j | 0 <= i < j < |base| ensures base[i].id != base[j].id {
        assert Stripped(base, r, i) && Stripped(base, r, j);
      }
    }
    SecondPassSetsRules(ps, nameToId, checkRules, base, |ps|);
    var out := SecondPass(ps, nameToId, checkRules, base, |ps|).value;
    forall k | 0 <= k < |r| ensures out[k] == r[k] {
      assert RulesFrom(ps[k], nameToId, checkRules, out[k].rules);
      assert SameButRules(out[k], base[k]) && Stripped(base, r, k);
    }
    assert |out| == |r|;
    assert out == r;
  }

  /**
   The round trip: parsing the text of a writable roster, with that roster
   as the existing participants, gives the roster back, whatever fresh ids
   are on offer, provided the rule checker accepts every rule list.
   */
  lemma FormatParseRoundTrip(r: Roster, uuids: IdSource, checkRules: RuleChecker)
    requires Writable(r)
    requires forall k :: 0 <= k < |r| ==> !Truthy(checkRules(r[k].rules))
    ensures ParseParticipantsText(FormatParticipantText(r), r, uuids, checkRules) == Success(r)
  {
    var ps := WrittenLines(r);
    ScanWritten(r);
    WrittenLinesNamed(r);
    FirstPassRebuilds(ps, r, uuids, |r|);
    var fp := FirstPass(ps, r, uuids, |ps|).value;
    assert forall k :: 0 <= k < |r| ==> TokensAs(ps, r, k);
    SecondPassRestores(ps, r, fp.0, fp.1, checkRules);
  }

  /** Taking every element of a sequence gives the sequence. */
  lemma TakeAll<T>(s: seq<T>)
    ensures s[..|s|] == s
  {
  }
}
