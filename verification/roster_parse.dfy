/**
 `parseParticipantsText`: turns roster text (one `name,email,rules` line per
 participant) into an id-keyed roster, or into an error carrying the 1-based
 line it was found on.

 The source runs three loops; each is modelled as the state after its first
 `n` iterations, so a failure is always the one the loop meets first:
 - `Scan`: the line scan that rejects a line with an empty name;
 - `FirstPass`: creates participants, reusing ids of existing participants
   of the same name, and rejects a repeated name;
 - `SecondPass`: resolves each line's rule tokens to target ids and submits
   them to the rule checker.
 `crypto.randomUUID` and `checkRules` are parameters of the model.
 */
module RosterParse {
  import opened Wrappers
  import opened Text
  import opened Roster
  import opened Collecting
  import opened Looping
  import opened JsValues

  /** The closed set of parse failures, with the values each reports. */
  datatype ErrorKind =
    | EmptyName
    | DuplicateName(name: string)
    | InvalidRuleFormat(rule: string)
    | UnknownParticipant(name: string)
    | RejectedRules(key: string)
  {
    /** The translation key reported to the caller. */
    function Key(): string {
      match this
      case EmptyName => "errors.emptyName"
      case DuplicateName(_) => "errors.duplicateName"
      case InvalidRuleFormat(_) => "errors.invalidRuleFormat"
      case UnknownParticipant(_) => "errors.unknownParticipant"
      case RejectedRules(key) => key
    }

    /** The interpolation values reported next to the key. */
    function Values(): map<string, string> {
      match this
      case EmptyName => map[]
      case DuplicateName(name) => map["name" := name]
      case InvalidRuleFormat(rule) => map["rule" := rule]
      case UnknownParticipant(name) => map["name" := name]
      case RejectedRules(_) => map[]
    }
  }

  datatype ParseError = ParseError(line: nat, kind: ErrorKind)

  /** A non-blank line after the scan: its 1-based number and its three columns. */
  datatype ParsedLine = ParsedLine(line: nat, name: string, email: Option<string>, tokens: seq<string>)

  /** Source of fresh participant ids, indexed by the position of the line among the non-blank lines. */
  type IdSource = nat -> Id

  /** `checkRules`: the key of the first problem with a rule list, if any. */
  type RuleChecker = seq<Rule> -> Option<string>

  // ---------------------------------------------------------------------
  // Line scan
  // ---------------------------------------------------------------------

  /** A whitespace-only line: it yields no participant but keeps its line number. */
  predicate IsBlank(raw: string) {
    Trim(raw) == ""
  }

  /** The comma-separated columns of a line, each trimmed. */
  function Columns(raw: string): (cols: seq<string>)
    ensures |cols| >= 1
    ensures forall i :: 0 <= i < |cols| ==> IsTrimmed(cols[i])
  {
    TrimAll(Split(raw, ','))
  }

  function NameColumn(raw: string): string {
    Columns(raw)[0]
  }

  function EmailColumn(raw: string): string {
    var cols := Columns(raw);
    if |cols| > 1 then cols[1] else ""
  }

  /** Everything after the second comma, re-joined with commas and trimmed. */
  function RulesColumn(raw: string): string {
    var cols := Columns(raw);
    Trim(Join(if |cols| > 2 then cols[2..] else [], ","))
  }

  /** The `;`-separated tokens of a rules column, trimmed, empty ones dropped. */
  function RuleTokens(rulesPart: string): (tokens: seq<string>)
    ensures forall j :: 0 <= j < |tokens| ==> tokens[j] != "" && IsTrimmed(tokens[j]) && ';' !in tokens[j]
  {
    if rulesPart == "" then []
    else
      var pieces := Split(rulesPart, ';');
      var trimmed := TrimAll(pieces);
      forall j | 0 <= j < |trimmed| ensures ';' !in trimmed[j] {
        TrimKeepsOut(pieces[j], ';');
      }
      DropEmpty(trimmed)
  }

  /** The empty rules column is no exception: it is the general rule applied to its one empty piece. */
  lemma RuleTokensSplit(rulesPart: string)
    ensures RuleTokens(rulesPart) == DropEmpty(TrimAll(Split(rulesPart, ';')))
  {
    if rulesPart == "" {
      assert TrimAll([""]) == [""];
    }
  }

  /**
   A `;` splits a rules column into two whose tokens follow one another;
   with `RuleTokensPiece`, the tokens are exactly the non-empty trimmed
   pieces between the `;`s, in order.
   */
  lemma RuleTokensAppend(a: string, b: string)
    ensures RuleTokens(a + ";" + b) == RuleTokens(a) + RuleTokens(b)
  {
    RuleTokensSplit(a + ";" + b);
    RuleTokensSplit(a);
    RuleTokensSplit(b);
    SplitConcat(a, b, ';');
    TrimAllAppend(Split(a, ';'), Split(b, ';'));
    DropEmptyAppend(TrimAll(Split(a, ';')), TrimAll(Split(b, ';')));
  }

  /** A column without `;` gives its trimmed text as its one token, or no token when that is empty. */
  lemma RuleTokensPiece(s: string)
    requires ';' !in s
    ensures RuleTokens(s) == if Trim(s) == "" then [] else [Trim(s)]
  {
    RuleTokensSplit(s);
    SplitFree(s, ';');
    assert TrimAll([s]) == [Trim(s)];
  }

  /** A non-blank line whose name column is empty. */
  predicate HasEmptyName(raw: string) {
    !IsBlank(raw) && NameColumn(raw) == ""
  }

  /** One iteration of the scan over the raw line numbered `line`. */
  function ScanLine(raw: string, line: nat): (r: Result<Option<ParsedLine>, ParseError>)
    ensures r.Failure? <==> HasEmptyName(raw)
    ensures r.Failure? ==> r.error == ParseError(line, EmptyName)
    ensures r == Success(None) <==> IsBlank(raw)
    ensures r.Success? && r.value.Some? ==>
      && r.value.value.line == line
      && r.value.value.name != "" && IsTrimmed(r.value.value.name)
      && (r.value.value.email.Some? ==> r.value.value.email.value != "")
  {
    if IsBlank(raw) then Success(None)
    else
      var namePart := NameColumn(raw);
      var emailPart := EmailColumn(raw);
      if namePart == "" then Failure(ParseError(line, EmptyName))
      else
        Success(Some(ParsedLine(
          line,
          namePart,
          OrUndefined(emailPart),
          RuleTokens(RulesColumn(raw)))))
  }

  /** The number of non-blank lines. */
  function CountNonBlank(lines: seq<string>): nat {
    if |lines| == 0 then 0
    else CountNonBlank(lines[..|lines| - 1]) + if IsBlank(lines[|lines| - 1]) then 0 else 1
  }

  /** `line` is the 1-based number of the first line with an empty name. */
  predicate FirstEmptyName(lines: seq<string>, line: nat) {
    && 1 <= line <= |lines|
    && HasEmptyName(lines[line - 1])
    && forall i :: 0 <= i < line - 1 ==> !HasEmptyName(lines[i])
  }

  /** What the scan's loop body makes of each raw line, numbered from 1. */
  function LineOutcomes(lines: seq<string>): (outs: seq<Result<Option<ParsedLine>, ParseError>>)
    ensures |outs| == |lines|
    ensures forall i :: 0 <= i < |lines| ==> outs[i] == ScanLine(lines[i], i + 1)
  {
    seq(|lines|, i requires 0 <= i < |lines| => ScanLine(lines[i], i + 1))
  }

  /** The scan after its first `n` lines. */
  function Scan(lines: seq<string>, n: nat): (r: Result<seq<ParsedLine>, ParseError>)
    requires n <= |lines|
    ensures r.Failure? ==> r.error.kind == EmptyName && 1 <= r.error.line <= n
    ensures r.Success? ==> forall k :: 0 <= k < |r.value| ==> 1 <= r.value[k].line <= n
  {
    ScanLineNumbers(lines, n);
    Collect(LineOutcomes(lines), n)
  }

  /** A scan failure is an empty name on one of the lines read; every entry kept carries the number of a line read. */
  lemma ScanLineNumbers(lines: seq<string>, n: nat)
    requires n <= |lines|
    ensures var r := Collect(LineOutcomes(lines), n);
      && (r.Failure? ==> r.error.kind == EmptyName && 1 <= r.error.line <= n)
      && (r.Success? ==> forall k :: 0 <= k < |r.value| ==> 1 <= r.value[k].line <= n)
  {
    var outs := LineOutcomes(lines);
    if Collect(outs, n).Failure? {
      var i := CollectFails(outs, n);
      assert outs[i] == ScanLine(lines[i], i + 1);
    } else {
      var src := CollectSources(outs, n);
      forall k | 0 <= k < |src|
        ensures 1 <= Collect(outs, n).value[k].line <= n
      {
        assert outs[src[k]] == ScanLine(lines[src[k]], src[k] + 1);
      }
    }
  }

  // ---------------------------------------------------------------------
  // First pass: participants and the name-to-id mapping
  // ---------------------------------------------------------------------

  /** `name` is the name of one of the first `n` parsed lines. */
  predicate NameAmong(ps: seq<ParsedLine>, n: nat, name: string)
    requires n <= |ps|
  {
    exists k :: 0 <= k < n && ps[k].name == name
  }

  /** The name of line `k` already appeared on an earlier parsed line. */
  predicate NameSeenBefore(ps: seq<ParsedLine>, k: nat)
    requires k < |ps|
  {
    NameAmong(ps, k, ps[k].name)
  }

  /**
   Ids from `crypto.randomUUID` are assumed pairwise distinct and distinct
   from every id already in the existing roster.
   */
  ghost predicate FreshIdsOk(existing: Roster, uuids: IdSource) {
    && (forall i: nat, j: nat :: i < j ==> uuids(i) != uuids(j))
    && (forall i: nat, k :: 0 <= k < |existing| ==> uuids(i) != existing[k].id)
  }

  /** The participant created for parsed line `p`, the `k`-th non-blank line. */
  function NewParticipant(p: ParsedLine, existing: Roster, uuids: IdSource, k: nat): (q: Participant)
    ensures q.name == p.name && q.rules == []
  {
    var ex := FindLastByName(existing, p.name);
    Participant(
      if ex.Some? then ex.value.id else uuids(k),
      p.name,
      if p.email.Some? then p.email else if ex.Some? then ex.value.email else None,
      if ex.Some? then ex.value.hint else None,
      [])
  }

  /** The first pass's state: the roster built so far and `nameToId`. */
  type FirstState = (Roster, map<string, Id>)

  /** The first pass's duplicate test: the name is a key of `nameToId`. */
  predicate Recorded(nameToId: map<string, Id>, name: string) {
    name in nameToId
  }

  /**
   The first pass's loop body on the `k`-th parsed line, with `seen` as its
   test for a name already met: a seen name is a duplicate; otherwise the
   line's participant is stored under its id and its name mapped to that id.
   */
  function FirstStep(
    seen: (map<string, Id>, string) -> bool, ps: seq<ParsedLine>, existing: Roster, uuids: IdSource,
    state: FirstState, k: nat): Result<FirstState, ParseError>
    requires k < |ps|
  {
    var p := ps[k];
    if seen(state.1, p.name) then
      Failure(ParseError(p.line, DuplicateName(p.name)))
    else
      var q := NewParticipant(p, existing, uuids, k);
      Success((Put(state.0, q), state.1[p.name := q.id]))
  }

  /** The loop body as a `Loop` step; the loop never reaches an index past the last line. */
  function FirstSteps(seen: (map<string, Id>, string) -> bool, ps: seq<ParsedLine>, existing: Roster, uuids: IdSource)
    : (FirstState, nat) -> Result<FirstState, ParseError>
  {
    (state: FirstState, k: nat) => if k < |ps| then FirstStep(seen, ps, existing, uuids, state, k) else Success(state)
  }

  /** The first pass after its first `n` parsed lines: the roster built so far and `nameToId`. */
  function FirstPass(ps: seq<ParsedLine>, existing: Roster, uuids: IdSource, n: nat)
    : (r: Result<FirstState, ParseError>)
    requires n <= |ps|
    ensures r.Failure? ==> exists k :: 0 <= k < n && r.error == ParseError(ps[k].line, DuplicateName(ps[k].name))
    ensures r.Success? ==> NameMapOk(ps, n, r.value.1)
  {
    FirstPassNames(ps, existing, uuids, n);
    Loop(([], map[]), FirstSteps(Recorded, ps, existing, uuids), n)
  }

  /** A first-pass failure is a duplicate name on a line read; on success `nameToId` maps exactly the names read. */
  lemma FirstPassNames(ps: seq<ParsedLine>, existing: Roster, uuids: IdSource, n: nat)
    requires n <= |ps|
    ensures var r := Loop(([], map[]), FirstSteps(Recorded, ps, existing, uuids), n);
      && (r.Failure? ==> exists k :: 0 <= k < n && r.error == ParseError(ps[k].line, DuplicateName(ps[k].name)))
      && (r.Success? ==> NameMapOk(ps, n, r.value.1))
  {
    var step := FirstSteps(Recorded, ps, existing, uuids);
    var inv := (s: FirstState, k: nat) => k <= |ps| && NameMapOk(ps, k, s.1);
    forall s: FirstState, k: nat | k < n && inv(s, k) && step(s, k).Success?
      ensures inv(step(s, k).value, k + 1)
    {
      FirstStepNames(ps, existing, uuids, s, k);
    }
    LoopInvariant(([], map[]), step, n, inv);
    if Loop(([], map[]), step, n).Failure? {
      var k, s := LoopFailsAt(([], map[]), step, n);
    }
  }

  /** `nameToId` after `n` parsed lines: its keys are exactly their names. */
  predicate NameMapOk(ps: seq<ParsedLine>, n: nat, nameToId: map<string, Id>)
    requires n <= |ps|
  {
    && (forall k :: 0 <= k < n ==> ps[k].name in nameToId)
    && (forall nm :: nm in nameToId ==> NameAmong(ps, n, nm))
  }

  /** One iteration of the first pass keeps `NameMapOk`. */
  lemma NameMapStep(ps: seq<ParsedLine>, n: nat, nameToId: map<string, Id>, id: Id)
    requires 0 < n <= |ps|
    requires NameMapOk(ps, n - 1, nameToId)
    ensures NameMapOk(ps, n, nameToId[ps[n - 1].name := id])
  {
    var nameToId' := nameToId[ps[n - 1].name := id];
    forall k | 0 <= k < n ensures ps[k].name in nameToId' {
      if k < n - 1 { assert ps[k].name in nameToId; }
    }
    forall nm | nm in nameToId' ensures NameAmong(ps, n, nm) {
      if nm == ps[n - 1].name {
        assert ps[n - 1].name == nm;
      } else {
        var k :| 0 <= k < n - 1 && ps[k].name == nm;
        assert ps[k].name == nm;
      }
    }
  }

  /** One iteration of the first pass, on a state whose name map holds exactly the earlier lines' names. */
  lemma FirstStepNames(ps: seq<ParsedLine>, existing: Roster, uuids: IdSource, s: FirstState, k: nat)
    requires k < |ps| && NameMapOk(ps, k, s.1)
    ensures FirstStep(Recorded, ps, existing, uuids, s, k).Failure? <==> NameSeenBefore(ps, k)
    ensures FirstStep(Recorded, ps, existing, uuids, s, k).Failure? ==>
      FirstStep(Recorded, ps, existing, uuids, s, k).error == ParseError(ps[k].line, DuplicateName(ps[k].name))
    ensures FirstStep(Recorded, ps, existing, uuids, s, k).Success? ==>
      NameMapOk(ps, k + 1, FirstStep(Recorded, ps, existing, uuids, s, k).value.1)
  {
    if !Recorded(s.1, ps[k].name) {
      NameMapStep(ps, k + 1, s.1, NewParticipant(ps[k], existing, uuids, k).id);
    }
  }

  // ---------------------------------------------------------------------
  // Second pass: rule tokens
  // ---------------------------------------------------------------------

  /**
   `/^([=!])(.+)$/.exec(token)`: the operator and the raw target of a rule
   token; `.` matches every character but a line terminator.
   */
  function MatchRuleToken(token: string): Option<(RuleKind, string)> {
    if |token| >= 2 && (token[0] == '=' || token[0] == '!')
      && forall i :: 1 <= i < |token| ==> !IsLineTerminator(token[i])
    then Some((if token[0] == '=' then Must else MustNot, token[1..]))
    else None
  }

  /** What `.+` matches: a non-empty run of characters other than line terminators. */
  predicate NoLineTerminator(s: string) {
    forall i :: 0 <= i < |s| ==> !IsLineTerminator(s[i])
  }

  /** A token of the form `=Name` or `!Name` with a target that survives trimming. */
  predicate WellFormedToken(token: string) {
    && |token| >= 2
    && (token[0] == '=' || token[0] == '!')
    && NoLineTerminator(token[1..])
    && Trim(token[1..]) != ""
  }

  /** The trimmed target name of a well-formed token. */
  function TargetName(token: string): string
    requires WellFormedToken(token)
  {
    Trim(token[1..])
  }

  /**
   One rule token resolved against `nameToId`. It resolves exactly when it
   has the form `=Name` or `!Name` with a name known to `nameToId`; `=` gives
   a must rule and `!` a must-not rule. A malformed token is reported whole,
   an unknown target by its trimmed name.
   */
  function ResolveToken(token: string, nameToId: map<string, Id>): (r: Result<Rule, ErrorKind>)
    ensures r.Success? <==> WellFormedToken(token) && TargetName(token) in nameToId
    ensures r.Success? ==> r.value == Rule(if token[0] == '=' then Must else MustNot, nameToId[TargetName(token)])
    ensures r.Failure? && !WellFormedToken(token) ==> r.error == InvalidRuleFormat(token)
    ensures r.Failure? && WellFormedToken(token) ==> r.error == UnknownParticipant(TargetName(token))
  {
    match MatchRuleToken(token)
    case None => Failure(InvalidRuleFormat(token))
    case Some((kind, targetRaw)) =>
      var targetName := Trim(targetRaw);
      if targetName == "" then Failure(InvalidRuleFormat(token))
      else if targetName !in nameToId then Failure(UnknownParticipant(targetName))
      else Success(Rule(kind, nameToId[targetName]))
  }

  /** The tokens of one line resolved in order; the first bad token stops the line. */
  function ResolveTokens(tokens: seq<string>, nameToId: map<string, Id>): (r: Result<seq<Rule>, ErrorKind>)
    ensures r.Success? ==> |r.value| == |tokens|
    ensures r.Success? ==> forall j :: 0 <= j < |tokens| ==> ResolveToken(tokens[j], nameToId) == Success(r.value[j])
    ensures r.Failure? ==> r.error.InvalidRuleFormat? || r.error.UnknownParticipant?
    decreases |tokens|
  {
    if |tokens| == 0 then Success([])
    else
      match ResolveToken(tokens[0], nameToId)
      case Failure(e) => Failure(e)
      case Success(rule) =>
        match ResolveTokens(tokens[1..], nameToId)
        case Failure(e) => Failure(e)
        case Success(rules) =>
          var r := [rule] + rules;
          assert forall j :: 1 <= j < |tokens| ==> ResolveToken(tokens[j], nameToId) == Success(r[j]) by {
            forall j | 1 <= j < |tokens| ensures ResolveToken(tokens[j], nameToId) == Success(r[j]) {
              assert tokens[j] == tokens[1..][j - 1] && r[j] == rules[j - 1];
            }
          }
          Success(r)
  }

  /** The rules of one parsed line, or the error the second pass reports for it. */
  function LineRules(p: ParsedLine, nameToId: map<string, Id>, checkRules: RuleChecker): (r: Result<seq<Rule>, ErrorKind>)
    ensures r.Success? ==> ResolveTokens(p.tokens, nameToId) == Success(r.value) && !Truthy(checkRules(r.value))
    ensures r.Failure? ==> r.error.InvalidRuleFormat? || r.error.UnknownParticipant? || r.error.RejectedRules?
    ensures ResolveTokens(p.tokens, nameToId).Failure? ==> r == Failure(ResolveTokens(p.tokens, nameToId).error)
    ensures ResolveTokens(p.tokens, nameToId).Success? ==>
      (r.Success? <==> !Truthy(checkRules(ResolveTokens(p.tokens, nameToId).value)))
    ensures ResolveTokens(p.tokens, nameToId).Success? && r.Failure? ==>
      r.error == RejectedRules(checkRules(ResolveTokens(p.tokens, nameToId).value).value) && r.error.key != ""
  {
    match ResolveTokens(p.tokens, nameToId)
    case Failure(kind) => Failure(kind)
    case Success(rules) =>
      var verdict := checkRules(rules);
      if Truthy(verdict) then Failure(RejectedRules(verdict.value)) else Success(rules)
  }

  /** Two participant records that differ at most in their rules. */
  predicate SameButRules(a: Participant, b: Participant) {
    a.id == b.id && a.name == b.name && a.email == b.email && a.hint == b.hint
  }

  /**
   `result[id].rules = rules`. The parse only ever passes an id of the
   roster; for any other id the roster is left as it is.
   */
  function SetRules(r: Roster, id: Id, rules: seq<Rule>): (r': Roster)
    ensures |r'| == |r|
    ensures forall i :: 0 <= i < |r| ==> SameButRules(r'[i], r[i])
    ensures forall i :: 0 <= i < |r| && r[i].id != id ==> r'[i] == r[i]
    ensures IndexOf(r, id).Some? ==> r'[IndexOf(r, id).value] == r[IndexOf(r, id).value].(rules := rules)
  {
    match IndexOf(r, id)
    case None => r
    case Some(k) => r[k := r[k].(rules := rules)]
  }

  /** Line `k` is the first parsed line whose rules the second pass rejects. */
  predicate RulesFailFirstAt(ps: seq<ParsedLine>, nameToId: map<string, Id>, checkRules: RuleChecker, k: nat)
    requires k < |ps|
  {
    && LineRules(ps[k], nameToId, checkRules).Failure?
    && forall j :: 0 <= j < k ==> LineRules(ps[j], nameToId, checkRules).Success?
  }

  /**
   The second pass's loop body on the `k`-th parsed line: a line whose rules
   fail stops the parse at its line number; otherwise its rules go to the
   participant its name maps to. A name missing from `nameToId` cannot
   occur, since the first pass records every name; there the code would
   throw a `TypeError`, and the model leaves the record unchanged.
   */
  function SecondStep(ps: seq<ParsedLine>, nameToId: map<string, Id>, checkRules: RuleChecker, result: Roster, k: nat)
    : Result<Roster, ParseError>
    requires k < |ps|
  {
    var p := ps[k];
    match LineRules(p, nameToId, checkRules)
    case Failure(kind) => Failure(ParseError(p.line, kind))
    case Success(rules) =>
      if p.name in nameToId then Success(SetRules(result, nameToId[p.name], rules)) else Success(result)
  }

  /** The loop body as a `Loop` step; the loop never reaches an index past the last line. */
  function SecondSteps(ps: seq<ParsedLine>, nameToId: map<string, Id>, checkRules: RuleChecker)
    : (Roster, nat) -> Result<Roster, ParseError>
  {
    (result: Roster, k: nat) => if k < |ps| then SecondStep(ps, nameToId, checkRules, result, k) else Success(result)
  }

  /** The second pass after its first `n` parsed lines, starting from the first pass's roster. */
  function SecondPass(ps: seq<ParsedLine>, nameToId: map<string, Id>, checkRules: RuleChecker, base: Roster, n: nat)
    : (r: Result<Roster, ParseError>)
    requires n <= |ps|
    ensures r.Failure? ==> exists k :: 0 <= k < n && r.error.line == ps[k].line
    ensures r.Failure? ==> r.error.kind.InvalidRuleFormat? || r.error.kind.UnknownParticipant? || r.error.kind.RejectedRules?
    ensures r.Success? ==> |r.value| == |base|
    ensures r.Success? ==> forall i :: 0 <= i < |base| ==> SameButRules(r.value[i], base[i])
  {
    SecondPassShape(ps, nameToId, checkRules, base, n);
    Loop(base, SecondSteps(ps, nameToId, checkRules), n)
  }

  /** A second-pass failure is a rule error on a line read; a success changes nothing but rules. */
  lemma SecondPassShape(ps: seq<ParsedLine>, nameToId: map<string, Id>, checkRules: RuleChecker, base: Roster, n: nat)
    requires n <= |ps|
    ensures var r := Loop(base, SecondSteps(ps, nameToId, checkRules), n);
      && (r.Failure? ==> exists k :: 0 <= k < n && r.error.line == ps[k].line)
      && (r.Failure? ==> r.error.kind.InvalidRuleFormat? || r.error.kind.UnknownParticipant? || r.error.kind.RejectedRules?)
      && (r.Success? ==> |r.value| == |base| && forall i :: 0 <= i < |base| ==> SameButRules(r.value[i], base[i]))
  {
    var step := SecondSteps(ps, nameToId, checkRules);
    var inv := (s: Roster, k: nat) => |s| == |base| && forall i :: 0 <= i < |base| ==> SameButRules(s[i], base[i]);
    LoopInvariant(base, step, n, inv);
    if Loop(base, step, n).Failure? {
      var k, s := LoopFailsAt(base, step, n);
      assert Loop(base, step, n).error == ParseError(ps[k].line, LineRules(ps[k], nameToId, checkRules).error);
    }
  }

  /** `parseParticipantsText(input, existingParticipants)`. */
  function ParseParticipantsText(input: string, existing: Roster, uuids: IdSource, checkRules: RuleChecker)
    : (r: Result<Roster, ParseError>)
    ensures r.Failure? ==> 1 <= r.error.line <= |Split(input, '\n')|
    ensures r.Failure? && r.error.kind == EmptyName <==> Scan(Split(input, '\n'), |Split(input, '\n')|).Failure?
  {
    var lines := Split(input, '\n');
    match Scan(lines, |lines|)
    case Failure(e) => Failure(e)
    case Success(ps) =>
      match FirstPass(ps, existing, uuids, |ps|)
      case Failure(e) => Failure(e)
      case Success((skeleton, nameToId)) =>
        SecondPass(ps, nameToId, checkRules, skeleton, |ps|)
  }
}
