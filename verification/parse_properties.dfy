/**
 What `parseParticipantsText` promises, stated over the three passes of
 the model and over the whole parse.
 */
module ParseProperties {
  import opened Wrappers
  import opened Text
  import opened Roster
  import opened RosterParse
  import opened Collecting
  import opened Looping
  import opened JsValues

  // ---------------------------------------------------------------------
  // Line scan
  // ---------------------------------------------------------------------

  /** The scan fails exactly when some non-blank line has an empty name, and reports the first one. */
  lemma ScanFailsAtFirstEmptyName(lines: seq<string>, n: nat)
    requires n <= |lines|
    ensures Scan(lines, n).Failure? <==> exists i :: 0 <= i < n && HasEmptyName(lines[i])
    ensures Scan(lines, n).Failure? ==> FirstEmptyName(lines, Scan(lines, n).error.line)
  {
    if Scan(lines, n).Failure? {
      ScanFailureIsFirstEmptyName(lines, n);
      var w := Scan(lines, n).error.line - 1;
      assert 0 <= w < n;
      assert HasEmptyName(lines[w]);
    } else {
      ScanSuccessHasNoEmptyName(lines, n);
    }
  }

  /** A failed scan reports the first line with an empty name. */
  lemma ScanFailureIsFirstEmptyName(lines: seq<string>, n: nat)
    requires n <= |lines| && Scan(lines, n).Failure?
    ensures FirstEmptyName(lines, Scan(lines, n).error.line)
  {
    var outs := LineOutcomes(lines);
    var i := CollectFails(outs, n);
    OutcomeFails(lines, i);
    forall j | 0 <= j < i
      ensures !HasEmptyName(lines[j])
    {
      OutcomeFails(lines, j);
    }
    assert lines[(i + 1) - 1] == lines[i];
  }

  /** A successful scan met no line with an empty name. */
  lemma ScanSuccessHasNoEmptyName(lines: seq<string>, n: nat)
    requires n <= |lines| && Scan(lines, n).Success?
    ensures forall j :: 0 <= j < n ==> !HasEmptyName(lines[j])
  {
    CollectSucceeds(LineOutcomes(lines), n);
    forall j | 0 <= j < n
      ensures !HasEmptyName(lines[j])
    {
      OutcomeFails(lines, j);
    }
  }

  /** The scan's loop body fails on a line exactly when its name is empty, and reports that line. */
  lemma OutcomeFails(lines: seq<string>, i: nat)
    requires i < |lines|
    ensures LineOutcomes(lines)[i].Failure? <==> HasEmptyName(lines[i])
    ensures LineOutcomes(lines)[i].Failure? ==> LineOutcomes(lines)[i].error == ParseError(i + 1, EmptyName)
  {
    var o := ScanLine(lines[i], i + 1);
    assert LineOutcomes(lines)[i] == o;
  }

  /**
   The columns of a line: the name before the first comma and the email
   before the second, each trimmed; the rules column is everything after the
   second comma, its comma-separated pieces trimmed and re-joined with commas,
   then trimmed as a whole.
   */
  lemma LineColumnsSplit(name: string, email: string, rules: string)
    requires ',' !in name && ',' !in email
    ensures var raw := name + "," + email + "," + rules;
      && NameColumn(raw) == Trim(name)
      && EmailColumn(raw) == Trim(email)
      && RulesColumn(raw) == Trim(Join(TrimAll(Split(rules, ',')), ","))
      && (',' !in rules ==> RulesColumn(raw) == Trim(rules))
  {
    var raw := name + "," + email + "," + rules;
    var tail := email + [','] + rules;
    CommaJoined(name, email, rules);
    SplitAtSep(name, tail, ',');
    SplitAtSep(email, rules, ',');
    ColumnsOfPieces(raw, name, email, Split(rules, ','));
    if ',' !in rules {
      SplitFree(rules, ',');
      RejoinOne(rules);
    }
  }

  /** The columns of a line whose comma-separated pieces are `name`, `email`, then `pieces`. */
  lemma ColumnsOfPieces(raw: string, name: string, email: string, pieces: seq<string>)
    requires Split(raw, ',') == [name] + ([email] + pieces)
    ensures NameColumn(raw) == Trim(name) && EmailColumn(raw) == Trim(email)
    ensures RulesColumn(raw) == Trim(Join(TrimAll(pieces), ","))
  {
    var parts := Split(raw, ',');
    assert parts[0] == name && parts[1] == email && parts[2..] == pieces;
    var cols := Columns(raw);
    assert cols[0] == Trim(name) && cols[1] == Trim(email);
    assert cols[2..] == TrimAll(pieces);
  }

  /** Three strings joined by commas, grouped from the right. */
  lemma CommaJoined(a: string, b: string, c: string)
    ensures a + "," + b + "," + c == a + [','] + (b + [','] + c)
  {
  }

  /** A single piece, trimmed and re-joined, trims to the piece trimmed. */
  lemma RejoinOne(s: string)
    ensures Trim(Join(TrimAll([s]), ",")) == Trim(s)
  {
    assert TrimAll([s]) == [Trim(s)];
    TrimTrimmed(Trim(s));
  }

  /** A line without a comma is all name: its email and rules columns are empty. */
  lemma NameOnlyLine(raw: string)
    requires ',' !in raw
    ensures NameColumn(raw) == Trim(raw) && EmailColumn(raw) == "" && RulesColumn(raw) == ""
  {
    SplitFree(raw, ',');
    assert Columns(raw) == [Trim(raw)];
    assert Trim("") == "";
  }

  /** Parsed line `p` is what the scan makes of the raw line its number points at. */
  predicate ScannedFrom(lines: seq<string>, p: ParsedLine) {
    1 <= p.line <= |lines| && ScanLine(lines[p.line - 1], p.line) == Success(Some(p))
  }

  /** A successful scan keeps one entry per non-blank line; blank lines are skipped. */
  lemma ScanCountsNonBlankLines(lines: seq<string>, n: nat)
    requires n <= |lines|
    ensures Scan(lines, n).Success? ==> |Scan(lines, n).value| == CountNonBlank(lines[..n])
  {
    var outs := LineOutcomes(lines);
    CollectCount(outs, n);
    CollectSucceeds(outs, n);
    if Scan(lines, n).Success? {
      PresentLinesNonBlank(lines, n);
    }
  }

  /** Among lines that scan without error, the ones that give an entry are the non-blank ones. */
  lemma PresentLinesNonBlank(lines: seq<string>, n: nat)
    requires n <= |lines|
    requires forall j :: 0 <= j < n ==> LineOutcomes(lines)[j].Success?
    ensures CountPresent(LineOutcomes(lines), n) == CountNonBlank(lines[..n])
  {
    var outs := LineOutcomes(lines);
    forall j | 0 <= j < n ensures outs[j].value.Some? <==> !IsBlank(lines[j]) {
      assert outs[j] == ScanLine(lines[j], j + 1);
    }
    PresentCount(outs, lines, n);
  }

  /** Outcomes that are present exactly for the non-blank lines count the non-blank lines. */
  lemma {:induction false} PresentCount(outs: seq<Result<Option<ParsedLine>, ParseError>>, lines: seq<string>, n: nat)
    requires n <= |outs| && n <= |lines|
    requires forall j :: 0 <= j < n ==> outs[j].Success? && (outs[j].value.Some? <==> !IsBlank(lines[j]))
    ensures CountPresent(outs, n) == CountNonBlank(lines[..n])
  {
    if n > 0 {
      PresentCount(outs, lines, n - 1);
      CountNonBlankLast(lines, n);
    }
  }

  /** Counting the non-blank lines among the first `n` adds the `n`-th to those among the first `n - 1`. */
  lemma CountNonBlankLast(lines: seq<string>, n: nat)
    requires 0 < n <= |lines|
    ensures CountNonBlank(lines[..n]) == CountNonBlank(lines[..n - 1]) + if IsBlank(lines[n - 1]) then 0 else 1
  {
    assert lines[..n][..n - 1] == lines[..n - 1];
  }

  /**
   The entries of a successful scan come in line order, each made from the
   line whose 1-based number it carries, so blank lines still count towards
   the line numbers reported later.
   */
  lemma ScanKeepsLineOrder(lines: seq<string>, n: nat)
    requires n <= |lines|
    requires Scan(lines, n).Success?
    ensures var ps := Scan(lines, n).value;
      && (forall k :: 0 <= k < |ps| ==> ScannedFrom(lines, ps[k]))
      && (forall j, k :: 0 <= j < k < |ps| ==> ps[j].line < ps[k].line)
  {
    var outs := LineOutcomes(lines);
    var ps := Scan(lines, n).value;
    var src := CollectSources(outs, n);
    forall k | 0 <= k < |ps|
      ensures ScannedFrom(lines, ps[k]) && ps[k].line == src[k] + 1
    {
      OutcomeScanned(lines, src[k], ps[k]);
    }
  }

  /** An entry the scan keeps from line `i` is what that line scans to, and carries its number. */
  lemma OutcomeScanned(lines: seq<string>, i: nat, p: ParsedLine)
    requires i < |lines| && LineOutcomes(lines)[i] == Success(Some(p))
    ensures ScannedFrom(lines, p) && p.line == i + 1
  {
    var o := ScanLine(lines[i], i + 1);
    assert o == Success(Some(p));
    assert p.line == i + 1;
    assert lines[p.line - 1] == lines[i];
  }

  // ---------------------------------------------------------------------
  // First pass
  // ---------------------------------------------------------------------

  /** Parsed line `k` is the first whose name repeats an earlier line's. */
  predicate FirstRepeat(ps: seq<ParsedLine>, k: nat)
    requires k < |ps|
  {
    NameSeenBefore(ps, k) && forall j :: 0 <= j < k ==> !NameSeenBefore(ps, j)
  }

  /** `e` is the duplicate-name error for line `k`, the first repeat. */
  predicate ReportsRepeat(ps: seq<ParsedLine>, k: nat, e: ParseError)
    requires k < |ps|
  {
    FirstRepeat(ps, k) && e == ParseError(ps[k].line, DuplicateName(ps[k].name))
  }

  /** The first pass fails exactly on a repeated name, at the line of its first repetition. */
  lemma FirstPassRejectsFirstRepeat(ps: seq<ParsedLine>, existing: Roster, uuids: IdSource, n: nat)
    requires n <= |ps|
    ensures FirstPass(ps, existing, uuids, n).Failure? <==> exists k :: 0 <= k < n && NameSeenBefore(ps, k)
    ensures FirstPass(ps, existing, uuids, n).Failure? ==>
      exists k :: 0 <= k < n && ReportsRepeat(ps, k, FirstPass(ps, existing, uuids, n).error)
  {
    var step := FirstSteps(Recorded, ps, existing, uuids);
    var inv := (s: FirstState, k: nat) => k <= |ps| && NameMapOk(ps, k, s.1);
    var bad := (k: nat) => k < |ps| && NameSeenBefore(ps, k);
    var reports := (e: ParseError, k: nat) => k < |ps| && e == ParseError(ps[k].line, DuplicateName(ps[k].name));
    forall s: FirstState, k: nat | k < n && inv(s, k)
      ensures step(s, k).Failure? <==> bad(k)
      ensures step(s, k).Failure? ==> reports(step(s, k).error, k)
      ensures step(s, k).Success? ==> inv(step(s, k).value, k + 1)
    {
      FirstStepNames(ps, existing, uuids, s, k);
    }
    LoopStopsAtFirstBad(([], map[]), step, n, inv, bad, reports);
    var r := FirstPass(ps, existing, uuids, n);
    if r.Failure? {
      var k :| 0 <= k < n && FirstBad(bad, k) && reports(r.error, k);
      forall j | 0 <= j < k ensures !NameSeenBefore(ps, j) {
        assert !bad(j);
      }
      assert bad(k);
      assert ReportsRepeat(ps, k, r.error);
    } else {
      forall k | 0 <= k < n ensures !NameSeenBefore(ps, k) {
        assert !bad(k);
      }
    }
  }

  /** Two lines with different names get different ids. */
  lemma NewIdsDistinct(ps: seq<ParsedLine>, existing: Roster, uuids: IdSource, j: nat, k: nat)
    requires UniqueIds(existing) && FreshIdsOk(existing, uuids)
    requires j < k < |ps| && ps[j].name != ps[k].name
    ensures NewParticipant(ps[j], existing, uuids, j).id != NewParticipant(ps[k], existing, uuids, k).id
  {
    var exj := FindLastByName(existing, ps[j].name);
    var exk := FindLastByName(existing, ps[k].name);
    if exj.Some? {
      var a :| 0 <= a < |existing| && existing[a] == exj.value;
      if exk.Some? {
        var b :| 0 <= b < |existing| && existing[b] == exk.value;
        assert a != b;
      } else {
        assert uuids(k) != existing[a].id;
      }
    } else if exk.Some? {
      var b :| 0 <= b < |existing| && existing[b] == exk.value;
      assert uuids(j) != existing[b].id;
    }
  }

  /**
   Identity reuse: a line whose name an existing participant carries takes
   over the id and hint of the last such participant, and its email unless
   the line gives one; a line with a new name gets the fresh id for its
   position, the line's email and no hint. Either way it starts without rules.
   */
  lemma IdentityReuse(p: ParsedLine, existing: Roster, uuids: IdSource, k: nat)
    ensures var q := NewParticipant(p, existing, uuids, k);
      && q.name == p.name && q.rules == []
      && ((forall i :: 0 <= i < |existing| ==> existing[i].name != p.name) ==>
            q.id == uuids(k) && q.email == p.email && q.hint == None)
      && (forall i ::
            (0 <= i < |existing| && existing[i].name == p.name
             && forall j :: i < j < |existing| ==> existing[j].name != p.name) ==>
            && q.id == existing[i].id && q.hint == existing[i].hint
            && q.email == (if p.email.Some? then p.email else existing[i].email))
  {
    forall i | 0 <= i < |existing| && existing[i].name == p.name
      && (forall j :: i < j < |existing| ==> existing[j].name != p.name)
      ensures FindLastByName(existing, p.name) == Some(existing[i])
    {
      FindLastByNameIsLast(existing, p.name, i);
    }
  }

  /** Participant `q` is the one the first pass makes of parsed line `p`, the `k`-th. */
  predicate BuiltFrom(q: Participant, p: ParsedLine, existing: Roster, uuids: IdSource, k: nat) {
    q == NewParticipant(p, existing, uuids, k)
  }

  /** `nameToId` maps the name of line `k` to the id of participant `k`. */
  predicate MapsToOwnId(ps: seq<ParsedLine>, nameToId: map<string, Id>, r: Roster, k: nat) {
    k < |ps| && k < |r| && ps[k].name in nameToId && nameToId[ps[k].name] == r[k].id
  }

  /**
   The state of the first pass after `n` lines, as identity reuse promises
   it: one participant per line, in order, built from that line and the
   existing participant of the same name (whose id and hint it keeps, and
   whose email it keeps when the line has none), under pairwise distinct
   names, with `nameToId` mapping each line's name to its participant's id.
   */
  predicate OnePerLine(ps: seq<ParsedLine>, existing: Roster, uuids: IdSource, n: nat, r: Roster, nameToId: map<string, Id>)
    requires n <= |ps|
  {
    && |r| == n
    && (forall k :: 0 <= k < n ==> BuiltFrom(r[k], ps[k], existing, uuids, k))
    && (forall k :: 0 <= k < n ==> MapsToOwnId(ps, nameToId, r, k))
    && (forall j, k :: 0 <= j < k < n ==> ps[j].name != ps[k].name)
  }

  /** Identity reuse: a successful first pass is in the state `OnePerLine` describes. */
  lemma FirstPassIdentity(
    ps: seq<ParsedLine>, existing: Roster, uuids: IdSource, n: nat, r: Roster, nameToId: map<string, Id>)
    requires n <= |ps|
    requires UniqueIds(existing) && FreshIdsOk(existing, uuids)
    requires FirstPass(ps, existing, uuids, n) == Success((r, nameToId))
    ensures OnePerLine(ps, existing, uuids, n, r, nameToId)
  {
    var step := FirstSteps(Recorded, ps, existing, uuids);
    var inv := (s: FirstState, k: nat) => k <= |ps| && OnePerLine(ps, existing, uuids, k, s.0, s.1);
    forall s: FirstState, k: nat | k < n && inv(s, k) && step(s, k).Success?
      ensures inv(step(s, k).value, k + 1)
    {
      OnePerLineStep(ps, existing, uuids, k + 1, s.0, s.1);
    }
    LoopInvariant(([], map[]), step, n, inv);
  }

  /** One iteration of the first pass keeps `OnePerLine`. */
  lemma OnePerLineStep(ps: seq<ParsedLine>, existing: Roster, uuids: IdSource, n: nat, r0: Roster, m0: map<string, Id>)
    requires 0 < n <= |ps|
    requires UniqueIds(existing) && FreshIdsOk(existing, uuids)
    requires OnePerLine(ps, existing, uuids, n - 1, r0, m0)
    requires ps[n - 1].name !in m0
    ensures var q := NewParticipant(ps[n - 1], existing, uuids, n - 1);
      OnePerLine(ps, existing, uuids, n, Put(r0, q), m0[q.name := q.id])
  {
    var q := NewParticipant(ps[n - 1], existing, uuids, n - 1);
    NewLineIsNew(ps, existing, uuids, n, r0, m0);
    assert Put(r0, q) == r0 + [q];
    OnePerLineAppend(ps, existing, uuids, n, r0, m0);
  }

  /** The participant of a line with a new name has a new name and a new id. */
  lemma NewLineIsNew(ps: seq<ParsedLine>, existing: Roster, uuids: IdSource, n: nat, r0: Roster, m0: map<string, Id>)
    requires 0 < n <= |ps|
    requires UniqueIds(existing) && FreshIdsOk(existing, uuids)
    requires OnePerLine(ps, existing, uuids, n - 1, r0, m0)
    requires ps[n - 1].name !in m0
    ensures forall j :: 0 <= j < n - 1 ==> ps[j].name != ps[n - 1].name
    ensures NewParticipant(ps[n - 1], existing, uuids, n - 1).id !in Ids(r0)
  {
    var q := NewParticipant(ps[n - 1], existing, uuids, n - 1);
    forall j | 0 <= j < n - 1 ensures ps[j].name != ps[n - 1].name && Ids(r0)[j] != q.id {
      assert MapsToOwnId(ps, m0, r0, j);
      assert BuiltFrom(r0[j], ps[j], existing, uuids, j);
      NewIdsDistinct(ps, existing, uuids, j, n - 1);
    }
  }

  /** Appending the participant of a line with a new name keeps `OnePerLine`. */
  lemma OnePerLineAppend(ps: seq<ParsedLine>, existing: Roster, uuids: IdSource, n: nat, r0: Roster, m0: map<string, Id>)
    requires 0 < n <= |ps|
    requires OnePerLine(ps, existing, uuids, n - 1, r0, m0)
    requires forall j :: 0 <= j < n - 1 ==> ps[j].name != ps[n - 1].name
    ensures var q := NewParticipant(ps[n - 1], existing, uuids, n - 1);
      OnePerLine(ps, existing, uuids, n, r0 + [q], m0[q.name := q.id])
  {
    var q := NewParticipant(ps[n - 1], existing, uuids, n - 1);
    var r := r0 + [q];
    var m := m0[q.name := q.id];
    forall k | 0 <= k < n ensures BuiltFrom(r[k], ps[k], existing, uuids, k) {
      if k < n - 1 { assert r[k] == r0[k]; }
    }
    forall k | 0 <= k < n ensures MapsToOwnId(ps, m, r, k) {
      if k < n - 1 { assert MapsToOwnId(ps, m0, r0, k) && r[k] == r0[k]; }
    }
  }

  /** In that state the participants' ids are pairwise distinct. */
  lemma OnePerLineUniqueIds(ps: seq<ParsedLine>, existing: Roster, uuids: IdSource, n: nat, r: Roster, nameToId: map<string, Id>)
    requires n <= |ps|
    requires UniqueIds(existing) && FreshIdsOk(existing, uuids)
    requires OnePerLine(ps, existing, uuids, n, r, nameToId)
    ensures UniqueIds(r)
  {
    forall i, j | 0 <= i < j < |r| ensures r[i].id != r[j].id {
      assert BuiltFrom(r[i], ps[i], existing, uuids, i) && BuiltFrom(r[j], ps[j], existing, uuids, j);
      NewIdsDistinct(ps, existing, uuids, i, j);
    }
  }

  // ---------------------------------------------------------------------
  // Second pass
  // ---------------------------------------------------------------------

  /** The second pass fails exactly when some line's rules fail, at the first such line's number. */
  lemma SecondPassFailsAtFirstBadLine(
    ps: seq<ParsedLine>, nameToId: map<string, Id>, checkRules: RuleChecker, base: Roster, n: nat)
    requires n <= |ps|
    ensures SecondPass(ps, nameToId, checkRules, base, n).Failure?
      <==> exists k :: 0 <= k < n && LineRules(ps[k], nameToId, checkRules).Failure?
    ensures SecondPass(ps, nameToId, checkRules, base, n).Failure? ==>
      exists k :: 0 <= k < n && ReportsBadLine(ps, nameToId, checkRules, k, SecondPass(ps, nameToId, checkRules, base, n).error)
  {
    var step := SecondSteps(ps, nameToId, checkRules);
    var inv := (s: Roster, k: nat) => true;
    var bad := (k: nat) => k < |ps| && LineRules(ps[k], nameToId, checkRules).Failure?;
    var reports := (e: ParseError, k: nat) =>
      k < |ps| && LineRules(ps[k], nameToId, checkRules).Failure?
      && e == ParseError(ps[k].line, LineRules(ps[k], nameToId, checkRules).error);
    LoopStopsAtFirstBad(base, step, n, inv, bad, reports);
    var r := SecondPass(ps, nameToId, checkRules, base, n);
    if r.Failure? {
      var k :| 0 <= k < n && FirstBad(bad, k) && reports(r.error, k);
      forall j | 0 <= j < k ensures LineRules(ps[j], nameToId, checkRules).Success? {
        assert !bad(j);
      }
      assert bad(k);
      assert ReportsBadLine(ps, nameToId, checkRules, k, r.error);
    } else {
      forall k | 0 <= k < n ensures LineRules(ps[k], nameToId, checkRules).Success? {
        assert !bad(k);
      }
    }
  }

  /** Token `j` is the first of a line's tokens that does not resolve. */
  predicate FirstBadToken(tokens: seq<string>, nameToId: map<string, Id>, j: nat)
    requires j < |tokens|
  {
    && ResolveToken(tokens[j], nameToId).Failure?
    && forall i :: 0 <= i < j ==> ResolveToken(tokens[i], nameToId).Success?
  }

  /** A line's tokens resolve exactly when each one does; otherwise the first bad token's error is reported. */
  lemma {:induction false} ResolveTokensFailsAtFirstBadToken(tokens: seq<string>, nameToId: map<string, Id>)
    decreases |tokens|
    ensures ResolveTokens(tokens, nameToId).Failure?
      <==> exists j :: 0 <= j < |tokens| && ResolveToken(tokens[j], nameToId).Failure?
    ensures ResolveTokens(tokens, nameToId).Failure? ==>
      exists j :: 0 <= j < |tokens| && FirstBadToken(tokens, nameToId, j)
        && ResolveTokens(tokens, nameToId).error == ResolveToken(tokens[j], nameToId).error
  {
    if |tokens| > 0 {
      var rest := tokens[1..];
      ResolveTokensFailsAtFirstBadToken(rest, nameToId);
      var r := ResolveTokens(tokens, nameToId);
      if ResolveToken(tokens[0], nameToId).Failure? {
        assert FirstBadToken(tokens, nameToId, 0);
      } else if ResolveTokens(rest, nameToId).Failure? {
        var j :| 0 <= j < |rest| && FirstBadToken(rest, nameToId, j)
          && ResolveTokens(rest, nameToId).error == ResolveToken(rest[j], nameToId).error;
        assert tokens[j + 1] == rest[j];
        assert forall i :: 1 <= i < j + 1 ==> tokens[i] == rest[i - 1];
        assert FirstBadToken(tokens, nameToId, j + 1);
      } else {
        assert r.Success?;
        forall j | 0 <= j < |tokens| ensures ResolveToken(tokens[j], nameToId).Success? {
          if j > 0 { assert tokens[j] == rest[j - 1]; }
        }
      }
    }
  }

  /** `e` is the error reported for line `k`, the first whose rules fail. */
  predicate ReportsBadLine(ps: seq<ParsedLine>, nameToId: map<string, Id>, checkRules: RuleChecker, k: nat, e: ParseError)
    requires k < |ps|
  {
    && RulesFailFirstAt(ps, nameToId, checkRules, k)
    && e == ParseError(ps[k].line, LineRules(ps[k], nameToId, checkRules).error)
  }

  /** `rules` is what the second pass makes of line `p`'s tokens. */
  predicate RulesFrom(p: ParsedLine, nameToId: map<string, Id>, checkRules: RuleChecker, rules: seq<Rule>) {
    LineRules(p, nameToId, checkRules) == Success(rules)
  }

  /**
   The second pass after `n` lines, starting from one participant per line:
   the first `n` participants hold the rules of their lines, and nothing but
   rules changes.
   */
  predicate RulesSetUpTo(ps: seq<ParsedLine>, nameToId: map<string, Id>, checkRules: RuleChecker, base: Roster, n: nat, r: Roster) {
    && n <= |ps| == |base| == |r|
    && (forall k :: 0 <= k < n ==> RulesFrom(ps[k], nameToId, checkRules, r[k].rules))
    && (forall k :: 0 <= k < |base| ==> SameButRules(r[k], base[k]))
  }

  /** With one participant per line, each iteration of the second pass sets the rules of its own line. */
  lemma SecondPassSetsRules(
    ps: seq<ParsedLine>, nameToId: map<string, Id>, checkRules: RuleChecker, base: Roster, n: nat)
    requires n <= |ps| == |base| && UniqueIds(base)
    requires forall k :: 0 <= k < |ps| ==> MapsToOwnId(ps, nameToId, base, k)
    ensures SecondPass(ps, nameToId, checkRules, base, n).Success? ==>
      RulesSetUpTo(ps, nameToId, checkRules, base, n, SecondPass(ps, nameToId, checkRules, base, n).value)
  {
    var step := SecondSteps(ps, nameToId, checkRules);
    var inv := (s: Roster, k: nat) => RulesSetUpTo(ps, nameToId, checkRules, base, k, s);
    forall s: Roster, k: nat | k < n && inv(s, k) && step(s, k).Success?
      ensures inv(step(s, k).value, k + 1)
    {
      RulesSetStep(ps, nameToId, checkRules, base, s, k);
    }
    LoopInvariant(base, step, n, inv);
  }

  /** One iteration of the second pass extends `RulesSetUpTo` by its own line. */
  lemma RulesSetStep(ps: seq<ParsedLine>, nameToId: map<string, Id>, checkRules: RuleChecker, base: Roster, s: Roster, k: nat)
    requires k < |ps| == |base| && UniqueIds(base)
    requires forall j :: 0 <= j < |ps| ==> MapsToOwnId(ps, nameToId, base, j)
    requires RulesSetUpTo(ps, nameToId, checkRules, base, k, s)
    requires SecondStep(ps, nameToId, checkRules, s, k).Success?
    ensures RulesSetUpTo(ps, nameToId, checkRules, base, k + 1, SecondStep(ps, nameToId, checkRules, s, k).value)
  {
    assert MapsToOwnId(ps, nameToId, base, k);
    SetOwnRules(s, base, k, LineRules(ps[k], nameToId, checkRules).value);
  }

  /** Setting the rules of participant `k`'s own id changes participant `k` and no other. */
  lemma SetOwnRules(prev: Roster, base: Roster, k: nat, rules: seq<Rule>)
    requires k < |base| == |prev| && UniqueIds(base)
    requires forall i :: 0 <= i < |base| ==> SameButRules(prev[i], base[i])
    ensures SetRules(prev, base[k].id, rules)[k] == prev[k].(rules := rules)
    ensures forall i :: 0 <= i < |prev| && i != k ==> SetRules(prev, base[k].id, rules)[i] == prev[i]
  {
    assert UniqueIds(prev) by {
      forall i, j | 0 <= i < j < |prev| ensures prev[i].id != prev[j].id {
        assert SameButRules(prev[i], base[i]) && SameButRules(prev[j], base[j]);
      }
    }
    assert SameButRules(prev[k], base[k]);
    IndexOfUnique(prev, k);
  }

  // ---------------------------------------------------------------------
  // The whole parse
  // ---------------------------------------------------------------------

  /**
   A line with an empty name is found during the scan, so it is reported
   (at the first such line) before any duplicate-name or rule error, and the
   parse reports an empty name only then.
   */
  lemma EmptyNameTakesPriority(input: string, existing: Roster, uuids: IdSource, checkRules: RuleChecker, lines: seq<string>)
    requires lines == Split(input, '\n')
    ensures var r := ParseParticipantsText(input, existing, uuids, checkRules);
      && ((exists i :: 0 <= i < |lines| && HasEmptyName(lines[i])) <==> r.Failure? && r.error.kind == EmptyName)
      && (r.Failure? && r.error.kind == EmptyName ==> FirstEmptyName(lines, r.error.line))
  {
    ScanFailsAtFirstEmptyName(lines, |lines|);
    var scan := Scan(lines, |lines|);
    var r := ParseParticipantsText(input, existing, uuids, checkRules);
    assert scan.Failure? ==> r == Failure(scan.error);
    EmptyNameFromScan(lines, scan, r);
  }

  /** The empty-name facts of the whole parse, from those of its scan. */
  lemma EmptyNameFromScan(lines: seq<string>, scan: Result<seq<ParsedLine>, ParseError>, r: Result<Roster, ParseError>)
    requires scan.Failure? <==> exists i :: 0 <= i < |lines| && HasEmptyName(lines[i])
    requires scan.Failure? ==> FirstEmptyName(lines, scan.error.line) && r == Failure(scan.error)
    requires r.Failure? && r.error.kind == EmptyName <==> scan.Failure?
    ensures (exists i :: 0 <= i < |lines| && HasEmptyName(lines[i])) <==> r.Failure? && r.error.kind == EmptyName
    ensures r.Failure? && r.error.kind == EmptyName ==> FirstEmptyName(lines, r.error.line)
  {
  }

  /**
   Once the scan succeeds, a repeated name is reported before any rule error:
   the parse fails with a duplicate name exactly when some name repeats, at
   the line of its first repetition.
   */
  lemma DuplicateNameBeforeRules(
    input: string, existing: Roster, uuids: IdSource, checkRules: RuleChecker, lines: seq<string>, ps: seq<ParsedLine>)
    requires lines == Split(input, '\n') && Scan(lines, |lines|) == Success(ps)
    ensures var r := ParseParticipantsText(input, existing, uuids, checkRules);
      && ((exists k :: 0 <= k < |ps| && NameSeenBefore(ps, k)) <==> r.Failure? && r.error.kind.DuplicateName?)
      && (r.Failure? && r.error.kind.DuplicateName? ==>
            exists k :: 0 <= k < |ps| && ReportsRepeat(ps, k, r.error))
  {
    FirstPassRejectsFirstRepeat(ps, existing, uuids, |ps|);
  }

  /** The kind of a rule given by a well-formed token: `=` must, `!` must not. */
  function TokenKind(token: string): RuleKind
    requires WellFormedToken(token)
  {
    if token[0] == '=' then Must else MustNot
  }

  /**
   The stages behind a successful parse: the scan gave `ps`, the first pass
   gave one participant per line and a name map covering exactly their
   names, and the second pass set every line's rules on that roster.
   */
  lemma ParseStages(
    input: string, existing: Roster, uuids: IdSource, checkRules: RuleChecker, lines: seq<string>, ps: seq<ParsedLine>)
    returns (base: Roster, nameToId: map<string, Id>)
    requires UniqueIds(existing) && FreshIdsOk(existing, uuids)
    requires lines == Split(input, '\n') && Scan(lines, |lines|) == Success(ps)
    requires ParseParticipantsText(input, existing, uuids, checkRules).Success?
    ensures |ps| == CountNonBlank(lines)
    ensures OnePerLine(ps, existing, uuids, |ps|, base, nameToId)
    ensures NameMapOk(ps, |ps|, nameToId)
    ensures RulesSetUpTo(ps, nameToId, checkRules, base, |ps|, ParseParticipantsText(input, existing, uuids, checkRules).value)
  {
    assert lines[..|lines|] == lines;
    ScanCountsNonBlankLines(lines, |lines|);
    var fp := FirstPass(ps, existing, uuids, |ps|);
    assert fp.Success?;
    base, nameToId := fp.value.0, fp.value.1;
    FirstPassIdentity(ps, existing, uuids, |ps|, base, nameToId);
    OnePerLineUniqueIds(ps, existing, uuids, |ps|, base, nameToId);
    assert forall k :: 0 <= k < |ps| ==> MapsToOwnId(ps, nameToId, base, k);
    SecondPassSetsRules(ps, nameToId, checkRules, base, |ps|);
  }

  /**
   What a successful parse returns: one participant per non-blank line, in
   line order, with pairwise distinct ids and names, each built from its
   line and the existing participant of the same name, each holding rules
   the rule checker accepts.
   */
  lemma ParseSuccess(
    input: string, existing: Roster, uuids: IdSource, checkRules: RuleChecker, lines: seq<string>, ps: seq<ParsedLine>)
    requires UniqueIds(existing) && FreshIdsOk(existing, uuids)
    requires lines == Split(input, '\n') && Scan(lines, |lines|) == Success(ps)
    ensures var r := ParseParticipantsText(input, existing, uuids, checkRules);
      r.Success? ==>
      && |r.value| == |ps| == CountNonBlank(lines)
      && UniqueIds(r.value) && UniqueNames(r.value)
      && (forall k :: 0 <= k < |r.value| ==> SameButRules(r.value[k], NewParticipant(ps[k], existing, uuids, k)))
      && (forall k :: 0 <= k < |r.value| ==> !Truthy(checkRules(r.value[k].rules)))
  {
    var r := ParseParticipantsText(input, existing, uuids, checkRules);
    if r.Success? {
      var base, nameToId := ParseStages(input, existing, uuids, checkRules, lines, ps);
      OnePerLineUniqueIds(ps, existing, uuids, |ps|, base, nameToId);
      var out := r.value;
      forall k | 0 <= k < |out| ensures SameButRules(out[k], NewParticipant(ps[k], existing, uuids, k)) {
        assert SameButRules(out[k], base[k]) && BuiltFrom(base[k], ps[k], existing, uuids, k);
      }
      forall i, j | 0 <= i < j < |out| ensures out[i].id != out[j].id && out[i].name != out[j].name {
        assert SameButRules(out[i], base[i]) && SameButRules(out[j], base[j]);
        assert BuiltFrom(base[i], ps[i], existing, uuids, i) && BuiltFrom(base[j], ps[j], existing, uuids, j);
      }
      forall k | 0 <= k < |out| ensures !Truthy(checkRules(out[k].rules)) {
        assert RulesFrom(ps[k], nameToId, checkRules, out[k].rules);
      }
    }
  }

  /**
   Participant `k` of `out` holds one rule per token of line `k`, in order,
   each of its token's kind and pointing at the participant the token names.
   */
  predicate RulesTraceTokens(ps: seq<ParsedLine>, out: Roster) {
    && |out| == |ps|
    && (forall k :: 0 <= k < |out| ==> |out[k].rules| == |ps[k].tokens|)
    && (forall k, j :: 0 <= k < |out| && 0 <= j < |out[k].rules| ==>
          && WellFormedToken(ps[k].tokens[j])
          && out[k].rules[j].kind == TokenKind(ps[k].tokens[j])
          && exists i :: 0 <= i < |out| && out[i].name == TargetName(ps[k].tokens[j]) && out[k].rules[j].target == out[i].id)
  }

  /**
   Each rule of a successful parse comes from the token at the same place
   on its line: one rule per token, in order, of the token's kind, pointing
   at the participant whose name the token gives.
   */
  lemma ParseRulesFollowTokens(
    input: string, existing: Roster, uuids: IdSource, checkRules: RuleChecker, lines: seq<string>, ps: seq<ParsedLine>)
    requires UniqueIds(existing) && FreshIdsOk(existing, uuids)
    requires lines == Split(input, '\n') && Scan(lines, |lines|) == Success(ps)
    ensures var r := ParseParticipantsText(input, existing, uuids, checkRules);
      r.Success? ==> RulesTraceTokens(ps, r.value)
  {
    var r := ParseParticipantsText(input, existing, uuids, checkRules);
    if r.Success? {
      var base, nameToId := ParseStages(input, existing, uuids, checkRules, lines, ps);
      RulesFollowTokens(ps, existing, uuids, checkRules, base, nameToId, r.value);
    }
  }

  /** Every rule of the second pass's result, traced back to its token. */
  lemma RulesFollowTokens(
    ps: seq<ParsedLine>, existing: Roster, uuids: IdSource, checkRules: RuleChecker,
    base: Roster, nameToId: map<string, Id>, out: Roster)
    requires OnePerLine(ps, existing, uuids, |ps|, base, nameToId)
    requires NameMapOk(ps, |ps|, nameToId)
    requires RulesSetUpTo(ps, nameToId, checkRules, base, |ps|, out)
    ensures RulesTraceTokens(ps, out)
  {
    forall k | 0 <= k < |out| ensures |out[k].rules| == |ps[k].tokens| {
      assert RulesFrom(ps[k], nameToId, checkRules, out[k].rules);
    }
    forall k, j | 0 <= k < |out| && 0 <= j < |out[k].rules|
      ensures WellFormedToken(ps[k].tokens[j])
      ensures out[k].rules[j].kind == TokenKind(ps[k].tokens[j])
      ensures exists i :: 0 <= i < |out| && out[i].name == TargetName(ps[k].tokens[j]) && out[k].rules[j].target == out[i].id
    {
      RuleFollowsToken(ps, existing, uuids, checkRules, base, nameToId, out, k, j);
    }
  }

  /** One rule of the second pass's result, traced back to its token. */
  lemma RuleFollowsToken(
    ps: seq<ParsedLine>, existing: Roster, uuids: IdSource, checkRules: RuleChecker,
    base: Roster, nameToId: map<string, Id>, out: Roster, k: nat, j: nat)
    requires OnePerLine(ps, existing, uuids, |ps|, base, nameToId)
    requires NameMapOk(ps, |ps|, nameToId)
    requires RulesSetUpTo(ps, nameToId, checkRules, base, |ps|, out)
    requires k < |out| && j < |out[k].rules|
    ensures WellFormedToken(ps[k].tokens[j])
    ensures out[k].rules[j].kind == TokenKind(ps[k].tokens[j])
    ensures exists i :: 0 <= i < |out| && out[i].name == TargetName(ps[k].tokens[j]) && out[k].rules[j].target == out[i].id
  {
    var token := ps[k].tokens[j];
    assert RulesFrom(ps[k], nameToId, checkRules, out[k].rules);
    assert ResolveToken(token, nameToId) == Success(out[k].rules[j]);
    var target := TargetName(token);
    assert NameAmong(ps, |ps|, target);
    var i :| 0 <= i < |ps| && ps[i].name == target;
    assert MapsToOwnId(ps, nameToId, base, i);
    assert SameButRules(out[i], base[i]) && BuiltFrom(base[i], ps[i], existing, uuids, i);
    assert out[i].name == target && out[k].rules[j].target == out[i].id;
  }
}
