/**
 `formatParticipantText`: the roster written back as the text the parser
 reads, one line per participant in record order:

     name,email,=Target; !Other

 A rule is written with `=` (must) or `!` (must not) followed by the name of
 the participant it points at; a rule whose target is not in the roster, or
 has an empty name, is left out.
 */
module RosterFormat {
  import opened Wrappers
  import opened Text
  import opened Roster
  import opened JsValues

  /** The operator a rule is written with. */
  function Sigil(kind: RuleKind): (c: char)
    ensures c == '=' <==> kind == Must
    ensures c == '!' <==> kind == MustNot
  {
    match kind
    case Must => '='
    case MustNot => '!'
  }

  /** One rule as a token, or nothing when its target cannot be named. */
  function RenderRule(r: Roster, rule: Rule): (t: Option<string>)
    ensures t.Some? <==> Get(r, rule.target).Some? && Get(r, rule.target).value.name != ""
    ensures t.Some? ==> |t.value| >= 2 && t.value[0] == Sigil(rule.kind) && t.value[1..] == Get(r, rule.target).value.name
  {
    match Get(r, rule.target)
    case None => None
    case Some(target) =>
      if target.name == "" then None
      else
        var t := [Sigil(rule.kind)] + target.name;
        assert t[1..] == target.name;
        Some(t)
  }

  /** `rules.map(...)`: each rule's token, or nothing, in order. */
  function RenderEach(r: Roster, rules: seq<Rule>): (ts: seq<Option<string>>)
    ensures |ts| == |rules|
    ensures forall i :: 0 <= i < |rules| ==> ts[i] == RenderRule(r, rules[i])
  {
    seq(|rules|, i requires 0 <= i < |rules| => RenderRule(r, rules[i]))
  }

  /** `.filter(rule => !!rule)`: the values that are present, in order. */
  function Present<T>(opts: seq<Option<T>>): (vs: seq<T>)
    ensures |vs| <= |opts|
    ensures (forall i :: 0 <= i < |opts| ==> opts[i].Some?) ==>
      |vs| == |opts| && forall i :: 0 <= i < |opts| ==> Some(vs[i]) == opts[i]
    ensures forall i :: 0 <= i < |opts| && opts[i].Some? ==> opts[i].value in vs
    ensures |opts| == 1 ==> vs == if opts[0].Some? then [opts[0].value] else []
  {
    if |opts| == 0 then []
    else
      var rest := Present(opts[1..]);
      match opts[0]
      case None => rest
      case Some(v) =>
        var vs := [v] + rest;
        assert forall i :: 1 <= i < |vs| ==> vs[i] == rest[i - 1];
        vs
  }

  /** Every value kept by the filter is one of the present values. */
  lemma {:induction false} PresentFrom<T>(opts: seq<Option<T>>, j: nat)
    requires j < |Present(opts)|
    ensures exists i :: 0 <= i < |opts| && opts[i] == Some(Present(opts)[j])
  {
    var rest := Present(opts[1..]);
    var vs := Present(opts);
    match opts[0]
    case None =>
      assert vs == rest;
      PresentFrom(opts[1..], j);
      var i :| 0 <= i < |opts[1..]| && opts[1..][i] == Some(rest[j]);
      assert opts[i + 1] == Some(vs[j]);
    case Some(v) =>
      assert vs == [v] + rest;
      if j > 0 {
        assert vs[j] == rest[j - 1];
        PresentFrom(opts[1..], j - 1);
        var i :| 0 <= i < |opts[1..]| && opts[1..][i] == Some(rest[j - 1]);
        assert opts[i + 1] == Some(vs[j]);
      }
  }

  /**
   Filtering two lists one after the other is filtering each: together with
   the one-element case of `Present`, the present values are all kept, in
   order, and nothing else is.
   */
  lemma {:induction false} PresentAppend<T>(a: seq<Option<T>>, b: seq<Option<T>>)
    ensures Present(a + b) == Present(a) + Present(b)
    decreases |a|
  {
    if |a| == 0 {
      assert a + b == b;
    } else {
      assert (a + b)[0] == a[0];
      assert (a + b)[1..] == a[1..] + b;
      PresentAppend(a[1..], b);
    }
  }

  /** The tokens of a rule list, in order, with the rules that cannot be named filtered out. */
  function RenderRules(r: Roster, rules: seq<Rule>): (tokens: seq<string>)
    ensures |tokens| <= |rules|
    ensures (forall i :: 0 <= i < |rules| ==> RenderRule(r, rules[i]).Some?) ==>
      |tokens| == |rules| && forall i :: 0 <= i < |rules| ==> Some(tokens[i]) == RenderRule(r, rules[i])
    ensures forall i :: 0 <= i < |rules| && RenderRule(r, rules[i]).Some? ==> RenderRule(r, rules[i]).value in tokens
    ensures |rules| == 1 ==> tokens == if RenderRule(r, rules[0]).Some? then [RenderRule(r, rules[0]).value] else []
  {
    Present(RenderEach(r, rules))
  }

  /**
   The tokens of two rule lists one after the other are the tokens of the
   first, then those of the second: with the one-rule case of `RenderRules`,
   the tokens are exactly the rendered rules that can be named, in order.
   */
  lemma RenderRulesAppend(r: Roster, a: seq<Rule>, b: seq<Rule>)
    ensures RenderRules(r, a + b) == RenderRules(r, a) + RenderRules(r, b)
  {
    var ea, eb, eab := RenderEach(r, a), RenderEach(r, b), RenderEach(r, a + b);
    assert eab == ea + eb by {
      assert |eab| == |ea + eb|;
      forall i | 0 <= i < |eab| ensures eab[i] == (ea + eb)[i] {
        if i < |a| {
          assert (a + b)[i] == a[i];
        } else {
          assert (a + b)[i] == b[i - |a|];
        }
      }
    }
    PresentAppend(ea, eb);
  }

  /** Every token written for a rule list renders one of its rules. */
  lemma RenderRulesFromRules(r: Roster, rules: seq<Rule>, j: nat)
    requires j < |RenderRules(r, rules)|
    ensures exists i :: 0 <= i < |rules| && RenderRule(r, rules[i]) == Some(RenderRules(r, rules)[j])
  {
    var ts := RenderEach(r, rules);
    PresentFrom(ts, j);
    var i :| 0 <= i < |ts| && ts[i] == Some(Present(ts)[j]);
    assert RenderRule(r, rules[i]) == Some(RenderRules(r, rules)[j]);
  }

  /** The three columns of a participant's line, without its line break. */
  function LineBody(r: Roster, p: Participant): string {
    Join([p.name, OrEmpty(p.email), Join(RenderRules(r, p.rules), "; ")], ",")
  }

  /** The lines of `rows`, each written against the whole roster `r`. */
  function Bodies(r: Roster, rows: seq<Participant>): (b: seq<string>)
    ensures |b| == |rows|
    ensures forall i :: 0 <= i < |rows| ==> b[i] == LineBody(r, rows[i])
  {
    seq(|rows|, i requires 0 <= i < |rows| => LineBody(r, rows[i]))
  }

  /** Each row's line followed by a line break, concatenated. */
  function FormatRows(r: Roster, rows: seq<Participant>): string {
    if |rows| == 0 then ""
    else LineBody(r, rows[0]) + "\n" + FormatRows(r, rows[1..])
  }

  /** `formatParticipantText(participants)`. */
  function FormatParticipantText(r: Roster): string {
    FormatRows(r, r)
  }

  /** The lines of a non-empty list of rows: the first row's line, then the others'. */
  lemma BodiesCons(r: Roster, rows: seq<Participant>)
    requires |rows| > 0
    ensures Bodies(r, rows) + [""] == [LineBody(r, rows[0])] + (Bodies(r, rows[1..]) + [""])
  {
    var b, rest := Bodies(r, rows), Bodies(r, rows[1..]);
    var first := [LineBody(r, rows[0])];
    forall i | 0 <= i < |b| ensures b[i] == (first + rest)[i] {
      if i > 0 {
        assert rows[1..][i - 1] == rows[i];
      }
    }
    assert b == first + rest;
  }

  /** The rows' lines, each ended by a line break, are the lines joined by line breaks with an empty last piece. */
  lemma {:induction false} FormatRowsJoin(r: Roster, rows: seq<Participant>)
    ensures FormatRows(r, rows) == Join(Bodies(r, rows) + [""], "\n")
  {
    if |rows| > 0 {
      FormatRowsJoin(r, rows[1..]);
      BodiesCons(r, rows);
      JoinCons(LineBody(r, rows[0]), Bodies(r, rows[1..]) + [""], "\n");
    }
  }

  /** A name the text format carries unchanged: non-empty, trimmed, free of the characters it splits on. */
  predicate WritableName(s: string) {
    && s != "" && IsTrimmed(s)
    && ',' !in s && ';' !in s
    && forall i :: 0 <= i < |s| ==> !IsLineTerminator(s[i])
  }

  /** An email the text format carries unchanged; an empty one would read back as no email. */
  predicate WritableEmail(email: Option<string>) {
    email.Some? ==> email.value != "" && IsTrimmed(email.value) && ',' !in email.value && '\n' !in email.value
  }

  /** A participant whose line reads back as itself against roster `r`. */
  predicate WritableParticipant(r: Roster, p: Participant) {
    && WritableName(p.name)
    && WritableEmail(p.email)
    && forall j :: 0 <= j < |p.rules| ==> Get(r, p.rules[j].target).Some?
  }

  /** A roster the text format carries unchanged. */
  predicate Writable(r: Roster) {
    && UniqueIds(r) && UniqueNames(r)
    && forall k :: 0 <= k < |r| ==> WritableParticipant(r, r[k])
  }

  /** In a writable roster every participant a rule points at has a writable name. */
  lemma TargetWritable(r: Roster, rule: Rule)
    requires Writable(r) && Get(r, rule.target).Some?
    ensures WritableName(Get(r, rule.target).value.name)
  {
    var m := IndexOf(r, rule.target).value;
    assert WritableParticipant(r, r[m]);
  }

  /** In a writable roster every rule is written, as its operator followed by its target's name. */
  lemma RulesAllRendered(r: Roster, k: nat)
    requires Writable(r) && k < |r|
    ensures var tokens := RenderRules(r, r[k].rules);
      && |tokens| == |r[k].rules|
      && forall j :: 0 <= j < |tokens| ==>
           && Get(r, r[k].rules[j].target).Some?
           && WritableName(Get(r, r[k].rules[j].target).value.name)
           && tokens[j] == [Sigil(r[k].rules[j].kind)] + Get(r, r[k].rules[j].target).value.name
  {
    var rules := r[k].rules;
    var tokens := RenderRules(r, rules);
    assert WritableParticipant(r, r[k]);
    forall i | 0 <= i < |rules| ensures RenderRule(r, rules[i]).Some? && WritableName(Get(r, rules[i].target).value.name) {
      TargetWritable(r, rules[i]);
    }
    forall j | 0 <= j < |tokens| ensures tokens[j] == [Sigil(rules[j].kind)] + Get(r, rules[j].target).value.name {
      var t := tokens[j];
      assert t == [t[0]] + t[1..];
    }
  }

  /** A writable name contains no line break. */
  lemma WritableNameOneLine(s: string)
    requires WritableName(s)
    ensures '\n' !in s
  {
    assert forall i :: 0 <= i < |s| ==> !IsLineTerminator(s[i]);
  }

  /** The rules column of a writable roster's line contains no line break. */
  lemma RulesColumnOneLine(r: Roster, k: nat)
    requires Writable(r) && k < |r|
    ensures '\n' !in Join(RenderRules(r, r[k].rules), "; ")
  {
    var tokens := RenderRules(r, r[k].rules);
    RulesAllRendered(r, k);
    forall j | 0 <= j < |tokens| ensures '\n' !in tokens[j] {
      WritableNameOneLine(Get(r, r[k].rules[j].target).value.name);
    }
    JoinKeepsOut(tokens, "; ", '\n');
  }

  /** No line of a writable roster contains a line break. */
  lemma LineBodyOneLine(r: Roster, k: nat)
    requires Writable(r) && k < |r|
    ensures '\n' !in LineBody(r, r[k])
  {
    assert WritableParticipant(r, r[k]);
    RulesColumnOneLine(r, k);
    ColumnsOneLine(r[k].name, r[k].email, Join(RenderRules(r, r[k].rules), "; "));
  }

  /** A writable name and email next to a rules column without line breaks make a line without line breaks. */
  lemma ColumnsOneLine(name: string, email: Option<string>, rules: string)
    requires WritableName(name) && WritableEmail(email) && '\n' !in rules
    ensures '\n' !in Join([name, OrEmpty(email), rules], ",")
  {
    var cols := [name, OrEmpty(email), rules];
    WritableNameOneLine(name);
    assert '\n' !in cols[1];
    JoinKeepsOut(cols, ",", '\n');
  }

  /** Splitting the text of a writable roster at line breaks gives one line per participant, then an empty last line. */
  lemma FormatLines(r: Roster)
    requires Writable(r)
    ensures Split(FormatParticipantText(r), '\n') == Bodies(r, r) + [""]
  {
    FormatRowsJoin(r, r);
    var parts := Bodies(r, r) + [""];
    forall i | 0 <= i < |parts| ensures '\n' !in parts[i] {
      if i < |r| { LineBodyOneLine(r, i); }
    }
    SplitJoin(parts, '\n');
  }
}
