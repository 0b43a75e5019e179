/**
 Name lookups as the parser writes them: `nameToId[name]` on an object
 created as `{}`. Such an object inherits the members of `Object.prototype`,
 so a key that is not an own property can still read as a (truthy) built-in
 function. The parse model in `RosterParse` uses map membership instead;
 this module models the lookup as written and shows where the two differ.
 */
module PrototypeLookup {
  import opened Wrappers
  import opened Text
  import opened Roster
  import opened RosterParse
  import opened ParseProperties
  import opened Looping
  import opened JsValues

  /** What reading a property of a plain object gives. */
  datatype JsValue = Undefined | Str(s: string) | Builtin(member: string)

  /** The members every plain object inherits from `Object.prototype`. */
  const InheritedNames: set<string> := {
    "constructor", "__proto__", "toString", "toLocaleString", "valueOf",
    "hasOwnProperty", "isPrototypeOf", "propertyIsEnumerable",
    "__defineGetter__", "__defineSetter__", "__lookupGetter__", "__lookupSetter__"
  }

  /** `obj[key]` for a plain object whose own properties are `own`. */
  function Lookup(own: map<string, Id>, key: string): (v: JsValue)
    ensures v.Undefined? <==> key !in own && key !in InheritedNames
    ensures key in own ==> v == Str(own[key])
  {
    if key in own then Str(own[key])
    else if key in InheritedNames then Builtin(key)
    else Undefined
  }

  /** JavaScript truthiness of a looked-up value; an own string is truthy as an optional string is. */
  predicate TruthyValue(v: JsValue) {
    match v
    case Undefined => false
    case Str(s) => Truthy(Some(s))
    case Builtin(_) => true
  }

  /** `if (nameToId[name])`: the first pass's duplicate test as written. */
  predicate SeenAsWritten(nameToId: map<string, Id>, name: string) {
    TruthyValue(Lookup(nameToId, name))
  }

  /** The first pass with the duplicate test as written. */
  function FirstPassAsWritten(ps: seq<ParsedLine>, existing: Roster, uuids: IdSource, n: nat)
    : Result<FirstState, ParseError>
  {
    Loop(([], map[]), FirstSteps(SeenAsWritten, ps, existing, uuids), n)
  }

  /** Ids the first pass can hand out are never empty (and so always truthy). */
  ghost predicate NonEmptyIds(existing: Roster, uuids: IdSource) {
    && (forall i: nat :: uuids(i) != "")
    && (forall k :: 0 <= k < |existing| ==> existing[k].id != "")
  }

  /** Every id a name map records is non-empty. */
  predicate IdsNonEmpty(nameToId: map<string, Id>) {
    forall nm :: nm in nameToId ==> nameToId[nm] != ""
  }

  /** A participant the first pass creates has a non-empty id. */
  lemma NewIdNonEmpty(p: ParsedLine, existing: Roster, uuids: IdSource, k: nat)
    requires NonEmptyIds(existing, uuids)
    ensures NewParticipant(p, existing, uuids, k).id != ""
  {
    var ex := FindLastByName(existing, p.name);
    if ex.Some? {
      var i :| 0 <= i < |existing| && existing[i] == ex.value;
    }
  }

  /**
   When no name is an inherited member and no id is empty, the lookup as
   written and map membership agree, and so do the two first passes.
   */
  lemma AsWrittenAgrees(ps: seq<ParsedLine>, existing: Roster, uuids: IdSource, n: nat)
    requires n <= |ps|
    requires NonEmptyIds(existing, uuids)
    requires forall k :: 0 <= k < n ==> ps[k].name !in InheritedNames
    ensures FirstPassAsWritten(ps, existing, uuids, n) == FirstPass(ps, existing, uuids, n)
  {
    var asWritten := FirstSteps(SeenAsWritten, ps, existing, uuids);
    var step := FirstSteps(Recorded, ps, existing, uuids);
    var inv := (s: FirstState, k: nat) => IdsNonEmpty(s.1);
    forall s: FirstState, k: nat | k < n && inv(s, k)
      ensures asWritten(s, k) == step(s, k)
      ensures asWritten(s, k).Success? ==> inv(asWritten(s, k).value, k + 1)
    {
      var name := ps[k].name;
      NewIdNonEmpty(ps[k], existing, uuids, k);
      if name in s.1 {
        assert s.1[name] != "";
      }
      assert SeenAsWritten(s.1, name) == Recorded(s.1, name);
    }
    LoopsAgree(([], map[]), asWritten, step, n, inv);
  }

  /** A single participant named `constructor`, on the first line. */
  function ConstructorLine(): seq<ParsedLine> {
    [ParsedLine(1, "constructor", None, [])]
  }

  /**
   As written, a roster whose only participant is named `constructor` is
   rejected as a duplicate name, though no name repeats; the corrected
   first pass accepts it.
   */
  lemma ConstructorRejectedAsWritten(existing: Roster, uuids: IdSource)
    ensures FirstPassAsWritten(ConstructorLine(), existing, uuids, 1)
      == Failure(ParseError(1, DuplicateName("constructor")))
    ensures !NameSeenBefore(ConstructorLine(), 0)
    ensures FirstPass(ConstructorLine(), existing, uuids, 1).Success?
  {
    var ps := ConstructorLine();
    assert "constructor" in InheritedNames;
    assert SeenAsWritten(map[], "constructor");
  }

  /** An existing participant named `Ann` whose id is the empty string. */
  function EmptyIdRoster(): Roster {
    [Participant("", "Ann", None, None, [])]
  }

  /** Two lines, both naming `Ann`. */
  function AnnTwice(): seq<ParsedLine> {
    [ParsedLine(1, "Ann", None, []), ParsedLine(2, "Ann", None, [])]
  }

  /**
   As written, a name whose recorded id is the empty string reads as unseen,
   because `""` is falsy: a repeated name reusing an existing participant
   with an empty id is accepted, the second line silently replacing the
   first's record. The corrected first pass reports the repetition at its
   line.
   */
  lemma EmptyIdRepeatAcceptedAsWritten(uuids: IdSource)
    ensures NameSeenBefore(AnnTwice(), 1)
    ensures FirstPassAsWritten(AnnTwice(), EmptyIdRoster(), uuids, 2).Success?
    ensures FirstPass(AnnTwice(), EmptyIdRoster(), uuids, 2) == Failure(ParseError(2, DuplicateName("Ann")))
  {
    var ps, existing := AnnTwice(), EmptyIdRoster();
    assert NameAmong(ps, 1, "Ann") by {
      assert ps[0].name == "Ann";
    }
    assert FindLastByName(existing, "Ann") == Some(existing[0]);
    var q := NewParticipant(ps[0], existing, uuids, 0);
    assert q == existing[0];
    var state := (Put([], q), map["Ann" := ""]);
    var asWritten := FirstSteps(SeenAsWritten, ps, existing, uuids);
    var step := FirstSteps(Recorded, ps, existing, uuids);
    assert asWritten(([], map[]), 0) == Success(state);
    assert step(([], map[]), 0) == Success(state);
    assert !SeenAsWritten(state.1, "Ann");
    assert asWritten(state, 1).Success?;
    assert step(state, 1) == Failure(ParseError(2, DuplicateName("Ann")));
  }

  /**
   As written, a rule naming a participant whose id is the empty string is
   an unknown participant, because `""` is falsy; the corrected resolution
   finds the target.
   */
  lemma EmptyIdTargetUnknownAsWritten()
    ensures ResolveTokenAsWritten("=Ann", map["Ann" := ""]) == Failure(UnknownParticipant("Ann"))
    ensures ResolveToken("=Ann", map["Ann" := ""]) == Success(Rule(Must, ""))
  {
    var token := "=Ann";
    assert token[1..] == "Ann";
    assert MatchRuleToken(token) == Some((Must, "Ann"));
    TrimTrimmed("Ann");
  }

  /** `nameToId[targetName]` in the second pass, as written: any truthy value is taken as the target. */
  function ResolveTokenAsWritten(token: string, nameToId: map<string, Id>): (r: Result<(RuleKind, JsValue), ErrorKind>)
    ensures !WellFormedToken(token) ==> r == Failure(InvalidRuleFormat(token))
    ensures WellFormedToken(token) ==> (r.Success? <==> TruthyValue(Lookup(nameToId, TargetName(token))))
    ensures WellFormedToken(token) && r.Success? ==> r.value == (TokenKind(token), Lookup(nameToId, TargetName(token)))
    ensures WellFormedToken(token) && r.Failure? ==> r.error == UnknownParticipant(TargetName(token))
  {
    match MatchRuleToken(token)
    case None => Failure(InvalidRuleFormat(token))
    case Some((kind, targetRaw)) =>
      var targetName := Trim(targetRaw);
      if targetName == "" then Failure(InvalidRuleFormat(token))
      else
        var target := Lookup(nameToId, targetName);
        if !TruthyValue(target) then Failure(UnknownParticipant(targetName))
        else Success((kind, target))
  }

  /**
   As written, `=toString` names no participant yet resolves, to the
   inherited `toString` function instead of an id; the corrected resolution
   reports an unknown participant.
   */
  lemma ToStringResolvesAsWritten(nameToId: map<string, Id>)
    requires "toString" !in nameToId
    ensures ResolveTokenAsWritten("=toString", nameToId) == Success((Must, Builtin("toString")))
    ensures ResolveToken("=toString", nameToId) == Failure(UnknownParticipant("toString"))
  {
    var token := "=toString";
    assert token[1..] == "toString";
    assert MatchRuleToken(token) == Some((Must, "toString"));
    assert IsTrimmed("toString");
    TrimTrimmed("toString");
  }
}
