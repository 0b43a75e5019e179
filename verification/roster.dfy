/**
 The participant roster: an id-keyed record of participants, each owning an
 ordered list of must / must-not rules that point at other participants by id.

 A JavaScript `Record<string, Participant>` keyed by participant id is
 modelled as the sequence of its values in insertion order; the key of each
 value is the value's own `id`. Property assignment (`Put`) replaces a value
 in place when its key is present and appends it otherwise, which is how
 plain objects order their (non-integer) keys.
 */
module Roster {
  import opened Wrappers

  type Id = string

  datatype RuleKind = Must | MustNot

  /** A directed constraint owned by a giver: give to, or never give to, `target`. */
  datatype Rule = Rule(kind: RuleKind, target: Id)

  datatype Participant = Participant(
    id: Id,
    name: string,
    email: Option<string>,
    hint: Option<string>,
    rules: seq<Rule>)

  type Roster = seq<Participant>

  /** The keys of the record, in insertion order. */
  function Ids(r: Roster): (ids: seq<Id>)
    ensures |ids| == |r|
    ensures forall i :: 0 <= i < |r| ==> ids[i] == r[i].id
  {
    seq(|r|, i requires 0 <= i < |r| => r[i].id)
  }

  predicate UniqueIds(r: Roster) {
    forall i, j :: 0 <= i < j < |r| ==> r[i].id != r[j].id
  }

  predicate UniqueNames(r: Roster) {
    forall i, j :: 0 <= i < j < |r| ==> r[i].name != r[j].name
  }

  /** Position of the value stored under key `id`. */
  function IndexOf(r: Roster, id: Id): (k: Option<nat>)
    ensures k.Some? <==> id in Ids(r)
    ensures k.Some? ==> k.value < |r| && r[k.value].id == id
    ensures k.Some? ==> forall j :: 0 <= j < k.value ==> r[j].id != id
  {
    if |r| == 0 then None
    else if r[0].id == id then Some(0)
    else
      var k := IndexOf(r[1..], id);
      if k.Some? then
        assert Ids(r)[k.value + 1] == r[1..][k.value].id;
        assert forall j :: 1 <= j <= k.value ==> r[j] == r[1..][j - 1];
        Some(k.value + 1)
      else
        assert forall j :: 0 <= j < |r| ==> Ids(r)[j] != id by {
          forall j | 1 <= j < |r| ensures Ids(r)[j] != id {
            assert Ids(r[1..])[j - 1] == r[j].id;
          }
        }
        None
  }

  /** `participants[id]`: the participant stored under `id`, if any. */
  function Get(r: Roster, id: Id): (p: Option<Participant>)
    ensures p.Some? <==> id in Ids(r)
    ensures p.Some? ==> p.value in r && p.value.id == id
  {
    match IndexOf(r, id)
    case None => None
    case Some(k) => Some(r[k])
  }

  /** `participants[p.id] = p`. */
  function Put(r: Roster, p: Participant): (r': Roster)
    ensures p.id in Ids(r) ==> |r'| == |r|
    ensures p.id in Ids(r) ==> Ids(r') == Ids(r)
    ensures p.id !in Ids(r) ==> r' == r + [p]
    ensures Get(r', p.id) == Some(p)
    ensures forall id :: id != p.id ==> Get(r', id) == Get(r, id)
    ensures forall id :: id in Ids(r') <==> id in Ids(r) || id == p.id
  {
    match IndexOf(r, p.id)
    case None =>
      AppendNewKey(r, p);
      r + [p]
    case Some(k) =>
      ReplaceKey(r, p, k);
      r[k := p]
  }

  /** Appending a value under a new key adds that key and leaves every other lookup alone. */
  lemma AppendNewKey(r: Roster, p: Participant)
    requires p.id !in Ids(r)
    ensures Get(r + [p], p.id) == Some(p)
    ensures forall id :: id != p.id ==> Get(r + [p], id) == Get(r, id)
    ensures forall id :: id in Ids(r + [p]) <==> id in Ids(r) || id == p.id
  {
    IndexOfAppendNew(r, p);
    forall id | id != p.id
      ensures Get(r + [p], id) == Get(r, id)
    {
      if id in Ids(r) {
        IndexOfAppend(r, p, id);
      } else {
        assert id !in Ids(r + [p]) by {
          assert forall j :: 0 <= j < |r| ==> Ids(r + [p])[j] == Ids(r)[j];
        }
      }
    }
    assert Ids(r + [p]) == Ids(r) + [p.id];
  }

  /** Replacing the value at the key's position keeps the keys and changes only that lookup. */
  lemma ReplaceKey(r: Roster, p: Participant, k: nat)
    requires IndexOf(r, p.id) == Some(k)
    ensures Ids(r[k := p]) == Ids(r)
    ensures Get(r[k := p], p.id) == Some(p)
    ensures forall id :: id != p.id ==> Get(r[k := p], id) == Get(r, id)
  {
    var r' := r[k := p];
    assert Ids(r') == Ids(r) by {
      assert forall j :: 0 <= j < |r| ==> Ids(r')[j] == Ids(r)[j];
    }
    IndexOfSameIds(r, r', p.id);
    forall id | id != p.id
      ensures Get(r', id) == Get(r, id)
    {
      IndexOfSameIds(r, r', id);
    }
  }

  /** Lookup positions depend only on the keys. */
  lemma {:induction false} IndexOfSameIds(r: Roster, r': Roster, id: Id)
    requires Ids(r) == Ids(r')
    ensures IndexOf(r, id) == IndexOf(r', id)
  {
    if |r| > 0 {
      assert r[0].id == Ids(r)[0] == Ids(r')[0] == r'[0].id;
      assert Ids(r[1..]) == Ids(r)[1..];
      assert Ids(r'[1..]) == Ids(r')[1..];
      IndexOfSameIds(r[1..], r'[1..], id);
    }
  }

  lemma {:induction false} IndexOfAppend(r: Roster, p: Participant, id: Id)
    requires id in Ids(r)
    ensures IndexOf(r + [p], id) == IndexOf(r, id)
  {
    if r[0].id != id {
      assert (r + [p])[1..] == r[1..] + [p];
      assert Ids(r) == [r[0].id] + Ids(r[1..]);
      IndexOfAppend(r[1..], p, id);
    }
  }

  lemma {:induction false} IndexOfAppendNew(r: Roster, p: Participant)
    requires p.id !in Ids(r)
    ensures IndexOf(r + [p], p.id) == Some(|r|)
  {
    if |r| > 0 {
      assert (r + [p])[1..] == r[1..] + [p];
      assert Ids(r) == [r[0].id] + Ids(r[1..]);
      IndexOfAppendNew(r[1..], p);
    }
  }

  /** With unique ids, a key is found at the one position that holds it. */
  lemma {:induction false} IndexOfUnique(r: Roster, k: nat)
    requires UniqueIds(r)
    requires k < |r|
    ensures IndexOf(r, r[k].id) == Some(k)
  {
    assert Ids(r)[k] == r[k].id;
    var i := IndexOf(r, r[k].id).value;
    assert r[i].id == r[k].id;
  }

  /**
   `existingByName[name]` where `existingByName` is built by assigning each
   participant under its name in iteration order: the LAST participant
   carrying that name.
   */
  function FindLastByName(r: Roster, name: string): (p: Option<Participant>)
    ensures p.Some? ==> p.value in r && p.value.name == name
    ensures p.None? <==> forall i :: 0 <= i < |r| ==> r[i].name != name
  {
    if |r| == 0 then None
    else if r[|r| - 1].name == name then Some(r[|r| - 1])
    else FindLastByName(r[..|r| - 1], name)
  }

  /** The participant found by name is the one at the last position carrying that name. */
  lemma {:induction false} FindLastByNameIsLast(r: Roster, name: string, i: nat)
    requires i < |r| && r[i].name == name
    requires forall j :: i < j < |r| ==> r[j].name != name
    ensures FindLastByName(r, name) == Some(r[i])
  {
    if i < |r| - 1 {
      var init := r[..|r| - 1];
      assert forall j :: i < j < |init| ==> init[j] == r[j];
      FindLastByNameIsLast(init, name, i);
    }
  }

  /** With unique names, the participant found by name is the one carrying it. */
  lemma {:induction false} FindLastByNameUnique(r: Roster, k: nat)
    requires UniqueNames(r)
    requires k < |r|
    ensures FindLastByName(r, r[k].name) == Some(r[k])
  {
    if k < |r| - 1 {
      FindLastByNameUnique(r[..|r| - 1], k);
    }
  }
}
