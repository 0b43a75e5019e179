# Secret Santa roster text and assignment links, in Dafny

This project models two pure parts of a Secret Santa web app and proves
properties of them.

The first part is the roster text format (`src/utils/parseParticipants.ts`):
- `parseParticipantsText` reads lines of the form `name,email,=Target; !Other`.
  It returns an id-keyed participant record, or an error that carries a
  1-based line number.
- `formatParticipantText` writes a record back as such text.

The second part is assignment-link assembly (`src/utils/links.ts`):
- `generateAssignmentLink` builds the `/pairing?from=…&to=…` link a giver
  opens.
- `generateCSV` exports all assignments as comma-separated text.

## Modules

| file | module | what it holds |
|---|---|---|
| `wrappers.dfy` | `Wrappers` | `Option` and `Result` |
| `js_values.dfy` | `JsValues` | JavaScript truthiness of a string that may be absent, `?? ''`, and the read-side fallback that turns an empty string into `undefined` |
| `text.dfy` | `Text` | JavaScript `split` (one-character separator), `join` and `trim` (ECMAScript white space and line terminators) |
| `roster.dfy` | `Roster` | participants, rules and the id-keyed record |
| `collecting.dfy` | `Collecting` | the scan loop's shape, proved once for any item and error type |
| `looping.dfy` | `Looping` | the two passes' loop shape, proved once for any state and error type |
| `roster_parse.dfy` | `RosterParse` | `parseParticipantsText`: scan, first pass, second pass |
| `parse_properties.dfy` | `ParseProperties` | what the parse promises, per pass and for the whole parse |
| `roster_format.dfy` | `RosterFormat` | `formatParticipantText` |
| `round_trip.dfy` | `RoundTrip` | formatting then parsing gives the roster back |
| `prototype_lookup.dfy` | `PrototypeLookup` | `nameToId[name]` as written, on an object that inherits `Object.prototype` |
| `utf8.dfy` | `Utf8` | UTF-8 as section 3 of RFC 3629 defines it |
| `form_encoding.dfy` | `FormEncoding` | the application/x-www-form-urlencoded serializer of the WHATWG URL Standard (section 5.2), with a parser that reads it back |
| `links.dfy` | `Links` | `generateAssignmentLink` |
| `csv.dfy` | `Csv` | `generateCSV` |

## Modelling choices

- **Records.** A `Record<string, Participant>` keyed by id is the sequence of
  its values in insertion order. The key of each value is its own `id`.
  Property assignment (`Roster.Put`) replaces a value in place when its key
  is present and appends it otherwise.
- **Loops.** Each loop of the parser is modelled as the state after its first
  `n` iterations. An early `return` of an error becomes a `Failure` that ends
  the loop. The loop lemmas in `Collecting` and `Looping` hold for any state,
  and the facts about one iteration stay with each pass.
- **Things outside the code become parameters:**
  - `crypto.randomUUID` is an `IdSource`, a function from the line's position
    among the non-blank lines to an id.
  - `checkRules` is a `RuleChecker`.
  - `encryptText` is an `Encryptor`.
  - `window.location` is an `origin` and a `pathname` string.
- **Existing participants.** When `existingParticipants` is not given, the
  model uses the empty roster. That gives the same result, since every name
  lookup then misses.
- **Errors.** Each error is an `ErrorKind` with its translation key and
  interpolation values, plus the line number.
- **Two lookups done differently.** The parser's `nameToId[...]` tests are
  modelled as map membership. `PrototypeLookup` models the lookups as written.
  It shows both ways they differ: an inherited member reads as seen, and a
  name recorded with an empty id reads as unseen. It proves they agree
  otherwise (see Findings).

## Model

| member | source | states |
|---|---|---|
| Text.Trim | src/utils/parseParticipants.ts:62 | the result has no white space or line terminator at either end |
| Text.TrimInfix | src/utils/parseParticipants.ts:62 | trimming removes an all-space prefix and an all-space suffix, and nothing else |
| Text.TrimEmptyIff | src/utils/parseParticipants.ts:62-63 | a line trims to nothing exactly when every character is white space |
| Text.Split | src/utils/parseParticipants.ts:43 | `split` gives at least one piece, and no piece contains the separator |
| Text.JoinSplit | src/utils/parseParticipants.ts:43 | joining the pieces of a split with the separator gives back the original text |
| Text.SplitJoin | src/utils/parseParticipants.ts:38 | splitting separator-free columns joined by the separator gives the columns back |
| Text.SplitConcat | src/utils/parseParticipants.ts:73 | splitting at one occurrence of the separator gives the pieces of the text before it, then the pieces of the text after it |
| Text.DropEmpty | src/utils/parseParticipants.ts:74 | `filter(Boolean)` keeps only non-empty pieces, each one taken from the input, and every non-empty piece is kept; one piece is kept exactly when it is non-empty |
| Text.DropEmptyAppend | src/utils/parseParticipants.ts:74 | filtering two lists one after the other is filtering each, so with the one-piece case the filter keeps exactly the non-empty pieces, in order |
| Roster.IndexOf | src/utils/parseParticipants.ts:160 | a key is found exactly when present, at the first position holding it |
| Roster.Get | src/utils/parseParticipants.ts:22 | `participants[id]` is present exactly when `id` is a key, and is a stored participant with that id |
| Roster.Put | src/utils/parseParticipants.ts:99-105 | after `result[id] = p`, reading `id` gives `p` and every other key reads as before; a new key is appended, and storing under a present key leaves the key list as it was |
| Roster.AppendNewKey | src/utils/parseParticipants.ts:99-105 | storing under a new key adds that key and changes no other lookup |
| Roster.ReplaceKey | src/utils/parseParticipants.ts:99-105 | storing under a present key keeps the key order and changes only that lookup |
| Roster.IndexOfUnique | src/utils/parseParticipants.ts:160 | with unique ids, each participant's id is found at that participant's own position |
| Roster.FindLastByName | src/utils/parseParticipants.ts:46-51 | the name lookup finds a participant with that name exactly when one exists |
| Roster.FindLastByNameIsLast | src/utils/parseParticipants.ts:46-51 | because the reduce overwrites earlier entries, the participant found is the last one carrying the name |
| Roster.FindLastByNameUnique | src/utils/parseParticipants.ts:46-51 | with unique names, looking up a participant's name finds that participant |
| Collecting.Collect | src/utils/parseParticipants.ts:60-83 | a scan of `n` lines keeps at most `n` entries |
| Collecting.CollectFails | src/utils/parseParticipants.ts:60-83 | a failed scan reports the error of the first failing line, and every earlier line succeeded |
| Collecting.CollectSucceeds | src/utils/parseParticipants.ts:60-83 | the scan succeeds exactly when no line fails |
| Collecting.CollectSources | src/utils/parseParticipants.ts:77-82 | each entry kept was pushed by a line, and those lines come in increasing order |
| Collecting.CollectCount | src/utils/parseParticipants.ts:77-82 | a successful scan keeps exactly one entry per line that pushes one |
| Collecting.CollectAllPresent | src/utils/parseParticipants.ts:77-82 | when every line pushes an entry, the scan keeps exactly those entries, in order |
| Looping.LoopFailsAt | src/utils/parseParticipants.ts:86-161 | a failed pass failed in one iteration, which ran on the state the earlier iterations left |
| Looping.LoopInvariant | src/utils/parseParticipants.ts:86-161 | a property that holds at the start and that each successful iteration keeps holds at the end |
| Looping.LoopStopsAtFirstBad | src/utils/parseParticipants.ts:86-161 | a pass whose iterations fail exactly on bad items fails exactly when one item is bad, with the first bad item's error |
| Looping.LoopsAgree | src/utils/parseParticipants.ts:86-161 | two passes whose iterations agree on every reachable state give the same result |
| RosterParse.Columns | src/utils/parseParticipants.ts:65 | a line has at least one column, and each column is trimmed |
| RosterParse.RuleTokens | src/utils/parseParticipants.ts:73-75 | each rule token is non-empty, trimmed and free of `;` |
| RosterParse.RuleTokensAppend | src/utils/parseParticipants.ts:73-75 | a `;` in a rules column splits it into two whose tokens follow one another, in order |
| RosterParse.RuleTokensPiece | src/utils/parseParticipants.ts:73-75 | a rules column without `;` gives its trimmed text as its only token, or no token when that is empty; with `RuleTokensAppend`, the tokens are exactly the non-empty trimmed pieces between the `;`s |
| RosterParse.ScanLine | src/utils/parseParticipants.ts:61-82 | a line fails exactly when it is not blank and its name is empty, reporting `errors.emptyName` at its number; it adds no entry exactly when it is blank; an entry carries the line number, a non-empty trimmed name and an email that is absent or non-empty |
| RosterParse.Scan | src/utils/parseParticipants.ts:60-83 | a scan failure is an empty name on a line read; every entry kept carries the number of a line read |
| RosterParse.FirstPass | src/utils/parseParticipants.ts:86-106 | a first-pass failure is `errors.duplicateName` for a line read, naming that line's name; on success `nameToId` covers exactly the names read |
| RosterParse.NameMapStep | src/utils/parseParticipants.ts:98 | recording one more line's name keeps `nameToId` exactly the names read so far |
| RosterParse.FirstStepNames | src/utils/parseParticipants.ts:87-98 | one iteration fails exactly when the line's name appeared on an earlier line, with that line's duplicate-name error |
| RosterParse.ResolveToken | src/utils/parseParticipants.ts:113-148 | a token resolves exactly when it is `=Name` or `!Name`, with a target that trims to a known name and has no line terminator; `=` gives must and `!` gives must-not; a malformed token is reported whole, and an unknown target by its trimmed name |
| RosterParse.ResolveTokens | src/utils/parseParticipants.ts:113-149 | a line's rules are one per token, in order, each the token's resolution; a failure is a format error or an unknown participant |
| RosterParse.LineRules | src/utils/parseParticipants.ts:113-158 | a token error is reported unchanged; once every token resolves, the rules are accepted exactly when `checkRules` returns no truthy key, and are otherwise rejected with that key |
| RosterParse.SetRules | src/utils/parseParticipants.ts:160 | `result[id].rules = rules` changes only that participant's rules |
| RosterParse.SecondPass | src/utils/parseParticipants.ts:109-161 | a second-pass failure is a rule error reported at the line of one of its entries; a success changes nothing but rules |
| RosterParse.ParseParticipantsText | src/utils/parseParticipants.ts:42-164 | every error's line number lies within the input; the parse reports an empty name exactly when the scan fails |
| ParseProperties.ScanFailsAtFirstEmptyName | src/utils/parseParticipants.ts:60-71 | the scan fails exactly when some non-blank line has an empty name, and it reports the first such line |
| ParseProperties.ScanFailureIsFirstEmptyName | src/utils/parseParticipants.ts:69-71 | a failed scan reports the first line with an empty name |
| ParseProperties.ScanSuccessHasNoEmptyName | src/utils/parseParticipants.ts:60-71 | a successful scan met no line with an empty name |
| ParseProperties.OutcomeFails | src/utils/parseParticipants.ts:69-71 | the scan body fails on line `i` exactly when its name is empty, and reports line `i + 1` |
| ParseProperties.LineColumnsSplit | src/utils/parseParticipants.ts:65-67 | the name is the trimmed text before the first comma and the email the trimmed text before the second; the rules column is everything after the second comma, re-joined with commas and trimmed, and is just the trimmed rest when that has no comma |
| ParseProperties.NameOnlyLine | src/utils/parseParticipants.ts:66-67 | a line without a comma has empty email and rules columns (the destructuring defaults) |
| ParseProperties.ScanCountsNonBlankLines | src/utils/parseParticipants.ts:60-63 | a successful scan keeps exactly as many entries as there are non-blank lines |
| ParseProperties.ScanKeepsLineOrder | src/utils/parseParticipants.ts:60-83 | entries come in line order, each made from the raw line its 1-based number points at, so blank lines still count towards numbering |
| ParseProperties.FirstPassRejectsFirstRepeat | src/utils/parseParticipants.ts:86-94 | the first pass fails exactly when some name repeats, with `errors.duplicateName` and the name at the line of its first repetition |
| ParseProperties.NewIdsDistinct | src/utils/parseParticipants.ts:96-97 | given unique existing ids and fresh ids, two lines with different names get different ids |
| ParseProperties.IdentityReuse | src/utils/parseParticipants.ts:96-105 | a name already in the existing roster takes the last such participant's id and hint, and its email unless the line gives one; a new name gets the fresh id, the line's email and no hint |
| ParseProperties.FirstPassIdentity | src/utils/parseParticipants.ts:86-106 | a successful first pass holds one participant per line, in order, built from that line and any same-named existing participant, with distinct names and `nameToId` mapping each name to its participant's id |
| ParseProperties.OnePerLineUniqueIds | src/utils/parseParticipants.ts:97 | the participants the first pass creates have pairwise distinct ids |
| ParseProperties.SecondPassFailsAtFirstBadLine | src/utils/parseParticipants.ts:109-158 | the second pass fails exactly when some line's rules fail, and reports that first line's number and error |
| ParseProperties.ResolveTokensFailsAtFirstBadToken | src/utils/parseParticipants.ts:113-143 | a line's tokens resolve exactly when each one does; otherwise the first bad token's error is reported |
| ParseProperties.SecondPassSetsRules | src/utils/parseParticipants.ts:109-161 | with one participant per line, a successful second pass gives each line's participant that line's rules and changes nothing else |
| ParseProperties.SetOwnRules | src/utils/parseParticipants.ts:160 | setting rules under participant `k`'s id changes participant `k` and no other |
| ParseProperties.EmptyNameTakesPriority | src/utils/parseParticipants.ts:60-71 | the parse reports `errors.emptyName` exactly when some non-blank line has an empty name, at the first such line, ahead of any duplicate-name or rule error |
| ParseProperties.DuplicateNameBeforeRules | src/utils/parseParticipants.ts:86-94 | once the scan succeeds, the parse reports a duplicate name exactly when a name repeats, at its first repetition, ahead of any rule error |
| ParseProperties.ParseStages | src/utils/parseParticipants.ts:42-164 | behind a successful parse: one entry per non-blank line, one participant per line, a name map covering exactly their names, and each line's rules set |
| ParseProperties.ParseSuccess | src/utils/parseParticipants.ts:42-164 | a successful parse returns one participant per non-blank line, the `k`-th built from the `k`-th non-blank line and any same-named existing participant, with distinct ids and names, each holding rules `checkRules` accepts |
| ParseProperties.ParseRulesFollowTokens | src/utils/parseParticipants.ts:113-160 | each participant has one rule per token, in order, of the token's kind, pointing at the id of the participant the token names, which is a key of the result |
| PrototypeLookup.Lookup | src/utils/parseParticipants.ts:87 | reading a plain object gives `undefined` exactly for a name that is neither an own key nor an inherited member; an own key gives its value |
| PrototypeLookup.NewIdNonEmpty | src/utils/parseParticipants.ts:97 | when no id on offer is empty, each participant created has a non-empty, so truthy, id |
| PrototypeLookup.AsWrittenAgrees | src/utils/parseParticipants.ts:87 | when no name is an inherited member and no id is empty, the duplicate test as written and map membership give the same first pass |
| PrototypeLookup.ConstructorRejectedAsWritten | src/utils/parseParticipants.ts:87-94 | as written, a one-line roster naming `constructor` is rejected as a duplicate, though no name repeats and the corrected pass accepts it |
| PrototypeLookup.ResolveTokenAsWritten | src/utils/parseParticipants.ts:113-143 | as written, a malformed token is reported whole; a well-formed one resolves exactly when the lookup of its trimmed target gives a truthy value, to that value and the token's kind, and is otherwise an unknown participant |
| PrototypeLookup.EmptyIdRepeatAcceptedAsWritten | src/utils/parseParticipants.ts:87-105 | as written, two lines naming an existing participant whose id is empty are both accepted, though the name repeats; the corrected pass reports the repetition at line 2 |
| PrototypeLookup.EmptyIdTargetUnknownAsWritten | src/utils/parseParticipants.ts:135-143 | as written, `=Ann` is an unknown participant when `Ann` is recorded with an empty id, while the corrected resolution finds the target |
| PrototypeLookup.ToStringResolvesAsWritten | src/utils/parseParticipants.ts:135-143 | as written, `=toString` resolves to the inherited function, while the corrected resolution reports an unknown participant |
| RosterFormat.Present | src/utils/parseParticipants.ts:29 | the filter keeps at most the given values, keeps every present value, keeps them all, in order, when none is missing, and keeps one value exactly when it is present |
| RosterFormat.PresentFrom | src/utils/parseParticipants.ts:29 | every value the filter keeps is one of the present values |
| RosterFormat.PresentAppend | src/utils/parseParticipants.ts:29 | filtering two lists one after the other is filtering each, so with the one-value case the filter keeps exactly the present values, in order |
| RosterFormat.RenderRules | src/utils/parseParticipants.ts:20-30 | a rules column has at most one token per rule, holds every rule's token that can be written, and is exactly the rules' tokens, in order, when every target can be named; one rule gives its token or nothing |
| RosterFormat.RenderRulesFromRules | src/utils/parseParticipants.ts:20-30 | every token written renders one of the participant's rules |
| RosterFormat.RenderRulesAppend | src/utils/parseParticipants.ts:20-30 | the tokens of two rule lists one after the other are the first list's tokens then the second's, so the column is exactly the writable rules' tokens, in order |
| RosterFormat.FormatRowsJoin | src/utils/parseParticipants.ts:38-39 | the text is the participants' lines joined by line breaks, with an empty piece after the last line break |
| RosterFormat.RulesAllRendered | src/utils/parseParticipants.ts:20-30 | in a writable roster every rule is written, as its operator followed by its target's name |
| RosterFormat.LineBodyOneLine | src/utils/parseParticipants.ts:32-38 | a writable participant's line holds no line break |
| RosterFormat.FormatLines | src/utils/parseParticipants.ts:18-40 | splitting a writable roster's text at line breaks gives one line per participant, in record order, then an empty last piece |
| RoundTrip.LineColumns | src/utils/parseParticipants.ts:65 | a written line's columns are the participant's name, its email (or nothing) and its rules column |
| RoundTrip.WrittenColumns | src/utils/parseParticipants.ts:65-67 | the parser reads the written name, email and rules column back unchanged |
| RoundTrip.RuleTokensOfRulesText | src/utils/parseParticipants.ts:73-75 | splitting a written rules column at `;` and trimming gives back the tokens written |
| RoundTrip.ScanWrittenLine | src/utils/parseParticipants.ts:61-82 | the scan reads each written line back as the name, email and tokens written |
| RoundTrip.ScanSkipsBlank | src/utils/parseParticipants.ts:62-63 | the empty piece after the final line break adds no entry |
| RoundTrip.ScanWritten | src/utils/parseParticipants.ts:60-83 | scanning a writable roster's text gives one entry per participant, numbered from 1 |
| RoundTrip.RebuildsOwn | src/utils/parseParticipants.ts:96-105 | with the roster itself as the existing participants, each line finds its own participant and keeps its id, email and hint |
| RoundTrip.FirstPassRebuilds | src/utils/parseParticipants.ts:86-106 | the first pass over a writable roster's text succeeds and rebuilds every participant without rules |
| RoundTrip.RenderedRuleResolves | src/utils/parseParticipants.ts:21-28 | a written rule token reads back as the very rule it was written from, under any name map that sends the target's trimmed, single-line name to the target |
| RoundTrip.WrittenTokenResolves | src/utils/parseParticipants.ts:113-148 | the token written for a rule resolves back to that same rule |
| RoundTrip.LineRulesWritten | src/utils/parseParticipants.ts:109-158 | the second pass gives each participant back its own rule list |
| RoundTrip.SecondPassRestores | src/utils/parseParticipants.ts:109-161 | the second pass over the rebuilt roster restores every rule list |
| RoundTrip.FormatParseRoundTrip | src/utils/parseParticipants.ts:18-164 | for a writable roster whose rule lists `checkRules` accepts, parsing its text with itself as the existing participants gives it back: ids, names, emails, hints, rules and order, whatever fresh ids are on offer |
| JsValues.OrEmptyRoundTrip | src/utils/parseParticipants.ts:80 | an email written with `?? ''` and read back with an empty column taken as `undefined` is itself exactly when it is absent or non-empty; a column read that way is written back unchanged |
| Utf8.EncodeChar | src/utils/links.ts:54 | a character takes one to four bytes, one exactly for ASCII, and every byte after the first is a continuation byte |
| Utf8.DecodeEncode | src/utils/links.ts:54 | strict UTF-8 decoding undoes the encoding |
| FormEncoding.EncodeByte | src/utils/links.ts:54 | a byte is serialized as one to three characters, all from the unreserved set, `+` and `%` |
| FormEncoding.Encode | src/utils/links.ts:54 | a serialized name or value holds only unreserved characters, `+` and `%`, so no `&` or `=` |
| FormEncoding.DecodeEncode | src/utils/links.ts:54 | reading back a serialized name or value gives it back |
| FormEncoding.EncodePair | src/utils/links.ts:54 | a serialized pair holds a `=` and no `&` |
| FormEncoding.DecodeEncodePair | src/utils/links.ts:54 | reading back a serialized pair gives the pair |
| FormEncoding.ParseSerialize | src/utils/links.ts:54 | parsing a serialized parameter list gives back the same names, values and order |
| Links.GetParam | src/utils/links.ts:32-52 | `get` is absent exactly when no parameter has the name, and otherwise gives one of that name's values |
| Links.SetParam | src/utils/links.ts:38 | `set` of a name not yet present appends the parameter |
| Links.SetThenGet | src/utils/links.ts:38 | after `set`, `get` gives the value set, and the name occurs once |
| Links.SetKeepsOthers | src/utils/links.ts:37-52 | `set` leaves every other name's value as it was |
| Links.SetFresh | src/utils/links.ts:37-52 | setting a name not yet present appends it when a value is given and changes nothing otherwise |
| Links.QueryParamsExpected | src/utils/links.ts:32-52 | the parameters are `from`, `to`, then `info`, `sid`, `lid` and `token`, each present only when given |
| Links.StripLastSegment | src/utils/links.ts:15 | the base path is the path cut before its last `/`, and the cut part holds no `/`; a path without `/` is kept whole |
| Links.LinkReadsBack | src/utils/links.ts:54 | the link is the base address, `/pairing?`, then a query that reads back as the expected parameter list |
| Links.LinkHeadParams | src/utils/links.ts:31-35 | the first two parameters are `from` with the untrimmed giver and `to` with the encryptor's output for the chosen plaintext |
| Links.PlaintextReadsBack | src/utils/links.ts:27-29 | the plaintext gives back the receiver, and the hint exactly when it is truthy; two plaintexts are equal exactly when their receivers and their truthy hints are |
| Links.LinkInfoParam | src/utils/links.ts:37-39 | `info` is present exactly when the trimmed instructions are non-empty, and holds them trimmed |
| Links.LinkSessionParam | src/utils/links.ts:41-43 | `sid` is present exactly when the session id is non-empty, and holds it unchanged |
| Links.LinkIdParam | src/utils/links.ts:45-47 | `lid` is present exactly when the link id is non-empty, and holds it unchanged |
| Links.LinkTokenParam | src/utils/links.ts:49-52 | `token` is present exactly when the trimmed token is non-empty, and holds it trimmed |
| Csv.RowFields | src/utils/links.ts:59 | a row whose fields hold no comma splits back into giver, email and link |
| Csv.CsvLines | src/utils/links.ts:57-61 | the export is the header line then one line per assignment, with no trailing line break; with no assignments it is the header and a line break |
| Csv.CommaShiftsColumns | src/utils/links.ts:59 | nothing is escaped, so a comma in the giver's name shifts the row's columns |

## Left out

- I/O and asynchrony. `generateAssignmentLink` is `async` only because it
  awaits `encryptText`. The model treats encryption as a total function, so a
  rejected promise is not modelled.
- `encryptText` and its cipher. The source is not part of this model; it is
  the `Encryptor` parameter.
- `JSON.stringify({ name, hint })`. It is the abstract constructor
  `Plaintext.NameWithHint`. JSON escaping is not modelled; two different
  name/hint pairs give two different plaintexts.
- Links.PlaintextReadsBack: its equality clause holds for the abstract
  `Plaintext`, not for the strings the code encrypts. In the code both
  branches give a plain string, so a hint-less receiver named
  `{"name":"a","hint":"b"}` gives the same `to` as receiver `a` with hint `b`.
  Names read by `parseParticipantsText` cannot collide this way: the JSON
  text always holds a comma, and a parsed name never does.
- `crypto.randomUUID`. It is the `IdSource` parameter. The properties that
  need it assume fresh ids are pairwise distinct and differ from every
  existing id (`FreshIdsOk`). `PrototypeLookup.AsWrittenAgrees` also assumes
  no id is empty (`NonEmptyIds`); with an empty id the code and the model
  differ, as the third and fourth Findings rows show.
- `checkRules`. `src/utils/generatePairs.ts` is not part of this model; the
  function is the `RuleChecker` parameter. Its answer counts as a rejection
  when it is a non-empty key, which is JavaScript truthiness.
- `window.location`. Its origin and pathname are parameters.
- Ordering of integer-like keys. `Object.values` lists keys such as `"1"`
  before all other keys. The model keeps plain insertion order, which matches
  the code whenever ids are not integer-like, as UUIDs never are.
- `__proto__` as a participant name in `existingByName`. Assigning
  `acc['__proto__']` changes the object's prototype instead of storing a
  value. The model stores every name alike.
- Inherited members in `existingByName?.[name]`. A name such as
  `constructor` finds a built-in function whose `id`, `email` and `hint` are
  `undefined`. That gives the same participant as the model's "no existing
  participant" branch, so it is not modelled separately.
- Inherited members in `participants[rule.targetParticipantId]?.name` in
  `formatParticipantText`. An id such as `constructor` would read a built-in
  function's name. The model looks up own keys only.
- RosterParse.SetRules: the branch for an id that is not in the record is
  unreachable from the parse. There the code would throw a `TypeError`; the
  model leaves the record unchanged.
- RosterParse.SecondStep: the branch for a line whose name is not in
  `nameToId` is unreachable, because the first pass records every name.
  There the code would run `result[undefined].rules = …` and throw a
  `TypeError`; the model leaves the record unchanged.
- The loop steps' branch for an index past the last entry is unreachable.
  It returns the state unchanged so that `Loop` can take one step type.
- Lone surrogates. Dafny's `char` is a Unicode scalar value, so strings
  holding unpaired UTF-16 surrogates are not modelled. `URLSearchParams`
  would replace them with U+FFFD.
- Csv.CsvLines: stated only for fields free of line breaks, because the code
  neither quotes nor escapes, and the model follows the code.
- Csv.RowFields: stated only for fields free of commas, for the same reason.
- CSV quoting. The code neither quotes nor escapes a field, so a comma in a
  giver's name shifts the row's columns (`Csv.CommaShiftsColumns`).
- RosterFormat.FormatLines and RoundTrip.FormatParseRoundTrip: stated only
  for writable rosters. A writable roster has unique ids and names; names
  that are trimmed and free of `,`, `;` and line terminators; emails that are
  non-empty, trimmed and free of `,` and line breaks; and rule targets that
  are all in the roster. Outside these conditions the text format cannot
  carry the roster unchanged.
- React components, the visit-tracking client, the snow animation and the
  derangement generator are not part of this model.

## Findings

| source | as written | input that shows it | evidently intended | confidence | as-written member | corrected member |
|---|---|---|---|---|---|---|
| src/utils/parseParticipants.ts:87 | `if (nameToId[name])` on an object created as `{}` also reads members inherited from `Object.prototype` | a roster with a single line `constructor` | a name is a duplicate only when an earlier line carried it | not executed | PrototypeLookup.ConstructorRejectedAsWritten | ParseProperties.FirstPassRejectsFirstRepeat |
| src/utils/parseParticipants.ts:135-136 | `nameToId[targetName]` resolves the inherited `toString` function as a target id | the token `=toString` when no participant is named `toString` | `errors.unknownParticipant` for a name no line carries | not executed | PrototypeLookup.ToStringResolvesAsWritten | RosterParse.ResolveToken |
| src/utils/parseParticipants.ts:87 | `if (nameToId[name])` reads a name recorded with an empty id as unseen, since `""` is falsy | an existing participant `Ann` with id `""`, and two lines `Ann` | a name is a duplicate whenever an earlier line carried it | not executed; reachable only when an existing participant has an empty id | PrototypeLookup.EmptyIdRepeatAcceptedAsWritten | ParseProperties.FirstPassRejectsFirstRepeat |
| src/utils/parseParticipants.ts:135-136 | `if (!targetId)` rejects a target recorded with an empty id | the token `=Ann` when `Ann` is recorded with id `""` | a rule naming a participant of the roster resolves to it | not executed; reachable only when an existing participant has an empty id | PrototypeLookup.EmptyIdTargetUnknownAsWritten | RosterParse.ResolveToken |
