/**
 `generateAssignmentLink`: the link a giver opens to see whom they give to.

 The receiver (with the hint, when there is one) is encrypted into the `to`
 parameter; the giver's name travels in clear as `from`; optional `info`,
 `sid`, `lid` and `token` parameters follow. The encryption, the page's
 origin and path are parameters of the model.
 */
module Links {
  import opened Wrappers
  import opened Text
  import opened FormEncoding
  import opened JsValues

  /**
   What is encrypted into `to`: the receiver's bare name, or the JSON
   object `{"name": ..., "hint": ...}`, kept abstract here.
   */
  datatype Plaintext = Bare(name: string) | NameWithHint(name: string, hint: string)

  /** `encryptText`, as seen by the link: one ciphertext per plaintext. */
  type Encryptor = Plaintext -> string

  /** The options object `generateAssignmentLink` takes; absent fields are `None`. */
  datatype LinkOptions = LinkOptions(
    giver: string,
    receiver: string,
    receiverHint: Option<string>,
    instructions: Option<string>,
    sessionId: Option<string>,
    linkId: Option<string>,
    token: Option<string>)

  /** `receiverHint ? JSON.stringify({ name: receiver, hint: receiverHint }) : receiver`. */
  function ChoosePlaintext(receiver: string, receiverHint: Option<string>): (pt: Plaintext)
    ensures pt.name == receiver
    ensures pt.NameWithHint? <==> Truthy(receiverHint)
    ensures pt.NameWithHint? ==> pt.hint == receiverHint.value
  {
    if Truthy(receiverHint) then NameWithHint(receiver, receiverHint.value) else Bare(receiver)
  }

  /** The hint a reader of the plaintext finds: none in a bare name. */
  function HintOf(pt: Plaintext): Option<string> {
    match pt
    case Bare(_) => None
    case NameWithHint(_, hint) => Some(hint)
  }

  /**
   A reader of the plaintext finds the receiver, and the hint exactly when
   it was truthy: an absent and an empty hint both read as no hint. So two
   links differ in `to` whenever their receivers or truthy hints differ.
   */
  lemma PlaintextReadsBack(receiver: string, receiverHint: Option<string>, receiver': string, receiverHint': Option<string>)
    ensures ChoosePlaintext(receiver, receiverHint).name == receiver
    ensures HintOf(ChoosePlaintext(receiver, receiverHint)) == OrUndefined(OrEmpty(receiverHint))
    ensures ChoosePlaintext(receiver, receiverHint) == ChoosePlaintext(receiver', receiverHint') <==>
      receiver == receiver' && OrUndefined(OrEmpty(receiverHint)) == OrUndefined(OrEmpty(receiverHint'))
  {
  }

  /** `s?.trim()`. */
  function TrimOpt(s: Option<string>): (r: Option<string>)
    ensures r.Some? <==> s.Some?
    ensures r.Some? ==> r.value == Trim(s.value)
  {
    match s
    case None => None
    case Some(v) => Some(Trim(v))
  }

  // ---------------------------------------------------------------------
  // URLSearchParams
  // ---------------------------------------------------------------------

  /** `params.get(name)`: the value of the first parameter called `name`. */
  function GetParam(params: seq<Param>, name: string): (v: Option<string>)
    ensures v.None? <==> forall i :: 0 <= i < |params| ==> params[i].0 != name
    ensures v.Some? ==> exists i :: 0 <= i < |params| && params[i] == (name, v.value)
  {
    if |params| == 0 then None
    else if params[0].0 == name then Some(params[0].1)
    else
      assert forall i :: 0 <= i < |params| - 1 ==> params[1..][i] == params[i + 1];
      GetParam(params[1..], name)
  }

  /** The parameters not called `name`, in order. */
  function RemoveParam(params: seq<Param>, name: string): (r: seq<Param>)
    ensures |r| <= |params|
    ensures forall i :: 0 <= i < |r| ==> r[i].0 != name && r[i] in params
  {
    if |params| == 0 then []
    else if params[0].0 == name then RemoveParam(params[1..], name)
    else [params[0]] + RemoveParam(params[1..], name)
  }

  /**
   `params.set(name, value)`: the first parameter called `name` takes the
   new value and the others of that name are removed; with none, the
   parameter is appended.
   */
  function SetParam(params: seq<Param>, name: string, value: string): (r: seq<Param>)
    ensures (forall i :: 0 <= i < |params| ==> params[i].0 != name) ==> r == params + [(name, value)]
  {
    if |params| == 0 then [(name, value)]
    else if params[0].0 == name then [(name, value)] + RemoveParam(params[1..], name)
    else [params[0]] + SetParam(params[1..], name, value)
  }

  /** After `set`, `get` of that name gives the value set, and it occurs once. */
  lemma {:induction false} SetThenGet(params: seq<Param>, name: string, value: string)
    ensures GetParam(SetParam(params, name, value), name) == Some(value)
    ensures var r := SetParam(params, name, value);
      forall i, j :: 0 <= i < j < |r| && r[i].0 == name ==> r[j].0 != name
  {
    if |params| > 0 && params[0].0 != name {
      SetThenGet(params[1..], name, value);
      var r := SetParam(params, name, value);
      var tail := SetParam(params[1..], name, value);
      assert r == [params[0]] + tail;
      assert r[1..] == tail;
    }
  }

  /** `set` leaves every other name's value as it was. */
  lemma {:induction false} SetKeepsOthers(params: seq<Param>, name: string, value: string, other: string)
    requires other != name
    ensures GetParam(SetParam(params, name, value), other) == GetParam(params, other)
  {
    if |params| > 0 {
      var r := SetParam(params, name, value);
      if params[0].0 == name {
        RemoveKeepsOthers(params[1..], name, other);
        assert r[1..] == RemoveParam(params[1..], name);
      } else {
        SetKeepsOthers(params[1..], name, value, other);
        assert r[1..] == SetParam(params[1..], name, value);
      }
    }
  }

  lemma {:induction false} RemoveKeepsOthers(params: seq<Param>, name: string, other: string)
    requires other != name
    ensures GetParam(RemoveParam(params, name), other) == GetParam(params, other)
  {
    if |params| > 0 {
      RemoveKeepsOthers(params[1..], name, other);
      if params[0].0 != name {
        assert RemoveParam(params, name)[1..] == RemoveParam(params[1..], name);
      }
    }
  }

  // ---------------------------------------------------------------------
  // The link
  // ---------------------------------------------------------------------

  /** `if (value) params.set(name, value)`. */
  function SetIfGiven(params: seq<Param>, name: string, value: Option<string>): seq<Param> {
    if value.Some? then SetParam(params, name, value.value) else params
  }

  /** `info`, when the instructions are not blank: the trimmed instructions. */
  function InfoValue(opts: LinkOptions): Option<string> {
    if Truthy(TrimOpt(opts.instructions)) then TrimOpt(opts.instructions) else None
  }

  /** `sid` or `lid`: an optional string passed through when non-empty. */
  function PassThrough(s: Option<string>): Option<string> {
    if Truthy(s) then s else None
  }

  /** `token`, when the trimmed token is not empty: the trimmed token. */
  function TokenValue(opts: LinkOptions): Option<string> {
    if Truthy(TrimOpt(opts.token)) then TrimOpt(opts.token) else None
  }

  /** The two parameters every link carries. */
  function Head(opts: LinkOptions, encrypt: Encryptor): seq<Param> {
    [("from", opts.giver), ("to", encrypt(ChoosePlaintext(opts.receiver, opts.receiverHint)))]
  }

  /** The parameters of the link, built as the source builds them: `from`, `to`, then each `set`. */
  function QueryParams(opts: LinkOptions, encrypt: Encryptor): seq<Param> {
    var ps := SetIfGiven(Head(opts, encrypt), "info", InfoValue(opts));
    var ps := SetIfGiven(ps, "sid", PassThrough(opts.sessionId));
    var ps := SetIfGiven(ps, "lid", PassThrough(opts.linkId));
    SetIfGiven(ps, "token", TokenValue(opts))
  }

  /** A parameter present exactly when its value is given. */
  function OptionalParam(name: string, value: Option<string>): (ps: seq<Param>)
    ensures value.None? ==> ps == []
    ensures value.Some? ==> ps == [(name, value.value)]
  {
    if value.Some? then [(name, value.value)] else []
  }

  /** The parameters the link promises, written out: `from`, `to`, then the optional four in order. */
  function ExpectedParams(opts: LinkOptions, encrypt: Encryptor): seq<Param> {
    Head(opts, encrypt)
      + OptionalParam("info", InfoValue(opts))
      + OptionalParam("sid", PassThrough(opts.sessionId))
      + OptionalParam("lid", PassThrough(opts.linkId))
      + OptionalParam("token", TokenValue(opts))
  }

  predicate NamesIn(params: seq<Param>, names: set<string>) {
    forall i :: 0 <= i < |params| ==> params[i].0 in names
  }

  /** Setting a name the list does not hold appends it, and the names stay among the known ones. */
  lemma SetFresh(params: seq<Param>, names: set<string>, name: string, value: Option<string>)
    requires NamesIn(params, names)
    requires name !in names
    ensures SetIfGiven(params, name, value) == params + OptionalParam(name, value)
    ensures NamesIn(params + OptionalParam(name, value), names + {name})
  {
  }

  /** Each name set is new to the list so far, so every `set` appends. */
  lemma QueryParamsExpected(opts: LinkOptions, encrypt: Encryptor)
    ensures QueryParams(opts, encrypt) == ExpectedParams(opts, encrypt)
  {
    var ps0 := Head(opts, encrypt);
    var info := OptionalParam("info", InfoValue(opts));
    var sid := OptionalParam("sid", PassThrough(opts.sessionId));
    var lid := OptionalParam("lid", PassThrough(opts.linkId));
    assert NamesIn(ps0, {"from", "to"});
    SetFresh(ps0, {"from", "to"}, "info", InfoValue(opts));
    SetFresh(ps0 + info, {"from", "to", "info"}, "sid", PassThrough(opts.sessionId));
    SetFresh(ps0 + info + sid, {"from", "to", "info", "sid"}, "lid", PassThrough(opts.linkId));
    SetFresh(ps0 + info + sid + lid, {"from", "to", "info", "sid", "lid"}, "token", TokenValue(opts));
  }

  /** `window.location.pathname.replace(/\/[^/]*$/, '')`: the path without its last `/` and what follows. */
  function StripLastSegment(path: string): (r: string)
    ensures '/' !in path ==> r == path
    ensures '/' in path ==> |r| < |path| && path == r + "/" + path[|r| + 1..] && '/' !in path[|r| + 1..]
  {
    if |path| == 0 then path
    else if path[|path| - 1] == '/' then path[..|path| - 1]
    else if '/' !in path[..|path| - 1] then path
    else
      var init := path[..|path| - 1];
      var r := StripLastSegment(init);
      assert path == init + [path[|path| - 1]];
      assert path[|r| + 1..] == init[|r| + 1..] + [path[|path| - 1]];
      r
  }

  /** The page's address without its last path segment. */
  function BaseUrl(origin: string, pathname: string): string {
    origin + StripLastSegment(pathname)
  }

  /** The address up to and including the `?` of the query. */
  function LinkPrefix(origin: string, pathname: string): string {
    BaseUrl(origin, pathname) + "/pairing?"
  }

  /** `generateAssignmentLink(opts)` on the page at `origin` + `pathname`. */
  function GenerateAssignmentLink(opts: LinkOptions, origin: string, pathname: string, encrypt: Encryptor): string {
    LinkPrefix(origin, pathname) + Serialize(QueryParams(opts, encrypt))
  }

  /**
   The link is the page's base address, `/pairing?`, then a query that
   reads back as `from`, `to` and the optional parameters, in that order.
   */
  lemma LinkReadsBack(opts: LinkOptions, origin: string, pathname: string, encrypt: Encryptor)
    ensures var link := GenerateAssignmentLink(opts, origin, pathname, encrypt);
      var prefix := LinkPrefix(origin, pathname);
      && |prefix| <= |link| && link[..|prefix|] == prefix
      && Parse(link[|prefix|..]) == Some(ExpectedParams(opts, encrypt))
  {
    var prefix := LinkPrefix(origin, pathname);
    var query := Serialize(QueryParams(opts, encrypt));
    assert (prefix + query)[|prefix|..] == query;
    ParseSerialize(QueryParams(opts, encrypt));
    QueryParamsExpected(opts, encrypt);
  }

  /** `from` carries the giver untrimmed; `to` the ciphertext of the receiver, with the hint when there is one. */
  lemma LinkHeadParams(opts: LinkOptions, encrypt: Encryptor)
    ensures var ps := QueryParams(opts, encrypt);
      && |ps| >= 2
      && ps[0] == ("from", opts.giver)
      && ps[1] == ("to", encrypt(ChoosePlaintext(opts.receiver, opts.receiverHint)))
  {
    QueryParamsExpected(opts, encrypt);
  }

  /** `info` is present exactly when the instructions are not blank, and holds them trimmed. */
  lemma LinkInfoParam(opts: LinkOptions, encrypt: Encryptor)
    ensures var v := GetParam(QueryParams(opts, encrypt), "info");
      && (v.Some? <==> opts.instructions.Some? && Trim(opts.instructions.value) != "")
      && (v.Some? ==> v.value == Trim(opts.instructions.value))
  {
    QueryParamsExpected(opts, encrypt);
    var head, info, sid, lid, token := ExpectedParts(opts, encrypt);
    Regroup(head, info, sid, lid, token);
    GetOptional(head, "info", InfoValue(opts), sid + lid + token);
  }

  /** `sid` is present exactly when the session id is non-empty, and holds it. */
  lemma LinkSessionParam(opts: LinkOptions, encrypt: Encryptor)
    ensures var v := GetParam(QueryParams(opts, encrypt), "sid");
      && (v.Some? <==> opts.sessionId.Some? && opts.sessionId.value != "")
      && (v.Some? ==> v == opts.sessionId)
  {
    QueryParamsExpected(opts, encrypt);
    var head, info, sid, lid, token := ExpectedParts(opts, encrypt);
    Regroup(head, info, sid, lid, token);
    GetOptional(head + info, "sid", PassThrough(opts.sessionId), lid + token);
  }

  /** `lid` is present exactly when the link id is non-empty, and holds it. */
  lemma LinkIdParam(opts: LinkOptions, encrypt: Encryptor)
    ensures var v := GetParam(QueryParams(opts, encrypt), "lid");
      && (v.Some? <==> opts.linkId.Some? && opts.linkId.value != "")
      && (v.Some? ==> v == opts.linkId)
  {
    QueryParamsExpected(opts, encrypt);
    var head, info, sid, lid, token := ExpectedParts(opts, encrypt);
    Regroup(head, info, sid, lid, token);
    GetOptional(head + info + sid, "lid", PassThrough(opts.linkId), token);
  }

  /** `token` is present exactly when the trimmed token is non-empty, and holds it trimmed. */
  lemma LinkTokenParam(opts: LinkOptions, encrypt: Encryptor)
    ensures var v := GetParam(QueryParams(opts, encrypt), "token");
      && (v.Some? <==> opts.token.Some? && Trim(opts.token.value) != "")
      && (v.Some? ==> v.value == Trim(opts.token.value))
  {
    QueryParamsExpected(opts, encrypt);
    var head, info, sid, lid, token := ExpectedParts(opts, encrypt);
    Regroup(head, info, sid, lid, token);
    GetOptional(head + info + sid + lid, "token", TokenValue(opts), []);
  }

  /** The five parts of the expected parameter list, each holding only its own names. */
  lemma ExpectedParts(opts: LinkOptions, encrypt: Encryptor)
    returns (head: seq<Param>, info: seq<Param>, sid: seq<Param>, lid: seq<Param>, token: seq<Param>)
    ensures ExpectedParams(opts, encrypt) == head + info + sid + lid + token
    ensures head == Head(opts, encrypt) && NamesIn(head, {"from", "to"})
    ensures info == OptionalParam("info", InfoValue(opts)) && NamesIn(info, {"info"})
    ensures sid == OptionalParam("sid", PassThrough(opts.sessionId)) && NamesIn(sid, {"sid"})
    ensures lid == OptionalParam("lid", PassThrough(opts.linkId)) && NamesIn(lid, {"lid"})
    ensures token == OptionalParam("token", TokenValue(opts)) && NamesIn(token, {"token"})
  {
    head := Head(opts, encrypt);
    info := OptionalParam("info", InfoValue(opts));
    sid := OptionalParam("sid", PassThrough(opts.sessionId));
    lid := OptionalParam("lid", PassThrough(opts.linkId));
    token := OptionalParam("token", TokenValue(opts));
  }

  /** Five lists concatenated, grouped in the ways the parameter lemmas read them. */
  lemma Regroup<T>(a: seq<T>, b: seq<T>, c: seq<T>, d: seq<T>, e: seq<T>)
    ensures a + b + c + d + e == a + (b + (c + d + e))
    ensures a + b + c + d + e == (a + b) + (c + (d + e))
    ensures a + b + c + d + e == (a + b + c) + (d + e)
    ensures a + b + c + d + e == (a + b + c + d) + (e + [])
  {
  }

  /** `get` of a name that occurs only in the optional middle part gives that part's value. */
  lemma GetOptional(front: seq<Param>, name: string, value: Option<string>, back: seq<Param>)
    requires forall i :: 0 <= i < |front| ==> front[i].0 != name
    requires forall i :: 0 <= i < |back| ==> back[i].0 != name
    ensures GetParam(front + (OptionalParam(name, value) + back), name) == value
  {
    var mid := OptionalParam(name, value);
    GetAppend(front, mid + back, name);
    if value.None? {
      assert mid + back == back;
    } else {
      assert (mid + back)[0] == (name, value.value);
    }
  }

  /** `get` on a list whose front lacks the name looks only at the back. */
  lemma {:induction false} GetAppend(front: seq<Param>, back: seq<Param>, name: string)
    requires forall i :: 0 <= i < |front| ==> front[i].0 != name
    ensures GetParam(front + back, name) == GetParam(back, name)
  {
    if |front| > 0 {
      assert (front + back)[1..] == front[1..] + back;
      GetAppend(front[1..], back, name);
    } else {
      assert front + back == back;
    }
  }
}
