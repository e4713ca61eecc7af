/**
  The browser login's request (`PkceChallenge` and `BuildAuthorizationRequest` in
  `oidc/src/oidc_core.cpp`): what the authorization endpoint reads out of the URL's query.
 */
module Authorization {
  import opened Bytes
  import opened Ordered
  import Base64
  import Forms
  import Sha256

  // ----- PKCE -----

  function Challenge(verifier: Bytes): Bytes {
    Base64.Encoded(Sha256.Sha(verifier))
  }

  method PkceChallenge(verifier: Bytes) returns (challenge: Bytes)
    ensures challenge == Challenge(verifier)
  {
    var digest := Sha256.Sha256(verifier);
    challenge := Base64.Encode(digest);
  }

  // Always 43 letters of the base64url alphabet (section 4.2 of RFC 7636), and they decode to the hash.
  lemma {:induction false} ChallengeShape(verifier: Bytes)
    ensures |Challenge(verifier)| == 43 && Base64.Spelled(Challenge(verifier))
    ensures forall out :: Base64.Decodes(Challenge(verifier), out) <==> out == Sha256.Sha(verifier)
  {
    Sha256.ShaShape(verifier, 0);
    hide Sha256.Sha;
    var digest := Sha256.Sha(verifier);
    Base64.EncodedLength(digest);
    Base64.EncodedSpells(digest);
    assert Base64.Decodes(Challenge(verifier), digest);
    forall out | Base64.Decodes(Challenge(verifier), out)
      ensures out == digest
    {
      Base64.DecodesEncoded(digest, out);
    }
  }

  // ----- The parameters -----

  // "response_type", "code", "client_id", "redirect_uri", "state", "code_challenge"
  const RESPONSE_TYPE: Bytes := [114, 101, 115, 112, 111, 110, 115, 101, 95, 116, 121, 112, 101]
  const CODE: Bytes := [99, 111, 100, 101]
  const CLIENT_ID: Bytes := [99, 108, 105, 101, 110, 116, 95, 105, 100]
  const REDIRECT_URI: Bytes := [114, 101, 100, 105, 114, 101, 99, 116, 95, 117, 114, 105]
  const STATE: Bytes := [115, 116, 97, 116, 101]
  const CODE_CHALLENGE: Bytes := [99, 111, 100, 101, 95, 99, 104, 97, 108, 108, 101, 110, 103, 101]

  // "code_challenge_method", "S256", "scope"
  const CODE_CHALLENGE_METHOD: Bytes := CODE_CHALLENGE + METHOD
  const METHOD: Bytes := [95, 109, 101, 116, 104, 111, 100]
  const S256: Bytes := [83, 50, 53, 54]
  const SCOPE: Bytes := [115, 99, 111, 112, 101]

  // "request", "request_uri", "response_mode"
  const REQUEST: Bytes := [114, 101, 113, 117, 101, 115, 116]
  const REQUEST_URI: Bytes := [114, 101, 113, 117, 101, 115, 116, 95, 117, 114, 105]
  const RESPONSE_MODE: Bytes := [114, 101, 115, 112, 111, 110, 115, 101, 95, 109, 111, 100, 101]

  // The constants are the texts they stand for.
  lemma SpelledOwn()
    ensures Spells(RESPONSE_TYPE, "response_type") && Spells(CODE, "code")
  {
  }

  lemma SpelledClient()
    ensures Spells(CLIENT_ID, "client_id") && Spells(REDIRECT_URI, "redirect_uri") && Spells(STATE, "state")
  {
  }

  lemma SpelledChallenge()
    ensures Spells(CODE_CHALLENGE, "code_challenge") && Spells(METHOD, "_method") && Spells(S256, "S256")
    ensures CODE_CHALLENGE_METHOD == CODE_CHALLENGE + METHOD
  {
  }

  lemma SpelledRest()
    ensures Spells(SCOPE, "scope") && Spells(REQUEST, "request")
    ensures Spells([QUESTION, Forms.AMP], "?&")
  {
  }

  lemma SpelledBarred()
    ensures Spells(REQUEST_URI, "request_uri") && Spells(RESPONSE_MODE, "response_mode")
  {
  }

  type Params = map<Bytes, Bytes>

  // The flow's own parameters.
  function Own(clientId: Bytes, redirectUri: Bytes, scope: Bytes, state: Bytes, challenge: Bytes): Params {
    var own := map[
                 RESPONSE_TYPE := CODE,
                 CLIENT_ID := clientId,
                 REDIRECT_URI := redirectUri,
                 STATE := state,
                 CODE_CHALLENGE := challenge,
                 CODE_CHALLENGE_METHOD := S256];
    if scope != [] then own[SCOPE := scope] else own
  }

  // They would replace the request, or move its answer.
  predicate Barred(name: Bytes) {
    name == REQUEST || name == REQUEST_URI || name == RESPONSE_MODE
  }

  // The caller's parameters, but never over the flow's own and never a barred one.
  function Merged(own: Params, extra: Params): Params {
    (map k | k in extra && !Barred(k) :: extra[k]) + own
  }

  // `order` lists the caller's names that were gone through.
  ghost predicate MergedUpTo(params: Params, own: Params, extra: Params, order: seq<Bytes>) {
    && (forall k :: k in params <==> k in own || (k in order && !Barred(k)))
    && forall k :: k in params ==> if k in own then params[k] == own[k] else k in extra && params[k] == extra[k]
  }

  lemma MergedStep(params: Params, own: Params, extra: Params, order: seq<Bytes>, name: Bytes)
    requires MergedUpTo(params, own, extra, order) && name in extra
    ensures MergedUpTo(if Barred(name) || name in params then params else params[name := extra[name]],
                       own, extra, order + [name])
  {
    hide Barred;
  }

  lemma MergedAll(params: Params, own: Params, extra: Params, order: seq<Bytes>)
    requires MergedUpTo(params, own, extra, order) && forall k :: k in order <==> k in extra
    ensures params == Merged(own, extra)
  {
    hide Barred;
  }

  method Merge(own: Params, extra: Params) returns (params: Params)
    ensures params == Merged(own, extra)
  {
    params := own;
    var order := Walk(extra.Keys);
    hide Barred;
    assert order[..0] == [] && MergedUpTo(params, own, extra, []);
    hide MergedUpTo, Merged;
    for i := 0 to |order|
      invariant MergedUpTo(params, own, extra, order[..i])
    {
      var name := order[i];
      assert name in extra && order[..i + 1] == order[..i] + [name];
      MergedStep(params, own, extra, order[..i], name);
      if Barred(name) {
        continue;
      }
      if name !in params {
        params := params[name := extra[name]];
      }
    }
    assert order[..|order|] == order;
    MergedAll(params, own, extra, order);
  }

  // ----- The request -----

  // The entries of a std::map, in its order.
  ghost predicate Lists(entries: seq<Forms.Entry>, params: Params) {
    && Forms.OfMap(entries)
    && (forall i :: 0 <= i < |entries| ==> entries[i].0 in params && entries[i].1 == params[entries[i].0])
    && forall k :: k in params ==> exists i :: 0 <= i < |entries| && entries[i].0 == k
  }

  method Entries(params: Params) returns (entries: seq<Forms.Entry>)
    ensures Lists(entries, params)
  {
    hide Below;
    var order := Walk(params.Keys);
    entries := [];
    for i := 0 to |order|
      invariant |entries| == i
      invariant forall j :: 0 <= j < i ==>
                  entries[j].0 == order[j] && order[j] in params && entries[j].1 == params[order[j]]
    {
      assert order[i] in params;
      entries := entries + [(order[i], params[order[i]])];
    }
    forall k | k in params
      ensures exists i :: 0 <= i < |entries| && entries[i].0 == k
    {
      assert k in order;
      var i :| 0 <= i < |order| && order[i] == k;
      assert entries[i].0 == k;
    }
  }

  const QUESTION: byte := 63

  // What discovery found; an endpoint that is not offered is the empty text.
  datatype Endpoints = Endpoints(error: Bytes, tokenEndpoint: Bytes, authorizationEndpoint: Bytes) {
    predicate Ok() {
      error == [] && tokenEndpoint != []
    }
  }

  datatype Request = Request(url: Bytes, state: Bytes, verifier: Bytes, redirectUri: Bytes)

  datatype Refusal =
    | NoEndpoints             // there is no token endpoint, and nothing says why
    | Discovery(error: Bytes) // the endpoints' own error
    | NoAuthorization         // there is no authorization endpoint

  datatype Built = Ready(request: Request) | Refused(why: Refusal)

  function Url(endpoint: Bytes, entries: seq<Forms.Entry>): Bytes {
    endpoint + [if QUESTION in endpoint then Forms.AMP else QUESTION] + Forms.Form(entries)
  }

  // `state` and `verifier` are the fresh random texts.
  method BuildAuthorizationRequest(ep: Endpoints, clientId: Bytes, redirectUri: Bytes, scope: Bytes,
                                   extra: Params, state: Bytes, verifier: Bytes)
    returns (r: Built)
    ensures r.Ready? <==> ep.Ok() && ep.authorizationEndpoint != []
    ensures r.Refused? ==>
              r.why == if ep.error != [] then Discovery(ep.error)
                       else if ep.tokenEndpoint == [] then NoEndpoints
                       else NoAuthorization
    ensures r.Ready? ==>
              && r.request.state == state && r.request.verifier == verifier && r.request.redirectUri == redirectUri
              && exists entries ::
                   && Lists(entries, Merged(Own(clientId, redirectUri, scope, state, Challenge(verifier)), extra))
                   && r.request.url == Url(ep.authorizationEndpoint, entries)
  {
    hide Own, Challenge, Merged, Lists, Forms.Form;
    if !ep.Ok() {
      return Refused(if ep.error == [] then NoEndpoints else Discovery(ep.error));
    }
    var endpoint := ep.authorizationEndpoint;
    if endpoint == [] {
      return Refused(NoAuthorization);
    }
    var challenge := PkceChallenge(verifier);
    var params := Merge(Own(clientId, redirectUri, scope, state, challenge), extra);
    var separator := if Find(endpoint, [QUESTION], 0) == NPOS then [QUESTION] else [Forms.AMP];
    NoByte(endpoint, QUESTION);
    var entries := Entries(params);
    var body := Forms.FormEncode(entries);
    var url := endpoint + separator + body;
    assert url == Url(endpoint, entries);
    r := Ready(Request(url, state, verifier, redirectUri));
  }

  // ----- What the endpoint reads -----

  // What follows the first '?'.
  function Query(url: Bytes): Bytes {
    var p := Find(url, [QUESTION], 0);
    if p == NPOS then [] else url[p + 1..]
  }

  // What the endpoint reads out of its own URL.
  function OwnQuery(endpoint: Bytes): seq<Forms.Entry> {
    if QUESTION in endpoint then Forms.ReadForm(Query(endpoint)) else []
  }

  // The query reads as the endpoint's own, if it has one, and then exactly the entries.
  lemma {:induction false} QueryReads(endpoint: Bytes, entries: seq<Forms.Entry>)
    ensures Forms.ReadForm(Query(Url(endpoint, entries))) ==
            OwnQuery(endpoint) + entries
  {
    hide Forms.Form, Forms.ReadForm;
    var form := Forms.Form(entries);
    Forms.ReadsForm(entries);
    NoByte(endpoint, QUESTION);
    SplitAtByte(endpoint, QUESTION);
    if QUESTION in endpoint {
      var before, query := endpoint[..Find(endpoint, [QUESTION], 0)], Query(endpoint);
      var later := query + [Forms.AMP] + form;
      assert Url(endpoint, entries) == before + [QUESTION] + later;
      FirstByte(Url(endpoint, entries), before, QUESTION, later);
      assert (before + [QUESTION] + later)[|before| + 1..] == later;
      Forms.ReadsJoined(query, form);
    } else {
      FirstByte(Url(endpoint, entries), endpoint, QUESTION, form);
      assert (endpoint + [QUESTION] + form)[|endpoint| + 1..] == form;
    }
  }

  // Each of the flow's own parameters is there once, with its own value, whatever the caller adds.
  lemma {:induction false} OwnOnce(own: Params, extra: Params, entries: seq<Forms.Entry>, name: Bytes) returns (i: nat)
    requires Lists(entries, Merged(own, extra)) && name in own
    ensures i < |entries| && entries[i] == (name, own[name])
    ensures forall j :: 0 <= j < |entries| && j != i ==> entries[j].0 != name
  {
    hide Barred, Below;
    assert name in Merged(own, extra);
    i :| 0 <= i < |entries| && entries[i].0 == name;
    forall j | 0 <= j < |entries| && j != i
      ensures entries[j].0 != name
    {
      BelowStrict(name);
    }
  }

  // How often a name is read.
  function Times(read: seq<Forms.Entry>, name: Bytes): nat {
    if read == [] then 0 else (if read[0].0 == name then 1 else 0) + Times(read[1..], name)
  }

  lemma {:induction false} TimesInTurn(x: seq<Forms.Entry>, y: seq<Forms.Entry>, name: Bytes)
    ensures Times(x + y, name) == Times(x, name) + Times(y, name)
  {
    if x == [] {
      assert x + y == y;
    } else {
      assert (x + y)[1..] == x[1..] + y;
      TimesInTurn(x[1..], y, name);
    }
  }

  lemma {:induction false} TimesNone(read: seq<Forms.Entry>, name: Bytes)
    requires forall j :: 0 <= j < |read| ==> read[j].0 != name
    ensures Times(read, name) == 0
  {
    if read != [] {
      TimesNone(read[1..], name);
    }
  }

  lemma {:induction false} TimesOne(read: seq<Forms.Entry>, name: Bytes, i: nat)
    requires i < |read| && read[i].0 == name && forall j :: 0 <= j < |read| && j != i ==> read[j].0 != name
    ensures Times(read, name) == 1
  {
    if i == 0 {
      TimesNone(read[1..], name);
    } else {
      TimesOne(read[1..], name, i - 1);
    }
  }

  predicate LastRead(read: seq<Forms.Entry>, i: int, name: Bytes) {
    0 <= i < |read| && read[i].0 == name && forall j :: i < j < |read| ==> read[j].0 != name
  }

  // So each of the flow's own parameters is read once more than the endpoint's own query has it, the last
  // time with the flow's value, whatever the caller adds: once exactly where that query does not have it.
  lemma {:induction false} OwnReach(endpoint: Bytes, own: Params, extra: Params, entries: seq<Forms.Entry>, name: Bytes)
    requires Lists(entries, Merged(own, extra)) && name in own
    ensures var read := Forms.ReadForm(Query(Url(endpoint, entries)));
            && Times(read, name) == Times(OwnQuery(endpoint), name) + 1
            && exists i :: LastRead(read, i, name) && read[i].1 == own[name]
  {
    hide Lists, Merged, Url, Query, Forms.ReadForm;
    QueryReads(endpoint, entries);
    var k := OwnOnce(own, extra, entries, name);
    TimesOne(entries, name, k);
    TimesInTurn(OwnQuery(endpoint), entries, name);
    var i := |OwnQuery(endpoint)| + k;
    assert LastRead(Forms.ReadForm(Query(Url(endpoint, entries))), i, name);
  }

  // Of the caller's, exactly those that are neither barred nor the flow's are there.
  lemma {:induction false} ExtraKept(own: Params, extra: Params, entries: seq<Forms.Entry>, name: Bytes)
    requires Lists(entries, Merged(own, extra)) && name !in own
    ensures (exists i :: 0 <= i < |entries| && entries[i].0 == name) <==> name in extra && !Barred(name)
    ensures forall i :: 0 <= i < |entries| && entries[i].0 == name ==> name in extra && entries[i].1 == extra[name]
  {
    MergedHas(own, extra, name);
    hide Barred, Below, Merged;
    if name in Merged(own, extra) {
      var i :| 0 <= i < |entries| && entries[i].0 == name;
    }
    forall i | 0 <= i < |entries| && entries[i].0 == name
      ensures name in Merged(own, extra) && entries[i].1 == Merged(own, extra)[name]
    {
    }
  }

  lemma MergedHas(own: Params, extra: Params, name: Bytes)
    requires name !in own
    ensures name in Merged(own, extra) <==> name in extra && !Barred(name)
    ensures name in Merged(own, extra) ==> Merged(own, extra)[name] == extra[name]
  {
    hide Barred;
  }

  // No parameter the server reads is one of the three that would replace the request or move its answer;
  // of the caller's others, those that are not the flow's own are all there.
  lemma {:induction false} NoneBarred(clientId: Bytes, redirectUri: Bytes, scope: Bytes, state: Bytes, challenge: Bytes,
                                      extra: Params, entries: seq<Forms.Entry>, name: Bytes)
    requires var own := Own(clientId, redirectUri, scope, state, challenge);
             Lists(entries, Merged(own, extra)) && name !in own
    ensures (exists i :: 0 <= i < |entries| && entries[i].0 == name) <==>
            name in extra && name != REQUEST && name != REQUEST_URI && name != RESPONSE_MODE
    ensures forall i :: 0 <= i < |entries| ==>
              entries[i].0 != REQUEST && entries[i].0 != REQUEST_URI && entries[i].0 != RESPONSE_MODE
  {
    var own := Own(clientId, redirectUri, scope, state, challenge);
    OwnHas(clientId, redirectUri, scope, state, challenge);
    BarredAre(name);
    ExtraKept(own, extra, entries, name);
    forall i | 0 <= i < |entries|
      ensures !Barred(entries[i].0)
    {
      if entries[i].0 !in own {
        ExtraKept(own, extra, entries, entries[i].0);
        hide Barred, Own, Merged, Lists;
      }
    }
    forall i | 0 <= i < |entries|
      ensures entries[i].0 != REQUEST && entries[i].0 != REQUEST_URI && entries[i].0 != RESPONSE_MODE
    {
      BarredAre(entries[i].0);
    }
  }

  lemma BarredAre(name: Bytes)
    ensures Barred(name) <==> name == REQUEST || name == REQUEST_URI || name == RESPONSE_MODE
  {
  }

  // The flow's own are these and no barred one.
  lemma {:induction false} OwnHas(clientId: Bytes, redirectUri: Bytes, scope: Bytes, state: Bytes, challenge: Bytes)
    ensures var own := Own(clientId, redirectUri, scope, state, challenge);
            && own.Keys == {RESPONSE_TYPE, CLIENT_ID, REDIRECT_URI, STATE, CODE_CHALLENGE, CODE_CHALLENGE_METHOD}
                           + (if scope == [] then {} else {SCOPE})
            && own[RESPONSE_TYPE] == CODE && own[CLIENT_ID] == clientId && own[REDIRECT_URI] == redirectUri
            && own[STATE] == state && own[CODE_CHALLENGE] == challenge && own[CODE_CHALLENGE_METHOD] == S256
            && (scope != [] ==> own[SCOPE] == scope)
            && forall name :: name in own ==> !Barred(name)
  {
  }
}
