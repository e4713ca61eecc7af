/**
  URLs as `oidc/src/oidc_core.cpp` reads them: `ParseUrl`, `Ipv4Literal` and `LocalEndpoint`, each
  against a grammar stated as concatenations, so that parsing is the inverse of printing.
 */
module Urls {
  import opened Bytes
  import opened Decimals
  import opened Wrappers

  const SLASH: byte := 47
  const COLON: byte := 58
  const OPEN: byte := 91
  const CLOSE: byte := 93
  const DOT: byte := 46
  const AT: byte := 64

  const HTTPS: Bytes := [104, 116, 116, 112, 115, 58, 47, 47] // "https://"
  const HTTP: Bytes := [104, 116, 116, 112, 58, 47, 47]       // "http://"

  // The constants are the texts they stand for.
  lemma SpelledUrls()
    ensures Spells(HTTPS, "https://") && Spells(HTTP, "http://")
    ensures Spells([SLASH, COLON, OPEN, CLOSE, DOT, AT], "/:[].@")
  {
  }

  // ----- The grammar -----

  datatype Parts = Parts(https: bool, host: Bytes, port: int, path: Bytes)

  function Scheme(https: bool): Bytes {
    if https then HTTPS else HTTP
  }

  function DefaultPort(https: bool): int {
    if https then 443 else 80
  }

  // "[" host "]" with or without a port, when it starts with a bracket; else host with or without one.
  predicate AuthorityIs(authority: Bytes, host: Bytes, portText: Bytes) {
    if authority != [] && authority[0] == OPEN then
      CLOSE !in host && (authority == [OPEN] + host + [CLOSE] + [COLON] + portText
                         || (authority == [OPEN] + host + [CLOSE] && portText == []))
    else
      (COLON !in portText && authority == host + [COLON] + portText)
      || (COLON !in authority && authority == host && portText == [])
  }

  predicate PortIs(portText: Bytes, https: bool, port: int) {
    if portText == [] then port == DefaultPort(https)
    else AllDigits(portText) && |portText| <= 5 && port == Number(portText) && 1 <= port <= 65535
  }

  predicate PathIs(tail: Bytes, path: Bytes) {
    if tail == [] then path == [SLASH] else tail[0] == SLASH && path == tail
  }

  // A URL of this form, with these pieces.
  predicate Form(url: Bytes, authority: Bytes, tail: Bytes, portText: Bytes, parts: Parts) {
    && url == Scheme(parts.https) + (authority + tail)
    && SLASH !in authority
    && PathIs(tail, parts.path)
    && AuthorityIs(authority, parts.host, portText)
    && PortIs(portText, parts.https, parts.port)
    && parts.host != []
  }

  ghost predicate Denotes(url: Bytes, parts: Parts) {
    exists authority, tail, portText :: Form(url, authority, tail, portText, parts)
  }

  // ----- Splitting -----

  // std::string::rfind of a byte.
  function LastOf(text: Bytes, c: byte): (p: int)
    ensures p == NPOS <==> c !in text
    ensures p != NPOS ==> 0 <= p < |text| && text[p] == c && c !in text[p + 1..]
  {
    if text == [] then NPOS
    else if text[|text| - 1] == c then |text| - 1
    else
      var p := LastOf(text[..|text| - 1], c);
      assert text == text[..|text| - 1] + [text[|text| - 1]];
      assert p != NPOS ==> text[p + 1..] == text[..|text| - 1][p + 1..] + [text[|text| - 1]];
      p
  }

  // ----- One reading -----

  lemma {:induction false} SchemesApart(https: bool, rest: Bytes, https': bool, rest': Bytes)
    requires Scheme(https) + rest == Scheme(https') + rest'
    ensures https == https' && rest == rest'
  {
    var text := Scheme(https) + rest;
    assert text[4] == Scheme(https)[4] && text[4] == Scheme(https')[4];
    assert rest == text[|Scheme(https)|..] && rest' == text[|Scheme(https')|..];
  }

  lemma {:induction false} AuthorityUnique(authority: Bytes, host: Bytes, portText: Bytes,
                                           host': Bytes, portText': Bytes)
    requires AuthorityIs(authority, host, portText) && AuthorityIs(authority, host', portText')
    ensures host == host' && portText == portText'
  {
    if authority != [] && authority[0] == OPEN {
      var inside := authority[1..];
      var after := if authority == [OPEN] + host + [CLOSE] then [CLOSE] else [CLOSE] + [COLON] + portText;
      var after' := if authority == [OPEN] + host' + [CLOSE] then [CLOSE] else [CLOSE] + [COLON] + portText';
      assert inside == host + after && inside == host' + after';
      SplitUnique(CLOSE, host, after, host', after');
      if authority != [OPEN] + host + [CLOSE] {
        assert portText == after[2..] && portText' == after'[2..];
      }
    } else if COLON in authority {
      LastUnique(COLON, host, portText, host', portText');
    } else {
      assert COLON in host + [COLON] + portText && COLON in host' + [COLON] + portText';
    }
  }

  // Where the scheme and the authority end, every reading of the URL agrees.
  lemma {:induction false} ReadingFixed(url: Bytes, https: bool, authority: Bytes, tail: Bytes, parts: Parts)
    requires url == Scheme(https) + (authority + tail)
    requires SLASH !in authority && (tail == [] || tail[0] == SLASH)
    ensures Denotes(url, parts) <==> exists portText :: Form(url, authority, tail, portText, parts)
  {
    hide AuthorityIs, PortIs, Scheme;
    if Denotes(url, parts) {
      var a, t, portText :| Form(url, a, t, portText, parts);
      SchemesApart(https, authority + tail, parts.https, a + t);
      SplitUnique(SLASH, authority, tail, a, t);
      assert Form(url, authority, tail, portText, parts);
    }
  }

  // What is left to read, once the scheme and the authority are found.
  ghost predicate Rest(https: bool, authority: Bytes, tail: Bytes, parts: Parts) {
    && parts.https == https && PathIs(tail, parts.path) && parts.host != []
    && exists portText :: AuthorityIs(authority, parts.host, portText) && PortIs(portText, https, parts.port)
  }

  lemma {:induction false} Reading(url: Bytes, https: bool, authority: Bytes, tail: Bytes, parts: Parts)
    requires url == Scheme(https) + (authority + tail)
    requires SLASH !in authority && (tail == [] || tail[0] == SLASH)
    ensures Denotes(url, parts) <==> Rest(https, authority, tail, parts)
  {
    hide AuthorityIs, PortIs, Scheme, PathIs;
    ReadingFixed(url, https, authority, tail, parts);
    if portText :| Form(url, authority, tail, portText, parts) {
      SchemesApart(https, authority + tail, parts.https, authority + tail);
    }
    if Rest(https, authority, tail, parts) {
      var portText :| AuthorityIs(authority, parts.host, portText) && PortIs(portText, https, parts.port);
      assert Form(url, authority, tail, portText, parts);
    }
  }

  lemma {:induction false} NoScheme(url: Bytes, parts: Parts)
    requires Denotes(url, parts)
    ensures HTTPS <= url || HTTP <= url
  {
    hide HTTPS, HTTP;
  }

  // A URL has one reading.
  lemma {:induction false} DenotesUnique(url: Bytes, parts: Parts, parts': Parts)
    requires Denotes(url, parts) && Denotes(url, parts')
    ensures parts == parts'
  {
    var authority, tail, portText :| Form(url, authority, tail, portText, parts);
    ReadingFixed(url, parts.https, authority, tail, parts');
    var portText' :| Form(url, authority, tail, portText', parts');
    SchemesApart(parts.https, authority + tail, parts'.https, authority + tail);
    AuthorityUnique(authority, parts.host, portText, parts'.host, portText');
  }

  // ----- ParseUrl -----

  datatype Error = Unsupported | MalformedAuthority | MalformedPort

  datatype Result = Parsed(parts: Parts) | Refused(error: Error)

  // ----- Why a URL is refused -----

  predicate Split(url: Bytes, https: bool, authority: Bytes, tail: Bytes) {
    url == Scheme(https) + (authority + tail) && SLASH !in authority && (tail == [] || tail[0] == SLASH)
  }

  // Its authority is not made of a host and a port text at all.
  ghost predicate Unreadable(authority: Bytes) {
    forall host, portText :: !AuthorityIs(authority, host, portText)
  }

  ghost predicate NoPort(portText: Bytes, https: bool) {
    forall port :: !PortIs(portText, https, port)
  }

  // Unreadable, or with a good port and no host.
  ghost predicate BadAuthority(authority: Bytes, https: bool) {
    Unreadable(authority) || exists portText :: AuthorityIs(authority, [], portText) && !NoPort(portText, https)
  }

  // With a host, empty or not, and no good port.
  ghost predicate BadPort(authority: Bytes, https: bool) {
    exists host, portText :: AuthorityIs(authority, host, portText) && NoPort(portText, https)
  }

  ghost predicate Bad(error: Error, authority: Bytes, https: bool) {
    match error
    case Unsupported => false
    case MalformedAuthority => BadAuthority(authority, https)
    case MalformedPort => BadPort(authority, https)
  }

  ghost predicate Fails(url: Bytes, error: Error) {
    if error == Unsupported then !(HTTPS <= url) && !(HTTP <= url)
    else exists https, authority, tail :: Split(url, https, authority, tail) && Bad(error, authority, https)
  }

  lemma {:induction false} SplitFixed(url: Bytes, https: bool, authority: Bytes, tail: Bytes,
                                      https': bool, authority': Bytes, tail': Bytes)
    requires Split(url, https, authority, tail) && Split(url, https', authority', tail')
    ensures https == https' && authority == authority' && tail == tail'
  {
    SchemesApart(https, authority + tail, https', authority' + tail');
    SplitUnique(SLASH, authority, tail, authority', tail');
  }

  lemma {:induction false} SplitHasScheme(url: Bytes, https: bool, authority: Bytes, tail: Bytes)
    requires Split(url, https, authority, tail)
    ensures HTTPS <= url || HTTP <= url
  {
    hide HTTPS, HTTP;
  }

  // Where the scheme and the authority end is one thing, so how a URL fails is told by its authority.
  lemma {:induction false} FailsHere(url: Bytes, https: bool, authority: Bytes, tail: Bytes, error: Error)
    requires Split(url, https, authority, tail)
    ensures Fails(url, error) <==> Bad(error, authority, https)
  {
    SplitHasScheme(url, https, authority, tail);
    hide Bad, Split, HTTPS, HTTP;
    if error == Unsupported {
      NeverUnsupported(authority, https);
    } else if Fails(url, error) {
      var h, a, t :| Split(url, h, a, t) && Bad(error, a, h);
      SplitFixed(url, https, authority, tail, h, a, t);
    }
  }

  lemma {:induction false} FailsNowhere(url: Bytes, error: Error)
    requires !(HTTPS <= url) && !(HTTP <= url)
    ensures Fails(url, error) <==> error == Unsupported
  {
    hide Bad, Split, HTTPS, HTTP;
    if h, a, t :| Split(url, h, a, t) && error != Unsupported {
      SplitHasScheme(url, h, a, t);
    }
  }

  lemma NeverUnsupported(authority: Bytes, https: bool)
    ensures !Bad(Unsupported, authority, https)
  {
  }

  // What is wrong with an authority that can be read.
  lemma {:induction false} BadReads(authority: Bytes, https: bool, host: Bytes, portText: Bytes)
    requires AuthorityIs(authority, host, portText)
    ensures BadPort(authority, https) <==> NoPort(portText, https)
    ensures BadAuthority(authority, https) <==> host == [] && !NoPort(portText, https)
  {
    hide AuthorityIs, NoPort;
    if h, p :| AuthorityIs(authority, h, p) && NoPort(p, https) {
      AuthorityUnique(authority, host, portText, h, p);
    }
    if p :| AuthorityIs(authority, [], p) && !NoPort(p, https) {
      AuthorityUnique(authority, host, portText, [], p);
    }
  }

  lemma {:induction false} BadUnreadable(authority: Bytes, https: bool)
    requires Unreadable(authority)
    ensures BadAuthority(authority, https) && !BadPort(authority, https)
  {
  }

  // A URL fails in one way.
  lemma {:induction false} FailsUnique(url: Bytes, error: Error, error': Error)
    requires Fails(url, error) && Fails(url, error')
    ensures error == error'
  {
    hide AuthorityIs, NoPort, BadAuthority, BadPort, Split, HTTPS, HTTP;
    if https, authority, tail :| Split(url, https, authority, tail) && (error != Unsupported || error' != Unsupported) {
      FailsHere(url, https, authority, tail, error);
      FailsHere(url, https, authority, tail, error');
      if Unreadable(authority) {
        BadUnreadable(authority, https);
      } else {
        var host, portText :| AuthorityIs(authority, host, portText);
        BadReads(authority, https, host, portText);
      }
    }
  }

  // ----- The parser -----

  lemma {:induction false} Bracketed(authority: Bytes, bracket: nat, host: Bytes, portText: Bytes)
    requires authority != [] && authority[0] == OPEN
    requires bracket < |authority| && authority[bracket] == CLOSE && CLOSE !in authority[..bracket]
    ensures AuthorityIs(authority, host, portText) <==>
            host == authority[1..bracket]
            && if bracket + 1 < |authority| then authority[bracket + 1] == COLON && portText == authority[bracket + 2..]
               else portText == []
  {
    var before, after := authority[..bracket], authority[bracket..];
    assert authority == before + after && before == [OPEN] + authority[1..bracket];
    if AuthorityIs(authority, host, portText) {
      var after' := if authority == [OPEN] + host + [CLOSE] then [CLOSE] else [CLOSE] + [COLON] + portText;
      assert authority == ([OPEN] + host) + after';
      SplitUnique(CLOSE, before, after, [OPEN] + host, after');
      assert host == ([OPEN] + host)[1..];
    }
  }

  method ReadAuthority(authority: Bytes) returns (r: Option<(Bytes, Bytes)>)
    ensures forall host, portText :: r == Some((host, portText)) <==> AuthorityIs(authority, host, portText)
  {
    if authority != [] && authority[0] == OPEN {
      var bracket := Find(authority, [CLOSE], 0);
      NoByte(authority, CLOSE);
      SplitAtByte(authority, CLOSE);
      if bracket == NPOS {
        return None;
      }
      forall host, portText {
        Bracketed(authority, bracket, host, portText);
      }
      hide AuthorityIs;
      var host := authority[1..bracket];
      if bracket + 1 < |authority| {
        if authority[bracket + 1] != COLON {
          return None;
        }
        r := Some((host, authority[bracket + 2..]));
      } else {
        r := Some((host, []));
      }
    } else {
      var colon := LastOf(authority, COLON);
      if colon != NPOS {
        r := Some((authority[..colon], authority[colon + 1..]));
        assert authority == authority[..colon] + [COLON] + authority[colon + 1..];
      } else {
        r := Some((authority, []));
      }
      forall host, portText | AuthorityIs(authority, host, portText)
        ensures r == Some((host, portText))
      {
        AuthorityUnique(authority, host, portText, r.value.0, r.value.1);
      }
    }
  }

  // No port text is the scheme's port; any other has to be digits, and few enough of them.
  method ReadPort(portText: Bytes, https: bool) returns (r: Option<int>)
    ensures forall port :: r == Some(port) <==> PortIs(portText, https, port)
  {
    if portText == [] {
      return Some(DefaultPort(https));
    }
    for i := 0 to |portText|
      invariant AllDigits(portText[..i])
    {
      if !IsDigit(portText[i]) {
        return None;
      }
    }
    assert portText[..|portText|] == portText;
    var value := if |portText| <= 5 then Number(portText) else 0;
    if value <= 0 || value > 65535 {
      return None;
    }
    r := Some(value);
  }

  lemma {:induction false} CutRest(rest: Bytes)
    ensures var slash := Find(rest, [SLASH], 0);
            var authority := if slash == NPOS then rest else rest[..slash];
            var tail := if slash == NPOS then [] else rest[slash..];
            rest == authority + tail && SLASH !in authority && (tail == [] || tail[0] == SLASH)
  {
    NoByte(rest, SLASH);
    SplitAtByte(rest, SLASH);
    hide Find;
  }

  lemma Whole(text: Bytes, start: Bytes)
    requires start <= text
    ensures text == start + text[|start|..]
  {
  }

  method ParseUrl(url: Bytes) returns (r: Result)
    ensures forall parts :: r == Parsed(parts) <==> Denotes(url, parts)
    ensures forall error :: r == Refused(error) <==> Fails(url, error)
  {
    var https := HTTPS <= url;
    forall parts | Denotes(url, parts) {
      NoScheme(url, parts);
    }
    hide AuthorityIs, PortIs, Denotes, Fails;
    if !https && !(HTTP <= url) {
      forall error {
        FailsNowhere(url, error);
      }
      return Refused(Unsupported);
    }
    var rest := url[|Scheme(https)|..];
    var slash := Find(rest, [SLASH], 0);
    var authority := if slash == NPOS then rest else rest[..slash];
    ghost var tail := if slash == NPOS then [] else rest[slash..];
    var path := if slash == NPOS then [SLASH] else rest[slash..];
    Whole(url, Scheme(https));
    CutRest(rest);
    forall parts {
      Reading(url, https, authority, tail, parts);
    }
    forall error {
      FailsHere(url, https, authority, tail, error);
    }
    hide HTTPS, HTTP, Scheme, Split, Find, BadAuthority, BadPort;
    var read := ReadAuthority(authority);
    if read == None {
      BadUnreadable(authority, https);
      return Refused(MalformedAuthority);
    }
    var (host, portText) := read.value;
    BadReads(authority, https, host, portText);
    var port := ReadPort(portText, https);
    if port == None {
      return Refused(MalformedPort);
    }
    assert PortIs(portText, https, port.value);
    if host == [] {
      return Refused(MalformedAuthority);
    }
    r := Parsed(Parts(https, host, port.value, path));
  }

  // ----- Parsing inverts printing -----

  function PrintedHost(host: Bytes, bracketed: bool): Bytes {
    if bracketed then [OPEN] + host + [CLOSE] else host
  }

  function Printed(parts: Parts, bracketed: bool): Bytes
    requires parts.port >= 0
  {
    Scheme(parts.https) + (PrintedHost(parts.host, bracketed) + [COLON] + Decimal(parts.port) + parts.path)
  }

  // A printed URL reads back as its pieces: a plain host may hold colons, a bracketed one anything but ']'.
  lemma {:induction false} ParsesPrinted(parts: Parts, bracketed: bool)
    requires 1 <= parts.port <= 65535
    requires parts.host != [] && SLASH !in parts.host
    requires if bracketed then CLOSE !in parts.host else parts.host[0] != OPEN
    requires parts.path != [] && parts.path[0] == SLASH
    ensures Denotes(Printed(parts, bracketed), parts)
  {
    var portText := Decimal(parts.port);
    DecimalReads(parts.port);
    DecimalShort(parts.port);
    hide Decimal, Number, Scheme;
    var authority := PrintedHost(parts.host, bracketed) + [COLON] + portText;
    assert Form(Printed(parts, bracketed), authority, parts.path, portText, parts);
  }

  // Without a port, or with an empty one, it is the scheme's: 443 or 80; without a path it is "/".
  lemma {:induction false} ParsesBare(https: bool, host: Bytes, bracketed: bool, colon: bool, tail: Bytes)
    requires host != [] && SLASH !in host && (tail == [] || tail[0] == SLASH)
    requires if bracketed then CLOSE !in host else host[0] != OPEN && (colon || COLON !in host)
    ensures var url := Scheme(https) + (PrintedHost(host, bracketed) + (if colon then [COLON] else []) + tail);
            Denotes(url, Parts(https, host, if https then 443 else 80, if tail == [] then [SLASH] else tail))
  {
    hide Scheme;
    var authority := PrintedHost(host, bracketed) + (if colon then [COLON] else []);
    var url := Scheme(https) + (authority + tail);
    var parts := Parts(https, host, if https then 443 else 80, if tail == [] then [SLASH] else tail);
    assert AuthorityIs(authority, host, []) by {
      assert authority + [] == authority;
      if !colon {
        assert authority == PrintedHost(host, bracketed);
      }
    }
    assert Form(url, authority, tail, [], parts);
  }

  // Every port that is read is one, and whatever stands behind a host's last colon is refused unless it is
  // nothing, or at most five digits for a number within 1..65535.
  lemma {:induction false} PortsRead(https: bool, host: Bytes, portText: Bytes, tail: Bytes)
    requires host != [] && SLASH !in host && host[0] != OPEN && COLON !in portText && SLASH !in portText
    requires tail == [] || tail[0] == SLASH
    ensures var url := Scheme(https) + ((host + [COLON] + portText) + tail);
            (exists parts :: Denotes(url, parts)) <==>
            portText == [] || (|portText| <= 5 && AllDigits(portText) && 1 <= Number(portText) <= 65535)
  {
    hide Scheme, Number, AllDigits;
    var authority := host + [COLON] + portText;
    var url := Scheme(https) + (authority + tail);
    assert AuthorityIs(authority, host, portText);
    hide AuthorityIs;
    if parts :| Denotes(url, parts) {
      Reading(url, https, authority, tail, parts);
      var p :| AuthorityIs(authority, parts.host, p) && PortIs(p, https, parts.port);
      AuthorityUnique(authority, host, portText, parts.host, p);
    }
    if portText == [] || (|portText| <= 5 && AllDigits(portText) && 1 <= Number(portText) <= 65535) {
      var port := if portText == [] then DefaultPort(https) else Number(portText);
      var parts := Parts(https, host, port, if tail == [] then [SLASH] else tail);
      assert Form(url, authority, tail, portText, parts);
      assert Denotes(url, parts);
    }
  }

  lemma {:induction false} PortInRange(url: Bytes, parts: Parts)
    requires Denotes(url, parts)
    ensures 1 <= parts.port <= 65535 && parts.host != [] && parts.path != [] && parts.path[0] == SLASH
  {
    hide AuthorityIs, Scheme, Number, AllDigits;
  }

  // ----- Ipv4Literal -----

  predicate OctetText(group: Bytes) {
    1 <= |group| <= 3 && AllDigits(group) && Number(group) <= 255
  }

  // Groups joined by dots.
  function Dotted(groups: seq<Bytes>): Bytes
    requires groups != []
  {
    if |groups| == 1 then groups[0] else groups[0] + [DOT] + Dotted(groups[1..])
  }

  predicate OctetGroups(groups: seq<Bytes>, octets: seq<int>) {
    |groups| == |octets| && forall i :: 0 <= i < |groups| ==> OctetText(groups[i]) && octets[i] == Number(groups[i])
  }

  ghost predicate Quad(text: Bytes, n: nat, octets: seq<int>)
    requires n > 0
  {
    exists groups: seq<Bytes> :: |groups| == n && text == Dotted(groups) && OctetGroups(groups, octets)
  }

  // The digits a text starts with, at most `most` of them.
  function Run(text: Bytes, most: nat): (k: nat)
    ensures k <= |text| && k <= most && AllDigits(text[..k])
    ensures k < most && k < |text| ==> !IsDigit(text[k])
  {
    if most == 0 || text == [] || !IsDigit(text[0]) then 0
    else
      var k := Run(text[1..], most - 1);
      assert forall i :: 1 <= i < k + 1 ==> text[i] == text[1..][..k][i - 1];
      k + 1
  }

  // Reading n groups from the front.
  function Octets(text: Bytes, n: nat): Option<seq<int>>
    requires n > 0
  {
    var k := Run(text, 3);
    if k == 0 || Number(text[..k]) > 255 then None
    else if n == 1 then if k == |text| then Some([Number(text[..k])]) else None
    else if k == |text| || text[k] != DOT then None
    else
      match Octets(text[k + 1..], n - 1)
      case None => None
      case Some(later) => Some([Number(text[..k])] + later)
  }

  lemma {:induction false} RunUnique(text: Bytes, group: Bytes, after: Bytes)
    requires text == group + after && OctetText(group) && (after == [] || after[0] == DOT)
    ensures Run(text, 3) == |group| && text[..|group|] == group
  {
    assert text[..|group|] == group;
    assert forall i :: 0 <= i < |group| ==> text[i] == group[i];
    assert after != [] ==> text[|group|] == DOT;
    var k := Run(text, 3);
    assert forall i :: 0 <= i < k ==> text[i] == text[..k][i];
  }

  // The reader finds exactly the dotted quads.
  lemma {:induction false} OctetsExactly(text: Bytes, n: nat, octets: seq<int>)
    requires n > 0
    ensures Octets(text, n) == Some(octets) <==> Quad(text, n, octets)
    decreases n
  {
    if Octets(text, n) == Some(octets) {
      OctetsSound(text, n, octets);
    }
    if Quad(text, n, octets) {
      var groups :| |groups| == n && text == Dotted(groups) && OctetGroups(groups, octets);
      OctetsComplete(groups, octets);
    }
  }

  lemma {:induction false} QuadOne(group: Bytes)
    requires OctetText(group)
    ensures Quad(group, 1, [Number(group)])
  {
    hide Number;
    assert OctetGroups([group], [Number(group)]) && Dotted([group]) == group;
  }

  lemma {:induction false} QuadMore(group: Bytes, rest: Bytes, n: nat, octets: seq<int>)
    requires n > 0 && OctetText(group) && Quad(rest, n, octets)
    ensures Quad(group + [DOT] + rest, n + 1, [Number(group)] + octets)
  {
    var later: seq<Bytes> :| |later| == n && rest == Dotted(later) && OctetGroups(later, octets);
    hide Number, OctetText, Quad;
    var groups := [group] + later;
    assert groups[1..] == later;
    assert Dotted(groups) == group + [DOT] + rest;
    assert OctetGroups(groups, [Number(group)] + octets);
    QuadIs(groups, [Number(group)] + octets);
  }

  lemma {:induction false} QuadIs(groups: seq<Bytes>, octets: seq<int>)
    requires groups != [] && OctetGroups(groups, octets)
    ensures Quad(Dotted(groups), |groups|, octets)
  {
  }

  lemma {:induction false} OctetsSound(text: Bytes, n: nat, octets: seq<int>)
    requires n > 0 && Octets(text, n) == Some(octets)
    ensures Quad(text, n, octets)
    decreases n
  {
    hide Number, Quad;
    var k := Run(text, 3);
    var group := text[..k];
    if n == 1 {
      assert text == group;
      QuadOne(group);
    } else {
      var rest := text[k + 1..];
      OctetsSound(rest, n - 1, octets[1..]);
      QuadMore(group, rest, n - 1, octets[1..]);
      assert text == group + [DOT] + rest;
      assert octets == [Number(group)] + octets[1..];
    }
  }

  lemma {:induction false} OctetsComplete(groups: seq<Bytes>, octets: seq<int>)
    requires groups != [] && OctetGroups(groups, octets)
    ensures Octets(Dotted(groups), |groups|) == Some(octets)
    decreases |groups|
  {
    hide Number, Run, Octets;
    var group := groups[0];
    assert OctetText(group) && octets[0] == Number(group);
    hide OctetText;
    if |groups| == 1 {
      assert octets == [Number(group)];
      OctetsLast(group);
    } else {
      var later, rest := groups[1..], octets[1..];
      assert OctetGroups(later, rest);
      OctetsComplete(later, rest);
      assert octets == [Number(group)] + rest;
      OctetsFirst(group, Dotted(later), |later|, rest);
    }
  }

  lemma {:induction false} OctetsLast(group: Bytes)
    requires OctetText(group)
    ensures Octets(group, 1) == Some([Number(group)])
  {
    hide Number;
    assert group == group + [];
    RunUnique(group, group, []);
  }

  lemma {:induction false} OctetsFirst(group: Bytes, rest: Bytes, n: nat, octets: seq<int>)
    requires OctetText(group) && n > 0 && Octets(rest, n) == Some(octets)
    ensures Octets(group + [DOT] + rest, n + 1) == Some([Number(group)] + octets)
  {
    hide Number;
    var text := group + [DOT] + rest;
    assert text == group + ([DOT] + rest);
    RunUnique(text, group, [DOT] + rest);
    assert text[|group| + 1..] == rest;
  }

  function Before(done: seq<int>, later: Option<seq<int>>): Option<seq<int>> {
    match later
    case None => None
    case Some(octets) => Some(done + octets)
  }

  lemma BeforeTurns(done: seq<int>, value: int, later: Option<seq<int>>)
    ensures Before([], later) == later
    ensures Before(done, Before([value], later)) == Before(done + [value], later)
  {
    if later.Some? {
      assert [] + later.value == later.value;
      assert done + ([value] + later.value) == (done + [value]) + later.value;
    }
  }

  // The inner loop: at most three digits.
  method ReadGroup(host: Bytes, start: nat) returns (at: nat, value: int)
    requires start <= |host|
    ensures var k := Run(host[start..], 3);
            at == start + k && value == Number(host[start..][..k])
  {
    hide DigitValue;
    at, value := start, 0;
    var digits := 0;
    ghost var rest := host[start..];
    ghost var k := Run(rest, 3);
    assert rest[..0] == [] && Number([]) == 0;
    while at < |host| && IsDigit(host[at]) && digits < 3
      invariant at == start + digits && digits <= k
      invariant value == Number(rest[..digits])
      decreases |host| - at
    {
      assert host[at] == rest[digits];
      assert rest[..digits + 1][..digits] == rest[..digits];
      value := value * 10 + DigitValue(host[at]);
      at := at + 1;
      digits := digits + 1;
    }
    assert forall i :: 0 <= i < k ==> rest[i] == rest[..k][i];
  }

  // Four groups, into the caller's array.
  method Ipv4Literal(host: Bytes, octets: array<int>) returns (ok: bool)
    requires octets.Length == 4
    modifies octets
    ensures ok <==> Octets(host, 4).Some?
    ensures ok ==> octets[..] == Octets(host, 4).value
  {
    hide Number, Run;
    var count := 0;
    var at: nat := 0;
    BeforeTurns([], 0, Octets(host, 4));
    assert host[0..] == host && octets[..0] == [];
    while count < 4
      invariant count <= 4 && at <= |host|
      invariant Octets(host, 4) ==
                if count < 4 then Before(octets[..count], Octets(host[at..], 4 - count))
                else if at == |host| then Some(octets[..]) else None
      decreases 4 - count
    {
      ghost var start, rest, done := at, host[at..], octets[..count];
      var next, value := ReadGroup(host, at);
      if next == at || value > 255 {
        return false;
      }
      octets[count] := value;
      assert octets[..count + 1] == done + [value];
      count := count + 1;
      at := next;
      if count < 4 {
        if at >= |host| || host[at] != DOT {
          return false;
        }
        at := at + 1;
        assert host[at..] == rest[at - start..];
        BeforeTurns(done, value, Octets(host[at..], 4 - count));
      } else {
        assert octets[..] == octets[..4];
      }
    }
    ok := at == |host|;
  }

  // ----- LocalEndpoint -----

  const SEPARATOR: Bytes := [58, 47, 47]                                // "://"
  const LOCALHOST: Bytes := [108, 111, 99, 97, 108, 104, 111, 115, 116] // "localhost"
  const LOOPBACK6: Bytes := [58, 58, 49]                                // "::1"

  predicate LocalOctets(octets: seq<int>)
    requires |octets| == 4
  {
    octets[0] == 127 || (octets[0] == 169 && octets[1] == 254)
  }

  ghost predicate LocalHost(host: Bytes) {
    || host == LOCALHOST
    || host == LOOPBACK6
    || exists octets: seq<int> :: |octets| == 4 && Quad(host, 4, octets) && LocalOctets(octets)
  }

  ghost predicate LocalBy(url: Bytes, authority: Bytes, tail: Bytes, portText: Bytes, parts: Parts) {
    Form(url, authority, tail, portText, parts) && AT !in authority && LocalHost(parts.host)
  }

  ghost predicate Local(url: Bytes) {
    exists authority, tail, portText, parts :: LocalBy(url, authority, tail, portText, parts)
  }

  // The authority, as LocalEndpoint cuts it out.
  function AuthorityAfter(url: Bytes, start: nat): Bytes
    requires start <= |url|
  {
    var end := Find(url, [SLASH], start);
    if end == NPOS then url[start..] else url[start..end]
  }

  lemma {:induction false} SeparatorFound(url: Bytes, https: bool, rest: Bytes)
    requires url == Scheme(https) + rest
    ensures Find(url, SEPARATOR, 0) == |Scheme(https)| - 3
  {
    FindsFirst(url, SEPARATOR, 0);
    var p, q := Find(url, SEPARATOR, 0), |Scheme(https)| - 3;
    assert forall i :: 0 <= i < |Scheme(https)| ==> url[i] == Scheme(https)[i];
    assert OccursAt(SEPARATOR, url, q);
    assert forall i :: 0 <= i < q ==> url[i] != SEPARATOR[0];
    assert url[p + 0] == SEPARATOR[0];
  }

  lemma {:induction false} AuthorityFound(url: Bytes, start: Bytes, authority: Bytes, tail: Bytes)
    requires url == start + (authority + tail) && SLASH !in authority && (tail == [] || tail[0] == SLASH)
    ensures AuthorityAfter(url, |start|) == authority
  {
    FindsFirst(url, [SLASH], |start|);
    var end := Find(url, [SLASH], |start|);
    OccursByte(SLASH, url, end);
    OccursByte(SLASH, url, |start| + |authority|);
    assert forall i :: 0 <= i < |authority| ==> url[|start| + i] == authority[i];
    assert tail != [] ==> url[|start| + |authority|] == tail[0];
  }

  lemma {:induction false} LocalDenotes(url: Bytes)
    requires Local(url)
    ensures exists parts :: Denotes(url, parts)
  {
    hide Form, LocalHost;
    var authority, tail, portText, parts :| LocalBy(url, authority, tail, portText, parts);
    assert Denotes(url, parts);
  }

  // The authority that is searched for '@' is the one that is parsed.
  lemma {:induction false} LocalExactly(url: Bytes, parts: Parts)
    requires Denotes(url, parts)
    ensures var scheme := Find(url, SEPARATOR, 0);
            && scheme != NPOS && scheme + 3 <= |url|
            && (Local(url) <==> AT !in AuthorityAfter(url, scheme + 3) && LocalHost(parts.host))
  {
    hide LocalHost, AuthorityIs, PortIs, Find, AuthorityAfter;
    var authority, tail, portText :| Form(url, authority, tail, portText, parts);
    SeparatorFound(url, parts.https, authority + tail);
    AuthorityFound(url, Scheme(parts.https), authority, tail);
    hide Scheme;
    if Local(url) {
      var a, t, p, parts' :| LocalBy(url, a, t, p, parts');
      DenotesUnique(url, parts, parts');
      SchemesApart(parts.https, authority + tail, parts'.https, a + t);
      SplitUnique(SLASH, a, t, authority, tail);
    }
    if AT !in authority && LocalHost(parts.host) {
      assert LocalBy(url, authority, tail, portText, parts);
    }
  }

  lemma {:induction false} HostExactly(host: Bytes)
    ensures LocalHost(host) <==>
            || host == LOCALHOST
            || host == LOOPBACK6
            || (Octets(host, 4).Some? && |Octets(host, 4).value| == 4 && LocalOctets(Octets(host, 4).value))
  {
    hide Octets, Quad, LOCALHOST, LOOPBACK6;
    forall octets {
      OctetsExactly(host, 4, octets);
    }
  }

  lemma SeparatorWithin(url: Bytes)
    ensures var scheme := Find(url, SEPARATOR, 0);
            scheme != NPOS ==> 0 <= scheme && scheme + 3 <= |url|
  {
  }

  // Local by literal address only, whatever the name looks like.
  method LocalEndpoint(url: Bytes) returns (local: bool)
    ensures local <==> Local(url)
  {
    SeparatorWithin(url);
    hide LOCALHOST, LOOPBACK6, SEPARATOR, Find, Octets, AuthorityAfter, Denotes, Local;
    if Local(url) {
      LocalDenotes(url);
    }
    forall parts | Denotes(url, parts) {
      LocalExactly(url, parts);
    }
    var scheme := Find(url, SEPARATOR, 0);
    if scheme == NPOS {
      return false;
    }
    var authority := AuthorityAfter(url, scheme + 3);
    if AT in authority {
      return false;
    }
    var r := ParseUrl(url);
    if r.Refused? {
      return false;
    }
    assert Denotes(url, r.parts);
    var host := r.parts.host;
    HostExactly(host);
    hide LocalHost;
    if host == LOCALHOST || host == LOOPBACK6 {
      return true;
    }
    var octets := new int[4];
    var quad := Ipv4Literal(host, octets);
    local := quad && (octets[0] == 127 || (octets[0] == 169 && octets[1] == 254));
  }

  // ----- Which hosts are local -----

  lemma SpelledLocal()
    ensures Spells(LOCALHOST, "localhost") && Spells(LOOPBACK6, "::1") && Spells(SEPARATOR, "://")
  {
  }

  lemma {:induction false} NamesLocal()
    ensures LocalHost(LOCALHOST) && LocalHost(LOOPBACK6)
  {
    hide LOCALHOST, LOOPBACK6, Quad;
  }

  lemma {:induction false} OctetDecimal(n: nat)
    requires n <= 255
    ensures OctetText(Decimal(n)) && Number(Decimal(n)) == n && IsDigit(Decimal(n)[0])
  {
    DecimalReads(n);
    assert n >= 10 ==> |Decimal(n)| == 1 + |Decimal(n / 10)|;
    assert n >= 100 ==> |Decimal(n / 10)| == 1 + |Decimal(n / 10 / 10)|;
    hide Digit, Number;
  }

  function Address(a: nat, b: nat, c: nat, d: nat): Bytes {
    Dotted([Decimal(a), Decimal(b), Decimal(c), Decimal(d)])
  }

  lemma {:induction false} NoName(host: Bytes)
    requires host != [] && IsDigit(host[0])
    ensures host != LOCALHOST && host != LOOPBACK6
  {
  }

  lemma {:induction false} DottedBegins(groups: seq<Bytes>)
    requires groups != [] && groups[0] != []
    ensures Dotted(groups) != [] && Dotted(groups)[0] == groups[0][0]
  {
  }

  lemma {:induction false} AddressOctets(a: Bytes, b: Bytes, c: Bytes, d: Bytes)
    requires OctetText(a) && OctetText(b) && OctetText(c) && OctetText(d) && IsDigit(a[0])
    ensures var host := Dotted([a, b, c, d]);
            && Octets(host, 4) == Some([Number(a), Number(b), Number(c), Number(d)])
            && host != LOCALHOST && host != LOOPBACK6
  {
    var groups, octets: seq<int> := [a, b, c, d], [Number(a), Number(b), Number(c), Number(d)];
    hide Number, Dotted, Octets, LOCALHOST, LOOPBACK6, IsDigit;
    assert OctetGroups(groups, octets) && a != [];
    OctetsComplete(groups, octets);
    hide OctetText;
    DottedBegins(groups);
    NoName(Dotted(groups));
  }

  lemma {:induction false} OctetsDecide(host: Bytes, octets: seq<int>)
    requires Octets(host, 4) == Some(octets) && |octets| == 4 && host != LOCALHOST && host != LOOPBACK6
    ensures LocalHost(host) <==> LocalOctets(octets)
  {
    hide Octets, LOCALHOST, LOOPBACK6, LocalHost, LocalOctets;
    HostExactly(host);
  }

  // Of the addresses in dotted decimals, 127.b.c.d and 169.254.c.d are local, and no other.
  lemma {:induction false} AddressLocal(a: nat, b: nat, c: nat, d: nat)
    requires a <= 255 && b <= 255 && c <= 255 && d <= 255
    ensures LocalHost(Address(a, b, c, d)) <==> a == 127 || (a == 169 && b == 254)
  {
    hide Decimal, Number, OctetText, LOCALHOST, LOOPBACK6, LocalHost, IsDigit, Dotted, Octets;
    OctetDecimal(a);
    OctetDecimal(b);
    OctetDecimal(c);
    OctetDecimal(d);
    AddressOctets(Decimal(a), Decimal(b), Decimal(c), Decimal(d));
    OctetsDecide(Address(a, b, c, d), [a, b, c, d]);
  }

  // A host with any byte that is no digit and no dot is local under the two names only.
  lemma {:induction false} NameLocal(host: Bytes, i: nat)
    requires i < |host| && !IsDigit(host[i]) && host[i] != DOT
    ensures LocalHost(host) <==> host == LOCALHOST || host == LOOPBACK6
  {
    hide LOCALHOST, LOOPBACK6;
    if octets: seq<int> :| |octets| == 4 && Quad(host, 4, octets) {
      var groups: seq<Bytes> :| |groups| == 4 && host == Dotted(groups) && OctetGroups(groups, octets);
      DottedPlain(groups, octets, i);
    }
  }

  lemma {:induction false} DottedPlain(groups: seq<Bytes>, octets: seq<int>, i: nat)
    requires groups != [] && OctetGroups(groups, octets) && i < |Dotted(groups)|
    ensures IsDigit(Dotted(groups)[i]) || Dotted(groups)[i] == DOT
    decreases |groups|
  {
    hide Number;
    var n := |groups[0]|;
    if |groups| > 1 && i > n {
      assert OctetGroups(groups[1..], octets[1..]);
      DottedPlain(groups[1..], octets[1..], i - n - 1);
    }
  }
}
