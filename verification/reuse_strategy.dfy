/**
 * DefaultConnectionReuseStrategy.keepAlive: may the connection that carried
 * this request/response exchange be kept open for another one?
 *
 * The decision is the persistence rule of section 6.3 of RFC 7230 (with the
 * Connection options of section 6.1), guarded by the message-body-length rules
 * of section 3.3.3 of RFC 7230 and the 204 (No Content) semantics of section
 * 6.3.5 of RFC 7231. Rules are tried in a fixed order and the first that
 * decides wins.
 */
module ReuseStrategy {
  import opened Wrappers
  import opened CaseInsensitive
  import opened Versions
  import opened Messages

  const SC_NO_CONTENT: int := 204

  const CONNECTION: string := "Connection"
  const PROXY_CONNECTION: string := "Proxy-Connection"
  const CONTENT_LENGTH: string := "Content-Length"
  const TRANSFER_ENCODING: string := "Transfer-Encoding"

  const CLOSE: string := "close"
  const KEEP_ALIVE: string := "keep-alive"
  const CHUNKED: string := "chunked"

  /** Rule 1: some Connection header of the request yields a `close` token. */
  predicate RequestAsksClose(request: Option<Request>, env: MessageLayer)
    ensures RequestAsksClose(request, env) <==>
            request.Some? &&
            exists i, t :: 0 <= i < |request.value.headers| && NameIs(request.value.headers[i], CONNECTION) &&
                           t in env.tokenize(request.value.headers[i].value) && EqualsIgnoreCase(t, CLOSE)
  {
    match request
    case None => false
    case Some(req) =>
      HasTokenInNamedHeaders(req.headers, CONNECTION, env.tokenize, CLOSE);
      HasToken(TokensOf(Headers(req.headers, CONNECTION), env.tokenize), CLOSE)
  }

  /** The first Content-Length parses to a positive number; an unparseable one does not count. */
  predicate PositiveContentLength(response: Response, env: MessageLayer)
    ensures PositiveContentLength(response, env) <==>
            exists i :: IsEarliest(response.headers, CONTENT_LENGTH, i) &&
                        env.parseLong(response.headers[i].value).Some? && env.parseLong(response.headers[i].value).value > 0
  {
    FirstHeaderIsEarliest(response.headers, CONTENT_LENGTH);
    match FirstHeader(response.headers, CONTENT_LENGTH)
    case None => false
    case Some(clh) =>
      match env.parseLong(clh.value)
      case None => false
      case Some(contentLen) => contentLen > 0
  }

  /** Rule 2: a 204 response that announces content anyway. */
  predicate NoContentCarriesBody(response: Response, env: MessageLayer)
    ensures NoContentCarriesBody(response, env) <==>
            response.code == SC_NO_CONTENT &&
            (PositiveContentLength(response, env) ||
             exists i :: 0 <= i < |response.headers| && NameIs(response.headers[i], TRANSFER_ENCODING))
  {
    response.code == SC_NO_CONTENT &&
    (PositiveContentLength(response, env) || ContainsHeader(response.headers, TRANSFER_ENCODING))
  }

  /** The request method handed to canResponseHaveBody (null without a request). */
  function MethodOf(request: Option<Request>): (r: Option<string>)
    ensures r.Some? <==> request.Some?
    ensures request.Some? ==> r.value == request.value.requestMethod
  {
    match request
    case None => None
    case Some(req) => Some(req.requestMethod)
  }

  /**
   * Rule 3: the end of the response body is known without closing the
   * connection: the first Transfer-Encoding is `chunked` as a whole value, or
   * there is none and the response either has no body or exactly one
   * Content-Length header.
   */
  predicate BodyDelimited(request: Option<Request>, response: Response, env: MessageLayer)
    ensures BodyDelimited(request, response, env) <==>
            (exists i :: IsEarliest(response.headers, TRANSFER_ENCODING, i) &&
                         EqualsIgnoreCase(response.headers[i].value, CHUNKED)) ||
            ((forall i :: 0 <= i < |response.headers| ==> !NameIs(response.headers[i], TRANSFER_ENCODING)) &&
             (!env.canResponseHaveBody(MethodOf(request), response.code) ||
              CountHeaders(response.headers, CONTENT_LENGTH) == 1))
  {
    FirstHeaderIsEarliest(response.headers, TRANSFER_ENCODING);
    match FirstHeader(response.headers, TRANSFER_ENCODING)
    case Some(teh) => EqualsIgnoreCase(teh.value, CHUNKED)
    case None =>
      !env.canResponseHaveBody(MethodOf(request), response.code) ||
      CountHeaders(response.headers, CONTENT_LENGTH) == 1
  }

  /** Rule 4: the Connection headers, or the Proxy-Connection headers when there are none. */
  function ConnectionHeaders(response: Response): (r: seq<Header>)
    ensures ContainsHeader(response.headers, CONNECTION) ==> r == Headers(response.headers, CONNECTION)
    ensures !ContainsHeader(response.headers, CONNECTION) ==> r == Headers(response.headers, PROXY_CONNECTION)
  {
    var conn := Headers(response.headers, CONNECTION);
    if |conn| > 0 then conn else Headers(response.headers, PROXY_CONNECTION)
  }

  /**
   * Rule 4: the connection options are exactly the response's Connection
   * headers when it has one, and its Proxy-Connection headers otherwise.
   */
  lemma ConnectionHeadersAreTheOptions(response: Response)
    ensures forall h :: h in ConnectionHeaders(response) <==>
              h in response.headers &&
              if ContainsHeader(response.headers, CONNECTION) then NameIs(h, CONNECTION) else NameIs(h, PROXY_CONNECTION)
  {
  }

  /** The response's own version, or the context's when the response carries none. */
  function EffectiveVersion(response: Response, contextVersion: ProtocolVersion): (r: ProtocolVersion)
    ensures response.version.Some? ==> r == response.version.value
    ensures response.version.None? ==> r == contextVersion
  {
    match response.version
    case Some(v) => v
    case None => contextVersion
  }

  /**
   * Rule 5: with connection options, HTTP/1.1 or later persists unless one is
   * `close`, and earlier versions persist only if one is `keep-alive`; without
   * any, only HTTP/1.1 or later persists.
   */
  predicate ConnectionPersistent(response: Response, contextVersion: ProtocolVersion, env: MessageLayer)
    ensures ConnectionPersistent(response, contextVersion, env) <==>
            var hs := ConnectionHeaders(response);
            var modern := GreaterEquals(EffectiveVersion(response, contextVersion), HTTP_1_1);
            if ContainsHeader(response.headers, CONNECTION) || ContainsHeader(response.headers, PROXY_CONNECTION) then
              if modern then
                !exists i, t :: 0 <= i < |hs| && t in env.tokenize(hs[i].value) && EqualsIgnoreCase(t, CLOSE)
              else
                exists i, t :: 0 <= i < |hs| && t in env.tokenize(hs[i].value) && EqualsIgnoreCase(t, KEEP_ALIVE)
            else modern
  {
    var hs := ConnectionHeaders(response);
    HasTokenInHeaders(hs, env.tokenize, CLOSE);
    HasTokenInHeaders(hs, env.tokenize, KEEP_ALIVE);
    var ver := EffectiveVersion(response, contextVersion);
    if |hs| > 0 then
      if GreaterEquals(ver, HTTP_1_1) then !HasToken(TokensOf(hs, env.tokenize), CLOSE)
      else HasToken(TokensOf(hs, env.tokenize), KEEP_ALIVE)
    else GreaterEquals(ver, HTTP_1_1)
  }

  /** The reuse decision: the rules in order, the first that refuses wins. */
  function ReuseAllowed(request: Option<Request>, response: Response, contextVersion: ProtocolVersion,
                        env: MessageLayer): (r: bool)
    ensures r ==> !RequestAsksClose(request, env)
    ensures r ==> !NoContentCarriesBody(response, env) && BodyDelimited(request, response, env)
  {
    if RequestAsksClose(request, env) then false
    else if NoContentCarriesBody(response, env) then false
    else if !BodyDelimited(request, response, env) then false
    else ConnectionPersistent(response, contextVersion, env)
  }

  /** Scans `tokens` for `target`, stopping at the first match. */
  method ScanTokens(tokens: seq<string>, target: string) returns (found: bool)
    ensures found == HasToken(tokens, target)
  {
    var i := 0;
    while i < |tokens|
      invariant 0 <= i <= |tokens|
      invariant forall j :: 0 <= j < i ==> !EqualsIgnoreCase(tokens[j], target)
    {
      if EqualsIgnoreCase(tokens[i], target) {
        return true;
      }
      i := i + 1;
    }
    return false;
  }

  /** keepAlive, step by step as the strategy runs it, with early returns. */
  method KeepAlive(request: Option<Request>, response: Response, contextVersion: ProtocolVersion,
                   env: MessageLayer) returns (r: bool)
    ensures r == ReuseAllowed(request, response, contextVersion, env)
  {
    if request.Some? {
      var ti := TokensOf(Headers(request.value.headers, CONNECTION), env.tokenize);
      var close := ScanTokens(ti, CLOSE);
      if close {
        return false;
      }
    }
    assert !RequestAsksClose(request, env);

    if response.code == SC_NO_CONTENT {
      var clh := FirstHeader(response.headers, CONTENT_LENGTH);
      if clh.Some? {
        var contentLen := env.parseLong(clh.value.value);
        if contentLen.Some? && contentLen.value > 0 {
          assert NoContentCarriesBody(response, env);
          return false;
        }
      }
      if ContainsHeader(response.headers, TRANSFER_ENCODING) {
        return false;
      }
    }
    assert !NoContentCarriesBody(response, env);

    var teh := FirstHeader(response.headers, TRANSFER_ENCODING);
    if teh.Some? {
      if !EqualsIgnoreCase(teh.value.value, CHUNKED) {
        assert !BodyDelimited(request, response, env);
        return false;
      }
    } else {
      if env.canResponseHaveBody(MethodOf(request), response.code) && CountHeaders(response.headers, CONTENT_LENGTH) != 1 {
        assert !BodyDelimited(request, response, env);
        return false;
      }
    }

    var headerIterator := Headers(response.headers, CONNECTION);
    if |headerIterator| == 0 {
      headerIterator := Headers(response.headers, PROXY_CONNECTION);
    }
    var ver := if response.version.Some? then response.version.value else contextVersion;
    assert BodyDelimited(request, response, env);
    assert headerIterator == ConnectionHeaders(response) && ver == EffectiveVersion(response, contextVersion);
    if |headerIterator| > 0 {
      var it := TokensOf(headerIterator, env.tokenize);
      if GreaterEquals(ver, HTTP_1_1) {
        var close := ScanTokens(it, CLOSE);
        return !close;
      }
      var keepAlive := ScanTokens(it, KEEP_ALIVE);
      return keepAlive;
    }
    return GreaterEquals(ver, HTTP_1_1);
  }

  /** Since every earlier rule can only refuse, the first-match chain is a conjunction. */
  lemma ReuseAllowedIsConjunction(request: Option<Request>, response: Response, contextVersion: ProtocolVersion,
                                  env: MessageLayer)
    ensures ReuseAllowed(request, response, contextVersion, env) <==>
            !RequestAsksClose(request, env) && !NoContentCarriesBody(response, env) &&
            BodyDelimited(request, response, env) && ConnectionPersistent(response, contextVersion, env)
  {
  }

  /** Rule 1: a `close` token in any of the request's Connection headers refuses reuse, whatever the response. */
  lemma RequestCloseForbidsReuse(request: Request, response: Response, contextVersion: ProtocolVersion,
                                 env: MessageLayer)
    requires exists i, t :: 0 <= i < |request.headers| && NameIs(request.headers[i], CONNECTION) &&
                            t in env.tokenize(request.headers[i].value) && EqualsIgnoreCase(t, CLOSE)
    ensures !ReuseAllowed(Some(request), response, contextVersion, env)
  {
    var hs := request.headers;
    var i, t :| 0 <= i < |hs| && NameIs(hs[i], CONNECTION) && t in env.tokenize(hs[i].value) && EqualsIgnoreCase(t, CLOSE);
    var conn := Headers(hs, CONNECTION);
    assert hs[i] in conn;
    var k :| 0 <= k < |conn| && conn[k] == hs[i];
    HasTokenInHeaders(conn, env.tokenize, CLOSE);
  }

  /** Rule 2: a 204 whose first Content-Length parses to a positive number refuses reuse. */
  lemma NoContentWithPositiveLength(request: Option<Request>, response: Response, contextVersion: ProtocolVersion,
                                    env: MessageLayer, clh: Header, contentLen: int)
    requires response.code == SC_NO_CONTENT
    requires FirstHeader(response.headers, CONTENT_LENGTH) == Some(clh)
    requires env.parseLong(clh.value) == Some(contentLen) && contentLen > 0
    ensures !ReuseAllowed(request, response, contextVersion, env)
  {
  }

  /** Rule 2: a 204 with any Transfer-Encoding header refuses reuse. */
  lemma NoContentWithTransferEncoding(request: Option<Request>, response: Response, contextVersion: ProtocolVersion,
                                      env: MessageLayer)
    requires response.code == SC_NO_CONTENT
    requires exists i :: 0 <= i < |response.headers| && NameIs(response.headers[i], TRANSFER_ENCODING)
    ensures !ReuseAllowed(request, response, contextVersion, env)
  {
  }

  /**
   * Rule 2 falls through: a 204 without Transfer-Encoding whose first
   * Content-Length is absent, unparseable or not positive is decided by the
   * remaining rules, as any other response would be.
   */
  lemma NoContentFallsThrough(request: Option<Request>, response: Response, contextVersion: ProtocolVersion,
                              env: MessageLayer)
    requires response.code == SC_NO_CONTENT
    requires forall i :: 0 <= i < |response.headers| ==> !NameIs(response.headers[i], TRANSFER_ENCODING)
    requires match FirstHeader(response.headers, CONTENT_LENGTH)
             case None => true
             case Some(clh) => env.parseLong(clh.value).None? || env.parseLong(clh.value).value <= 0
    ensures ReuseAllowed(request, response, contextVersion, env) <==>
            !RequestAsksClose(request, env) && BodyDelimited(request, response, env) &&
            ConnectionPersistent(response, contextVersion, env)
  {
  }

  /** Rule 3: a first Transfer-Encoding whose whole value is not `chunked` refuses reuse. */
  lemma NonChunkedTransferEncoding(request: Option<Request>, response: Response, contextVersion: ProtocolVersion,
                                   env: MessageLayer, teh: Header)
    requires FirstHeader(response.headers, TRANSFER_ENCODING) == Some(teh)
    requires !EqualsIgnoreCase(teh.value, CHUNKED)
    ensures !ReuseAllowed(request, response, contextVersion, env)
  {
  }

  /** Rule 3: the Transfer-Encoding value is compared whole, so a list ending in `chunked` still refuses. */
  lemma ChunkedIsNotTokenized(request: Option<Request>, response: Response, contextVersion: ProtocolVersion,
                              env: MessageLayer)
    requires FirstHeader(response.headers, TRANSFER_ENCODING) == Some(Header(TRANSFER_ENCODING, "gzip, chunked"))
    ensures !ReuseAllowed(request, response, contextVersion, env)
  {
  }

  /**
   * Rule 3: without Transfer-Encoding, a response that can have a body and
   * carries no Content-Length, or two or more, refuses reuse.
   */
  lemma AmbiguousContentLength(request: Option<Request>, response: Response, contextVersion: ProtocolVersion,
                               env: MessageLayer)
    requires forall i :: 0 <= i < |response.headers| ==> !NameIs(response.headers[i], TRANSFER_ENCODING)
    requires env.canResponseHaveBody(MethodOf(request), response.code)
    requires CountHeaders(response.headers, CONTENT_LENGTH) != 1
    ensures !ReuseAllowed(request, response, contextVersion, env)
  {
  }

  /** The decision reads the response's headers only through these lookups. */
  lemma DecisionDependsOnLookups(request: Option<Request>, r1: Response, r2: Response,
                                 contextVersion: ProtocolVersion, env: MessageLayer)
    requires r1.code == r2.code && r1.version == r2.version
    requires FirstHeader(r1.headers, CONTENT_LENGTH) == FirstHeader(r2.headers, CONTENT_LENGTH)
    requires CountHeaders(r1.headers, CONTENT_LENGTH) == CountHeaders(r2.headers, CONTENT_LENGTH)
    requires FirstHeader(r1.headers, TRANSFER_ENCODING) == FirstHeader(r2.headers, TRANSFER_ENCODING)
    requires ContainsHeader(r1.headers, TRANSFER_ENCODING) == ContainsHeader(r2.headers, TRANSFER_ENCODING)
    requires ConnectionHeaders(r1) == ConnectionHeaders(r2)
    ensures ReuseAllowed(request, r1, contextVersion, env) == ReuseAllowed(request, r2, contextVersion, env)
  {
    SameLengthLookupsSameBodyRules(request, r1, r2, env);
    SameOptionsSamePersistence(r1, r2, contextVersion, env);
    SameRulesSameDecision(request, r1, r2, contextVersion, env);
  }

  /** Rule 5 reads the headers only through the connection options. */
  lemma SameOptionsSamePersistence(r1: Response, r2: Response, contextVersion: ProtocolVersion, env: MessageLayer)
    requires r1.version == r2.version
    requires ConnectionHeaders(r1) == ConnectionHeaders(r2)
    ensures ConnectionPersistent(r1, contextVersion, env) == ConnectionPersistent(r2, contextVersion, env)
  {
  }

  /** Rules 2 and 3 read the headers only through the Content-Length and Transfer-Encoding lookups. */
  lemma SameLengthLookupsSameBodyRules(request: Option<Request>, r1: Response, r2: Response, env: MessageLayer)
    requires r1.code == r2.code
    requires FirstHeader(r1.headers, CONTENT_LENGTH) == FirstHeader(r2.headers, CONTENT_LENGTH)
    requires CountHeaders(r1.headers, CONTENT_LENGTH) == CountHeaders(r2.headers, CONTENT_LENGTH)
    requires FirstHeader(r1.headers, TRANSFER_ENCODING) == FirstHeader(r2.headers, TRANSFER_ENCODING)
    requires ContainsHeader(r1.headers, TRANSFER_ENCODING) == ContainsHeader(r2.headers, TRANSFER_ENCODING)
    ensures NoContentCarriesBody(r1, env) == NoContentCarriesBody(r2, env)
    ensures BodyDelimited(request, r1, env) == BodyDelimited(request, r2, env)
  {
    assert PositiveContentLength(r1, env) == PositiveContentLength(r2, env);
  }

  /** Two responses on which every rule answers alike get the same decision. */
  lemma SameRulesSameDecision(request: Option<Request>, r1: Response, r2: Response,
                              contextVersion: ProtocolVersion, env: MessageLayer)
    requires NoContentCarriesBody(r1, env) == NoContentCarriesBody(r2, env)
    requires BodyDelimited(request, r1, env) == BodyDelimited(request, r2, env)
    requires ConnectionPersistent(r1, contextVersion, env) == ConnectionPersistent(r2, contextVersion, env)
    ensures ReuseAllowed(request, r1, contextVersion, env) == ReuseAllowed(request, r2, contextVersion, env)
  {
  }

  /** Rule 4: when the response has a Connection header, its Proxy-Connection headers change nothing. */
  lemma ProxyConnectionIgnoredWithConnection(request: Option<Request>, response: Response,
                                             contextVersion: ProtocolVersion, env: MessageLayer)
    requires ContainsHeader(response.headers, CONNECTION)
    ensures ReuseAllowed(request, response, contextVersion, env) ==
            ReuseAllowed(request, response.(headers := Without(response.headers, PROXY_CONNECTION)), contextVersion, env)
  {
    var hs := response.headers;
    var stripped := response.(headers := Without(hs, PROXY_CONNECTION));
    EqualsIgnoreCaseLength(CONNECTION, PROXY_CONNECTION);
    EqualsIgnoreCaseLength(CONTENT_LENGTH, PROXY_CONNECTION);
    EqualsIgnoreCaseLength(TRANSFER_ENCODING, PROXY_CONNECTION);
    HeadersWithoutOther(hs, CONNECTION, PROXY_CONNECTION);
    HeadersWithoutOther(hs, CONTENT_LENGTH, PROXY_CONNECTION);
    HeadersWithoutOther(hs, TRANSFER_ENCODING, PROXY_CONNECTION);
    assert ConnectionHeaders(stripped) == ConnectionHeaders(response);
    DecisionDependsOnLookups(request, response, stripped, contextVersion, env);
  }

  /** Rule 4: without a Connection header, the Proxy-Connection headers are the connection options. */
  lemma ProxyConnectionUsedWithoutConnection(response: Response)
    requires forall i :: 0 <= i < |response.headers| ==> !NameIs(response.headers[i], CONNECTION)
    ensures ConnectionHeaders(response) == Headers(response.headers, PROXY_CONNECTION)
  {
    FirstHeaderIsFirstOfHeaders(response.headers, CONNECTION);
  }

  /** Rule 4: the context's version matters only when the response carries none. */
  lemma ContextVersionOnlyAsFallback(request: Option<Request>, response: Response, env: MessageLayer,
                                     v1: ProtocolVersion, v2: ProtocolVersion)
    requires response.version.Some?
    ensures ReuseAllowed(request, response, v1, env) == ReuseAllowed(request, response, v2, env)
  {
  }

  /** Rule 5, HTTP/1.1 or later with connection options: reuse exactly when no option is `close`. */
  lemma ModernVersionPersistsUnlessClose(request: Option<Request>, response: Response,
                                         contextVersion: ProtocolVersion, env: MessageLayer)
    requires !RequestAsksClose(request, env) && !NoContentCarriesBody(response, env)
    requires BodyDelimited(request, response, env)
    requires |ConnectionHeaders(response)| > 0
    requires GreaterEquals(EffectiveVersion(response, contextVersion), HTTP_1_1)
    ensures ReuseAllowed(request, response, contextVersion, env) <==>
            !exists i, t :: 0 <= i < |ConnectionHeaders(response)| &&
                            t in env.tokenize(ConnectionHeaders(response)[i].value) && EqualsIgnoreCase(t, CLOSE)
  {
    HasTokenInHeaders(ConnectionHeaders(response), env.tokenize, CLOSE);
  }

  /** Rule 5, before HTTP/1.1 with connection options: reuse exactly when some option is `keep-alive`. */
  lemma LegacyVersionPersistsOnlyWithKeepAlive(request: Option<Request>, response: Response,
                                               contextVersion: ProtocolVersion, env: MessageLayer)
    requires !RequestAsksClose(request, env) && !NoContentCarriesBody(response, env)
    requires BodyDelimited(request, response, env)
    requires |ConnectionHeaders(response)| > 0
    requires !GreaterEquals(EffectiveVersion(response, contextVersion), HTTP_1_1)
    ensures ReuseAllowed(request, response, contextVersion, env) <==>
            exists i, t :: 0 <= i < |ConnectionHeaders(response)| &&
                           t in env.tokenize(ConnectionHeaders(response)[i].value) && EqualsIgnoreCase(t, KEEP_ALIVE)
  {
    HasTokenInHeaders(ConnectionHeaders(response), env.tokenize, KEEP_ALIVE);
  }

  /**
   * Rule 5 without connection options: reuse exactly when the effective
   * version is HTTP, major 1 and minor at least 1, or a later major.
   */
  lemma DefaultPersistenceByVersion(request: Option<Request>, response: Response,
                                    contextVersion: ProtocolVersion, env: MessageLayer)
    requires !RequestAsksClose(request, env) && !NoContentCarriesBody(response, env)
    requires BodyDelimited(request, response, env)
    requires forall i :: 0 <= i < |response.headers| ==>
               !NameIs(response.headers[i], CONNECTION) && !NameIs(response.headers[i], PROXY_CONNECTION)
    ensures ReuseAllowed(request, response, contextVersion, env) <==>
            var ver := EffectiveVersion(response, contextVersion);
            ver.protocol == HTTP && (ver.major > 1 || (ver.major == 1 && ver.minor >= 1))
  {
    FirstHeaderIsFirstOfHeaders(response.headers, CONNECTION);
    FirstHeaderIsFirstOfHeaders(response.headers, PROXY_CONNECTION);
  }
}
