/**
 * The read-only view of HTTP messages that the reuse decision consumes:
 * headers looked up by case-insensitive name in their original order, the
 * comma-separated tokens of a group of headers, and the message-layer
 * helpers that are not part of this model, passed in as functions.
 */
module Messages {
  import opened Wrappers
  import opened CaseInsensitive
  import opened Versions

  datatype Header = Header(name: string, value: string)

  datatype Request = Request(requestMethod: string, headers: seq<Header>)

  /** A response; `version` is None when the message carries no protocol version. */
  datatype Response = Response(code: int, version: Option<ProtocolVersion>, headers: seq<Header>)

  /**
   * The message-layer collaborators:
   * `tokenize` splits one header value into its tokens (BasicTokenIterator),
   * `parseLong` is Long.parseLong with None for NumberFormatException,
   * `canResponseHaveBody` is MessageSupport.canResponseHaveBody, given the
   * request method (None without a request) and the response status code.
   */
  datatype MessageLayer = MessageLayer(
    tokenize: string -> seq<string>,
    parseLong: string -> Option<int>,
    canResponseHaveBody: (Option<string>, int) -> bool)

  predicate NameIs(h: Header, name: string) {
    EqualsIgnoreCase(h.name, name)
  }

  /**
   * `headerIterator(name)`: the headers with that name, in message order.
   * HeadersAppend and HeadersSingleton determine it completely.
   */
  function Headers(hs: seq<Header>, name: string): (r: seq<Header>)
    ensures |r| <= |hs|
    ensures forall h :: h in r <==> h in hs && NameIs(h, name)
  {
    if |hs| == 0 then []
    else if NameIs(hs[0], name) then [hs[0]] + Headers(hs[1..], name)
    else Headers(hs[1..], name)
  }

  /** A single header is iterated exactly when it has the name. */
  lemma HeadersSingleton(h: Header, name: string)
    ensures Headers([h], name) == if NameIs(h, name) then [h] else []
  {
    assert [h][1..] == [];
  }

  /** Iterating a concatenation iterates each part in turn: order and repetitions are kept. */
  lemma {:induction false} HeadersAppend(a: seq<Header>, b: seq<Header>, name: string)
    ensures Headers(a + b, name) == Headers(a, name) + Headers(b, name)
  {
    if |a| == 0 {
      assert a + b == b;
    } else {
      var ab := a + b;
      assert ab[0] == a[0] && ab[1..] == a[1..] + b;
      HeadersAppend(a[1..], b, name);
      var rest := Headers(a[1..], name) + Headers(b, name);
      if NameIs(a[0], name) {
        assert Headers(ab, name) == [a[0]] + rest;
        assert Headers(a, name) == [a[0]] + Headers(a[1..], name);
      } else {
        assert Headers(ab, name) == rest;
        assert Headers(a, name) == Headers(a[1..], name);
      }
    }
  }

  /** Some header at position `i` has the name, and none before it does. */
  predicate EarliestMatch(hs: seq<Header>, name: string, h: Header) {
    exists i :: 0 <= i < |hs| && hs[i] == h && NameIs(hs[i], name) &&
                forall j :: 0 <= j < i ==> !NameIs(hs[j], name)
  }

  /** The earliest match after a non-matching head is the earliest match of the whole sequence. */
  lemma EarliestMatchSkipsHead(hs: seq<Header>, name: string, h: Header)
    requires |hs| > 0 && !NameIs(hs[0], name)
    requires EarliestMatch(hs[1..], name, h)
    ensures EarliestMatch(hs, name, h)
  {
    var i :| 0 <= i < |hs[1..]| && hs[1..][i] == h && NameIs(hs[1..][i], name) &&
             forall j :: 0 <= j < i ==> !NameIs(hs[1..][j], name);
    assert hs[i + 1] == h;
  }

  /** Position `i` holds a header with the name, and no earlier position does. */
  predicate IsEarliest(hs: seq<Header>, name: string, i: int) {
    0 <= i < |hs| && NameIs(hs[i], name) && forall j :: 0 <= j < i ==> !NameIs(hs[j], name)
  }

  /** `getFirstHeader(name)`: the earliest header with that name. */
  function FirstHeader(hs: seq<Header>, name: string): (r: Option<Header>)
    ensures r.None? <==> forall i :: 0 <= i < |hs| ==> !NameIs(hs[i], name)
    ensures r.Some? ==> EarliestMatch(hs, name, r.value)
  {
    if |hs| == 0 then None
    else if NameIs(hs[0], name) then Some(hs[0])
    else
      var r := FirstHeader(hs[1..], name);
      if r.Some? then EarliestMatchSkipsHead(hs, name, r.value); r else r
  }

  /** The header at the earliest position with the name is the first header. */
  lemma FirstHeaderAtEarliest(hs: seq<Header>, name: string, i: int)
    requires IsEarliest(hs, name, i)
    ensures FirstHeader(hs, name) == Some(hs[i])
  {
    var r := FirstHeader(hs, name);
    var k :| 0 <= k < |hs| && hs[k] == r.value && NameIs(hs[k], name) &&
             forall j :: 0 <= j < k ==> !NameIs(hs[j], name);
    assert k == i;
  }

  /** The first header is present exactly when some position is the earliest, and is the header there. */
  lemma FirstHeaderIsEarliest(hs: seq<Header>, name: string)
    ensures forall i :: IsEarliest(hs, name, i) ==> FirstHeader(hs, name) == Some(hs[i])
    ensures FirstHeader(hs, name).Some? ==> exists i :: IsEarliest(hs, name, i) && FirstHeader(hs, name) == Some(hs[i])
  {
    forall i | IsEarliest(hs, name, i) ensures FirstHeader(hs, name) == Some(hs[i]) {
      FirstHeaderAtEarliest(hs, name, i);
    }
    if FirstHeader(hs, name).Some? {
      var k :| 0 <= k < |hs| && hs[k] == FirstHeader(hs, name).value && NameIs(hs[k], name) &&
               forall j :: 0 <= j < k ==> !NameIs(hs[j], name);
      assert IsEarliest(hs, name, k);
    }
  }

  /** A token occurs in the headers of one name exactly when some header with that name yields it. */
  lemma HasTokenInNamedHeaders(hs: seq<Header>, name: string, tokenize: string -> seq<string>, target: string)
    ensures HasToken(TokensOf(Headers(hs, name), tokenize), target) <==>
            exists i, t :: 0 <= i < |hs| && NameIs(hs[i], name) && t in tokenize(hs[i].value) && EqualsIgnoreCase(t, target)
  {
    var conn := Headers(hs, name);
    HasTokenInHeaders(conn, tokenize, target);
    if exists i, t :: 0 <= i < |hs| && NameIs(hs[i], name) && t in tokenize(hs[i].value) && EqualsIgnoreCase(t, target) {
      var i, t :| 0 <= i < |hs| && NameIs(hs[i], name) && t in tokenize(hs[i].value) && EqualsIgnoreCase(t, target);
      assert hs[i] in conn;
      var k :| 0 <= k < |conn| && conn[k] == hs[i];
    }
    if HasToken(TokensOf(conn, tokenize), target) {
      var k, t :| 0 <= k < |conn| && t in tokenize(conn[k].value) && EqualsIgnoreCase(t, target);
      assert conn[k] in hs;
      var i :| 0 <= i < |hs| && hs[i] == conn[k];
    }
  }

  /** The iteration for a name is empty exactly when no header has that name. */
  lemma HeadersNonEmptyIffMatch(hs: seq<Header>, name: string)
    ensures Headers(hs, name) != [] <==> exists i :: 0 <= i < |hs| && NameIs(hs[i], name)
  {
    var matching := Headers(hs, name);
    assert |matching| > 0 ==> matching[0] in matching;
    assert forall i :: 0 <= i < |hs| && NameIs(hs[i], name) ==> hs[i] in matching;
  }

  /** `countHeaders(name)`: zero exactly when no header has the name. */
  function CountHeaders(hs: seq<Header>, name: string): (r: nat)
    ensures r <= |hs|
    ensures r == 0 <==> forall i :: 0 <= i < |hs| ==> !NameIs(hs[i], name)
  {
    HeadersNonEmptyIffMatch(hs, name);
    |Headers(hs, name)|
  }

  /** Counting is additive over concatenation, and a header counts once when it has the name. */
  lemma CountHeadersAppend(a: seq<Header>, b: seq<Header>, h: Header, name: string)
    ensures CountHeaders(a + b, name) == CountHeaders(a, name) + CountHeaders(b, name)
    ensures CountHeaders([h], name) == if NameIs(h, name) then 1 else 0
  {
    HeadersAppend(a, b, name);
    HeadersSingleton(h, name);
  }

  /** Two headers with the name at different positions count at least twice. */
  lemma CountHeadersAtLeastTwo(hs: seq<Header>, name: string, i: nat, j: nat)
    requires i < j < |hs|
    requires NameIs(hs[i], name) && NameIs(hs[j], name)
    ensures CountHeaders(hs, name) >= 2
  {
    assert hs == hs[..j] + hs[j..];
    CountHeadersAppend(hs[..j], hs[j..], hs[j], name);
    assert hs[..j][i] == hs[i];
    assert hs[j..][0] == hs[j];
  }

  /** `containsHeader(name)`: some header has the name, that is, the iteration is not empty. */
  predicate ContainsHeader(hs: seq<Header>, name: string)
    ensures ContainsHeader(hs, name) <==> Headers(hs, name) != []
  {
    HeadersNonEmptyIffMatch(hs, name);
    exists i :: 0 <= i < |hs| && NameIs(hs[i], name)
  }

  /** The first header is the head of the iteration, and the three lookups agree on presence. */
  lemma {:induction false} FirstHeaderIsFirstOfHeaders(hs: seq<Header>, name: string)
    ensures FirstHeader(hs, name) == if Headers(hs, name) == [] then None else Some(Headers(hs, name)[0])
    ensures ContainsHeader(hs, name) <==> CountHeaders(hs, name) > 0
    ensures ContainsHeader(hs, name) <==> FirstHeader(hs, name).Some?
  {
    if |hs| > 0 {
      FirstHeaderIsFirstOfHeaders(hs[1..], name);
      if !NameIs(hs[0], name) {
        if ContainsHeader(hs, name) {
          var i :| 0 <= i < |hs| && NameIs(hs[i], name);
          assert NameIs(hs[1..][i - 1], name);
        }
      }
    }
  }

  /** The headers of `hs` without those named `name`. */
  function Without(hs: seq<Header>, name: string): (r: seq<Header>)
    ensures forall h :: h in r <==> h in hs && !NameIs(h, name)
  {
    if |hs| == 0 then []
    else if NameIs(hs[0], name) then Without(hs[1..], name)
    else [hs[0]] + Without(hs[1..], name)
  }

  /** Removing the headers of one name leaves the lookups of a different name as they were. */
  lemma {:induction false} HeadersWithoutOther(hs: seq<Header>, name: string, other: string)
    requires !EqualsIgnoreCase(name, other)
    ensures Headers(Without(hs, other), name) == Headers(hs, name)
    ensures FirstHeader(Without(hs, other), name) == FirstHeader(hs, name)
    ensures CountHeaders(Without(hs, other), name) == CountHeaders(hs, name)
    ensures ContainsHeader(Without(hs, other), name) <==> ContainsHeader(hs, name)
  {
    if |hs| > 0 {
      HeadersWithoutOther(hs[1..], name, other);
      if NameIs(hs[0], other) {
        if NameIs(hs[0], name) {
          EqualsIgnoreCaseIsEquivalence(hs[0].name, name, other);
          EqualsIgnoreCaseIsEquivalence(name, hs[0].name, other);
        }
        assert Without(hs, other) == Without(hs[1..], other);
      } else {
        var w := Without(hs[1..], other);
        assert Without(hs, other) == [hs[0]] + w;
        assert ([hs[0]] + w)[1..] == w;
      }
    }
    FirstHeaderIsFirstOfHeaders(hs, name);
    FirstHeaderIsFirstOfHeaders(Without(hs, other), name);
  }

  /** BasicTokenIterator over a group of headers: the tokens of each value, in order. */
  function TokensOf(hs: seq<Header>, tokenize: string -> seq<string>): (r: seq<string>)
    ensures forall t :: t in r <==> exists i :: 0 <= i < |hs| && t in tokenize(hs[i].value)
  {
    if |hs| == 0 then []
    else
      var rest := TokensOf(hs[1..], tokenize);
      tokenize(hs[0].value) + rest
  }

  /** Some token equals `target`, ignoring case (the scans of keepAlive). */
  predicate HasToken(tokens: seq<string>, target: string)
    ensures HasToken(tokens, target) <==> exists i :: 0 <= i < |tokens| && EqualsIgnoreCase(tokens[i], target)
  {
    if |tokens| == 0 then false
    else EqualsIgnoreCase(tokens[0], target) || HasToken(tokens[1..], target)
  }

  /** A token occurs in a group of headers exactly when one of their values yields it. */
  lemma HasTokenInHeaders(hs: seq<Header>, tokenize: string -> seq<string>, target: string)
    ensures HasToken(TokensOf(hs, tokenize), target) <==>
            exists i, t :: 0 <= i < |hs| && t in tokenize(hs[i].value) && EqualsIgnoreCase(t, target)
  {
    var toks := TokensOf(hs, tokenize);
    if HasToken(toks, target) {
      var k :| 0 <= k < |toks| && EqualsIgnoreCase(toks[k], target);
      assert toks[k] in toks;
    }
    if exists i, t :: 0 <= i < |hs| && t in tokenize(hs[i].value) && EqualsIgnoreCase(t, target) {
      var i, t :| 0 <= i < |hs| && t in tokenize(hs[i].value) && EqualsIgnoreCase(t, target);
      assert t in toks;
      var k :| 0 <= k < |toks| && toks[k] == t;
    }
  }
}
