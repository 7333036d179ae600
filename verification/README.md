# Connection reuse decision and protocol versions (HttpCore 5)

This project models two pieces of HttpCore 5's HTTP logic in Dafny and proves properties of them.

**The connection-reuse decision.** `DefaultConnectionReuseStrategy.keepAlive` decides whether the
connection that carried a request/response exchange may stay open for another exchange. The
request is optional. The rules are tried in a fixed order, and the first rule that refuses wins:

1. a `close` token in the request's `Connection` header refuses reuse;
2. a 204 (No Content) response refuses reuse if its first `Content-Length` parses to a positive
   number, or if it has any `Transfer-Encoding` header. An unparseable `Content-Length` is not an
   error: the decision moves on to the next rule;
3. the body must be delimited. The first `Transfer-Encoding` value, compared whole, must be
   `chunked`. With no `Transfer-Encoding`, a response that may have a body must carry exactly one
   `Content-Length` header;
4. the connection options are the `Connection` headers, or the `Proxy-Connection` headers when
   there are no `Connection` headers. The version is the response's own, or the context's when the
   response carries none;
5. with connection options, HTTP/1.1 or later persists unless an option is `close`. Earlier
   versions persist only if an option is `keep-alive`. Without options, only HTTP/1.1 or later
   persists.

These are the persistence rules of section 6.3 of RFC 7230, with the connection options of section
6.1. They are guarded by the message-body-length rules of section 3.3.3 of RFC 7230 and the 204
semantics of section 6.3.5 of RFC 7231.

`ReuseStrategy.ReuseAllowed` is the decision as a function. `ReuseStrategy.KeepAlive` follows the
Java method step by step, with its early returns. Its token scans go through `ReuseStrategy.ScanTokens`,
a `while` loop that stops at the first match. `KeepAlive` is proved to return `ReuseAllowed`. Each
rule is a lemma about `ReuseAllowed`.

**Protocol versions.** A `ProtocolVersion` is a value: a protocol name and non-negative major and
minor numbers. `HttpVersion` is the one named `HTTP`. This part covers:

- construction, which rejects negative numbers;
- value equality, including the case-sensitive protocol name;
- `equals(major, minor)`;
- `HttpVersion.get`;
- the order by major number and then by minor number (section 2.6 of RFC 7230).

The class sources are not part of this model. The behaviour follows what
`httpcore5/src/test/java/org/apache/hc/core5/http/TestHttpVersion.java` asserts.

Modules:

- `Wrappers`: `Option` and `Result`.
- `CaseInsensitive`: `equalsIgnoreCase`.
- `Versions`: protocol versions.
- `Messages`: headers, header lookup by name, the tokens of a group of headers, and the helpers the
  decision calls.
- `ReuseStrategy`: the decision itself.

The helpers that the decision calls but that are not part of this model are fields of
`Messages.MessageLayer`, and every lemma holds for all of them:

- `tokenize` splits one header value into tokens (`BasicTokenIterator`);
- `parseLong` is `Long.parseLong`, with `None` for a `NumberFormatException`;
- `canResponseHaveBody` is `MessageSupport.canResponseHaveBody`.

`canResponseHaveBody` is given the request method and the status code. Rule 3 asks it only whether
the response may carry a body, and the request method and the status code decide that. It is not
given the whole response. Because of this, removing
headers cannot change its answer, and `ProxyConnectionIgnoredWithConnection` can be stated.

## Model

| member | source | states |
|---|---|---|
| `CaseInsensitive.EqualsIgnoreCase` | httpcore5/src/main/java/org/apache/hc/core5/http/impl/DefaultConnectionReuseStrategy.java:88 | `equalsIgnoreCase`: two strings match exactly when their lower-cased forms are equal |
| `CaseInsensitive.EqualsIgnoreCaseIsEquivalence` | httpcore5/src/main/java/org/apache/hc/core5/http/impl/DefaultConnectionReuseStrategy.java:148 | case-insensitive comparison is reflexive, symmetric and transitive |
| `CaseInsensitive.EqualsIgnoreCaseLength` | httpcore5/src/main/java/org/apache/hc/core5/http/impl/DefaultConnectionReuseStrategy.java:120 | equal strings match; strings of different lengths never match |
| `Versions.NewProtocolVersion` | httpcore5/src/test/java/org/apache/hc/core5/http/TestHttpVersion.java:96-104 | construction succeeds exactly for non-negative numbers and keeps the name and numbers; a negative major number is reported first, then a negative minor number |
| `Versions.NewHttpVersion` | httpcore5/src/test/java/org/apache/hc/core5/http/TestHttpVersion.java:80-81 | an HTTP version is built exactly from non-negative numbers, with protocol name `HTTP` |
| `Versions.Equals` | httpcore5/src/test/java/org/apache/hc/core5/http/TestHttpVersion.java:79-104 | two versions are equal exactly when they are the same value (name, major, minor) |
| `Versions.EqualsNumbers` | httpcore5/src/test/java/org/apache/hc/core5/http/TestHttpVersion.java:44-52 | `equals(major, minor)` holds exactly when building a version of the same protocol from that pair gives this version |
| `Versions.Lookup` | httpcore5/src/test/java/org/apache/hc/core5/http/TestHttpVersion.java:55-61 | the search among the well-known versions finds one with the requested numbers, or reports that none has them |
| `Versions.Get` | httpcore5/src/test/java/org/apache/hc/core5/http/TestHttpVersion.java:55-61 | `get(major, minor)` equals a freshly built HTTP version of that pair, including the error for negative numbers |
| `Versions.CompareToVersion` | httpcore5/src/test/java/org/apache/hc/core5/http/TestHttpVersion.java:113-115 | the result is negative, zero or positive exactly when the first version comes before, equals or comes after the second, by major number and then minor number |
| `Versions.LessEquals` | httpcore5/src/test/java/org/apache/hc/core5/http/TestHttpVersion.java:109 | holds exactly for same-protocol versions where the second does not come before the first |
| `Versions.GreaterEquals` | httpcore5/src/test/java/org/apache/hc/core5/http/TestHttpVersion.java:110-111 | holds exactly for same-protocol versions where the first does not come before the second |
| `Versions.CompareToVersionAntisymmetric` | httpcore5/src/test/java/org/apache/hc/core5/http/TestHttpVersion.java:108-116 | swapping the arguments negates the comparison; `greaterEquals` is `lessEquals` swapped |
| `Versions.LessEqualsIsTotalOrder` | httpcore5/src/test/java/org/apache/hc/core5/http/TestHttpVersion.java:108-116 | within one protocol, `lessEquals` is reflexive, total, antisymmetric and transitive |
| `Versions.InvalidConstructorInput` | httpcore5/src/test/java/org/apache/hc/core5/http/TestHttpVersion.java:73-76 | (-1, -1) and (0, -1) are rejected |
| `Versions.EqualsMajorMinorExamples` | httpcore5/src/test/java/org/apache/hc/core5/http/TestHttpVersion.java:44-52 | each named constant answers `equals` for its own pair; 0.9 does not answer it for (2, 0) |
| `Versions.GetExamples` | httpcore5/src/test/java/org/apache/hc/core5/http/TestHttpVersion.java:55-61 | `get` returns the named constants for 0.9, 1.0, 1.1 and 2.0; `HTTP_2` is `HTTP_2_0`; `get(2, 1)` is not `HTTP_2_0` |
| `Versions.EqualityExamples` | httpcore5/src/test/java/org/apache/hc/core5/http/TestHttpVersion.java:79-104 | two versions built from (1, 1) are equal in both directions and equal `HTTP_1_1`, not `HTTP_1_0`; a version named `http` is not `HTTP_1_1` |
| `Versions.ComparisonExamples` | httpcore5/src/test/java/org/apache/hc/core5/http/TestHttpVersion.java:108-116 | 0.9 <= 1.1, 0.9 >= 0.9, not 0.9 >= 1.0; 1.0 compares below 1.1, above 0.9 and equal to itself |
| `Messages.Headers` | httpcore5/src/main/java/org/apache/hc/core5/http/impl/DefaultConnectionReuseStrategy.java:136 | `headerIterator(name)`: the headers iterated for a name are exactly the message's headers with that name, compared ignoring case, and no more of them than the message has |
| `Messages.HeadersSingleton` | httpcore5/src/main/java/org/apache/hc/core5/http/impl/DefaultConnectionReuseStrategy.java:136 | a single header is iterated exactly when it has the name |
| `Messages.HeadersAppend` | httpcore5/src/main/java/org/apache/hc/core5/http/impl/DefaultConnectionReuseStrategy.java:136 | iterating a concatenation iterates each part in turn, so the iteration keeps the message's order and repeated headers |
| `Messages.FirstHeader` | httpcore5/src/main/java/org/apache/hc/core5/http/impl/DefaultConnectionReuseStrategy.java:118 | the first header for a name is absent exactly when no header has that name; otherwise it is the earliest header with that name |
| `Messages.CountHeaders` | httpcore5/src/main/java/org/apache/hc/core5/http/impl/DefaultConnectionReuseStrategy.java:126 | `countHeaders(name)` is at most the number of headers, and zero exactly when no header has the name |
| `Messages.CountHeadersAppend` | httpcore5/src/main/java/org/apache/hc/core5/http/impl/DefaultConnectionReuseStrategy.java:126 | the count is additive over concatenation; a single header counts 1 if it has the name and 0 otherwise |
| `Messages.CountHeadersAtLeastTwo` | httpcore5/src/main/java/org/apache/hc/core5/http/impl/DefaultConnectionReuseStrategy.java:126 | two headers with the name at different positions count at least 2 |
| `Messages.ContainsHeader` | httpcore5/src/main/java/org/apache/hc/core5/http/impl/DefaultConnectionReuseStrategy.java:111 | `containsHeader(name)` holds exactly when the iteration for the name is not empty |
| `Messages.FirstHeaderIsFirstOfHeaders` | httpcore5/src/main/java/org/apache/hc/core5/http/impl/DefaultConnectionReuseStrategy.java:99-126 | the first header is the head of the iteration; `containsHeader`, `countHeaders > 0` and a present first header agree |
| `Messages.HeadersWithoutOther` | httpcore5/src/main/java/org/apache/hc/core5/http/impl/DefaultConnectionReuseStrategy.java:136-139 | removing the headers of one name changes no lookup of a different name |
| `Messages.TokensOf` | httpcore5/src/main/java/org/apache/hc/core5/http/impl/DefaultConnectionReuseStrategy.java:145 | the tokens of a group of headers are exactly the tokens of their values |
| `Messages.HasToken` | httpcore5/src/main/java/org/apache/hc/core5/http/impl/DefaultConnectionReuseStrategy.java:156-163 | a token matches the target, ignoring case, exactly when some position holds one |
| `Messages.HasTokenInHeaders` | httpcore5/src/main/java/org/apache/hc/core5/http/impl/DefaultConnectionReuseStrategy.java:85-91 | a group of headers yields a matching token exactly when one of their values tokenizes to one |
| `Messages.HeadersNonEmptyIffMatch` | httpcore5/src/main/java/org/apache/hc/core5/http/impl/DefaultConnectionReuseStrategy.java:111 | the headers of a name are non-empty exactly when some position holds a header with that name |
| `Messages.FirstHeaderAtEarliest` | httpcore5/src/main/java/org/apache/hc/core5/http/impl/DefaultConnectionReuseStrategy.java:118 | a header with the name and no earlier header with it is the first header |
| `Messages.FirstHeaderIsEarliest` | httpcore5/src/main/java/org/apache/hc/core5/http/impl/DefaultConnectionReuseStrategy.java:99-118 | a first header is present exactly when some position is the earliest one with the name, and it is the header at that position |
| `Messages.HasTokenInNamedHeaders` | httpcore5/src/main/java/org/apache/hc/core5/http/impl/DefaultConnectionReuseStrategy.java:85-91 | the headers of a name yield a matching token exactly when some header with that name has a value that tokenizes to one |
| `ReuseStrategy.RequestAsksClose` | httpcore5/src/main/java/org/apache/hc/core5/http/impl/DefaultConnectionReuseStrategy.java:83-92 | rule 1 holds exactly when there is a request and some `Connection` header of it tokenizes to `close`, ignoring case |
| `ReuseStrategy.PositiveContentLength` | httpcore5/src/main/java/org/apache/hc/core5/http/impl/DefaultConnectionReuseStrategy.java:99-110 | holds exactly when the earliest `Content-Length` header parses to a number greater than zero; a missing or unparseable one does not |
| `ReuseStrategy.NoContentCarriesBody` | httpcore5/src/main/java/org/apache/hc/core5/http/impl/DefaultConnectionReuseStrategy.java:98-114 | rule 2 holds exactly when the status is 204 and either the first `Content-Length` is positive or some `Transfer-Encoding` header is present |
| `ReuseStrategy.MethodOf` | httpcore5/src/main/java/org/apache/hc/core5/http/impl/DefaultConnectionReuseStrategy.java:124 | the method passed on is present exactly when there is a request, and is that request's method |
| `ReuseStrategy.BodyDelimited` | httpcore5/src/main/java/org/apache/hc/core5/http/impl/DefaultConnectionReuseStrategy.java:118-129 | the body is delimited exactly when the earliest `Transfer-Encoding` value is `chunked` ignoring case, or there is no `Transfer-Encoding` and either the response may not carry a body or exactly one `Content-Length` is present |
| `ReuseStrategy.ConnectionPersistent` | httpcore5/src/main/java/org/apache/hc/core5/http/impl/DefaultConnectionReuseStrategy.java:142-167 | with `Connection` (or, failing it, `Proxy-Connection`) options: at 1.1 or later persistent exactly when no option is `close`, before 1.1 exactly when some option is `keep-alive`; without options: persistent exactly at 1.1 or later |
| `ReuseStrategy.ReuseAllowed` | httpcore5/src/main/java/org/apache/hc/core5/http/impl/DefaultConnectionReuseStrategy.java:79-168 | reuse is never allowed when the request asks to close, when a 204 carries content, or when the body is not delimited |
| `ReuseStrategy.ScanTokens` | httpcore5/src/main/java/org/apache/hc/core5/http/impl/DefaultConnectionReuseStrategy.java:86-91 | the scan answers true exactly when some token matches the target ignoring case (the loops at lines 86-91, 146-151 and 157-162) |
| `ReuseStrategy.KeepAlive` | httpcore5/src/main/java/org/apache/hc/core5/http/impl/DefaultConnectionReuseStrategy.java:79-168 | the step-by-step method with early returns returns exactly the decision `ReuseAllowed` |
| `ReuseStrategy.ReuseAllowedIsConjunction` | httpcore5/src/main/java/org/apache/hc/core5/http/impl/DefaultConnectionReuseStrategy.java:83-167 | since each earlier rule can only refuse, reuse is allowed exactly when no refusing rule applies and the connection options allow persistence |
| `ReuseStrategy.RequestCloseForbidsReuse` | httpcore5/src/main/java/org/apache/hc/core5/http/impl/DefaultConnectionReuseStrategy.java:83-92 | a `close` token, in any case, in any of the request's `Connection` headers refuses reuse, whatever the response |
| `ReuseStrategy.NoContentWithPositiveLength` | httpcore5/src/main/java/org/apache/hc/core5/http/impl/DefaultConnectionReuseStrategy.java:98-106 | a 204 response whose first `Content-Length` parses to a positive number refuses reuse |
| `ReuseStrategy.NoContentWithTransferEncoding` | httpcore5/src/main/java/org/apache/hc/core5/http/impl/DefaultConnectionReuseStrategy.java:111-113 | a 204 response with any `Transfer-Encoding` header refuses reuse |
| `ReuseStrategy.NoContentFallsThrough` | httpcore5/src/main/java/org/apache/hc/core5/http/impl/DefaultConnectionReuseStrategy.java:98-114 | a 204 response with no `Transfer-Encoding` and a `Content-Length` that is absent, unparseable or not positive is decided by the other rules alone |
| `ReuseStrategy.NonChunkedTransferEncoding` | httpcore5/src/main/java/org/apache/hc/core5/http/impl/DefaultConnectionReuseStrategy.java:118-122 | a first `Transfer-Encoding` whose whole value is not `chunked`, ignoring case, refuses reuse |
| `ReuseStrategy.ChunkedIsNotTokenized` | httpcore5/src/main/java/org/apache/hc/core5/http/impl/DefaultConnectionReuseStrategy.java:120 | `Transfer-Encoding: gzip, chunked` refuses reuse, because the value is compared whole |
| `ReuseStrategy.AmbiguousContentLength` | httpcore5/src/main/java/org/apache/hc/core5/http/impl/DefaultConnectionReuseStrategy.java:123-128 | with no `Transfer-Encoding`, a response that can have a body and has zero, or two or more, `Content-Length` headers refuses reuse |
| `ReuseStrategy.ConnectionHeaders` | httpcore5/src/main/java/org/apache/hc/core5/http/impl/DefaultConnectionReuseStrategy.java:136-139 | the connection options are the `Connection` headers when the response has one, and the `Proxy-Connection` headers otherwise |
| `ReuseStrategy.ConnectionHeadersAreTheOptions` | httpcore5/src/main/java/org/apache/hc/core5/http/impl/DefaultConnectionReuseStrategy.java:136-139 | a header is a connection option exactly when it is in the response and has the name `Connection`, or `Proxy-Connection` when no `Connection` header exists |
| `ReuseStrategy.EffectiveVersion` | httpcore5/src/main/java/org/apache/hc/core5/http/impl/DefaultConnectionReuseStrategy.java:141 | the version is the response's own when it carries one, and the context's otherwise |
| `ReuseStrategy.DecisionDependsOnLookups` | httpcore5/src/main/java/org/apache/hc/core5/http/impl/DefaultConnectionReuseStrategy.java:98-167 | two responses with the same status, version, `Content-Length` and `Transfer-Encoding` lookups and connection options get the same decision |
| `ReuseStrategy.ProxyConnectionIgnoredWithConnection` | httpcore5/src/main/java/org/apache/hc/core5/http/impl/DefaultConnectionReuseStrategy.java:136-139 | when the response has a `Connection` header, removing its `Proxy-Connection` headers does not change the decision |
| `ReuseStrategy.ProxyConnectionUsedWithoutConnection` | httpcore5/src/main/java/org/apache/hc/core5/http/impl/DefaultConnectionReuseStrategy.java:137-138 | without a `Connection` header, the connection options are the `Proxy-Connection` headers |
| `ReuseStrategy.ContextVersionOnlyAsFallback` | httpcore5/src/main/java/org/apache/hc/core5/http/impl/DefaultConnectionReuseStrategy.java:141 | when the response carries a version, the context's version does not change the decision |
| `ReuseStrategy.ModernVersionPersistsUnlessClose` | httpcore5/src/main/java/org/apache/hc/core5/http/impl/DefaultConnectionReuseStrategy.java:142-153 | once the body checks pass, with connection options and version 1.1 or later: reuse exactly when no option is `close` |
| `ReuseStrategy.LegacyVersionPersistsOnlyWithKeepAlive` | httpcore5/src/main/java/org/apache/hc/core5/http/impl/DefaultConnectionReuseStrategy.java:155-163 | once the body checks pass, with connection options and a version before 1.1: reuse exactly when some option is `keep-alive` |
| `ReuseStrategy.DefaultPersistenceByVersion` | httpcore5/src/main/java/org/apache/hc/core5/http/impl/DefaultConnectionReuseStrategy.java:166-167 | once the body checks pass, with neither `Connection` nor `Proxy-Connection`: reuse exactly when the version is HTTP 1.1 or later |

## Left out

- The connection pool and its administrative interface (`httpcore5/src/main/java/org/apache/hc/core5/pool/ConnPoolControl.java`). That file declares bare signatures. The pool engine behind it is not part of this model. It is driven by concurrency.
- The helpers `BasicTokenIterator`, `Long.parseLong` and `MessageSupport.canResponseHaveBody` are not part of this model. They are arbitrary functions in `Messages.MessageLayer`. Every property holds for any tokenizer, any parser, and any function of the request method and status code for `canResponseHaveBody`.
- `ReuseStrategy.ProxyConnectionIgnoredWithConnection`: `canResponseHaveBody` receives the whole response in the Java code, but here it receives only the request method and the status code. The lemma depends on this narrowing: a predicate that also read the `Proxy-Connection` headers could change its answer when they are removed. Rule 3 asks only whether the response may carry a body, which the request method and the status code decide.
- The `HttpContext` is reduced to the protocol version it supplies.
- The `Args.notNull` checks on the response and on the protocol name are not modelled. Dafny values are never null.
- `CaseInsensitive.EqualsIgnoreCase`: folds ASCII letters only. Java's `equalsIgnoreCase` also folds other Unicode letters, which is not modelled.
- `Versions.CompareToVersion`: requires both versions to have the same protocol. For other pairs the library throws an exception, which is not modelled, and no shown test compares versions of different protocols.
- `Versions.LessEquals` and `Versions.GreaterEquals` are false for versions of different protocols, following the library's `isComparable` guard. `ProtocolVersion.java` is not part of this model.
- `Versions.NewProtocolVersion`: major and minor are unbounded integers. Java's 32-bit `int` range is not modelled. No property here depends on it.
- `Versions.Get`: returns an equal value, not the identical shared instance. Reference identity (`assertSame`) is a JVM interning detail.
- `hashCode` is not modelled. Any function of a Dafny value already agrees on equal values.
- Java serialization of versions, and `equals` against an object of another class (a `Float`), are JVM artifacts and are not modelled.
- The order is not a lexicographic order over (name, major, minor). It compares (major, minor), and only between versions of the same protocol, as the tests do.
