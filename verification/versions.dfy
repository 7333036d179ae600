/**
 * Protocol versions (ProtocolVersion / HttpVersion): an immutable value made
 * of a protocol name and a non-negative major and minor number, ordered by
 * major number and then by minor number (section 2.6 of RFC 7230).
 */
module Versions {
  import opened Wrappers

  datatype ProtocolVersion = ProtocolVersion(protocol: string, major: nat, minor: nat)

  /** Why construction was refused (Java: IllegalArgumentException from Args.notNegative). */
  datatype VersionError = NegativeMajor | NegativeMinor

  const HTTP: string := "HTTP"

  const HTTP_0_9: ProtocolVersion := ProtocolVersion(HTTP, 0, 9)
  const HTTP_1_0: ProtocolVersion := ProtocolVersion(HTTP, 1, 0)
  const HTTP_1_1: ProtocolVersion := ProtocolVersion(HTTP, 1, 1)
  const HTTP_2_0: ProtocolVersion := ProtocolVersion(HTTP, 2, 0)
  const HTTP_2: ProtocolVersion := HTTP_2_0

  /** The well-known versions that `Get` hands out as shared constants. */
  const ALL: seq<ProtocolVersion> := [HTTP_0_9, HTTP_1_0, HTTP_1_1, HTTP_2_0]

  /** `new ProtocolVersion(protocol, major, minor)`: the major number is checked first, then the minor. */
  function NewProtocolVersion(protocol: string, major: int, minor: int): (r: Result<ProtocolVersion, VersionError>)
    ensures r.Ok? <==> major >= 0 && minor >= 0
    ensures r.Ok? ==> r.value.protocol == protocol && r.value.major == major && r.value.minor == minor
    ensures major < 0 ==> r == Err(NegativeMajor)
    ensures major >= 0 && minor < 0 ==> r == Err(NegativeMinor)
  {
    if major < 0 then Err(NegativeMajor)
    else if minor < 0 then Err(NegativeMinor)
    else Ok(ProtocolVersion(protocol, major, minor))
  }

  /** `new HttpVersion(major, minor)`: a protocol version named "HTTP". */
  function NewHttpVersion(major: int, minor: int): (r: Result<ProtocolVersion, VersionError>)
    ensures r.Ok? <==> major >= 0 && minor >= 0
    ensures r.Ok? ==> r.value.protocol == HTTP && r.value.major == major && r.value.minor == minor
  {
    NewProtocolVersion(HTTP, major, minor)
  }

  /** `equals(Object)`: the protocol name (case-sensitively) and both numbers agree. */
  predicate Equals(a: ProtocolVersion, b: ProtocolVersion)
    ensures Equals(a, b) <==> a == b
  {
    a.protocol == b.protocol && a.major == b.major && a.minor == b.minor
  }

  /**
   * `equals(major, minor)`: the numbers agree; the protocol name is not looked
   * at. It holds exactly for the pair the version was built from.
   */
  predicate EqualsNumbers(v: ProtocolVersion, major: int, minor: int)
    ensures EqualsNumbers(v, major, minor) <==> NewProtocolVersion(v.protocol, major, minor) == Ok(v)
  {
    v.major == major && v.minor == minor
  }

  /** A version in `known` whose numbers are (major, minor), if there is one. */
  function Lookup(known: seq<ProtocolVersion>, major: int, minor: int): (r: Option<ProtocolVersion>)
    ensures r.Some? ==> r.value in known && EqualsNumbers(r.value, major, minor)
    ensures r.None? <==> forall i :: 0 <= i < |known| ==> !EqualsNumbers(known[i], major, minor)
  {
    if |known| == 0 then None
    else if EqualsNumbers(known[0], major, minor) then Some(known[0])
    else Lookup(known[1..], major, minor)
  }

  /** `HttpVersion.get(major, minor)`: a well-known constant when one matches, a new version otherwise. */
  function Get(major: int, minor: int): (r: Result<ProtocolVersion, VersionError>)
    ensures r == NewHttpVersion(major, minor)
  {
    match Lookup(ALL, major, minor)
    case Some(v) => Ok(v)
    case None => NewHttpVersion(major, minor)
  }

  /** Reference order: `a` comes strictly before `b` by major number, then by minor number. */
  predicate Precedes(a: ProtocolVersion, b: ProtocolVersion) {
    a.major < b.major || (a.major == b.major && a.minor < b.minor)
  }

  /** `isComparable`: only versions of the same protocol are ordered. */
  predicate IsComparable(a: ProtocolVersion, b: ProtocolVersion) {
    a.protocol == b.protocol
  }

  /** `compareToVersion`: the difference of the major numbers, or of the minor numbers when the majors agree. */
  function CompareToVersion(a: ProtocolVersion, b: ProtocolVersion): (r: int)
    requires IsComparable(a, b)
    ensures r < 0 <==> Precedes(a, b)
    ensures r == 0 <==> a == b
    ensures r > 0 <==> Precedes(b, a)
  {
    if a.major != b.major then a.major - b.major else a.minor - b.minor
  }

  /** `lessEquals`: comparable and not after. */
  predicate LessEquals(a: ProtocolVersion, b: ProtocolVersion)
    ensures LessEquals(a, b) <==> a.protocol == b.protocol && !Precedes(b, a)
  {
    IsComparable(a, b) && CompareToVersion(a, b) <= 0
  }

  /** `greaterEquals`: comparable and not before. */
  predicate GreaterEquals(a: ProtocolVersion, b: ProtocolVersion)
    ensures GreaterEquals(a, b) <==> a.protocol == b.protocol && !Precedes(a, b)
  {
    IsComparable(a, b) && CompareToVersion(a, b) >= 0
  }

  /** Swapping the arguments negates the comparison, and the two predicates mirror each other. */
  lemma CompareToVersionAntisymmetric(a: ProtocolVersion, b: ProtocolVersion)
    requires IsComparable(a, b)
    ensures CompareToVersion(a, b) == -CompareToVersion(b, a)
    ensures GreaterEquals(a, b) <==> LessEquals(b, a)
  {
  }

  /** Within one protocol, `lessEquals` is a total order. */
  lemma LessEqualsIsTotalOrder(a: ProtocolVersion, b: ProtocolVersion, c: ProtocolVersion)
    requires a.protocol == b.protocol == c.protocol
    ensures LessEquals(a, a)
    ensures LessEquals(a, b) || LessEquals(b, a)
    ensures LessEquals(a, b) && LessEquals(b, a) ==> a == b
    ensures LessEquals(a, b) && LessEquals(b, c) ==> LessEquals(a, c)
  {
  }

  /** The constructor rejects a negative major number, and a negative minor number after a valid major. */
  lemma InvalidConstructorInput()
    ensures NewHttpVersion(-1, -1) == Err(NegativeMajor)
    ensures NewHttpVersion(0, -1) == Err(NegativeMinor)
  {
  }

  /** Each constant answers `equals(major, minor)` for its own pair only. */
  lemma EqualsMajorMinorExamples()
    ensures EqualsNumbers(HTTP_0_9, 0, 9) && EqualsNumbers(HTTP_1_0, 1, 0) && EqualsNumbers(HTTP_1_1, 1, 1)
    ensures EqualsNumbers(HTTP_2, 2, 0) && EqualsNumbers(HTTP_2_0, 2, 0)
    ensures !EqualsNumbers(HTTP_0_9, 2, 0)
  {
  }

  /** `get` returns the named constants for the well-known pairs, and something else for (2, 1). */
  lemma GetExamples()
    ensures Get(0, 9) == Ok(HTTP_0_9) && Get(1, 0) == Ok(HTTP_1_0) && Get(1, 1) == Ok(HTTP_1_1)
    ensures Get(2, 0) == Ok(HTTP_2_0) && Get(2, 0) == Ok(HTTP_2)
    ensures Get(2, 1) != Ok(HTTP_2_0)
  {
  }

  /** Equality is by value and includes the protocol name, compared case-sensitively. */
  lemma EqualityExamples(v1: ProtocolVersion, v2: ProtocolVersion)
    requires NewHttpVersion(1, 1) == Ok(v1) && NewHttpVersion(1, 1) == Ok(v2)
    ensures Equals(v1, v1) && Equals(v1, v2) && Equals(v2, v1)
    ensures Equals(v1, HTTP_1_1) && !Equals(v1, HTTP_1_0)
    ensures NewProtocolVersion("HTTP", 0, 9) == Ok(HTTP_0_9)
    ensures NewProtocolVersion("HTTP", 1, 0) == Ok(HTTP_1_0)
    ensures forall v :: NewProtocolVersion("http", 1, 1) == Ok(v) ==> !Equals(v, HTTP_1_1) && !Equals(HTTP_1_1, v)
  {
  }

  /** The ordering facts about the constants. */
  lemma ComparisonExamples()
    ensures LessEquals(HTTP_0_9, HTTP_1_1)
    ensures GreaterEquals(HTTP_0_9, HTTP_0_9)
    ensures !GreaterEquals(HTTP_0_9, HTTP_1_0)
    ensures CompareToVersion(HTTP_1_0, HTTP_1_1) < 0
    ensures CompareToVersion(HTTP_1_0, HTTP_0_9) > 0
    ensures CompareToVersion(HTTP_1_0, HTTP_1_0) == 0
  {
  }
}
