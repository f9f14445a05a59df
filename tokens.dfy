/**
 * extractToken: an ECR authorization token is the base64 encoding of "username:password".
 * It is decoded, split on the first ':' (strings.SplitN with n = 2), and paired with the
 * proxy endpoint, which is passed through unchanged.
 */
module Tokens {
  import opened Wrappers
  import opened Errors
  import Base64

  /** The Docker login a token yields: the endpoint to log in to, and the user name and password. */
  datatype Auth = Auth(proxyEndpoint: string, username: string, password: string)

  const Colon: Base64.Byte := ':' as int

  /** string(bytes) in Go: each byte becomes the character with that code. */
  function BytesToString(b: seq<Base64.Byte>): (s: string)
    ensures |s| == |b| && forall i :: 0 <= i < |b| ==> s[i] as int == b[i]
  {
    if b == [] then "" else [b[0] as char] + BytesToString(b[1..])
  }

  /** The position of the first occurrence of c in s. */
  function IndexOf(s: string, c: char): (r: Option<nat>)
    ensures r.Some? ==> r.value < |s| && s[r.value] == c && c !in s[..r.value]
    ensures r.None? ==> c !in s
  {
    if s == [] then None
    else if s[0] == c then Some(0)
    else match IndexOf(s[1..], c)
      case None => None
      case Some(i) =>
        assert s[..i + 1] == [s[0]] + s[1..][..i];
        Some(i + 1)
  }

  /**
   * strings.SplitN(s, sep, 2): the text before the first sep and everything after it, or
   * the whole of s, as one part, when sep does not occur in it (so "" gives [""]).
   */
  function SplitN2(s: string, sep: char): (parts: seq<string>)
    ensures |parts| == 1 || |parts| == 2
    ensures |parts| == 1 <==> sep !in s
    ensures |parts| == 1 ==> parts[0] == s
    ensures |parts| == 2 ==> sep !in parts[0] && parts[0] + [sep] + parts[1] == s
  {
    match IndexOf(s, sep)
    case None => [s]
    case Some(i) =>
      assert s == s[..i] + [sep] + s[i + 1..];
      [s[..i], s[i + 1..]]
  }

  /** What a token carries once decoded, if it decodes. */
  function Payload(token: string): Option<string> {
    match Base64.Decode(token)
    case None => None
    case Some(b) => Some(BytesToString(b))
  }

  /**
   * extractToken: fails when the token is not base64 and when the decoded text has no ':';
   * otherwise the username is the text before the first ':' and the password all that
   * follows it.
   */
  function ExtractToken(token: string, proxyEndpoint: string): (r: Result<Auth, Error>)
    ensures Payload(token).None? ==> r == Err(InvalidTokenEncoding)
    ensures Payload(token).Some? && ':' !in Payload(token).value ==> r == Err(InvalidTokenFormat)
    ensures r.Ok? <==> Payload(token).Some? && ':' in Payload(token).value
    ensures r.Ok? ==>
      && r.value.proxyEndpoint == proxyEndpoint
      && ':' !in r.value.username
      && r.value.username + ":" + r.value.password == Payload(token).value
  {
    match Base64.Decode(token)
    case None => Err(InvalidTokenEncoding)
    case Some(decodedToken) =>
      var parts := SplitN2(BytesToString(decodedToken), ':');
      if |parts| < 2 then Err(InvalidTokenFormat)
      else Ok(Auth(proxyEndpoint, parts[0], parts[1]))
  }

  // ---------------------------------------------------------------------------------------

  /** Splitting at the first separator is unique: the part before it has no separator. */
  lemma FirstSeparatorUnique(a: string, b: string, a': string, b': string, sep: char)
    requires sep !in a && sep !in a'
    requires a + [sep] + b == a' + [sep] + b'
    ensures a == a' && b == b'
  {
    var s := a + [sep] + b;
    assert s[|a|] == sep && s[|a'|] == sep;
    assert a == s[..|a|] == a';
    assert b == s[|a| + 1..] == b';
  }

  lemma {:induction false} BytesToStringAppend(x: seq<Base64.Byte>, y: seq<Base64.Byte>)
    ensures BytesToString(x + y) == BytesToString(x) + BytesToString(y)
  {
    if x != [] {
      assert (x + y)[1..] == x[1..] + y;
      BytesToStringAppend(x[1..], y);
    }
  }

  /**
   * Round trip: encoding "u:p" and extracting it gives back u and p, whenever u has no
   * colon (p may have any number of them, and either may be empty).
   */
  lemma ExtractTokenRoundTrip(u: seq<Base64.Byte>, p: seq<Base64.Byte>, proxyEndpoint: string)
    requires Colon !in u
    ensures ExtractToken(Base64.Encode(u + [Colon] + p), proxyEndpoint)
         == Ok(Auth(proxyEndpoint, BytesToString(u), BytesToString(p)))
  {
    var token := Base64.Encode(u + [Colon] + p);
    Base64.DecodeEncode(u + [Colon] + p);
    BytesToStringAppend(u + [Colon], p);
    BytesToStringAppend(u, [Colon]);
    var text := BytesToString(u + [Colon] + p);
    assert BytesToString([Colon]) == [':'];
    assert text == BytesToString(u) + [':'] + BytesToString(p);
    assert ':' !in BytesToString(u);
    var r := ExtractToken(token, proxyEndpoint);
    assert Payload(token) == Some(text);
    FirstSeparatorUnique(r.value.username, r.value.password, BytesToString(u), BytesToString(p), ':');
  }

  /** "user:pass:x" gives user "user" and password "pass:x": only the first colon separates. */
  lemma SplitOnFirstColonExample(proxyEndpoint: string)
    ensures var user := BytesToString([117, 115, 101, 114]);          // "user"
      var rest := BytesToString([112, 97, 115, 115, 58, 120]);          // "pass:x"
      ExtractToken(Base64.Encode([117, 115, 101, 114, 58, 112, 97, 115, 115, 58, 120]), proxyEndpoint)
        == Ok(Auth(proxyEndpoint, user, rest))
  {
    var u: seq<Base64.Byte> := [117, 115, 101, 114];
    var p: seq<Base64.Byte> := [112, 97, 115, 115, 58, 120];
    assert u + [Colon] + p == [117, 115, 101, 114, 58, 112, 97, 115, 115, 58, 120];
    ExtractTokenRoundTrip(u, p, proxyEndpoint);
  }

  /** The empty token decodes to the empty payload, which has no colon. */
  lemma EmptyTokenRejected(proxyEndpoint: string)
    ensures ExtractToken("", proxyEndpoint) == Err(InvalidTokenFormat)
  {
  }

  /** A token that is not whole base64 quanta is rejected before any split. */
  lemma TruncatedTokenRejected(token: string, proxyEndpoint: string)
    requires |token| % 4 != 0
    ensures ExtractToken(token, proxyEndpoint) == Err(InvalidTokenEncoding)
  {
    Base64.PartialQuantumRejected(token);
  }
}
