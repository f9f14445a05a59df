/**
 * ExtractRegistry: the parse of an ECR registry host name into account ID, FIPS flag and region.
 *
 * The Go code strips one leading "https://" and matches ecrPattern with FindStringSubmatch: a
 * pattern anchored at the start only, with groups for the account, an optional "-fips", the
 * region and an optional ".cn". Here the pattern is a hand-written matcher (FindStringSubmatch
 * below), and its meaning is the decomposition predicate Decomposes: the input starts with
 *   id + ".dkr.ecr" + ("-fips" or "") + "." + region + ".amazonaws.com"
 * where id and region are labels (an alphanumeric, then alphanumerics, '-' or '_').
 * MatchSound and MatchComplete prove the matcher and the decomposition agree.
 */
module Registries {
  import opened Wrappers
  import opened Errors

  const ProxyEndpointScheme: string := "https://"
  const DkrEcr: string := ".dkr.ecr"
  const FipsSuffix: string := "-fips"
  const AmazonAws: string := ".amazonaws.com"
  const ChinaSuffix: string := ".cn"

  /** The identity of an ECR registry: its account ID, whether it is a FIPS endpoint, and its region. */
  datatype Registry = Registry(id: string, fips: bool, region: string)

  predicate HasPrefix(s: string, p: string) {
    |p| <= |s| && s[..|p|] == p
  }

  /** strings.TrimPrefix guarded by strings.HasPrefix: removes one leading scheme. */
  function StripScheme(serverURL: string): string {
    if HasPrefix(serverURL, ProxyEndpointScheme) then serverURL[|ProxyEndpointScheme|..] else serverURL
  }

  /** [a-zA-Z0-9] */
  predicate IsAlnum(c: char) {
    ('a' <= c <= 'z') || ('A' <= c <= 'Z') || ('0' <= c <= '9')
  }

  /** [a-zA-Z0-9-_]: the hyphen after the range 0-9 is a literal. */
  predicate IsLabelChar(c: char) {
    IsAlnum(c) || c == '-' || c == '_'
  }

  /** [a-zA-Z0-9][a-zA-Z0-9-_]* matched in full. */
  ghost predicate IsLabel(s: string) {
    |s| > 0 && IsAlnum(s[0]) && forall i :: 0 <= i < |s| ==> IsLabelChar(s[i])
  }

  /** The length of the longest prefix of s made of label characters. */
  function LabelRun(s: string): (n: nat)
    ensures n <= |s|
    ensures forall i :: 0 <= i < n ==> IsLabelChar(s[i])
    ensures n < |s| ==> !IsLabelChar(s[n])
  {
    if s == [] || !IsLabelChar(s[0]) then 0 else 1 + LabelRun(s[1..])
  }

  function FipsPart(fips: bool): string {
    if fips then FipsSuffix else ""
  }

  /** The part of a host name the pattern must see before its optional ".cn". */
  function Host(r: Registry): string {
    r.id + DkrEcr + FipsPart(r.fips) + "." + r.region + AmazonAws
  }

  /** s = r.id + ".dkr.ecr" + ("-fips" if r.fips) + "." + r.region + ".amazonaws.com" + rest. */
  ghost predicate Decomposes(s: string, r: Registry) {
    IsLabel(r.id) && IsLabel(r.region) && HasPrefix(s, Host(r))
  }

  /**
   * A label at the start of s, followed by the literal lit: the label and what follows lit.
   * The label is the longest run of label characters, as the regular expression's greedy
   * star leaves it; when lit starts with a non-label character this is the only split the
   * pattern can make (LabelThenComplete).
   */
  function LabelThen(s: string, lit: string): (o: Option<(string, string)>)
    ensures o.Some? ==> IsLabel(o.value.0) && s == o.value.0 + lit + o.value.1
  {
    var n := LabelRun(s);
    if n == 0 || !IsAlnum(s[0]) || !HasPrefix(s[n..], lit) then None
    else
      assert s == s[..n] + s[n..][..|lit|] + s[n + |lit|..];
      Some((s[..n], s[n + |lit|..]))
  }

  /** (\-fips)?\. : the FIPS group ("-fips" or "") and what follows the dot. */
  function FipsThenDot(t: string): (o: Option<(string, string)>)
    ensures o.Some? ==> (o.value.0 == FipsSuffix || o.value.0 == "") && t == o.value.0 + "." + o.value.1
  {
    if HasPrefix(t, FipsSuffix + ".") then
      assert t == FipsSuffix + "." + t[|FipsSuffix| + 1..] by { assert t[..|FipsSuffix| + 1] == FipsSuffix + "."; }
      Some((FipsSuffix, t[|FipsSuffix| + 1..]))
    else if HasPrefix(t, ".") then
      assert t == "" + "." + t[1..] by { assert t[..1] == "."; }
      Some(("", t[1..]))
    else None
  }

  /**
   * ecrPattern.FindStringSubmatch: no match gives [], a match gives the whole match and the
   * four groups, an unmatched optional group being "". The pattern is anchored at the start
   * only, so whatever follows ".amazonaws.com" (and an optional ".cn") is not looked at.
   */
  function FindStringSubmatch(s: string): (m: seq<string>)
    ensures |m| == 0 || |m| == 5
  {
    match LabelThen(s, DkrEcr)
    case None => []
    case Some((id, t)) => MatchAfterAccount(id, t)
  }

  /** The rest of the pattern after "<id>.dkr.ecr". */
  function MatchAfterAccount(id: string, t: string): (m: seq<string>)
    ensures |m| == 0 || |m| == 5
  {
    match FipsThenDot(t)
    case None => []
    case Some((fips, v)) => MatchAfterFips(id, fips, v)
  }

  /** The rest of the pattern after "<id>.dkr.ecr<fips>.". */
  function MatchAfterFips(id: string, fips: string, v: string): (m: seq<string>)
    ensures |m| == 0 || |m| == 5
  {
    match LabelThen(v, AmazonAws)
    case None => []
    case Some((region, w)) =>
      var cn := if HasPrefix(w, ChinaSuffix) then ChinaSuffix else "";
      [id + DkrEcr + fips + "." + region + AmazonAws + cn, id, fips, region, cn]
  }

  /** The registry a server URL names, or the reason it names none. */
  function ExtractRegistry(serverURL: string): Result<Registry, Error> {
    var url := StripScheme(serverURL);
    var matches := FindStringSubmatch(url);
    if |matches| == 0 then Err(NotECRHost)
    else if |matches| < 3 then Err(MalformedECRHost(url))
    else Ok(Registry(matches[1], matches[2] == FipsSuffix, matches[3]))
  }

  // ---------------------------------------------------------------------------------------
  // The matcher and the decomposition agree

  lemma PrefixOfConcat(p: string, rest: string)
    ensures HasPrefix(p + rest, p) && (p + rest)[|p|..] == rest
  {
    assert (p + rest)[..|p|] == p;
  }

  lemma PrefixDecomposes(s: string, p: string)
    requires HasPrefix(s, p)
    ensures s == p + s[|p|..]
  {
    assert s == s[..|p|] + s[|p|..];
  }

  /** A run of label characters ends at the first character that is not one. */
  lemma {:induction false} LabelRunStops(s: string, n: nat)
    requires n < |s| && !IsLabelChar(s[n])
    requires forall i :: 0 <= i < n ==> IsLabelChar(s[i])
    ensures LabelRun(s) == n
  {
    if n > 0 {
      LabelRunStops(s[1..], n - 1);
    }
  }

  /** LabelThen finds every label that is followed by a literal starting with a non-label character. */
  lemma LabelThenComplete(s: string, l: string, lit: string, rest: string)
    requires s == l + lit + rest
    requires IsLabel(l) && |lit| > 0 && !IsLabelChar(lit[0])
    ensures LabelThen(s, lit) == Some((l, rest))
  {
    assert s[|l|] == lit[0];
    LabelRunStops(s, |l|);
    assert s[|l|..] == lit + rest;
    PrefixOfConcat(lit, rest);
    assert s[..|l|] == l;
    assert s[|l| + |lit|..] == rest;
  }

  lemma FipsThenDotComplete(t: string, fips: bool, rest: string)
    requires t == FipsPart(fips) + "." + rest
    ensures FipsThenDot(t) == Some((FipsPart(fips), rest))
  {
    if fips {
      assert t == (FipsSuffix + ".") + rest;
      PrefixOfConcat(FipsSuffix + ".", rest);
    } else {
      assert t[0] == '.';
    }
  }

  lemma JoinHost(s: string, id: string, t: string, fips: string, v: string, region: string, w: string)
    requires t == fips + "." + v && v == region + AmazonAws + w
    ensures s == id + DkrEcr + t <==> s == id + DkrEcr + fips + "." + region + AmazonAws + w
  {
  }

  /** Every match is a decomposition. */
  lemma MatchSound(s: string)
    requires |FindStringSubmatch(s)| == 5
    ensures var m := FindStringSubmatch(s);
      Decomposes(s, Registry(m[1], m[2] == FipsSuffix, m[3])) && FipsPart(m[2] == FipsSuffix) == m[2]
  {
    var m := FindStringSubmatch(s);
    var (id, t) := LabelThen(s, DkrEcr).value;
    assert m == MatchAfterAccount(id, t);
    var (fips, v) := FipsThenDot(t).value;
    assert m == MatchAfterFips(id, fips, v);
    var (region, w) := LabelThen(v, AmazonAws).value;
    var r := Registry(id, fips == FipsSuffix, region);
    assert m[1] == id && m[2] == fips && m[3] == region;
    assert FipsPart(fips == FipsSuffix) == fips;
    assert Host(r) == id + DkrEcr + fips + "." + region + AmazonAws;
    JoinHost(s, id, t, fips, v, region, w);
    PrefixOfConcat(Host(r), w);
  }

  /** Every decomposition is what the matcher finds. */
  lemma MatchComplete(s: string, r: Registry)
    requires Decomposes(s, r)
    ensures var m := FindStringSubmatch(s);
      |m| == 5 && m[1] == r.id && m[2] == FipsPart(r.fips) && m[3] == r.region
  {
    var w := s[|Host(r)|..];
    PrefixDecomposes(s, Host(r));
    var v := r.region + AmazonAws + w;
    var t := FipsPart(r.fips) + "." + v;
    assert Host(r) == r.id + DkrEcr + FipsPart(r.fips) + "." + r.region + AmazonAws;
    JoinHost(s, r.id, t, FipsPart(r.fips), v, r.region, w);
    MatchStages(s, r, t, v, w);
  }

  lemma MatchStages(s: string, r: Registry, t: string, v: string, w: string)
    requires IsLabel(r.id) && IsLabel(r.region)
    requires s == r.id + DkrEcr + t && t == FipsPart(r.fips) + "." + v && v == r.region + AmazonAws + w
    ensures var m := FindStringSubmatch(s);
      |m| == 5 && m[1] == r.id && m[2] == FipsPart(r.fips) && m[3] == r.region
  {
    assert DkrEcr[0] == '.';
    LabelThenComplete(s, r.id, DkrEcr, t);
    assert FindStringSubmatch(s) == MatchAfterAccount(r.id, t);
    AfterAccountComplete(r.id, t, r.fips, v, r.region, w);
  }

  lemma AfterAccountComplete(id: string, t: string, fips: bool, v: string, region: string, w: string)
    requires IsLabel(region)
    requires t == FipsPart(fips) + "." + v && v == region + AmazonAws + w
    ensures var m := MatchAfterAccount(id, t);
      |m| == 5 && m[1] == id && m[2] == FipsPart(fips) && m[3] == region
  {
    FipsThenDotComplete(t, fips, v);
    assert MatchAfterAccount(id, t) == MatchAfterFips(id, FipsPart(fips), v);
    AfterFipsComplete(id, FipsPart(fips), v, region, w);
  }

  lemma AfterFipsComplete(id: string, fips: string, v: string, region: string, w: string)
    requires IsLabel(region) && v == region + AmazonAws + w
    ensures var m := MatchAfterFips(id, fips, v);
      |m| == 5 && m[1] == id && m[2] == fips && m[3] == region
  {
    assert AmazonAws[0] == '.';
    LabelThenComplete(v, region, AmazonAws, w);
  }

  lemma PrefixExtend(h: string, w: string, p: string)
    requires HasPrefix(w, p)
    ensures HasPrefix(h + w, h + p)
  {
    assert (h + w)[..|h + p|] == h + w[..|p|];
  }

  /**
   * The whole match of a five-group result is the host the groups spell out, with the ".cn"
   * group ".cn" or empty, and it is a prefix of the input.
   */
  lemma MatchText(s: string)
    requires |FindStringSubmatch(s)| == 5
    ensures var m := FindStringSubmatch(s);
      && (m[4] == ChinaSuffix || m[4] == "")
      && m[0] == m[1] + DkrEcr + m[2] + "." + m[3] + AmazonAws + m[4]
      && HasPrefix(s, m[0])
  {
    var m := FindStringSubmatch(s);
    var (id, t) := LabelThen(s, DkrEcr).value;
    assert m == MatchAfterAccount(id, t);
    var (fips, v) := FipsThenDot(t).value;
    assert m == MatchAfterFips(id, fips, v);
    var (region, w) := LabelThen(v, AmazonAws).value;
    var cn := m[4];
    assert HasPrefix(w, cn);
    JoinHost(s, id, t, fips, v, region, w);
    var h := id + DkrEcr + fips + "." + region + AmazonAws;
    assert s == h + w;
    PrefixExtend(h, w, cn);
  }

  /** The pattern has at most one way to match, so the registry is determined by the host. */
  lemma DecompositionUnique(s: string, r1: Registry, r2: Registry)
    requires Decomposes(s, r1) && Decomposes(s, r2)
    ensures r1 == r2
  {
    MatchComplete(s, r1);
    MatchComplete(s, r2);
    assert FipsPart(true) != FipsPart(false);
  }

  // ---------------------------------------------------------------------------------------
  // ExtractRegistry

  /** A successful result is a decomposition of the scheme-stripped input. */
  lemma ExtractRegistrySound(serverURL: string)
    requires ExtractRegistry(serverURL).Ok?
    ensures Decomposes(StripScheme(serverURL), ExtractRegistry(serverURL).value)
  {
    MatchSound(StripScheme(serverURL));
  }

  /** Every decomposition of the scheme-stripped input is the result. */
  lemma ExtractRegistryComplete(serverURL: string, r: Registry)
    requires Decomposes(StripScheme(serverURL), r)
    ensures ExtractRegistry(serverURL) == Ok(r)
  {
    MatchComplete(StripScheme(serverURL), r);
    assert (FipsPart(r.fips) == FipsSuffix) == r.fips;
  }

  /** An input with no decomposition is rejected as a host that is not ECR's. */
  lemma ExtractRegistryRejects(serverURL: string)
    requires forall r :: !Decomposes(StripScheme(serverURL), r)
    ensures ExtractRegistry(serverURL) == Err(NotECRHost)
  {
    var m := FindStringSubmatch(StripScheme(serverURL));
    if |m| == 5 {
      MatchSound(StripScheme(serverURL));
      assert false;
    }
  }

  /** The `len(matches) < 3` branch cannot be taken: a failure is always NotECRHost. */
  lemma NeverMalformed(serverURL: string)
    ensures ExtractRegistry(serverURL).Err? ==> ExtractRegistry(serverURL).error == NotECRHost
  {
  }

  /** On success, the ID and the region are labels: non-empty, alphanumeric first, no dot. */
  lemma ExtractedFieldsAreLabels(serverURL: string)
    requires ExtractRegistry(serverURL).Ok?
    ensures var r := ExtractRegistry(serverURL).value;
      IsLabel(r.id) && IsLabel(r.region) && '.' !in r.id && '.' !in r.region
  {
    ExtractRegistrySound(serverURL);
    var r := ExtractRegistry(serverURL).value;
    assert !IsLabelChar('.');
  }

  /** On success, FIPS is set exactly when "-fips" directly follows "<id>.dkr.ecr". */
  lemma FipsExactlyWhenMarked(serverURL: string)
    requires ExtractRegistry(serverURL).Ok?
    ensures var r := ExtractRegistry(serverURL).value;
      var s := StripScheme(serverURL);
      |r.id + DkrEcr| <= |s| && (r.fips <==> HasPrefix(s[|r.id + DkrEcr|..], FipsSuffix))
  {
    ExtractRegistrySound(serverURL);
    var r := ExtractRegistry(serverURL).value;
    var s := StripScheme(serverURL);
    var w := s[|Host(r)|..];
    PrefixDecomposes(s, Host(r));
    var v := r.region + AmazonAws + w;
    var t := FipsPart(r.fips) + "." + v;
    assert Host(r) == r.id + DkrEcr + FipsPart(r.fips) + "." + r.region + AmazonAws;
    JoinHost(s, r.id, t, FipsPart(r.fips), v, r.region, w);
    PrefixOfConcat(r.id + DkrEcr, t);
    FipsMarked(t, r.fips, v);
  }

  lemma FipsMarked(t: string, fips: bool, v: string)
    requires t == FipsPart(fips) + "." + v
    ensures fips <==> HasPrefix(t, FipsSuffix)
  {
    if fips {
      PrefixOfConcat(FipsSuffix, "." + v);
    } else {
      assert t[0] == '.';
    }
  }

  /** One "https://" is stripped: with or without it, the result is the same. */
  lemma SchemeIsOptional(s: string)
    requires !HasPrefix(s, ProxyEndpointScheme)
    ensures ExtractRegistry(ProxyEndpointScheme + s) == ExtractRegistry(s)
  {
    assert (ProxyEndpointScheme + s)[..|ProxyEndpointScheme|] == ProxyEndpointScheme;
    assert (ProxyEndpointScheme + s)[|ProxyEndpointScheme|..] == s;
  }

  /** Only one "https://" is stripped: a second one makes the host unparsable. */
  lemma SchemeStrippedOnce(s: string)
    ensures ExtractRegistry(ProxyEndpointScheme + ProxyEndpointScheme + s) == Err(NotECRHost)
  {
    var x := ProxyEndpointScheme + ProxyEndpointScheme + s;
    assert x[..|ProxyEndpointScheme|] == ProxyEndpointScheme;
    var y := StripScheme(x);
    assert y == ProxyEndpointScheme + s;
    assert y[..5] == "https";
    LabelRunStops(y, 5);
    assert y[5..][0] == ':';
  }

  /**
   * No other scheme is recognised: a URL starting with any other scheme name p and "://" (http,
   * HTTPS, ftp, ...) is not stripped, and the name then stops the account label at ':'.
   */
  lemma OtherSchemeRejected(p: string, s: string)
    requires IsLabel(p) && p != "https"
    ensures ExtractRegistry(p + "://" + s) == Err(NotECRHost)
  {
    var x := p + "://" + s;
    OtherSchemeKept(p, s);
    assert forall i :: 0 <= i < |p| ==> x[i] == p[i];
    LabelRunStops(x, |p|);
    assert x[|p|..][0] == ':';
  }

  lemma OtherSchemeKept(p: string, s: string)
    requires IsLabel(p) && p != "https"
    ensures !HasPrefix(p + "://" + s, ProxyEndpointScheme) && (p + "://" + s)[|p|] == ':'
  {
    var x := p + "://" + s;
    assert x[|p|] == ':';
    if |p| < 5 {
      assert x[|p|] != ProxyEndpointScheme[|p|];
    } else if |p| == 5 {
      assert x[..5] == p;
      assert ProxyEndpointScheme[..5] == "https";
    } else {
      assert x[5] == p[5] && IsLabelChar(p[5]);
      assert x[5] != ProxyEndpointScheme[5];
    }
  }

  /** The plain-HTTP case of OtherSchemeRejected. */
  lemma HttpSchemeRejected(s: string)
    ensures ExtractRegistry("http://" + s) == Err(NotECRHost)
  {
    HttpIsLabel();
    assert "http://" + s == "http" + "://" + s;
    OtherSchemeRejected("http", s);
  }

  lemma HttpIsLabel()
    ensures IsLabel("http") && "http" != "https"
  {
    LabelCharsFromAt("http", 0);
    assert |"http"| != |"https"|;
  }

  /** Whatever follows a host that parses (".cn", "/repository", ...) does not change the result. */
  lemma SuffixIgnored(serverURL: string, rest: string)
    requires ExtractRegistry(serverURL).Ok?
    ensures ExtractRegistry(serverURL + rest) == ExtractRegistry(serverURL)
  {
    var r := ExtractRegistry(serverURL).value;
    ExtractRegistrySound(serverURL);
    assert |Host(r)| > |ProxyEndpointScheme|;
    StripSchemeAppend(serverURL, rest);
    DecomposesAppend(StripScheme(serverURL), r, rest);
    ExtractRegistryComplete(serverURL + rest, r);
  }

  lemma StripSchemeAppend(url: string, rest: string)
    requires |url| >= |ProxyEndpointScheme|
    ensures StripScheme(url + rest) == StripScheme(url) + rest
  {
    var n := |ProxyEndpointScheme|;
    assert (url + rest)[..n] == url[..n];
    if HasPrefix(url, ProxyEndpointScheme) {
      assert (url + rest)[n..] == url[n..] + rest;
    }
  }

  lemma DecomposesAppend(s: string, r: Registry, rest: string)
    requires Decomposes(s, r)
    ensures Decomposes(s + rest, r)
  {
    assert (s + rest)[..|Host(r)|] == s[..|Host(r)|];
  }

  /** All label characters from position i on, checked one by one (so that it evaluates on a literal). */
  predicate LabelCharsFrom(s: string, i: nat)
    decreases |s| - i
  {
    i >= |s| || (IsLabelChar(s[i]) && LabelCharsFrom(s, i + 1))
  }

  lemma {:induction false} LabelCharsFromAt(s: string, i: nat)
    requires LabelCharsFrom(s, i)
    ensures forall j :: i <= j < |s| ==> IsLabelChar(s[j])
    decreases |s| - i
  {
    if i < |s| {
      LabelCharsFromAt(s, i + 1);
    }
  }

  lemma ExampleLabels()
    ensures IsLabel("123456789012") && IsLabel("us-east-1") && IsLabel("cn-north-1")
  {
    LabelCharsFromAt("123456789012", 0);
    LabelCharsFromAt("us-east-1", 0);
    LabelCharsFromAt("cn-north-1", 0);
  }

  /** A FIPS endpoint, https://123456789012.dkr.ecr-fips.us-east-1.amazonaws.com, written in its parts. */
  lemma FipsEndpointExample()
    ensures ExtractRegistry(ProxyEndpointScheme + "123456789012" + DkrEcr + FipsSuffix + "." + "us-east-1" + AmazonAws)
         == Ok(Registry("123456789012", true, "us-east-1"))
  {
    var r := Registry("123456789012", true, "us-east-1");
    var s := "123456789012" + DkrEcr + FipsSuffix + "." + "us-east-1" + AmazonAws;
    var v := r.region + AmazonAws + "";
    var t := FipsPart(true) + "." + v;
    assert s + "" == s;
    JoinHost(s, r.id, t, FipsPart(true), v, r.region, "");
    assert ProxyEndpointScheme + "123456789012" + DkrEcr + FipsSuffix + "." + "us-east-1" + AmazonAws
        == ProxyEndpointScheme + s;
    assert !HasPrefix(s, ProxyEndpointScheme) by { assert s[0] != ProxyEndpointScheme[0]; }
    SchemeIsOptional(s);
    ExampleLabels();
    MatchStages(s, r, t, v, "");
  }

  /**
   * A China-partition host without a scheme, 123456789012.dkr.ecr.cn-north-1.amazonaws.com.cn:
   * the ".cn" suffix is accepted and not captured.
   */
  lemma ChinaEndpointExample()
    ensures ExtractRegistry("123456789012" + DkrEcr + "." + "cn-north-1" + AmazonAws + ChinaSuffix)
         == Ok(Registry("123456789012", false, "cn-north-1"))
  {
    var r := Registry("123456789012", false, "cn-north-1");
    var v := r.region + AmazonAws + ChinaSuffix;
    var t := FipsPart(false) + "." + v;
    var s := r.id + DkrEcr + t;
    assert "123456789012" + DkrEcr + "." + "cn-north-1" + AmazonAws + ChinaSuffix == s;
    assert !HasPrefix(s, ProxyEndpointScheme) by { assert s[0] != ProxyEndpointScheme[0]; }
    ExampleLabels();
    MatchStages(s, r, t, v, ChinaSuffix);
  }
}
