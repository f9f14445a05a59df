/**
 * The default ECR client: resolves credentials for a registry from the cache when the cached
 * entry is fresh, otherwise asks the ECR service for an authorization token, caches what it
 * gets under the registry the returned endpoint names, and, when the service fails, falls back
 * to the cached entry however stale it is.
 *
 * The service is not called here: each operation that may call it takes the response the call
 * would get as a parameter, and the client's ghost log `requests` records every call made.
 * The current time is a parameter too.
 */
module Client {
  import opened Wrappers
  import opened Errors
  import opened Cache
  import Registries
  import Tokens

  /** ecr.AuthorizationData: every field may be absent from the service's answer. */
  datatype AuthorizationData = AuthorizationData(
    proxyEndpoint: Option<string>,
    authorizationToken: Option<string>,
    expiresAt: Option<Time>)

  /** What one GetAuthorizationToken call gets back: an error, no output, or the output's data. */
  datatype TokenResponse =
    | ServiceFailure(message: string)
    | NilOutput
    | Output(authorizationData: seq<AuthorizationData>)

  /** ecr.GetAuthorizationTokenInput. */
  datatype TokenRequest = TokenRequest(registryIds: seq<string>)

  /** The zero time, which aws.TimeValue gives for an absent expiry. */
  const ZeroTime: Time := 0

  function TimeValue(t: Option<Time>): Time {
    if t.Some? then t.value else ZeroTime
  }

  /** The request for a registry: the empty ID asks for the default registry, naming none. */
  function RequestFor(registryID: string): (r: TokenRequest)
    ensures r.registryIds == [] <==> registryID == ""
    ensures registryID != "" ==> r.registryIds == [registryID]
  {
    if registryID == "" then TokenRequest([]) else TokenRequest([registryID])
  }

  /** An element of the answer that carries both an endpoint and a token. */
  predicate Usable(d: AuthorizationData) {
    d.proxyEndpoint.Some? && d.authorizationToken.Some?
  }

  /** The position of the first usable element. */
  function FirstUsable(data: seq<AuthorizationData>): (r: Option<nat>)
    ensures r.None? <==> forall j :: 0 <= j < |data| ==> !Usable(data[j])
    ensures r.Some? ==> r.value < |data| && Usable(data[r.value])
    ensures r.Some? ==> forall j :: 0 <= j < r.value ==> !Usable(data[j])
  {
    if data == [] then None
    else if Usable(data[0]) then Some(0)
    else match FirstUsable(data[1..])
      case None =>
        assert forall j :: 1 <= j < |data| ==> data[j] == data[1..][j - 1];
        None
      case Some(i) =>
        assert forall j :: 1 <= j <= i ==> data[j] == data[1..][j - 1];
        Some(i + 1)
  }

  /** One cache write: the key and the entry stored under it. */
  datatype Write = Write(key: string, entry: AuthEntry)

  /** What getAuthorizationToken returns, and the cache write it makes, if any. */
  datatype FetchOutcome = FetchOutcome(result: Result<Tokens.Auth, Error>, write: Option<Write>)

  /** The entry a usable element of the answer would be cached as. */
  function EntryFor(d: AuthorizationData, now: Time): AuthEntry
    requires Usable(d)
  {
    AuthEntry(d.authorizationToken.value, now, TimeValue(d.expiresAt), d.proxyEndpoint.value)
  }

  /**
   * getAuthorizationToken, given the service's response: a failed or empty call is an error;
   * otherwise the first usable element decides: its endpoint must name an ECR registry, its
   * token must decode, and then the entry is cached under the registry its endpoint names.
   */
  function Fetch(registryID: string, response: TokenResponse, now: Time): (o: FetchOutcome)
    ensures o.write.Some? <==> o.result.Ok?
    ensures response.ServiceFailure? ==>
      o.result == Err(FailedToGetToken(ServiceError(response.message)))
    ensures response.NilOutput? ==>
      o.result == Err(FailedToGetToken(MissingAuthorizationData(registryID)))
    ensures response.Output? && FirstUsable(response.authorizationData).None? ==>
      o.result == Err(NoAuthorizationToken(registryID))
  {
    match response
    case ServiceFailure(message) =>
      FetchOutcome(Err(FailedToGetToken(ServiceError(message))), None)
    case NilOutput =>
      FetchOutcome(Err(FailedToGetToken(MissingAuthorizationData(registryID))), None)
    case Output(data) =>
      match FirstUsable(data)
      case None => FetchOutcome(Err(NoAuthorizationToken(registryID)), None)
      case Some(i) => FetchFrom(data[i], now)
  }

  /** The part of getAuthorizationToken that handles the chosen element. */
  function FetchFrom(d: AuthorizationData, now: Time): (o: FetchOutcome)
    requires Usable(d)
    ensures o.write.Some? <==> o.result.Ok?
  {
    var entry := EntryFor(d, now);
    match Registries.ExtractRegistry(entry.proxyEndpoint)
    case Err(_) => FetchOutcome(Err(InvalidProxyEndpoint(entry.proxyEndpoint)), None)
    case Ok(registry) =>
      match Tokens.ExtractToken(entry.authorizationToken, entry.proxyEndpoint)
      case Err(e) => FetchOutcome(Err(e), None)
      case Ok(auth) => FetchOutcome(Ok(auth), Some(Write(registry.id, entry)))
  }

  /** The cache after a fetch. */
  function Apply(c: CacheState, w: Option<Write>): CacheState {
    if w.Some? then Store(c, w.value.key, w.value.entry) else c
  }

  // ---------------------------------------------------------------------------------------
  // getAuthorizationToken

  /**
   * A successful fetch stores the first usable element, stamped with the current time and
   * the expiry the service reported, under the ID its endpoint names (which need not be the
   * ID asked for); reading that entry back decodes to the very result returned.
   */
  lemma FetchWrite(registryID: string, response: TokenResponse, now: Time)
    requires Fetch(registryID, response, now).result.Ok?
    ensures response.Output? && FirstUsable(response.authorizationData).Some?
    ensures
      var d := response.authorizationData[FirstUsable(response.authorizationData).value];
      var w := Fetch(registryID, response, now).write.value;
      && w.entry == EntryFor(d, now)
      && w.entry.requestedAt == now
      && w.entry.expiresAt == TimeValue(d.expiresAt)
      && Registries.ExtractRegistry(w.entry.proxyEndpoint).Ok?
      && w.key == Registries.ExtractRegistry(w.entry.proxyEndpoint).value.id
      && Tokens.ExtractToken(w.entry.authorizationToken, w.entry.proxyEndpoint)
         == Fetch(registryID, response, now).result
  {
  }

  /**
   * A usable element whose endpoint is not an ECR endpoint, or whose token does not decode,
   * fails the fetch with the reason, and nothing is cached.
   */
  lemma FetchRejects(registryID: string, data: seq<AuthorizationData>, now: Time)
    requires FirstUsable(data).Some?
    ensures
      var d := data[FirstUsable(data).value];
      var o := Fetch(registryID, Output(data), now);
      && (Registries.ExtractRegistry(d.proxyEndpoint.value).Err? ==>
            o == FetchOutcome(Err(InvalidProxyEndpoint(d.proxyEndpoint.value)), None))
      && (Registries.ExtractRegistry(d.proxyEndpoint.value).Ok? ==>
            Tokens.ExtractToken(d.authorizationToken.value, d.proxyEndpoint.value).Err? ==>
            o == FetchOutcome(Tokens.ExtractToken(d.authorizationToken.value, d.proxyEndpoint.value), None))
  {
  }

  /**
   * Only the first usable element counts: elements before it lack a field, and whatever
   * follows it is never looked at.
   */
  lemma {:induction false} FirstUsableDecides(
    registryID: string, before: seq<AuthorizationData>, d: AuthorizationData,
    after: seq<AuthorizationData>, now: Time)
    requires forall j :: 0 <= j < |before| ==> !Usable(before[j])
    requires Usable(d)
    ensures Fetch(registryID, Output(before + [d] + after), now) == FetchFrom(d, now)
  {
    var data := before + [d] + after;
    assert data[|before|] == d;
    assert forall j :: 0 <= j < |before| ==> data[j] == before[j];
    assert FirstUsable(data) == Some(|before|);
  }

  // ---------------------------------------------------------------------------------------
  // GetCredentialsByRegistryID

  /** What GetCredentialsByRegistryID returns, whether it called the service, and what it cached. */
  datatype Resolution = Resolution(result: Result<Tokens.Auth, Error>, called: bool, write: Option<Write>)

  /**
   * GetCredentialsByRegistryID over the cache's contents: a fresh cached entry is decoded
   * without asking the service; otherwise the service is asked, and if it fails while an entry
   * (fresh or not) is cached, that entry is decoded instead.
   */
  function Resolve(c: CacheState, isValid: (AuthEntry, Time) -> bool, registryID: string,
                   response: TokenResponse, now: Time): Resolution
  {
    var cached := Lookup(c, registryID);
    if cached.Some? && isValid(cached.value, now) then
      Resolution(Tokens.ExtractToken(cached.value.authorizationToken, cached.value.proxyEndpoint), false, None)
    else
      var fetched := Fetch(registryID, response, now);
      if fetched.result.Err? && cached.Some? then
        Resolution(Tokens.ExtractToken(cached.value.authorizationToken, cached.value.proxyEndpoint), true, fetched.write)
      else
        Resolution(fetched.result, true, fetched.write)
  }

  /** A fresh cached entry is decoded, errors included, with no call and no change to the cache. */
  lemma FastPath(c: CacheState, isValid: (AuthEntry, Time) -> bool, registryID: string,
                 response: TokenResponse, now: Time)
    requires registryID in c.entries && isValid(c.entries[registryID], now)
    ensures
      var e := c.entries[registryID];
      Resolve(c, isValid, registryID, response, now)
        == Resolution(Tokens.ExtractToken(e.authorizationToken, e.proxyEndpoint), false, None)
  {
  }

  /**
   * A missing or stale entry costs exactly one call. The call's failure is hidden behind the
   * cached entry when there is one and reported otherwise; its success is returned.
   */
  lemma Refresh(c: CacheState, isValid: (AuthEntry, Time) -> bool, registryID: string,
                response: TokenResponse, now: Time)
    requires registryID !in c.entries || !isValid(c.entries[registryID], now)
    ensures
      var r := Resolve(c, isValid, registryID, response, now);
      var fetched := Fetch(registryID, response, now);
      && r.called
      && r.write == fetched.write
      && (fetched.result.Err? && registryID in c.entries ==>
            var e := c.entries[registryID];
            r.result == Tokens.ExtractToken(e.authorizationToken, e.proxyEndpoint))
      && (fetched.result.Err? && registryID !in c.entries ==> r.result == fetched.result)
      && (fetched.result.Ok? ==> r.result == fetched.result)
  {
  }

  /** The cache changes only when the service was called and succeeded. */
  lemma WritesOnlyAfterSuccessfulCall(c: CacheState, isValid: (AuthEntry, Time) -> bool, registryID: string,
                                      response: TokenResponse, now: Time)
    ensures
      var r := Resolve(c, isValid, registryID, response, now);
      r.write.Some? <==> r.called && Fetch(registryID, response, now).result.Ok?
  {
  }

  /**
   * Read your writes: after a refresh that cached an entry under the ID asked for, asking
   * again while that entry is fresh makes no call and returns the same credentials.
   */
  lemma RefreshThenHit(c: CacheState, isValid: (AuthEntry, Time) -> bool, registryID: string,
                       response: TokenResponse, now: Time, response': TokenResponse, later: Time)
    requires
      var r := Resolve(c, isValid, registryID, response, now);
      r.called && r.write.Some? && r.write.value.key == registryID && isValid(r.write.value.entry, later)
    ensures
      var r := Resolve(c, isValid, registryID, response, now);
      var c' := Apply(c, r.write);
      Resolve(c', isValid, registryID, response', later) == Resolution(r.result, false, None)
  {
    FetchWrite(registryID, response, now);
  }

  // ---------------------------------------------------------------------------------------
  // ListCredentials

  /** The values that are present, in order. */
  function Somes<T>(ms: seq<Option<T>>): seq<T> {
    if ms == [] then []
    else
      var last := ms[|ms| - 1];
      Somes(ms[..|ms| - 1]) + (if last.Some? then [last.value] else [])
  }

  lemma SomesSnoc<T>(ms: seq<Option<T>>, m: Option<T>)
    ensures Somes(ms + [m]) == Somes(ms) + (if m.Some? then [m.value] else [])
  {
    assert (ms + [m])[..|ms|] == ms;
  }

  /** Nothing is present exactly when every element is absent. */
  lemma {:induction false} SomesEmpty<T>(ms: seq<Option<T>>)
    ensures Somes(ms) == [] <==> forall i :: 0 <= i < |ms| ==> ms[i].None?
  {
    if ms != [] {
      var k := |ms| - 1;
      SomesEmpty(ms[..k]);
      assert forall i :: 0 <= i < k ==> ms[..k][i] == ms[i];
    }
  }

  /** Every value collected is present at some position. */
  lemma {:induction false} SomesFrom<T>(ms: seq<Option<T>>)
    ensures forall x :: x in Somes(ms) ==> exists i :: 0 <= i < |ms| && ms[i] == Some(x)
  {
    if ms != [] {
      var k := |ms| - 1;
      SomesFrom(ms[..k]);
      forall x | x in Somes(ms)
        ensures exists i :: 0 <= i < |ms| && ms[i] == Some(x)
      {
        if x in Somes(ms[..k]) {
          var i :| 0 <= i < k && ms[..k][i] == Some(x);
          assert ms[i] == Some(x);
        } else {
          assert ms[k] == Some(x);
        }
      }
    }
  }

  /** Every value present at some position is collected. */
  lemma {:induction false} SomesComplete<T>(ms: seq<Option<T>>)
    ensures forall i :: 0 <= i < |ms| && ms[i].Some? ==> ms[i].value in Somes(ms)
  {
    if ms != [] {
      var k := |ms| - 1;
      SomesComplete(ms[..k]);
      forall i | 0 <= i < |ms| && ms[i].Some?
        ensures ms[i].value in Somes(ms)
      {
        if i < k {
          assert ms[..k][i] == ms[i];
        }
      }
    }
  }

  /** The credentials one entry decodes to, if it decodes. */
  function Decoded(e: AuthEntry): Option<Tokens.Auth> {
    var r := Tokens.ExtractToken(e.authorizationToken, e.proxyEndpoint);
    if r.Ok? then Some(r.value) else None
  }

  function DecodedEach(l: seq<AuthEntry>): (ms: seq<Option<Tokens.Auth>>)
    ensures |ms| == |l| && forall i :: 0 <= i < |l| ==> ms[i] == Decoded(l[i])
  {
    seq(|l|, i requires 0 <= i < |l| => Decoded(l[i]))
  }

  /** The credentials the listed entries decode to, in listing order, skipping the rest. */
  function DecodeAll(l: seq<AuthEntry>): seq<Tokens.Auth> {
    Somes(DecodedEach(l))
  }

  /** One more entry adds its credentials, if it decodes, at the end. */
  lemma DecodeAllStep(l: seq<AuthEntry>, i: nat)
    requires i < |l|
    ensures DecodeAll(l[..i + 1]) == DecodeAll(l[..i]) + (if Decoded(l[i]).Some? then [Decoded(l[i]).value] else [])
  {
    assert DecodedEach(l[..i + 1]) == DecodedEach(l[..i]) + [Decoded(l[i])];
    SomesSnoc(DecodedEach(l[..i]), Decoded(l[i]));
  }

  /** Nothing is decoded exactly when no listed entry decodes. */
  lemma DecodeAllEmpty(l: seq<AuthEntry>)
    ensures DecodeAll(l) == [] <==> forall i :: 0 <= i < |l| ==> Decoded(l[i]).None?
  {
    SomesEmpty(DecodedEach(l));
  }

  /** Every credential listed comes from an entry of the listing that decodes to it. */
  lemma DecodeAllFromEntries(l: seq<AuthEntry>)
    ensures forall a :: a in DecodeAll(l) ==> exists i :: 0 <= i < |l| && Decoded(l[i]) == Some(a)
  {
    SomesFrom(DecodedEach(l));
  }

  /** Every listed entry that decodes contributes its credentials. */
  lemma DecodeAllComplete(l: seq<AuthEntry>)
    ensures forall i :: 0 <= i < |l| && Decoded(l[i]).Some? ==> Decoded(l[i]).value in DecodeAll(l)
  {
    SomesComplete(DecodedEach(l));
  }

  /** What ListCredentials returns and whether it calls the service. */
  datatype Listed = Listed(auths: seq<Tokens.Auth>, err: Option<Error>, called: bool, write: Option<Write>)

  /**
   * ListCredentials over the cache's contents: the listed entries that decode; or, when none
   * does, the single credential a default-registry fetch gets, or no credential and its error.
   */
  function ListAll(c: CacheState, response: TokenResponse, now: Time): Listed
    requires Consistent(c)
  {
    var auths := DecodeAll(Listing(c));
    if |auths| > 0 then Listed(auths, None, false, None)
    else
      var fetched := Fetch("", response, now);
      match fetched.result
      case Ok(auth) => Listed([auth], None, true, fetched.write)
      case Err(e) => Listed([], Some(e), true, None)
  }

  /** When some listed entry decodes, the list is the decodable entries; there is no call. */
  lemma ListFromCache(c: CacheState, response: TokenResponse, now: Time)
    requires Consistent(c)
    requires exists i :: 0 <= i < |c.keys| && Decoded(Listing(c)[i]).Some?
    ensures ListAll(c, response, now) == Listed(DecodeAll(Listing(c)), None, false, None)
  {
    DecodeAllEmpty(Listing(c));
  }

  /**
   * When nothing listed decodes (an empty cache included), there is one default-registry
   * fetch, and the result is its credential alone, or an empty list and its error.
   */
  lemma ListFallsBack(c: CacheState, response: TokenResponse, now: Time)
    requires Consistent(c)
    requires forall i :: 0 <= i < |c.keys| ==> Decoded(Listing(c)[i]).None?
    ensures
      var r := ListAll(c, response, now);
      var fetched := Fetch("", response, now);
      && r.called
      && r.write == fetched.write
      && (fetched.result.Ok? ==> r.auths == [fetched.result.value] && r.err.None?)
      && (fetched.result.Err? ==> r.auths == [] && r.err == Some(fetched.result.error))
  {
    DecodeAllEmpty(Listing(c));
  }

  // ---------------------------------------------------------------------------------------
  // The client

  /** defaultClient: the cache it shares, and the log of the service calls it has made. */
  class DefaultClient {
    const cache: CredentialCache
    ghost var requests: seq<TokenRequest>

    ghost predicate Valid()
      reads this, cache
    {
      cache.Valid()
    }

    constructor(cache: CredentialCache)
      requires cache.Valid()
      ensures Valid() && this.cache == cache && requests == []
    {
      this.cache := cache;
      requests := [];
    }

    /**
     * getAuthorizationToken: one call to the service, whose answer is `response`; the cache
     * is written only on success.
     */
    method GetAuthorizationToken(registryID: string, response: TokenResponse, now: Time)
      returns (r: Result<Tokens.Auth, Error>)
      requires Valid()
      modifies this, cache
      ensures Valid()
      ensures requests == old(requests) + [RequestFor(registryID)]
      ensures r == Fetch(registryID, response, now).result
      ensures cache.View() == Apply(old(cache.View()), Fetch(registryID, response, now).write)
    {
      var input := RequestFor(registryID);
      requests := requests + [input];
      if response.ServiceFailure? {
        return Err(FailedToGetToken(ServiceError(response.message)));
      }
      if response.NilOutput? {
        return Err(FailedToGetToken(MissingAuthorizationData(registryID)));
      }
      var data := response.authorizationData;
      var i := 0;
      while i < |data|
        invariant 0 <= i <= |data|
        invariant forall j :: 0 <= j < i ==> !Usable(data[j])
        invariant cache.View() == old(cache.View())
      {
        var authData := data[i];
        if authData.proxyEndpoint.Some? && authData.authorizationToken.Some? {
          assert FirstUsable(data) == Some(i);
          var authEntry := AuthEntry(authData.authorizationToken.value, now,
                                     TimeValue(authData.expiresAt), authData.proxyEndpoint.value);
          var registry := Registries.ExtractRegistry(authEntry.proxyEndpoint);
          if registry.Err? {
            return Err(InvalidProxyEndpoint(authEntry.proxyEndpoint));
          }
          var auth := Tokens.ExtractToken(authEntry.authorizationToken, authEntry.proxyEndpoint);
          if auth.Err? {
            return auth;
          }
          cache.Set(registry.value.id, authEntry);
          return auth;
        }
        i := i + 1;
      }
      return Err(NoAuthorizationToken(registryID));
    }

    /** GetCredentialsByRegistryID: the cache first, the service on a miss or a stale entry. */
    method GetCredentialsByRegistryID(registryID: string, response: TokenResponse, now: Time)
      returns (r: Result<Tokens.Auth, Error>)
      requires Valid()
      modifies this, cache
      ensures Valid()
      ensures
        var res := Resolve(old(cache.View()), cache.isValid, registryID, response, now);
        && r == res.result
        && requests == old(requests) + (if res.called then [RequestFor(registryID)] else [])
        && cache.View() == Apply(old(cache.View()), res.write)
    {
      var cachedEntry := cache.Get(registryID);
      if cachedEntry.Some? && cache.isValid(cachedEntry.value, now) {
        return Tokens.ExtractToken(cachedEntry.value.authorizationToken, cachedEntry.value.proxyEndpoint);
      }
      var auth := GetAuthorizationToken(registryID, response, now);
      if auth.Err? && cachedEntry.Some? {
        return Tokens.ExtractToken(cachedEntry.value.authorizationToken, cachedEntry.value.proxyEndpoint);
      }
      return auth;
    }

    /**
     * GetCredentials: the registry the URL names, resolved as GetCredentialsByRegistryID does;
     * a URL that names none is refused before the cache or the service is consulted.
     */
    method GetCredentials(serverURL: string, response: TokenResponse, now: Time)
      returns (r: Result<Tokens.Auth, Error>)
      requires Valid()
      modifies this, cache
      ensures Valid()
      ensures Registries.ExtractRegistry(serverURL).Err? ==>
        && r == Err(Registries.ExtractRegistry(serverURL).error)
        && requests == old(requests)
        && cache.View() == old(cache.View())
      ensures Registries.ExtractRegistry(serverURL).Ok? ==>
        var id := Registries.ExtractRegistry(serverURL).value.id;
        var res := Resolve(old(cache.View()), cache.isValid, id, response, now);
        && r == res.result
        && requests == old(requests) + (if res.called then [RequestFor(id)] else [])
        && cache.View() == Apply(old(cache.View()), res.write)
    {
      var registry := Registries.ExtractRegistry(serverURL);
      if registry.Err? {
        return Err(registry.error);
      }
      r := GetCredentialsByRegistryID(registry.value.id, response, now);
    }

    /**
     * ListCredentials: every cached entry that decodes, in listing order; when none does, the
     * credential of the default registry, fetched from the service.
     */
    method ListCredentials(response: TokenResponse, now: Time)
      returns (auths: seq<Tokens.Auth>, err: Option<Error>)
      requires Valid()
      modifies this, cache
      ensures Valid()
      ensures
        var res := ListAll(old(cache.View()), response, now);
        && auths == res.auths && err == res.err
        && requests == old(requests) + (if res.called then [RequestFor("")] else [])
        && cache.View() == Apply(old(cache.View()), res.write)
    {
      auths := [];
      var entries := cache.List();
      var i := 0;
      while i < |entries|
        invariant 0 <= i <= |entries|
        invariant auths == DecodeAll(entries[..i])
        invariant Valid() && cache.View() == old(cache.View()) && requests == old(requests)
      {
        var authEntry := entries[i];
        var auth := Tokens.ExtractToken(authEntry.authorizationToken, authEntry.proxyEndpoint);
        DecodeAllStep(entries, i);
        assert Decoded(authEntry) == if auth.Ok? then Some(auth.value) else None;
        if auth.Ok? {
          auths := auths + [auth.value];
        }
        i := i + 1;
      }
      assert entries[..i] == entries;
      if |auths| == 0 {
        var auth := GetAuthorizationToken("", response, now);
        if auth.Err? {
          return auths, Some(auth.error);
        }
        return auths + [auth.value], None;
      }
      return auths, None;
    }
  }
}
