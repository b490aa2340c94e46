/** `SetHeaders`: the header map of one request, built by layered
    overwrites. Each layer replaces whole value lists:
      1. the client-identification header,
      2. the `keyvals` pairs, in order,
      3. `User-Agent`,
      4. `Content-Type`, when non-empty,
      5. the caller's headers, copied under their own names.
    Layers 1-4 go through `SetHeader`, which canonicalises the name with
    `canon`; layer 5 does not. An odd number of `keyvals` is an error. */
module Headers {
  import opened Wrappers

  /** Header name to values. */
  type Header = map<string, seq<string>>

  const ClientHeaderName: string := "x-goog-api-client"
  const UserAgentName: string := "User-Agent"
  const ContentTypeName: string := "Content-Type"

  /** Why no header map was produced: `keyvals` ended with a key that has
      no value. */
  datatype HeaderError = OddKeyvals(count: nat)

  /** Go's `http.Header.Set`: replaces the values under the canonical form
      of `name` by the single value `value`. */
  function SetHeader(h: Header, canon: string -> string, name: string, value: string): (r: Header)
    ensures Lookup(r, canon(name)) == Some([value])
    ensures forall x | x != canon(name) :: Lookup(r, x) == Lookup(h, x)
  {
    h[canon(name) := [value]]
  }

  /** The value of the last pair of `keyvals` whose canonical name is `x`. */
  function LastPairValue(canon: string -> string, keyvals: seq<string>, x: string): Option<string>
    requires |keyvals| % 2 == 0
  {
    if |keyvals| == 0 then None
    else if canon(keyvals[|keyvals| - 2]) == x then Some(keyvals[|keyvals| - 1])
    else LastPairValue(canon, keyvals[..|keyvals| - 2], x)
  }

  /** The pair whose name sits at position `p` of `keyvals` is the last
      pair with that canonical name. */
  predicate IsLastPair(canon: string -> string, keyvals: seq<string>, p: int)
  {
    && 0 <= p && p % 2 == 0 && p + 1 < |keyvals|
    && forall q | p < q < |keyvals| && q % 2 == 0 :: canon(keyvals[q]) != canon(keyvals[p])
  }

  /** The value of the last pair naming `x` is what `LastPairValue` reports. */
  lemma {:induction false} LastPairWins(canon: string -> string, keyvals: seq<string>, p: int)
    requires |keyvals| % 2 == 0
    requires IsLastPair(canon, keyvals, p)
    ensures LastPairValue(canon, keyvals, canon(keyvals[p])) == Some(keyvals[p + 1])
    decreases |keyvals|
  {
    var n := |keyvals|;
    if p + 2 < n {
      assert canon(keyvals[n - 2]) != canon(keyvals[p]);
      var init := keyvals[..n - 2];
      assert forall q | 0 <= q < |init| :: init[q] == keyvals[q];
      LastPairWins(canon, init, p);
    }
  }

  /** `LastPairValue` finds nothing exactly when no pair names `x`. */
  lemma {:induction false} LastPairAbsent(canon: string -> string, keyvals: seq<string>, x: string)
    requires |keyvals| % 2 == 0
    ensures LastPairValue(canon, keyvals, x).None?
            <==> forall q | 0 <= q < |keyvals| && q % 2 == 0 :: canon(keyvals[q]) != x
    decreases |keyvals|
  {
    var n := |keyvals|;
    if n > 0 {
      var init := keyvals[..n - 2];
      LastPairAbsent(canon, init, x);
      assert forall q | 0 <= q < |init| :: init[q] == keyvals[q];
      assert forall q | 0 <= q < n && q % 2 == 0 :: q < n - 2 || q == n - 2;
    }
  }

  /** The entry of `x` after layers 1 and 2. */
  function BaseLayers(canon: string -> string, clientId: string, keyvals: seq<string>, x: string): Option<seq<string>>
    requires |keyvals| % 2 == 0
  {
    match LastPairValue(canon, keyvals, x)
    case Some(v) => Some([v])
    case None => if x == canon(ClientHeaderName) then Some([clientId]) else None
  }

  /** The entry of `x` in the finished header map, read from the topmost
      layer that mentions `x`. */
  function Expected(canon: string -> string, clientId: string, userAgent: string, contentType: string,
                    userHeaders: Header, keyvals: seq<string>, x: string): Option<seq<string>>
    requires |keyvals| % 2 == 0
  {
    if x in userHeaders then Some(userHeaders[x])
    else if contentType != "" && x == canon(ContentTypeName) then Some([contentType])
    else if x == canon(UserAgentName) then Some([userAgent])
    else BaseLayers(canon, clientId, keyvals, x)
  }

  /** Builds the request headers. Fails exactly when `keyvals` has odd
      length; otherwise every name holds what its topmost layer put there. */
  method SetHeaders(canon: string -> string, clientId: string, userAgent: string, contentType: string,
                    userHeaders: Header, keyvals: seq<string>)
    returns (r: Result<Header, HeaderError>)
    ensures r.Failure? <==> |keyvals| % 2 == 1
    ensures r.Success? ==> forall x ::
              Lookup(r.value, x) == Expected(canon, clientId, userAgent, contentType, userHeaders, keyvals, x)
    ensures r.Success? ==> forall x | x in userHeaders :: x in r.value && r.value[x] == userHeaders[x]
    ensures r.Success? && canon(UserAgentName) !in userHeaders
              && (contentType == "" || canon(ContentTypeName) != canon(UserAgentName))
            ==> Lookup(r.value, canon(UserAgentName)) == Some([userAgent])
    ensures r.Success? && contentType != "" && canon(ContentTypeName) !in userHeaders
            ==> Lookup(r.value, canon(ContentTypeName)) == Some([contentType])
    ensures r.Success? && contentType == "" && canon(ContentTypeName) !in userHeaders
              && canon(ContentTypeName) != canon(UserAgentName)
              && canon(ContentTypeName) != canon(ClientHeaderName)
              && (forall q | 0 <= q < |keyvals| && q % 2 == 0 :: canon(keyvals[q]) != canon(ContentTypeName))
            ==> canon(ContentTypeName) !in r.value
    ensures r.Success? ==> forall p | IsLastPair(canon, keyvals, p) ::
              var x := canon(keyvals[p]);
              (&& x !in userHeaders
               && x != canon(UserAgentName)
               && (contentType == "" || x != canon(ContentTypeName)))
              ==> Lookup(r.value, x) == Some([keyvals[p + 1]])
  {
    var h: Header := map[];
    h := SetHeader(h, canon, ClientHeaderName, clientId);
    var i := 0;
    while i < |keyvals|
      invariant 0 <= i <= |keyvals| && i % 2 == 0
      invariant forall x :: Lookup(h, x) == BaseLayers(canon, clientId, keyvals[..i], x)
    {
      if i + 1 == |keyvals| {
        return Failure(OddKeyvals(|keyvals|));
      }
      assert keyvals[..i + 2][..i] == keyvals[..i];
      h := SetHeader(h, canon, keyvals[i], keyvals[i + 1]);
      i := i + 2;
    }
    assert keyvals[..i] == keyvals;
    h := SetHeader(h, canon, UserAgentName, userAgent);
    if contentType != "" {
      h := SetHeader(h, canon, ContentTypeName, contentType);
    }
    h := h + userHeaders;
    r := Success(h);
    LastPairAbsent(canon, keyvals, canon(ContentTypeName));
    assert Lookup(h, canon(ContentTypeName))
        == Expected(canon, clientId, userAgent, contentType, userHeaders, keyvals, canon(ContentTypeName));
    forall p | IsLastPair(canon, keyvals, p)
      ensures LastPairValue(canon, keyvals, canon(keyvals[p])) == Some(keyvals[p + 1])
    {
      LastPairWins(canon, keyvals, p);
    }
  }
}
