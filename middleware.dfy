/** middleware.ts: which requests skip the middleware, the per-request
    nosecone configuration that carries the nonce, and the headers of the
    response that lets the request continue. */
module SecurityMiddleware {
  import opened Common
  import LibUtils

  // ---------------------------------------------------------------------
  // The static-asset bypass

  /** The extensions of the bypass pattern, in the order it lists them. */
  const Extensions: seq<string> := [
    "ico", "png", "jpg", "jpeg", "gif", "svg", "webp", "avif", "mp4", "webm",
    "mov", "avi", "css", "js", "woff", "woff2", "ttf", "eot", "otf", "pdf",
    "zip", "rar", "7z", "mp3", "wav", "ogg", "m4a", "json", "xml", "txt", "md"]

  /** The pattern `\.(ico|png|...|md)$`: the path ends with a dot and one of
      the extensions, compared case-sensitively. */
  predicate HasAssetExtension(path: string) {
    exists i :: 0 <= i < |Extensions| && EndsWith(path, "." + Extensions[i])
  }

  /** The requests that are passed on untouched. */
  predicate IsStaticAsset(path: string): (asset: bool)
    ensures StartsWith(path, "/_next") || StartsWith(path, "/api") ==> asset
    ensures asset && !StartsWith(path, "/_next") && !StartsWith(path, "/api") ==>
              exists i :: 0 <= i < |Extensions| && EndsWith(path, "." + Extensions[i])
  {
    StartsWith(path, "/_next") || StartsWith(path, "/api") || HasAssetExtension(path)
  }

  /** Every extension is spelled in lower-case letters and digits. */
  predicate LowerOrDigit(c: char) {
    'a' <= c <= 'z' || '0' <= c <= '9'
  }

  lemma ExtensionsLowerCase()
    ensures forall i :: 0 <= i < |Extensions| ==> |Extensions[i]| > 0 && LowerOrDigit(Extensions[i][|Extensions[i]| - 1])
  {
  }

  /** The match is case-sensitive: a path ending in an upper-case letter, such
      as `/a.PNG`, has no asset extension. */
  lemma UpperCaseIsNoAsset(path: string)
    requires |path| > 0 && 'A' <= path[|path| - 1] <= 'Z'
    ensures !HasAssetExtension(path)
  {
    ExtensionsLowerCase();
    forall i | 0 <= i < |Extensions| ensures !EndsWith(path, "." + Extensions[i]) {
      var e := "." + Extensions[i];
      if |e| <= |path| {
        assert path[|path| - |e|..][|e| - 1] == path[|path| - 1];
      }
    }
  }

  /** A path without a dot has no asset extension. */
  lemma NoDotIsNoAsset(path: string)
    requires forall i :: 0 <= i < |path| ==> path[i] != '.'
    ensures !HasAssetExtension(path)
  {
    forall i | 0 <= i < |Extensions| ensures !EndsWith(path, "." + Extensions[i]) {
      var e := "." + Extensions[i];
      if |e| <= |path| {
        assert path[|path| - |e|..][0] == path[|path| - |e|];
      }
    }
  }

  /** The prefixes are tested as plain prefixes, not as path segments, and
      the extension test is case-sensitive. */
  lemma BypassExamples()
    ensures IsStaticAsset("/apiary")
    ensures IsStaticAsset("/_next/static/chunks/main.js")
    ensures IsStaticAsset("/docs/readme.md")
    ensures !IsStaticAsset("/a.PNG")
    ensures !IsStaticAsset("/legal/privacy")
  {
    assert StartsWith("/apiary", "/api");
    assert StartsWith("/_next/static/chunks/main.js", "/_next");
    assert EndsWith("/docs/readme.md", "." + Extensions[30]);
    assert "/a.PNG"[..6][1] != "/_next"[1];
    assert "/a.PNG"[..4][2] != "/api"[2];
    UpperCaseIsNoAsset("/a.PNG");
    NoDotIsNoAsset("/legal/privacy");
  }

  // ---------------------------------------------------------------------
  // createNoseconeConfig

  /** A content-security-policy directive: a source list, or a switch such as
      `upgradeInsecureRequests`. */
  datatype Directive = Sources(list: seq<string>) | Flag(on: bool)

  /** Nosecone's options, as far as the configuration touches them: the
      top-level settings other than the content security policy, the policy's
      settings other than its directives, and the directives. Settings the
      configuration only copies are kept as opaque strings. */
  datatype NoseconeOptions = NoseconeOptions(settings: map<string, string>, cspSettings: map<string, string>, directives: map<string, Directive>)

  /** The directives the middleware sets for every request. */
  function DirectiveOverrides(nonce: string, nodeEnv: Option<string>): map<string, Directive> {
    map[
      "scriptSrc" := Sources(["'self'", "'nonce-" + nonce + "'", "https://fonts.googleapis.com"]),
      "imgSrc" := Sources(["'self'", "blob:"]),
      "fontSrc" := Sources(["'self'", "https://fonts.gstatic.com"]),
      "connectSrc" := Sources(["'self'"]),
      "upgradeInsecureRequests" := Flag(nodeEnv == Some("production"))]
  }

  const OverriddenDirectives: set<string> := {"scriptSrc", "imgSrc", "fontSrc", "connectSrc", "upgradeInsecureRequests"}

  /** `createNoseconeConfig(nonce)`: nosecone's defaults, with the directives
      above laid over the default directives. `nodeEnv` is `process.env.NODE_ENV`. */
  function CreateNoseconeConfig(nonce: string, nodeEnv: Option<string>, defaults: NoseconeOptions): (config: NoseconeOptions)
    ensures config.settings == defaults.settings && config.cspSettings == defaults.cspSettings
    ensures config.directives.Keys == defaults.directives.Keys + OverriddenDirectives
    ensures config.directives["scriptSrc"].Sources? && "'nonce-" + nonce + "'" in config.directives["scriptSrc"].list
  {
    NoseconeOptions(defaults.settings, defaults.cspSettings, defaults.directives + DirectiveOverrides(nonce, nodeEnv))
  }

  /** The configuration: the five directives take the middleware's values,
      every other default directive and setting is kept, and nothing else is added. */
  lemma ConfigDirectives(nonce: string, nodeEnv: Option<string>, defaults: NoseconeOptions)
    ensures var c := CreateNoseconeConfig(nonce, nodeEnv, defaults);
            && c.settings == defaults.settings && c.cspSettings == defaults.cspSettings
            && c.directives.Keys == defaults.directives.Keys + OverriddenDirectives
            && c.directives["scriptSrc"] == Sources(["'self'", "'nonce-" + nonce + "'", "https://fonts.googleapis.com"])
            && c.directives["imgSrc"] == Sources(["'self'", "blob:"])
            && c.directives["fontSrc"] == Sources(["'self'", "https://fonts.gstatic.com"])
            && c.directives["connectSrc"] == Sources(["'self'"])
            && (forall k :: k in defaults.directives && k !in OverriddenDirectives ==> c.directives[k] == defaults.directives[k])
  {
  }

  /** `upgradeInsecureRequests` is on exactly in production. */
  lemma UpgradeOnlyInProduction(nonce: string, nodeEnv: Option<string>, defaults: NoseconeOptions)
    ensures CreateNoseconeConfig(nonce, nodeEnv, defaults).directives["upgradeInsecureRequests"].on
            <==> nodeEnv == Some("production")
  {
  }

  /** The configuration is a function of the nonce that tells nonces apart:
      two requests get the same configuration exactly when they got the same nonce. */
  lemma ConfigDeterminesNonce(n1: string, n2: string, nodeEnv: Option<string>, defaults: NoseconeOptions)
    ensures CreateNoseconeConfig(n1, nodeEnv, defaults) == CreateNoseconeConfig(n2, nodeEnv, defaults) <==> n1 == n2
  {
    if CreateNoseconeConfig(n1, nodeEnv, defaults) == CreateNoseconeConfig(n2, nodeEnv, defaults) {
      var s1 := "'nonce-" + n1 + "'";
      var s2 := "'nonce-" + n2 + "'";
      assert CreateNoseconeConfig(n1, nodeEnv, defaults).directives["scriptSrc"].list[1] == s1;
      assert s1 == s2;
      assert n1 == s1[7..|s1| - 1];
      assert n2 == s2[7..|s2| - 1];
    }
  }

  // ---------------------------------------------------------------------
  // The response

  /** A response's header list, updated in place by `set`. */
  class Headers {
    var entries: map<string, string>

    constructor ()
      ensures entries == map[]
    {
      entries := map[];
    }

    /** `headers.set(key, value)`: the key now maps to the value, which
        replaces any earlier one. */
    method Set(key: string, value: string)
      modifies this
      ensures entries == old(entries)[key := value]
    {
      entries := entries[key := value];
    }
  }

  /** `m` after `set` is called with each pair, in order. */
  function ApplyHeaders(m: map<string, string>, pairs: seq<(string, string)>): map<string, string>
    decreases |pairs|
  {
    if pairs == [] then m
    else ApplyHeaders(m, pairs[..|pairs| - 1])[pairs[|pairs| - 1].0 := pairs[|pairs| - 1].1]
  }

  /** A key is present after the updates when it was already or some pair sets
      it; the last pair that sets it gives its value; an untouched key keeps its value. */
  lemma {:induction false} ApplyHeadersLastWins(m: map<string, string>, pairs: seq<(string, string)>, k: string)
    ensures k in ApplyHeaders(m, pairs) <==> k in m || exists i :: 0 <= i < |pairs| && pairs[i].0 == k
    ensures forall i :: 0 <= i < |pairs| && pairs[i].0 == k && (forall j :: i < j < |pairs| ==> pairs[j].0 != k)
              ==> ApplyHeaders(m, pairs)[k] == pairs[i].1
    ensures (forall i :: 0 <= i < |pairs| ==> pairs[i].0 != k) && k in m ==> ApplyHeaders(m, pairs)[k] == m[k]
    decreases |pairs|
  {
    if pairs != [] {
      var init := pairs[..|pairs| - 1];
      var last := pairs[|pairs| - 1];
      ApplyHeadersLastWins(m, init, k);
      assert forall i :: 0 <= i < |init| ==> init[i] == pairs[i];
      if last.0 != k {
        forall i | 0 <= i < |pairs| && pairs[i].0 == k && (forall j :: i < j < |pairs| ==> pairs[j].0 != k)
          ensures ApplyHeaders(m, pairs)[k] == pairs[i].1
        {
          assert i < |init|;
          assert init[i] == pairs[i];
        }
        if exists i :: 0 <= i < |pairs| && pairs[i].0 == k {
          var i :| 0 <= i < |pairs| && pairs[i].0 == k;
          assert init[i].0 == k;
        }
      }
    }
  }

  /** What the middleware returns. */
  datatype Response =
    | PassThrough
      // `NextResponse.next()`: the request goes on, no header is added
    | PlainResponse(status: int, body: string)
      // `new Response(body, { status })`
    | Secured(headers: map<string, string>, forwarded: map<string, string>)
      // `NextResponse.next(...)` with the response headers set, and the
      // request headers the rest of the application will see

  /** The headers of a secured response: nosecone's headers for the
      request's configuration, then `x-nonce`. */
  function SecuredHeaders(nonce: string, nodeEnv: Option<string>, defaults: NoseconeOptions,
                          nosecone: NoseconeOptions -> seq<(string, string)>): map<string, string>
  {
    ApplyHeaders(map[], nosecone(CreateNoseconeConfig(nonce, nodeEnv, defaults)))["x-nonce" := nonce]
  }

  /** What `middleware` returns, as the source writes it. `nonce` is the
      outcome of `generateNonce()`; `nosecone` stands for `nosecone.default`,
      the headers it produces from a configuration, in their iteration order;
      `requestHeaders` are the incoming request's headers. */
  function MiddlewareSpec(path: string, nonce: Result<string, LibUtils.NonceError>, nodeEnv: Option<string>,
                          defaults: NoseconeOptions, nosecone: NoseconeOptions -> seq<(string, string)>,
                          requestHeaders: map<string, string>): (response: Response)
    ensures response.PassThrough? <==> IsStaticAsset(path)
    ensures response.PlainResponse? <==> !IsStaticAsset(path) && nonce.Err?
    ensures response.Secured? ==> nonce.Ok? && response.forwarded == requestHeaders
                                  && "x-nonce" in response.headers && response.headers["x-nonce"] == nonce.value
  {
    if IsStaticAsset(path) then PassThrough
    else match nonce
      case Err(_) => PlainResponse(500, "Internal Server Error")
      case Ok(n) => Secured(SecuredHeaders(n, nodeEnv, defaults, nosecone), requestHeaders)
  }

  /** `middleware(request)`, with the header list of the fresh response updated
      one `set` at a time. */
  method Middleware(path: string, nonce: Result<string, LibUtils.NonceError>, nodeEnv: Option<string>,
                    defaults: NoseconeOptions, nosecone: NoseconeOptions -> seq<(string, string)>,
                    requestHeaders: map<string, string>)
    returns (response: Response)
    ensures response == MiddlewareSpec(path, nonce, nodeEnv, defaults, nosecone, requestHeaders)
  {
    if StartsWith(path, "/_next") || StartsWith(path, "/api") || HasAssetExtension(path) {
      return PassThrough;
    }
    if nonce.Err? {
      return PlainResponse(500, "Internal Server Error");
    }
    var requestNonce := nonce.value;
    var noseconeConfig := CreateNoseconeConfig(requestNonce, nodeEnv, defaults);
    var noseconeHeaders := nosecone(noseconeConfig);
    var headers := new Headers();
    var i := 0;
    while i < |noseconeHeaders|
      invariant 0 <= i <= |noseconeHeaders|
      invariant headers.entries == ApplyHeaders(map[], noseconeHeaders[..i])
    {
      headers.Set(noseconeHeaders[i].0, noseconeHeaders[i].1);
      assert noseconeHeaders[..i + 1][..i] == noseconeHeaders[..i];
      i := i + 1;
    }
    assert noseconeHeaders[..i] == noseconeHeaders;
    headers.Set("x-nonce", requestNonce);
    response := Secured(headers.entries, requestHeaders);
  }

  // ---------------------------------------------------------------------
  // Properties of the middleware

  /** Static assets are passed on without a nonce and without any header,
      whatever the nonce generation would have done; every other request is
      answered with either the 500 response or a secured one. */
  lemma BypassRule(path: string, nonce: Result<string, LibUtils.NonceError>, nodeEnv: Option<string>,
                   defaults: NoseconeOptions, nosecone: NoseconeOptions -> seq<(string, string)>,
                   requestHeaders: map<string, string>)
    ensures MiddlewareSpec(path, nonce, nodeEnv, defaults, nosecone, requestHeaders).PassThrough? <==> IsStaticAsset(path)
    ensures IsStaticAsset(path) ==>
              forall other: Result<string, LibUtils.NonceError> ::
                MiddlewareSpec(path, other, nodeEnv, defaults, nosecone, requestHeaders) == PassThrough
  {
  }

  /** A failed nonce generation gives a 500 with the plain body, and no
      security header at all. */
  lemma FailureRule(path: string, error: LibUtils.NonceError, nodeEnv: Option<string>,
                    defaults: NoseconeOptions, nosecone: NoseconeOptions -> seq<(string, string)>,
                    requestHeaders: map<string, string>)
    requires !IsStaticAsset(path)
    ensures MiddlewareSpec(path, Err(error), nodeEnv, defaults, nosecone, requestHeaders) == PlainResponse(500, "Internal Server Error")
  {
  }

  /** A secured response carries `x-nonce = N`, overriding any header nosecone
      produced under that name; every other header nosecone produced is present
      with the value of its last occurrence; no other header is added; and the
      request headers are forwarded unchanged. */
  lemma SecuredRule(path: string, n: string, nodeEnv: Option<string>,
                    defaults: NoseconeOptions, nosecone: NoseconeOptions -> seq<(string, string)>,
                    requestHeaders: map<string, string>)
    requires !IsStaticAsset(path)
    ensures var r := MiddlewareSpec(path, Ok(n), nodeEnv, defaults, nosecone, requestHeaders);
            var pairs := nosecone(CreateNoseconeConfig(n, nodeEnv, defaults));
            && r.Secured?
            && "x-nonce" in r.headers && r.headers["x-nonce"] == n
            && (forall k :: k != "x-nonce" ==> (k in r.headers <==> exists i :: 0 <= i < |pairs| && pairs[i].0 == k))
            && (forall i :: 0 <= i < |pairs| && pairs[i].0 != "x-nonce" && (forall j :: i < j < |pairs| ==> pairs[j].0 != pairs[i].0)
                  ==> r.headers[pairs[i].0] == pairs[i].1)
            && r.forwarded == requestHeaders
  {
    var pairs := nosecone(CreateNoseconeConfig(n, nodeEnv, defaults));
    var applied := ApplyHeaders(map[], pairs);
    forall k | k != "x-nonce"
      ensures k in SecuredHeaders(n, nodeEnv, defaults, nosecone) <==> exists i :: 0 <= i < |pairs| && pairs[i].0 == k
    {
      ApplyHeadersLastWins(map[], pairs, k);
    }
    forall i | 0 <= i < |pairs| && pairs[i].0 != "x-nonce" && (forall j :: i < j < |pairs| ==> pairs[j].0 != pairs[i].0)
      ensures SecuredHeaders(n, nodeEnv, defaults, nosecone)[pairs[i].0] == pairs[i].1
    {
      ApplyHeadersLastWins(map[], pairs, pairs[i].0);
    }
  }

  // ---------------------------------------------------------------------
  // The request headers the application sees

  /** The middleware as evidently intended: the nonce is also set on the
      forwarded request headers, where `headers()` in a server component
      reads it. */
  function CorrectedMiddlewareSpec(path: string, nonce: Result<string, LibUtils.NonceError>, nodeEnv: Option<string>,
                                   defaults: NoseconeOptions, nosecone: NoseconeOptions -> seq<(string, string)>,
                                   requestHeaders: map<string, string>): (r: Response)
    ensures r.Secured? ==> nonce.Ok? && "x-nonce" in r.forwarded && r.forwarded["x-nonce"] == nonce.value
    ensures r.Secured? ==> "x-nonce" in r.headers && r.headers["x-nonce"] == nonce.value
    ensures r.Secured? ==> forall k :: k in requestHeaders && k != "x-nonce" ==> k in r.forwarded && r.forwarded[k] == requestHeaders[k]
  {
    if IsStaticAsset(path) then PassThrough
    else match nonce
      case Err(_) => PlainResponse(500, "Internal Server Error")
      case Ok(n) => Secured(SecuredHeaders(n, nodeEnv, defaults, nosecone), requestHeaders["x-nonce" := n])
  }

  /** The correction changes only the forwarded request headers of a secured
      response, which gain `x-nonce`; every other outcome is the same. */
  lemma CorrectionKeepsResponse(path: string, nonce: Result<string, LibUtils.NonceError>, nodeEnv: Option<string>,
                                defaults: NoseconeOptions, nosecone: NoseconeOptions -> seq<(string, string)>,
                                requestHeaders: map<string, string>)
    ensures var c := CorrectedMiddlewareSpec(path, nonce, nodeEnv, defaults, nosecone, requestHeaders);
            var w := MiddlewareSpec(path, nonce, nodeEnv, defaults, nosecone, requestHeaders);
            && (!w.Secured? ==> c == w)
            && (w.Secured? ==> c.Secured? && c.headers == w.headers && c.forwarded == w.forwarded["x-nonce" := nonce.value])
  {
  }
}
