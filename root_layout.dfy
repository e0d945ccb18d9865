/** app/layout.tsx: `RootLayout` reads the `x-nonce` request header and hands
    it to the theme provider only when it looks like base64. */
module RootLayout {
  import opened Common
  import Base64
  import LibUtils
  import SecurityMiddleware

  /** The class `[A-Za-z0-9+/]`. */
  predicate IsNonceChar(c: char) {
    'A' <= c <= 'Z' || 'a' <= c <= 'z' || '0' <= c <= '9' || c == '+' || c == '/'
  }

  /** The length of the longest prefix of `s` in `[A-Za-z0-9+/]`. */
  function NonceBodyLength(s: string): (n: nat)
    ensures n <= |s|
    ensures forall i :: 0 <= i < n ==> IsNonceChar(s[i])
    ensures n < |s| ==> !IsNonceChar(s[n])
    decreases |s|
  {
    if |s| == 0 || !IsNonceChar(s[0]) then 0
    else
      var n := 1 + NonceBodyLength(s[1..]);
      assert forall i :: 1 <= i < n ==> s[i] == s[1..][i - 1];
      n
  }

  /** `/^[A-Za-z0-9+/]+={0,2}$/.test(s)`. Since `=` is outside the class,
      the body of a match is the longest prefix in the class, and the rest
      must be at most two `=`. */
  predicate MatchesNoncePattern(s: string): (matches: bool)
    ensures matches ==> |s| >= 1 && IsNonceChar(s[0]) && |s| - NonceBodyLength(s) <= 2
  {
    var n := NonceBodyLength(s);
    n >= 1 && |s| - n <= 2 && forall i :: n <= i < |s| ==> s[i] == '='
  }

  /** `s` is a word of the regular language at split point `n`: one or more
      class characters, then zero to two `=`. */
  predicate SplitsAt(s: string, n: nat) {
    1 <= n <= |s| && |s| - n <= 2
    && (forall i :: 0 <= i < n ==> IsNonceChar(s[i]))
    && (forall i :: n <= i < |s| ==> s[i] == '=')
  }

  ghost predicate InNonceLanguage(s: string) {
    exists n: nat :: SplitsAt(s, n)
  }

  /** The matcher accepts exactly the words of the pattern's language. */
  lemma MatchesIffInLanguage(s: string)
    ensures MatchesNoncePattern(s) <==> InNonceLanguage(s)
  {
    if MatchesNoncePattern(s) {
      assert SplitsAt(s, NonceBodyLength(s));
    }
    if InNonceLanguage(s) {
      var n: nat :| SplitsAt(s, n);
      var m := NonceBodyLength(s);
      assert n < |s| ==> !IsNonceChar(s[n]);
      assert m < |s| ==> !IsNonceChar(s[m]);
      assert m == n;
    }
  }

  /** The nonce the layout passes on: absent when the header is missing or
      empty, the header itself when it matches the pattern, absent otherwise. */
  function ValidNonce(nonce: Option<string>): (validNonce: Option<string>)
    ensures validNonce.Some? <==> nonce.Some? && InNonceLanguage(nonce.value)
    ensures validNonce.Some? ==> validNonce == nonce
    ensures nonce.None? || nonce == Some("") ==> validNonce.None?
  {
    match nonce
    case None => None
    case Some(header) =>
      MatchesIffInLanguage(header);
      if header != "" && MatchesNoncePattern(header) then nonce else None
  }

  /** `headersList.get("x-nonce")` on the request headers. */
  function NonceHeader(requestHeaders: map<string, string>): Option<string> {
    if "x-nonce" in requestHeaders then Some(requestHeaders["x-nonce"]) else None
  }

  /** The nonce the theme provider receives. */
  function LayoutNonce(requestHeaders: map<string, string>): (nonce: Option<string>)
    ensures nonce.Some? ==> "x-nonce" in requestHeaders && nonce.value == requestHeaders["x-nonce"]
                            && nonce.value != "" && MatchesNoncePattern(nonce.value)
    ensures "x-nonce" !in requestHeaders ==> nonce.None?
  {
    match NonceHeader(requestHeaders)
    case None => None
    case Some(header) =>
      MatchesIffInLanguage(header);
      ValidNonce(Some(header))
  }

  /** The examples the pattern rejects: a lone `=`, an `=` inside the body,
      and three `=`; and one it accepts. */
  lemma PatternExamples()
    ensures !MatchesNoncePattern("=")
    ensures !MatchesNoncePattern("a=b")
    ensures !MatchesNoncePattern("ab===")
    ensures MatchesNoncePattern("ab+/9Z==")
  {
    assert NonceBodyLength("=") == 0;
    assert NonceBodyLength("a=b") == 1 by {
      assert "a=b"[1..] == "=b";
    }
    assert NonceBodyLength("ab===") == 2 by {
      assert "ab==="[1..] == "b===";
      assert "b==="[1..] == "===";
    }
    var s := "ab+/9Z==";
    assert SplitsAt(s, 6);
    MatchesIffInLanguage(s);
  }

  /** The class is the base64 alphabet of RFC 4648, section 4. */
  lemma NonceCharIsAlphabet(c: char)
    ensures IsNonceChar(c) <==> Base64.IsAlphabetChar(c)
  {
  }

  /** The base64 encoding of any non-empty byte string matches the pattern. */
  lemma EncodingMatches(b: seq<Base64.byte>)
    requires |b| >= 1
    ensures MatchesNoncePattern(Base64.Encode(b))
  {
    var s := Base64.Encode(b);
    Base64.EncodeShape(b);
    var n := Base64.BodyLength(|b|);
    assert n >= 2;
    forall i | 0 <= i < n ensures IsNonceChar(s[i]) {
      NonceCharIsAlphabet(s[i]);
    }
    assert SplitsAt(s, n);
    MatchesIffInLanguage(s);
  }

  /** Whatever 16 bytes the random source gives and whichever encoder the
      runtime has, a nonce `generateNonce` returns passes the layout's check unchanged. */
  lemma GeneratedNonceAccepted(random: seq<Base64.byte>, support: LibUtils.Base64Support)
    requires |random| == LibUtils.NonceBytes
    ensures var r := LibUtils.GenerateNonce(Some(random), support);
            r.Ok? ==> ValidNonce(Some(r.value)) == Some(r.value)
  {
    var r := LibUtils.GenerateNonce(Some(random), support);
    if r.Ok? {
      EncodingMatches(random);
      MatchesIffInLanguage(r.value);
    }
  }

  // ---------------------------------------------------------------------
  // Where the header comes from

  /** As written, the middleware sets `x-nonce` on the response and forwards
      the request headers unchanged, so for a request that carries no
      `x-nonce` of its own the layout gets no nonce although the response
      carries one. */
  lemma LayoutMissesMiddlewareNonce(path: string, n: string, nodeEnv: Option<string>,
                                    defaults: SecurityMiddleware.NoseconeOptions,
                                    nosecone: SecurityMiddleware.NoseconeOptions -> seq<(string, string)>,
                                    requestHeaders: map<string, string>)
    requires !SecurityMiddleware.IsStaticAsset(path)
    requires "x-nonce" !in requestHeaders
    ensures var r := SecurityMiddleware.MiddlewareSpec(path, Ok(n), nodeEnv, defaults, nosecone, requestHeaders);
            r.Secured? && r.headers["x-nonce"] == n && LayoutNonce(r.forwarded) == None
  {
    SecurityMiddleware.SecuredRule(path, n, nodeEnv, defaults, nosecone, requestHeaders);
  }

  /** As written, a valid-looking `x-nonce` sent by the client reaches the
      layout in place of the middleware's nonce. */
  lemma LayoutTakesClientNonce(path: string, n: string, nodeEnv: Option<string>,
                               defaults: SecurityMiddleware.NoseconeOptions,
                               nosecone: SecurityMiddleware.NoseconeOptions -> seq<(string, string)>,
                               requestHeaders: map<string, string>)
    requires !SecurityMiddleware.IsStaticAsset(path)
    requires requestHeaders == map["x-nonce" := "ab+/9Z=="]
    ensures var r := SecurityMiddleware.MiddlewareSpec(path, Ok(n), nodeEnv, defaults, nosecone, requestHeaders);
            LayoutNonce(r.forwarded) == Some("ab+/9Z==")
  {
    PatternExamples();
    MatchesIffInLanguage("ab+/9Z==");
  }

  /** With the nonce forwarded on the request as well, the layout receives
      exactly the nonce of the response's `x-nonce` and of the policy, for
      every nonce `generateNonce` can return, whatever the client sent. */
  lemma CorrectedLayoutGetsNonce(path: string, random: seq<Base64.byte>, support: LibUtils.Base64Support,
                                 nodeEnv: Option<string>,
                                 defaults: SecurityMiddleware.NoseconeOptions,
                                 nosecone: SecurityMiddleware.NoseconeOptions -> seq<(string, string)>,
                                 requestHeaders: map<string, string>)
    requires |random| == LibUtils.NonceBytes
    requires support != LibUtils.NoEncoder
    requires !SecurityMiddleware.IsStaticAsset(path)
    ensures var nonce := LibUtils.GenerateNonce(Some(random), support);
            var r := SecurityMiddleware.CorrectedMiddlewareSpec(path, nonce, nodeEnv, defaults, nosecone, requestHeaders);
            && nonce.Ok? && r.Secured?
            && r.headers["x-nonce"] == nonce.value
            && LayoutNonce(r.forwarded) == Some(nonce.value)
  {
    GeneratedNonceAccepted(random, support);
  }
}
