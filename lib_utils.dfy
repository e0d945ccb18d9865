/** lib/utils.ts: the responsive grid-column resolver, the nonce generator and
    the choice of the public base URL. */
module LibUtils {
  import opened Common
  import opened Responsive
  import Base64

  // ---------------------------------------------------------------------
  // buildResponsiveGridClasses

  /** `value: number | Record<string, number> | undefined` */
  datatype GridValue = GridNumber(n: int) | GridRecord(r: PerBreakpoint<int>) | GridUndefined

  /** What one breakpoint adds: the table's class for a truthy value, and
      nothing for an absent or 0 value or a missing entry. */
  function GridAt(r: PerBreakpoint<int>, classMap: Table<int>, bp: Breakpoint): seq<string> {
    var v := r.At(bp);
    if Truthy(v, Some(0)) then Found(Lookup(classMap, Name(bp), v.value)) else []
  }

  /** The prefixed classes for the breakpoints `bps`, in order. */
  function GridOverrides(r: PerBreakpoint<int>, classMap: Table<int>, bps: seq<Breakpoint>): seq<string>
    decreases |bps|
  {
    if bps == [] then [] else GridOverrides(r, classMap, bps[..|bps| - 1]) + GridAt(r, classMap, bps[|bps| - 1])
  }

  /** The classes `buildResponsiveGridClasses` returns. */
  function GridTokens(value: GridValue, classMap: Table<int>): seq<string> {
    match value
    case GridNumber(n) => Found(Lookup(classMap, "", n))
    case GridUndefined => []
    case GridRecord(r) => Found(Lookup(classMap, "", NumberBase(r, 1))) + GridOverrides(r, classMap, Upper)
  }

  /** The resolver as the source writes it: the base class first, then one
      `forEach` step per breakpoint md..2xl, each pushing at most one class. */
  method BuildResponsiveGridClasses(value: GridValue, classMap: Table<int>) returns (classes: seq<string>)
    ensures classes == GridTokens(value, classMap)
    ensures value.GridNumber? ==> |classes| <= 1
    ensures |classes| <= 5
  {
    if value.GridNumber? {
      var className := Lookup(classMap, "", value.n);
      return if className.Some? then [className.value] else [];
    }
    if value.GridUndefined? {
      return [];
    }
    var r := value.r;
    classes := [];
    var defaultValue := NumberBase(r, 1);
    var defaultClassName := Lookup(classMap, "", defaultValue);
    if defaultClassName.Some? {
      classes := classes + [defaultClassName.value];
    }
    ghost var base := classes;
    var i := 0;
    while i < |Upper|
      invariant 0 <= i <= |Upper|
      invariant |base| <= 1
      invariant classes == base + GridOverrides(r, classMap, Upper[..i])
      invariant |classes| <= |base| + i
    {
      var breakpoint := Upper[i];
      var breakpointValue := r.At(breakpoint);
      if breakpointValue.Some? && breakpointValue.value != 0 {
        var className := Lookup(classMap, Name(breakpoint), breakpointValue.value);
        if className.Some? {
          classes := classes + [className.value];
        }
      }
      assert Upper[..i + 1][..i] == Upper[..i];
      i := i + 1;
    }
    assert Upper[..4] == Upper;
  }

  /** Every class returned is an entry of `classMap`: no class is ever
      synthesised, whatever the input. */
  lemma {:induction false} GridOverridesFromTable(r: PerBreakpoint<int>, classMap: Table<int>, bps: seq<Breakpoint>)
    ensures forall k :: 0 <= k < |GridOverrides(r, classMap, bps)| ==> FromTable(classMap, GridOverrides(r, classMap, bps)[k])
    decreases |bps|
  {
    if bps != [] {
      var init := bps[..|bps| - 1];
      var last := bps[|bps| - 1];
      GridOverridesFromTable(r, classMap, init);
      var xs := GridOverrides(r, classMap, bps);
      var left := GridOverrides(r, classMap, init);
      assert xs == left + GridAt(r, classMap, last);
      forall k | 0 <= k < |xs| ensures FromTable(classMap, xs[k]) {
        if k < |left| {
          assert xs[k] == left[k];
        } else {
          var v := r.At(last).value;
          assert classMap[Name(last)][v] == xs[k];
        }
      }
    }
  }

  lemma GridTokensFromTable(value: GridValue, classMap: Table<int>)
    ensures forall k :: 0 <= k < |GridTokens(value, classMap)| ==> FromTable(classMap, GridTokens(value, classMap)[k])
  {
    match value
    case GridNumber(n) => FoundFromTable(classMap, "", n);
    case GridUndefined =>
    case GridRecord(r) =>
      var base := Found(Lookup(classMap, "", NumberBase(r, 1)));
      var rest := GridOverrides(r, classMap, Upper);
      FoundFromTable(classMap, "", NumberBase(r, 1));
      GridOverridesFromTable(r, classMap, Upper);
      forall k | 0 <= k < |base + rest| ensures FromTable(classMap, (base + rest)[k]) {
        if k < |base| { assert (base + rest)[k] == base[k]; } else { assert (base + rest)[k] == rest[k - |base|]; }
      }
  }

  /** A number gives exactly the unprefixed table entry for it, or nothing;
      `undefined` gives nothing. */
  lemma GridSingleValue(n: int, classMap: Table<int>)
    ensures "" in classMap && n in classMap[""] && classMap[""][n] != "" ==> GridTokens(GridNumber(n), classMap) == [classMap[""][n]]
    ensures !("" in classMap && n in classMap[""]) ==> GridTokens(GridNumber(n), classMap) == []
    ensures GridTokens(GridUndefined, classMap) == []
  {
  }

  /** The md..2xl part, breakpoint by breakpoint. */
  lemma GridOverridesUpper(r: PerBreakpoint<int>, classMap: Table<int>)
    ensures GridOverrides(r, classMap, Upper)
            == GridAt(r, classMap, Md) + GridAt(r, classMap, Lg) + GridAt(r, classMap, Xl) + GridAt(r, classMap, Xxl)
  {
    assert Upper[..3] == [Md, Lg, Xl];
    assert [Md, Lg, Xl][..2] == [Md, Lg];
    assert [Md, Lg][..1] == [Md];
    assert [Md][..0] == [];
  }

  /** `{ md: 4, lg: 8 }`: the md value is the base and is also emitted with the
      md prefix, and lg adds its own class; each only if the table has it. */
  lemma GridMdLgExample(classMap: Table<int>)
    ensures GridTokens(GridRecord(PerBreakpoint(None, Some(4), Some(8), None, None)), classMap)
            == Found(Lookup(classMap, "", 4)) + Found(Lookup(classMap, "md", 4)) + Found(Lookup(classMap, "lg", 8))
  {
    var r := PerBreakpoint(None, Some(4), Some(8), None, None);
    GridOverridesUpper(r, classMap);
    assert NumberBase(r, 1) == 4;
  }

  /** A record with no truthy value gets the base class for 1 and nothing else. */
  lemma GridAllFalsy(r: PerBreakpoint<int>, classMap: Table<int>)
    requires forall bp :: !Truthy(r.At(bp), Some(0))
    ensures GridTokens(GridRecord(r), classMap) == Found(Lookup(classMap, "", 1))
  {
    GridOverridesUpper(r, classMap);
    FirstTruthyIsFirst(r.Values(), 1, Some(0));
    assert forall k :: 0 <= k < 5 ==> r.Values()[k] == r.At(Breakpoints[k]);
  }

  // ---------------------------------------------------------------------
  // generateNonce

  /** The base64 encoder the runtime offers: `window.btoa` in a browser,
      `Buffer` under Node.js, or neither. */
  datatype Base64Support = WindowBtoa | NodeBuffer | NoEncoder

  datatype NonceError =
    | NoRandomSource   // `crypto.getRandomValues` is not reachable
    | NoBase64Encoder  // "No base64 encoding method available"

  /** The length of the random array. */
  const NonceBytes := 16

  /** `generateNonce()`. `random` is what `crypto.getRandomValues` writes into
      the fresh 16-byte array, or `None` when there is no secure random
      source; `support` says which encoder the runtime has. Both encoders give
      the base64 of section 4 of RFC 4648. */
  function GenerateNonce(random: Option<seq<Base64.byte>>, support: Base64Support): (r: Result<string, NonceError>)
    requires random.Some? ==> |random.value| == NonceBytes
    ensures random.None? ==> r == Err(NoRandomSource)
    ensures random.Some? && support == NoEncoder ==> r == Err(NoBase64Encoder)
    ensures r.Ok? <==> random.Some? && support != NoEncoder
    ensures random.Some? && support != NoEncoder ==> r == Ok(Base64.Encode(random.value))
    ensures r.Ok? ==> |r.value| == 24 && EndsWith(r.value, "==")
    ensures r.Ok? ==> Base64.Decode(r.value) == Some(random.value)
  {
    match random
    case None => Err(NoRandomSource)
    case Some(bytes) =>
      Base64.SixteenBytes(bytes);
      Base64.DecodeEncode(bytes);
      match support
      case WindowBtoa => Ok(Base64.Encode(bytes))
      case NodeBuffer => Ok(Base64.Encode(bytes))
      case NoEncoder => Err(NoBase64Encoder)
  }

  // ---------------------------------------------------------------------
  // publicUrl, up to the string handed to `new URL`

  const LocalUrl := "http://localhost:3000"

  /** `VERCEL_PROJECT_PRODUCTION_URL || VERCEL_URL || "http://localhost:3000"`;
      an unset and an empty variable are both falsy. */
  function AppUrl(productionUrl: Option<string>, vercelUrl: Option<string>): (appUrl: string)
    ensures appUrl != ""
    ensures appUrl == LocalUrl || productionUrl == Some(appUrl) || vercelUrl == Some(appUrl)
  {
    if productionUrl.Some? && productionUrl.value != "" then productionUrl.value
    else if vercelUrl.Some? && vercelUrl.value != "" then vercelUrl.value
    else LocalUrl
  }

  /** `appUrl.startsWith("http") ? appUrl : "https://" + appUrl` */
  function WithScheme(appUrl: string): (url: string)
    ensures StartsWith(url, "http") && EndsWith(url, appUrl)
  {
    if StartsWith(appUrl, "http") then
      assert appUrl[|appUrl| - |appUrl|..] == appUrl;
      appUrl
    else
      var url := "https://" + appUrl;
      StartsWithConcat(url, "http", "s://");
      assert url[|url| - |appUrl|..] == appUrl;
      url
  }

  /** The string `publicUrl` parses as its base URL. */
  function PublicUrlString(productionUrl: Option<string>, vercelUrl: Option<string>): (url: string)
    ensures StartsWith(url, "http")
    ensures EndsWith(url, AppUrl(productionUrl, vercelUrl))
  {
    WithScheme(AppUrl(productionUrl, vercelUrl))
  }

  /** Which variable wins: the production URL when set and non-empty, else the
      deployment URL when set and non-empty, else the local address. */
  lemma AppUrlChoice(productionUrl: Option<string>, vercelUrl: Option<string>)
    ensures productionUrl.Some? && productionUrl.value != "" ==> AppUrl(productionUrl, vercelUrl) == productionUrl.value
    ensures (productionUrl.None? || productionUrl.value == "") && vercelUrl.Some? && vercelUrl.value != ""
            ==> AppUrl(productionUrl, vercelUrl) == vercelUrl.value
    ensures (productionUrl.None? || productionUrl.value == "") && (vercelUrl.None? || vercelUrl.value == "")
            ==> PublicUrlString(productionUrl, vercelUrl) == LocalUrl
  {
  }

  /** `https://` is prepended exactly when the chosen string does not start
      with `http`, so a bare host such as `httpbin.org` is left without a
      scheme; applying the rule again changes nothing. */
  lemma WithSchemeRule(appUrl: string)
    ensures StartsWith(appUrl, "http") <==> WithScheme(appUrl) == appUrl
    ensures !StartsWith(appUrl, "http") <==> WithScheme(appUrl) == "https://" + appUrl
    ensures WithScheme(WithScheme(appUrl)) == WithScheme(appUrl)
    ensures WithScheme("httpbin.org") == "httpbin.org"
  {
    var w := WithScheme(appUrl);
    if !StartsWith(appUrl, "http") {
      assert w[..4] == "http";
      assert |w| != |appUrl|;
    }
  }
}
