/** components/mdx/components.tsx: the headings' sizes, the choice between a
    plain anchor and a client-side link for `a`, and the defaults `img` fills in. */
module MdxComponents {
  import opened Common

  // ---------------------------------------------------------------------
  // Headings

  datatype Heading = H1 | H2 | H3 | H4 | H5 | H6

  function Level(h: Heading): nat {
    match h
    case H1 => 1
    case H2 => 2
    case H3 => 3
    case H4 => 4
    case H5 => 5
    case H6 => 6
  }

  /** The `size` each heading passes to `Header`, in pixels. */
  function HeadingSize(h: Heading): (size: nat)
    ensures 16 <= size <= 48
  {
    match h
    case H1 => 48
    case H2 => 40
    case H3 => 32
    case H4 => 24
    case H5 => 20
    case H6 => 16
  }

  /** A deeper heading is strictly smaller, and the level determines the size. */
  lemma HeadingSizesDecrease(a: Heading, b: Heading)
    ensures Level(a) < Level(b) <==> HeadingSize(a) > HeadingSize(b)
    ensures HeadingSize(a) == HeadingSize(b) <==> a == b
    ensures 16 <= HeadingSize(a) <= 48
  {
  }

  // ---------------------------------------------------------------------
  // Links

  /** `<a>` or Next.js's `<Link>`. */
  datatype LinkKind = Anchor | ClientLink

  /** The element `a` renders: its kind, `href`, the classes handed to `cn`,
      and the other attributes (`target`, `rel`, and the props passed through). */
  datatype LinkView = LinkView(kind: LinkKind, href: string, classes: seq<string>, attributes: map<string, string>)

  const LinkClass := "text-copy-16 underline underline-offset-4"

  /** The hrefs rendered as a plain anchor. */
  predicate IsPlainAnchor(href: string) {
    StartsWith(href, "http") || StartsWith(href, "mailto:") || StartsWith(href, "tel:")
  }

  /** `a`. `props` are the rest props, so they hold neither `href` nor
      `className`; spread last, they win over `target` and `rel`. */
  function RenderLink(href: string, className: string, props: map<string, string>): (view: LinkView)
    requires "href" !in props && "className" !in props
    ensures view.kind == Anchor <==> IsPlainAnchor(href)
    ensures view.href == href && |view.classes| >= 1 && view.classes[0] == LinkClass
    ensures forall k :: k in props ==> k in view.attributes && view.attributes[k] == props[k]
  {
    var classes := [LinkClass] + (if className != "" then [className] else []);
    if IsPlainAnchor(href) then
      var opener := if StartsWith(href, "http") then map["target" := "_blank", "rel" := "noopener noreferrer"] else map[];
      LinkView(Anchor, href, classes, opener + props)
    else LinkView(ClientLink, href, classes, props)
  }

  /** The anchor is chosen exactly for `http`, `mailto:` and `tel:` hrefs;
      `target` and `rel` are added exactly for `http` ones, unless a prop sets
      them; both kinds keep the href and put the link class before `className`. */
  lemma LinkRule(href: string, className: string, props: map<string, string>)
    requires "href" !in props && "className" !in props
    ensures var v := RenderLink(href, className, props);
            && (v.kind == Anchor <==> IsPlainAnchor(href))
            && v.href == href
            && v.classes[0] == LinkClass
            && (className != "" <==> |v.classes| == 2)
            && (className != "" ==> v.classes[1] == className)
            && ("target" !in props ==> ("target" in v.attributes <==> StartsWith(href, "http")))
            && ("rel" !in props ==> ("rel" in v.attributes <==> StartsWith(href, "http")))
            && (StartsWith(href, "http") && "target" !in props ==> v.attributes["target"] == "_blank")
            && (StartsWith(href, "http") && "rel" !in props ==> v.attributes["rel"] == "noopener noreferrer")
            && (forall k :: k in props ==> k in v.attributes && v.attributes[k] == props[k])
            && (forall k :: k in v.attributes && k != "target" && k != "rel" ==> k in props)
  {
  }

  /** Mail and phone links are plain anchors that open in place; relative
      paths go through the client-side router; and any href that merely starts
      with the letters `http`, as a relative `http-status` does, is treated as external. */
  lemma LinkExamples()
    ensures RenderLink("mailto:team@example.com", "", map[]) == LinkView(Anchor, "mailto:team@example.com", [LinkClass], map[])
    ensures RenderLink("tel:+15550100", "", map[]).attributes == map[]
    ensures RenderLink("/legal/terms", "", map[]).kind == ClientLink
    ensures RenderLink("http-status", "", map[]).attributes["target"] == "_blank"
  {
    NotStartsWith("mailto:team@example.com", "http", 0);
    assert StartsWith("mailto:team@example.com", "mailto:");
    NotStartsWith("tel:+15550100", "http", 0);
    assert StartsWith("tel:+15550100", "tel:");
    NotStartsWith("/legal/terms", "http", 0);
    NotStartsWith("/legal/terms", "mailto:", 0);
    NotStartsWith("/legal/terms", "tel:", 0);
    assert StartsWith("http-status", "http");
  }

  // ---------------------------------------------------------------------
  // Images

  /** `src`: a string, or anything else (a static import object, or no value). */
  datatype Src = SrcString(s: string) | SrcOther

  /** `width` and `height` as the HTML attributes allow them. */
  datatype Dimension = DimNumber(n: int) | DimString(s: string)

  /** What `img` hands to Next.js's `Image`. A dimension `parseInt` cannot
      read is NaN, here `None`. */
  datatype ImageView = ImageView(classes: seq<string>, alt: string, src: string, width: Option<int>, height: Option<int>, attributes: map<string, string>)

  /** JavaScript truthiness of a dimension: 0 and "" are falsy. */
  predicate DimensionTruthy(d: Option<Dimension>) {
    match d
    case None => false
    case Some(DimNumber(n)) => n != 0
    case Some(DimString(s)) => s != ""
  }

  /** `d.toString()` */
  function DimensionText(d: Dimension): string {
    match d
    case DimNumber(n) => IntToDecimal(n)
    case DimString(s) => s
  }

  /** `d ? parseInt(d.toString()) : fallback` */
  function DimensionOr(d: Option<Dimension>, fallback: int): Option<int> {
    if DimensionTruthy(d) then ParseInt(DimensionText(d.value)) else Some(fallback)
  }

  /** `img`. `props` are the rest props; they hold none of the named ones. */
  function RenderImage(className: string, alt: Option<string>, src: Src, width: Option<Dimension>,
                       height: Option<Dimension>, props: map<string, string>): (view: ImageView)
    requires forall k :: k in props ==> k !in {"className", "alt", "src", "width", "height"}
    ensures |view.classes| >= 1 && view.classes[0] == "rounded-md border" && view.attributes == props
    ensures !DimensionTruthy(width) ==> view.width == Some(800)
    ensures !DimensionTruthy(height) ==> view.height == Some(600)
  {
    ImageView(
      ["rounded-md border"] + (if className != "" then [className] else []),
      if alt.Some? && alt.value != "" then alt.value else "",
      if src.SrcString? then src.s else "",
      DimensionOr(width, 800),
      DimensionOr(height, 600),
      props)
  }

  /** A numeric dimension survives the `toString`/`parseInt` round trip, a
      falsy one takes the default, and a string one is read by `parseInt`. */
  lemma DimensionRule(d: Option<Dimension>, fallback: int)
    ensures !DimensionTruthy(d) ==> DimensionOr(d, fallback) == Some(fallback)
    ensures d.Some? && d.value.DimNumber? && d.value.n != 0 ==> DimensionOr(d, fallback) == Some(d.value.n)
    ensures d.Some? && d.value.DimString? && d.value.s != "" ==> DimensionOr(d, fallback) == ParseInt(d.value.s)
  {
    if d.Some? && d.value.DimNumber? {
      ParseIntOfDecimal(d.value.n);
    }
  }

  /** The image defaults: 800 by 600 unless given, an empty `alt` and `src`
      when absent, and the border classes before `className`. */
  lemma ImageRule(className: string, alt: Option<string>, src: Src, width: Option<Dimension>,
                  height: Option<Dimension>, props: map<string, string>)
    requires forall k :: k in props ==> k !in {"className", "alt", "src", "width", "height"}
    ensures var v := RenderImage(className, alt, src, width, height, props);
            && (!DimensionTruthy(width) ==> v.width == Some(800))
            && (!DimensionTruthy(height) ==> v.height == Some(600))
            && (width.Some? && width.value.DimNumber? && width.value.n != 0 ==> v.width == Some(width.value.n))
            && (height.Some? && height.value.DimNumber? && height.value.n != 0 ==> v.height == Some(height.value.n))
            && (alt.None? ==> v.alt == "") && (alt.Some? ==> v.alt == alt.value)
            && (src.SrcOther? ==> v.src == "") && (src.SrcString? ==> v.src == src.s)
            && v.classes[0] == "rounded-md border"
            && (className != "" <==> className in v.classes[1..])
  {
    DimensionRule(width, 800);
    DimensionRule(height, 600);
  }

  /** `parseInt` reads the leading number of a string dimension such as
      "640px" and gives NaN for one without digits. */
  lemma StringDimensionExamples()
    ensures DimensionOr(Some(DimString("640px")), 800) == Some(640)
    ensures DimensionOr(Some(DimString("auto")), 800) == None
  {
    ParseIntPixels();
    ParseIntWord();
  }

  lemma ParseIntPixels()
    ensures ParseInt("640px") == Some(640)
  {
    var s := "640px";
    TrimStartNoSpace(s);
    assert s[..3] == "640";
    DigitPrefixAt(s, 10, 3);
    assert "640"[..2] == "64" && "64"[..1] == "6" && "6"[..0] == "";
    assert DigitsValue("640", 10) == 640;
  }

  lemma ParseIntWord()
    ensures ParseInt("auto") == None
  {
    TrimStartNoSpace("auto");
    DigitPrefixAt("auto", 10, 0);
  }
}
