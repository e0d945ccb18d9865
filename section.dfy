/** components/ui/section.tsx: the classes of the `<section>`, of its inner
    container and of the optional full-width wrapper. */
module SectionComponent {
  import opened Common
  import opened Responsive

  /** The generated tables the component reads. */
  datatype Tables = Tables(gap: Table<int>, align: AlignTable)

  /** What `Section` renders, up to its children: the wrapper `<div>`'s classes
      when `fullWidth` is set, the `<section>`'s `id` and classes, and the inner
      container's classes. Each list is what is handed to `cn`. */
  datatype SectionView = SectionView(wrapper: Option<seq<string>>, id: string, section: seq<string>, inner: seq<string>)

  /** `buildGapClasses`: nothing for an omitted or 0 gap, else "flex", "flex-col"
      and then a numeric gap's class (the table's or `gap-<n>`) or the responsive
      gap cascade. */
  function SectionGapTokens(gap: GapProp, t: Table<int>): seq<string> {
    match gap
    case GapUndefined => []
    case GapNumber(n) => if n == 0 then [] else ["flex", "flex-col", OrElse(Lookup(t, "", n), GapFallback(n))]
    case GapRecord(r) => ["flex", "flex-col"] + ResponsiveGapTokens(r, t)
  }

  /** `buildGapClasses` as the source writes it. */
  method BuildGapClasses(gap: GapProp, t: Table<int>) returns (flexClassNames: seq<string>)
    ensures flexClassNames == SectionGapTokens(gap, t)
  {
    if gap.GapUndefined? || gap == GapNumber(0) {
      return [];
    }
    flexClassNames := ["flex", "flex-col"];
    if gap.GapNumber? {
      var gapClass := Lookup(t, "", gap.n);
      if gapClass.Some? {
        flexClassNames := flexClassNames + [gapClass.value];
      } else {
        flexClassNames := flexClassNames + [GapFallback(gap.n)];
      }
    } else {
      var responsiveGapClasses := ResponsiveGapClasses(gap.r, t);
      flexClassNames := flexClassNames + responsiveGapClasses;
    }
  }

  /** `hero ? "py-16 md:py-25" : "py-16"` */
  function PaddingClass(hero: bool): string {
    if hero then "py-16 md:py-25" else "py-16"
  }

  /** `className` as `cn` takes it: an omitted or empty one adds nothing. */
  function Custom(className: string): seq<string> {
    if className != "" then [className] else []
  }

  /** The view `Section` renders. `align` defaults to "center", which is what
      `AlignUndefined` already stands for. */
  function SectionSpec(id: string, fullWidth: bool, hero: bool, gap: GapProp, className: string, align: AlignProp, tables: Tables): SectionView {
    SectionView(
      if fullWidth then Some(["bg-primary"] + Custom(className)) else None,
      id,
      [PaddingClass(hero)] + Custom(className),
      ["container"] + AlignTokens(align, tables.align) + SectionGapTokens(gap, tables.gap))
  }

  /** `Section`, with its two helpers called as the source calls them. */
  method Section(id: string, fullWidth: bool, hero: bool, gap: GapProp, className: string, align: AlignProp, tables: Tables)
    returns (view: SectionView)
    ensures view == SectionSpec(id, fullWidth, hero, gap, className, align, tables)
  {
    var basePaddingClass := if hero then "py-16 md:py-25" else "py-16";
    var alignClasses := GetAlignClasses(align, tables.align);
    var gapClasses := [];
    if !(gap.GapUndefined? || gap == GapNumber(0)) {
      gapClasses := BuildGapClasses(gap, tables.gap);
    }
    var custom := if className != "" then [className] else [];
    var wrapper := None;
    if fullWidth {
      wrapper := Some(["bg-primary"] + custom);
    }
    view := SectionView(wrapper, id, [basePaddingClass] + custom, ["container"] + alignClasses + gapClasses);
  }

  // ---------------------------------------------------------------------
  // Properties

  /** The wrapper exists exactly for a full-width section, and then carries
      the same custom class as the section itself. */
  lemma WrapperRule(id: string, fullWidth: bool, hero: bool, gap: GapProp, className: string, align: AlignProp, tables: Tables)
    ensures var v := SectionSpec(id, fullWidth, hero, gap, className, align, tables);
            && (v.wrapper.Some? <==> fullWidth)
            && (fullWidth ==> v.wrapper.value[0] == "bg-primary" && v.wrapper.value[1..] == v.section[1..])
            && v.id == id
            && (className != "" <==> className in v.section)
  {
    var v := SectionSpec(id, fullWidth, hero, gap, className, align, tables);
    if className == "" {
      assert v.section == [PaddingClass(hero)];
      assert PaddingClass(hero) != "";
    }
  }

  /** The hero padding adds the md padding to the base one, and the inner
      container always starts with "container". */
  lemma PaddingAndContainer(id: string, fullWidth: bool, hero: bool, gap: GapProp, className: string, align: AlignProp, tables: Tables)
    ensures var v := SectionSpec(id, fullWidth, hero, gap, className, align, tables);
            && v.section[0] == (if hero then "py-16 md:py-25" else "py-16")
            && v.inner[0] == "container"
  {
  }

  /** Gap classes come as a block after "flex" and "flex-col" exactly when
      the gap is truthy, and a truthy numeric gap adds exactly one class. */
  lemma GapBlock(gap: GapProp, t: Table<int>)
    ensures SectionGapTokens(gap, t) == [] <==> gap.GapUndefined? || gap == GapNumber(0)
    ensures SectionGapTokens(gap, t) != [] ==> SectionGapTokens(gap, t)[..2] == ["flex", "flex-col"]
    ensures gap.GapNumber? && gap.n != 0 ==> |SectionGapTokens(gap, t)| == 3
    ensures gap.GapNumber? && gap.n != 0 && Lookup(t, "", gap.n).None? ==> SectionGapTokens(gap, t)[2] == GapFallback(gap.n)
  {
  }

  /** A responsive gap that is all zeros is still truthy: it gives "flex",
      "flex-col", and the table's class for 0 if there is one. */
  lemma ZeroRecordGap(t: Table<int>)
    ensures SectionGapTokens(GapRecord(PerBreakpoint(Some(0), Some(0), Some(0), Some(0), Some(0))), t)
            == ["flex", "flex-col"] + Found(Lookup(t, "", 0))
  {
    GapOverridesUpper(PerBreakpoint(Some(0), Some(0), Some(0), Some(0), Some(0)), t);
  }

  /** After "container" come the alignment classes, starting with the base
      rule for the base value, and then the gap classes. The alignment part is
      empty only when the table maps that base value to an empty list. */
  lemma InnerAlignment(id: string, fullWidth: bool, hero: bool, gap: GapProp, className: string, align: AlignProp, tables: Tables)
    ensures var v := SectionSpec(id, fullWidth, hero, gap, className, align, tables);
            var a := AlignTokens(align, tables.align);
            var b := AlignBaseValue(align);
            && 1 + |a| <= |v.inner|
            && v.inner[1..1 + |a|] == a
            && v.inner[1 + |a|..] == SectionGapTokens(gap, tables.gap)
            && 1 + |AlignBase(tables.align, b)| <= |v.inner|
            && v.inner[1..1 + |AlignBase(tables.align, b)|] == AlignBase(tables.align, b)
            && (a == [] ==> "" in tables.align && b in tables.align[""] && tables.align[""][b] == [])
  {
    AlignTokensPresent(align, tables.align);
    var v := SectionSpec(id, fullWidth, hero, gap, className, align, tables);
    var a := AlignTokens(align, tables.align);
    var n := |AlignBase(tables.align, AlignBaseValue(align))|;
    assert v.inner[1..1 + |a|] == a;
    assert v.inner[1..1 + n] == a[..n];
  }
}
