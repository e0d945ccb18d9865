/** components/ui/stack.tsx: the class list `Stack` hands to `cn`, built from
    its `direction`, `gap`, `align` and `className` props. */
module StackComponent {
  import opened Common
  import opened Responsive

  datatype Direction = Row | Column

  /** `direction?: "row" | "column" | { sm?, md?, lg?, xl?, "2xl"? }`, defaulting to "column". */
  datatype DirectionProp = DirectionSingle(d: Direction) | DirectionRecord(r: PerBreakpoint<Direction>) | DirectionUndefined

  /** The generated tables `directionClasses`, `gapClasses` and `alignClasses`. */
  datatype Tables = Tables(direction: Table<Direction>, gap: Table<int>, align: AlignTable)

  /** The Tailwind class used when a direction is missing from the table. */
  function FlexClass(d: Direction): string {
    if d == Row then "flex-row" else "flex-col"
  }

  /** A single direction: the table's class or the plain flex class, then
      `items-center` for a row. */
  function SingleDirectionTokens(t: Table<Direction>, d: Direction): seq<string> {
    [OrElse(Lookup(t, "", d), FlexClass(d))] + (if d == Row then ["items-center"] else [])
  }

  /** What one breakpoint adds to a responsive direction: the table's class or
      `"<bp>:flex-row|flex-col"`, then `"<bp>:items-center"` for a row. */
  function DirectionAt(r: PerBreakpoint<Direction>, t: Table<Direction>, bp: Breakpoint): seq<string> {
    match r.At(bp)
    case None => []
    case Some(d) =>
      [OrElse(Lookup(t, Name(bp), d), Name(bp) + ":" + FlexClass(d))]
      + (if d == Row then [Name(bp) + ":items-center"] else [])
  }

  function DirectionOverrides(r: PerBreakpoint<Direction>, t: Table<Direction>, bps: seq<Breakpoint>): seq<string>
    decreases |bps|
  {
    if bps == [] then [] else DirectionOverrides(r, t, bps[..|bps| - 1]) + DirectionAt(r, t, bps[|bps| - 1])
  }

  /** The direction classes. A responsive base (first value, else "column") is
      emitted only if the table has it: no fallback and no `items-center`. */
  function DirectionTokens(direction: DirectionProp, t: Table<Direction>): seq<string> {
    match direction
    case DirectionUndefined => SingleDirectionTokens(t, Column)
    case DirectionSingle(d) => SingleDirectionTokens(t, d)
    case DirectionRecord(r) => Found(Lookup(t, "", WordBase(r, Column))) + DirectionOverrides(r, t, Upper)
  }

  /** The direction code reads `directionClasses[""]` and, for each breakpoint
      that has a value, `directionClasses[bp]` without `?.`: those tiers must exist. */
  predicate DirectionTiersDefined(direction: DirectionProp, t: Table<Direction>) {
    "" in t
    && (direction.DirectionRecord? ==>
          (direction.r.md.Some? ==> "md" in t)
          && (direction.r.lg.Some? ==> "lg" in t)
          && (direction.r.xl.Some? ==> "xl" in t)
          && (direction.r.xxl.Some? ==> "2xl" in t))
  }

  /** The direction part of `Stack`, as the source pushes it. */
  method DirectionClasses(direction: DirectionProp, t: Table<Direction>) returns (classNames: seq<string>)
    requires DirectionTiersDefined(direction, t)
    ensures classNames == DirectionTokens(direction, t)
    ensures direction.DirectionRecord? ==> |classNames| <= 9
  {
    classNames := [];
    if !direction.DirectionRecord? {
      var d := if direction.DirectionSingle? then direction.d else Column;
      var directionClass := Lookup(t, "", d);
      if directionClass.Some? {
        classNames := classNames + [directionClass.value];
      } else {
        classNames := classNames + [if d == Row then "flex-row" else "flex-col"];
      }
      if d == Row {
        classNames := classNames + ["items-center"];
      }
      return;
    }
    var r := direction.r;
    var defaultDirection := WordBase(r, Column);
    var defaultDirectionClass := Lookup(t, "", defaultDirection);
    if defaultDirectionClass.Some? {
      classNames := classNames + [defaultDirectionClass.value];
    }
    var responsiveClasses := ResponsiveDirectionClasses(r, t);
    classNames := classNames + responsiveClasses;
  }

  /** The loop of the direction code over `md`..`2xl`. */
  method ResponsiveDirectionClasses(r: PerBreakpoint<Direction>, t: Table<Direction>) returns (responsiveClasses: seq<string>)
    ensures responsiveClasses == DirectionOverrides(r, t, Upper)
    ensures |responsiveClasses| <= 8
  {
    responsiveClasses := [];
    var i := 0;
    while i < |Upper|
      invariant 0 <= i <= |Upper|
      invariant responsiveClasses == DirectionOverrides(r, t, Upper[..i])
      invariant |responsiveClasses| <= 2 * i
    {
      var breakpoint := Upper[i];
      var directionValue := r.At(breakpoint);
      if directionValue.Some? {
        var directionClass := Lookup(t, Name(breakpoint), directionValue.value);
        if directionClass.Some? {
          responsiveClasses := responsiveClasses + [directionClass.value];
        } else {
          responsiveClasses := responsiveClasses + [Name(breakpoint) + ":" + (if directionValue.value == Row then "flex-row" else "flex-col")];
        }
        if directionValue.value == Row {
          responsiveClasses := responsiveClasses + [Name(breakpoint) + ":items-center"];
        }
      }
      assert Upper[..i + 1][..i] == Upper[..i];
      i := i + 1;
    }
    assert Upper[..4] == Upper;
  }

  /** The gap classes of `Stack`: a number, 0 included, gives the table's class
      or `gap-<n>`; a record gives the shared responsive cascade; no gap gives nothing. */
  function StackGapTokens(gap: GapProp, t: Table<int>): seq<string> {
    match gap
    case GapNumber(n) => [OrElse(Lookup(t, "", n), GapFallback(n))]
    case GapRecord(r) => ResponsiveGapTokens(r, t)
    case GapUndefined => []
  }

  /** The gap part of `Stack`, as the source pushes it. `gapClasses[""]` is
      read without `?.` for a numeric gap. */
  method GapClasses(gap: GapProp, t: Table<int>) returns (classNames: seq<string>)
    requires gap.GapNumber? ==> "" in t
    ensures classNames == StackGapTokens(gap, t)
    ensures |classNames| <= 5
  {
    classNames := [];
    if gap.GapNumber? {
      var gapClass := Lookup(t, "", gap.n);
      if gapClass.Some? {
        classNames := classNames + [gapClass.value];
      } else {
        classNames := classNames + [GapFallback(gap.n)];
      }
    } else if gap.GapRecord? {
      var responsiveGapClasses := ResponsiveGapClasses(gap.r, t);
      classNames := classNames + responsiveGapClasses;
    }
  }

  /** The list `Stack` hands to `cn`: "flex", the direction classes, the gap
      classes, the alignment classes, and `className` when it is non-empty. */
  function StackTokens(direction: DirectionProp, gap: GapProp, align: AlignProp, className: string, tables: Tables): seq<string> {
    ["flex"] + DirectionTokens(direction, tables.direction) + StackGapTokens(gap, tables.gap)
    + AlignTokens(align, tables.align) + (if className != "" then [className] else [])
  }

  /** `Stack`: the class list, grown section by section as the source does. */
  method Stack(direction: DirectionProp, gap: GapProp, align: AlignProp, className: string, tables: Tables)
    returns (classNames: seq<string>)
    requires DirectionTiersDefined(direction, tables.direction)
    requires gap.GapNumber? ==> "" in tables.gap
    ensures classNames == StackTokens(direction, gap, align, className, tables)
    ensures |classNames| > 0 && classNames[0] == "flex"
  {
    classNames := ["flex"];
    var directionClasses := DirectionClasses(direction, tables.direction);
    classNames := classNames + directionClasses;
    var gapClasses := GapClasses(gap, tables.gap);
    classNames := classNames + gapClasses;
    var alignmentClasses := GetAlignClasses(align, tables.align);
    classNames := classNames + alignmentClasses;
    if className != "" {
      classNames := classNames + [className];
    }
  }

  // ---------------------------------------------------------------------
  // Properties

  /** The list starts with "flex", and its last element is `className`
      exactly when `className` is non-empty and the rest is unchanged by it. */
  lemma StackOrder(direction: DirectionProp, gap: GapProp, align: AlignProp, className: string, tables: Tables)
    ensures var xs := StackTokens(direction, gap, align, className, tables);
            var body := StackTokens(direction, gap, align, "", tables);
            && xs[0] == "flex"
            && body == ["flex"] + DirectionTokens(direction, tables.direction) + StackGapTokens(gap, tables.gap) + AlignTokens(align, tables.align)
            && (className != "" ==> xs == body + [className] && xs[|xs| - 1] == className)
            && (className == "" ==> xs == body)
  {
  }

  /** A single direction gives one class, then `items-center` exactly for a row;
      an omitted direction is a column. */
  lemma SingleDirection(d: Direction, t: Table<Direction>)
    ensures |DirectionTokens(DirectionSingle(d), t)| == (if d == Row then 2 else 1)
    ensures d == Row ==> DirectionTokens(DirectionSingle(d), t)[1] == "items-center"
    ensures Lookup(t, "", d).None? ==> DirectionTokens(DirectionSingle(d), t)[0] == FlexClass(d)
    ensures DirectionTokens(DirectionUndefined, t) == DirectionTokens(DirectionSingle(Column), t)
  {
  }

  /** Each breakpoint with a value adds its class and, for a row, a
      `"<bp>:items-center"` right after it; all other breakpoints add nothing. */
  lemma DirectionAtShape(r: PerBreakpoint<Direction>, t: Table<Direction>, bp: Breakpoint)
    ensures r.At(bp).None? ==> DirectionAt(r, t, bp) == []
    ensures r.At(bp) == Some(Column) ==> |DirectionAt(r, t, bp)| == 1
    ensures r.At(bp) == Some(Row) ==> |DirectionAt(r, t, bp)| == 2 && DirectionAt(r, t, bp)[1] == Name(bp) + ":items-center"
  {
  }

  lemma DirectionOverridesUpper(r: PerBreakpoint<Direction>, t: Table<Direction>)
    ensures DirectionOverrides(r, t, Upper)
            == DirectionAt(r, t, Md) + DirectionAt(r, t, Lg) + DirectionAt(r, t, Xl) + DirectionAt(r, t, Xxl)
  {
    assert Upper[..3] == [Md, Lg, Xl];
    assert [Md, Lg, Xl][..2] == [Md, Lg];
    assert [Md, Lg][..1] == [Md];
    assert [Md][..0] == [];
  }

  /** The footer's `direction={{ sm: "column", md: "row" }}`: the column base
      from the table only, then md's row class or `md:flex-row`, then `md:items-center`. */
  lemma FooterDirection(t: Table<Direction>)
    ensures DirectionTokens(DirectionRecord(PerBreakpoint(Some(Column), Some(Row), None, None, None)), t)
            == Found(Lookup(t, "", Column)) + [OrElse(Lookup(t, "md", Row), "md:flex-row"), "md:items-center"]
  {
    var r := PerBreakpoint(Some(Column), Some(Row), None, None, None);
    DirectionOverridesUpper(r, t);
    assert Name(Md) + ":" + FlexClass(Row) == "md:flex-row";
    assert Name(Md) + ":items-center" == "md:items-center";
  }

  /** A numeric gap, 0 included, always gives exactly one class: the table's
      or `gap-<n>`. */
  lemma NumericGap(n: int, t: Table<int>)
    ensures |StackGapTokens(GapNumber(n), t)| == 1
    ensures Lookup(t, "", n).None? ==> StackGapTokens(GapNumber(n), t) == ["gap-" + IntToDecimal(n)]
    ensures StackGapTokens(GapNumber(0), t) == [OrElse(Lookup(t, "", 0), "gap-0")]
    ensures StackGapTokens(GapUndefined, t) == []
  {
    assert IntToDecimal(0) == [DigitChar(0)] == "0";
    assert GapFallback(0) == "gap-" + "0" == "gap-0";
  }

  /** A record gap skips a 0 override, and with a base of 0 and no table entry
      for it, a record of zeros gives nothing at all. */
  lemma RecordGapZeros(t: Table<int>)
    ensures StackGapTokens(GapRecord(PerBreakpoint(Some(0), Some(0), Some(0), Some(0), Some(0))), t)
            == Found(Lookup(t, "", 0))
  {
    var r := PerBreakpoint(Some(0), Some(0), Some(0), Some(0), Some(0));
    GapOverridesUpper(r, t);
  }
}
