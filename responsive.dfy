/** The vocabulary shared by the responsive class resolvers: Tailwind's
    breakpoints, a prop that gives one value per breakpoint, the generated
    lookup tables `tier -> value -> class`, and the two cascades that
    components/ui/stack.tsx and components/ui/section.tsx both contain (the
    responsive gap and the alignment). */
module Responsive {
  import opened Common

  datatype Breakpoint = Sm | Md | Lg | Xl | Xxl

  /** The breakpoint's name, which is both its key in a responsive prop and its
      class prefix. */
  function Name(bp: Breakpoint): string {
    match bp
    case Sm => "sm"
    case Md => "md"
    case Lg => "lg"
    case Xl => "xl"
    case Xxl => "2xl"
  }

  /** RESPONSIVE_BREAKPOINTS, smallest first. */
  const Breakpoints: seq<Breakpoint> := [Sm, Md, Lg, Xl, Xxl]

  /** `RESPONSIVE_BREAKPOINTS.slice(1)`: the breakpoints that get a prefixed class. */
  const Upper: seq<Breakpoint> := [Md, Lg, Xl, Xxl]

  lemma UpperSkipsSm()
    ensures Upper == Breakpoints[1..]
  {
  }

  /** The object form of a responsive prop: `{ sm?, md?, lg?, xl?, "2xl"? }`. */
  datatype PerBreakpoint<V> = PerBreakpoint(sm: Option<V>, md: Option<V>, lg: Option<V>, xl: Option<V>, xxl: Option<V>)
  {
    function At(bp: Breakpoint): Option<V> {
      match bp
      case Sm => sm
      case Md => md
      case Lg => lg
      case Xl => xl
      case Xxl => xxl
    }

    /** The values in RESPONSIVE_BREAKPOINTS order. */
    function Values(): (vs: seq<Option<V>>)
      ensures |vs| == 5
      ensures forall i :: 0 <= i < 5 ==> vs[i] == At(Breakpoints[i])
    {
      [sm, md, lg, xl, xxl]
    }
  }

  /** JavaScript truthiness of an optional value whose type has at most one
      falsy value `zero` (`Some(0)` for numbers, `None` for the string unions). */
  predicate Truthy<V(==)>(o: Option<V>, zero: Option<V>) {
    o.Some? && o != zero
  }

  /** `xs[0] || xs[1] || ... || dflt`. */
  function FirstTruthy<V(==)>(xs: seq<Option<V>>, dflt: V, zero: Option<V>): V
    decreases |xs|
  {
    if xs == [] then dflt
    else if Truthy(xs[0], zero) then xs[0].value
    else FirstTruthy(xs[1..], dflt, zero)
  }

  /** The `||` chain picks the first truthy value, and the default when there is none. */
  lemma {:induction false} FirstTruthyIsFirst<V>(xs: seq<Option<V>>, dflt: V, zero: Option<V>)
    ensures (forall k :: 0 <= k < |xs| ==> !Truthy(xs[k], zero)) ==> FirstTruthy(xs, dflt, zero) == dflt
    ensures forall i :: 0 <= i < |xs| && Truthy(xs[i], zero) && (forall k :: 0 <= k < i ==> !Truthy(xs[k], zero))
              ==> FirstTruthy(xs, dflt, zero) == xs[i].value
    decreases |xs|
  {
    if xs != [] && !Truthy(xs[0], zero) {
      var tail := xs[1..];
      FirstTruthyIsFirst(tail, dflt, zero);
      forall i | 1 <= i < |xs| && Truthy(xs[i], zero) && (forall k :: 0 <= k < i ==> !Truthy(xs[k], zero))
        ensures FirstTruthy(tail, dflt, zero) == xs[i].value
      {
        assert tail[i - 1] == xs[i];
        forall k | 0 <= k < i - 1 ensures !Truthy(tail[k], zero) {
          assert tail[k] == xs[k + 1];
        }
      }
      if forall k :: 0 <= k < |xs| ==> !Truthy(xs[k], zero) {
        forall k | 0 <= k < |tail| ensures !Truthy(tail[k], zero) {
          assert tail[k] == xs[k + 1];
        }
      }
    }
  }

  /** The base value of a numeric responsive prop:
      `r.sm || r.md || r.lg || r.xl || r["2xl"] || dflt`. */
  function NumberBase(r: PerBreakpoint<int>, dflt: int): int {
    FirstTruthy(r.Values(), dflt, Some(0))
  }

  /** The base value of a responsive prop over a string union, none of whose values is falsy. */
  function WordBase<V(==)>(r: PerBreakpoint<V>, dflt: V): V {
    FirstTruthy(r.Values(), dflt, None)
  }

  /** A generated class table `tier -> value -> class`, tier "" being the unprefixed one. */
  type Table<V> = map<string, map<V, string>>

  /** `table[tier]?.[v]` read for its truthiness: a missing tier, a missing value
      and the empty string all count as absent. */
  function Lookup<V>(table: Table<V>, tier: string, v: V): Option<string> {
    if tier in table && v in table[tier] && table[tier][v] != "" then Some(table[tier][v]) else None
  }

  /** The emitted class for a lookup, or nothing. */
  function Found(o: Option<string>): seq<string> {
    if o.Some? then [o.value] else []
  }

  /** The emitted class for a lookup, or `fallback` in its place. */
  function OrElse(o: Option<string>, fallback: string): string {
    if o.Some? then o.value else fallback
  }

  /** The token is the value of some entry of the table. */
  ghost predicate FromTable<V>(table: Table<V>, token: string) {
    exists tier, v :: tier in table && v in table[tier] && table[tier][v] == token
  }

  lemma FoundFromTable<V>(table: Table<V>, tier: string, v: V)
    ensures forall k :: 0 <= k < |Found(Lookup(table, tier, v))| ==> FromTable(table, Found(Lookup(table, tier, v))[k])
  {
    if Lookup(table, tier, v).Some? {
      assert table[tier][v] == Found(Lookup(table, tier, v))[0];
    }
  }

  // ---------------------------------------------------------------------
  // Gap: the `gap` prop of Stack and Section.

  /** `gap?: number | { sm?, md?, lg?, xl?, "2xl"? }` */
  datatype GapProp = GapNumber(n: int) | GapRecord(r: PerBreakpoint<int>) | GapUndefined

  /** The fallback class Tailwind would use for a gap missing from the table. */
  function GapFallback(n: int): string {
    "gap-" + IntToDecimal(n)
  }

  /** What one breakpoint adds to a responsive gap: nothing for an absent or 0
      value, else the table's class or `"<bp>:gap-<v>"`. */
  function GapAt(r: PerBreakpoint<int>, t: Table<int>, bp: Breakpoint): seq<string> {
    var v := r.At(bp);
    if Truthy(v, Some(0)) then [OrElse(Lookup(t, Name(bp), v.value), Name(bp) + ":" + GapFallback(v.value))]
    else []
  }

  /** The breakpoint-prefixed gap classes for `bps`, in order. */
  function GapOverrides(r: PerBreakpoint<int>, t: Table<int>, bps: seq<Breakpoint>): seq<string>
    decreases |bps|
  {
    if bps == [] then [] else GapOverrides(r, t, bps[..|bps| - 1]) + GapAt(r, t, bps[|bps| - 1])
  }

  /** The classes of a responsive gap: the base (first truthy value, else 0),
      only if the table has it, then the md..2xl overrides. */
  function ResponsiveGapTokens(r: PerBreakpoint<int>, t: Table<int>): seq<string> {
    Found(Lookup(t, "", NumberBase(r, 0))) + GapOverrides(r, t, Upper)
  }

  /** The responsive gap cascade, as both components write it: the base class
      when the table has it, then one step per breakpoint md..2xl. */
  method ResponsiveGapClasses(r: PerBreakpoint<int>, t: Table<int>) returns (classes: seq<string>)
    ensures classes == ResponsiveGapTokens(r, t)
    ensures |classes| <= 5
  {
    classes := [];
    var responsiveGapClasses := [];
    var defaultGap := NumberBase(r, 0);
    var defaultGapClass := Lookup(t, "", defaultGap);
    if defaultGapClass.Some? {
      classes := classes + [defaultGapClass.value];
    }
    var i := 0;
    while i < |Upper|
      invariant 0 <= i <= |Upper|
      invariant responsiveGapClasses == GapOverrides(r, t, Upper[..i])
      invariant |responsiveGapClasses| <= i
    {
      var breakpoint := Upper[i];
      var gapValue := r.At(breakpoint);
      if gapValue.Some? && gapValue.value != 0 {
        var gapClass := Lookup(t, Name(breakpoint), gapValue.value);
        if gapClass.Some? {
          responsiveGapClasses := responsiveGapClasses + [gapClass.value];
        } else {
          responsiveGapClasses := responsiveGapClasses + [Name(breakpoint) + ":" + GapFallback(gapValue.value)];
        }
      }
      assert Upper[..i + 1][..i] == Upper[..i];
      i := i + 1;
    }
    assert Upper[..4] == Upper;
    classes := classes + responsiveGapClasses;
  }

  /** Overrides of consecutive breakpoint lists are concatenated in order. */
  lemma {:induction false} GapOverridesAppend(r: PerBreakpoint<int>, t: Table<int>, a: seq<Breakpoint>, b: seq<Breakpoint>)
    ensures GapOverrides(r, t, a + b) == GapOverrides(r, t, a) + GapOverrides(r, t, b)
    decreases |b|
  {
    if b != [] {
      var b' := b[..|b| - 1];
      assert (a + b)[..|a + b| - 1] == a + b';
      assert (a + b)[|a + b| - 1] == b[|b| - 1];
      GapOverridesAppend(r, t, a, b');
    } else {
      assert a + b == a;
    }
  }

  /** The md..2xl part of a responsive gap, breakpoint by breakpoint. */
  lemma GapOverridesUpper(r: PerBreakpoint<int>, t: Table<int>)
    ensures GapOverrides(r, t, Upper) == GapAt(r, t, Md) + GapAt(r, t, Lg) + GapAt(r, t, Xl) + GapAt(r, t, Xxl)
  {
    assert Upper[..3] == [Md, Lg, Xl];
    assert [Md, Lg, Xl][..2] == [Md, Lg];
    assert [Md, Lg][..1] == [Md];
    assert [Md][..0] == [];
  }

  /** A breakpoint set to 0 or left out adds no class, and one set to a non-zero
      value adds exactly one. */
  lemma GapAtCount(r: PerBreakpoint<int>, t: Table<int>, bp: Breakpoint)
    ensures |GapAt(r, t, bp)| == (if Truthy(r.At(bp), Some(0)) then 1 else 0)
  {
  }

  /** Every class of a responsive gap is either a table entry or a
      breakpoint-prefixed fallback `"<bp>:gap-<v>"` for a non-zero `v`. */
  lemma {:induction false} GapOverridesShape(r: PerBreakpoint<int>, t: Table<int>, bps: seq<Breakpoint>)
    ensures |GapOverrides(r, t, bps)| <= |bps|
    ensures forall k :: 0 <= k < |GapOverrides(r, t, bps)| ==>
              FromTable(t, GapOverrides(r, t, bps)[k])
              || exists bp :: bp in bps && Truthy(r.At(bp), Some(0)) && GapOverrides(r, t, bps)[k] == Name(bp) + ":" + GapFallback(r.At(bp).value)
    decreases |bps|
  {
    if bps != [] {
      var init := bps[..|bps| - 1];
      var last := bps[|bps| - 1];
      GapOverridesShape(r, t, init);
      var xs := GapOverrides(r, t, bps);
      var left := GapOverrides(r, t, init);
      assert xs == left + GapAt(r, t, last);
      forall k | 0 <= k < |xs|
        ensures FromTable(t, xs[k])
                || exists bp :: bp in bps && Truthy(r.At(bp), Some(0)) && xs[k] == Name(bp) + ":" + GapFallback(r.At(bp).value)
      {
        if k < |left| {
          assert xs[k] == left[k];
          if !FromTable(t, left[k]) {
            var bp :| bp in init && Truthy(r.At(bp), Some(0)) && left[k] == Name(bp) + ":" + GapFallback(r.At(bp).value);
            assert bp in bps;
          }
        } else {
          var v := r.At(last).value;
          if Lookup(t, Name(last), v).Some? {
            assert t[Name(last)][v] == xs[k];
          } else {
            assert xs[k] == Name(last) + ":" + GapFallback(v);
          }
        }
      }
    }
  }

  // ---------------------------------------------------------------------
  // Alignment: `getAlignClasses`, written out identically in stack.tsx and section.tsx.

  datatype Align = Center | Start | End

  /** `align?: "center" | "start" | "end" | { sm?, md?, lg?, xl?, "2xl"? }` */
  datatype AlignProp = AlignSingle(a: Align) | AlignRecord(r: PerBreakpoint<Align>) | AlignUndefined

  /** The generated alignment table; each entry is a list of classes. */
  type AlignTable = map<string, map<Align, seq<string>>>

  const AlignFallback: seq<string> := ["items-center", "text-center"]

  /** `alignClasses[""]?.[a] || ["items-center", "text-center"]`; an array entry,
      even an empty one, is truthy, so only a missing entry falls back. */
  function AlignBase(t: AlignTable, a: Align): seq<string> {
    if "" in t && a in t[""] then t[""][a] else AlignFallback
  }

  /** `alignClasses[bp]?.[v] || []` for a breakpoint that has a value. */
  function AlignAt(r: PerBreakpoint<Align>, t: AlignTable, bp: Breakpoint): seq<string> {
    var v := r.At(bp);
    if v.Some? && Name(bp) in t && v.value in t[Name(bp)] then t[Name(bp)][v.value] else []
  }

  function AlignOverrides(r: PerBreakpoint<Align>, t: AlignTable, bps: seq<Breakpoint>): seq<string>
    decreases |bps|
  {
    if bps == [] then [] else AlignOverrides(r, t, bps[..|bps| - 1]) + AlignAt(r, t, bps[|bps| - 1])
  }

  /** The value the base rule looks up: `align || "center"` for a single or
      omitted value, and for a responsive value its first given breakpoint value. */
  function AlignBaseValue(align: AlignProp): Align {
    match align
    case AlignUndefined => Center
    case AlignSingle(a) => a
    case AlignRecord(r) => WordBase(r, Center)
  }

  /** The alignment classes: the base rule for a single or omitted value
      (`align || "center"`), and for a responsive value the base rule applied
      to its first value, followed by the md..2xl table entries. */
  function AlignTokens(align: AlignProp, t: AlignTable): seq<string> {
    match align
    case AlignUndefined => AlignBase(t, Center)
    case AlignSingle(a) => AlignBase(t, a)
    case AlignRecord(r) => AlignBase(t, WordBase(r, Center)) + AlignOverrides(r, t, Upper)
  }

  /** `getAlignClasses`, as both components write it. */
  method GetAlignClasses(align: AlignProp, t: AlignTable) returns (classes: seq<string>)
    ensures classes == AlignTokens(align, t)
  {
    if !align.AlignRecord? {
      var a := if align.AlignSingle? then align.a else Center;
      return if "" in t && a in t[""] then t[""][a] else AlignFallback;
    }
    var r := align.r;
    classes := [];
    var defaultAlign := WordBase(r, Center);
    classes := classes + (if "" in t && defaultAlign in t[""] then t[""][defaultAlign] else AlignFallback);
    ghost var base := classes;
    var i := 0;
    while i < |Upper|
      invariant 0 <= i <= |Upper|
      invariant classes == base + AlignOverrides(r, t, Upper[..i])
    {
      var breakpoint := Upper[i];
      var alignValue := r.At(breakpoint);
      if alignValue.Some? {
        classes := classes + (if Name(breakpoint) in t && alignValue.value in t[Name(breakpoint)] then t[Name(breakpoint)][alignValue.value] else []);
      }
      assert Upper[..i + 1][..i] == Upper[..i];
      i := i + 1;
    }
    assert Upper[..4] == Upper;
  }

  /** An entry of the alignment table, in any tier. */
  ghost predicate InAlignTable(t: AlignTable, token: string) {
    exists tier, a :: tier in t && a in t[tier] && token in t[tier][a]
  }

  /** The md..2xl part adds only classes taken from the table: a breakpoint
      whose entry is missing adds nothing. */
  lemma {:induction false} AlignOverridesFromTable(r: PerBreakpoint<Align>, t: AlignTable, bps: seq<Breakpoint>)
    ensures forall k :: 0 <= k < |AlignOverrides(r, t, bps)| ==> InAlignTable(t, AlignOverrides(r, t, bps)[k])
    ensures (forall bp :: bp in bps ==> AlignAt(r, t, bp) == []) ==> AlignOverrides(r, t, bps) == []
    decreases |bps|
  {
    if bps != [] {
      var init := bps[..|bps| - 1];
      var last := bps[|bps| - 1];
      AlignOverridesFromTable(r, t, init);
      var xs := AlignOverrides(r, t, bps);
      var left := AlignOverrides(r, t, init);
      assert xs == left + AlignAt(r, t, last);
      forall k | 0 <= k < |xs| ensures InAlignTable(t, xs[k]) {
        if k < |left| {
          assert xs[k] == left[k];
        } else {
          var v := r.At(last).value;
          assert xs[k] in t[Name(last)][v];
        }
      }
      assert last in bps;
      assert forall bp :: bp in init ==> bp in bps;
    }
  }

  /** The classes start with the base rule for the base value. They come out
      empty only when the unprefixed tier maps that very value to an empty
      list; a base value the table lacks yields the two fallback classes
      first, and for a single or omitted value nothing else. */
  lemma AlignTokensPresent(align: AlignProp, t: AlignTable)
    ensures var b := AlignBaseValue(align);
            |AlignBase(t, b)| <= |AlignTokens(align, t)| && AlignTokens(align, t)[..|AlignBase(t, b)|] == AlignBase(t, b)
    ensures var b := AlignBaseValue(align);
            AlignTokens(align, t) == [] ==> "" in t && b in t[""] && t[""][b] == []
    ensures var b := AlignBaseValue(align);
            !("" in t && b in t[""]) ==> AlignTokens(align, t)[..2] == AlignFallback
    ensures var b := AlignBaseValue(align);
            !align.AlignRecord? && !("" in t && b in t[""]) ==> AlignTokens(align, t) == AlignFallback
  {
    var b := AlignBaseValue(align);
    if align.AlignRecord? {
      assert AlignTokens(align, t) == AlignBase(t, b) + AlignOverrides(align.r, t, Upper);
    }
  }
}
