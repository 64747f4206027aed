/**
 * The responsive layer: the breakpoint flags computed from the window width,
 * and the style object of the responsive wrapper, built by spreading a base
 * object, conditional fragments for each width band and finally the caller's
 * own style. Widths are whole CSS pixels, as `window.innerWidth` reports them.
 */
module Responsive {
  import opened Wrappers

  // ---------------------------------------------------------------------------
  // Breakpoint flags
  // ---------------------------------------------------------------------------

  /** The four width classes of the layout. */
  datatype Breakpoint = Mobile | Tablet | Desktop | Large

  /** The class of a width, by the thresholds 768, 1024 and 1440. */
  function Classify(width: int): Breakpoint {
    if width < 768 then Mobile
    else if width < 1024 then Tablet
    else if width < 1440 then Desktop
    else Large
  }

  /** The rank of a class, from the narrowest to the widest. */
  function Rank(b: Breakpoint): nat {
    match b
    case Mobile => 0
    case Tablet => 1
    case Desktop => 2
    case Large => 3
  }

  datatype Flags = Flags(isMobile: bool, isTablet: bool, isDesktop: bool, isLargeScreen: bool)

  /** The flags the responsive hook sets on every resize, each from its own
      comparison of the width. */
  function ResponsiveFlags(width: int): (f: Flags)
    ensures f.isMobile <==> Classify(width) == Mobile
    ensures f.isTablet <==> Classify(width) == Tablet
    ensures f.isDesktop <==> Classify(width) == Desktop
    ensures f.isLargeScreen <==> Classify(width) == Large
  {
    Flags(width < 768, width >= 768 && width < 1024, width >= 1024 && width < 1440, width >= 1440)
  }

  /** The number of flags that are set. */
  function SetCount(f: Flags): nat {
    (if f.isMobile then 1 else 0) + (if f.isTablet then 1 else 0)
      + (if f.isDesktop then 1 else 0) + (if f.isLargeScreen then 1 else 0)
  }

  /** Every width sets exactly one flag. */
  lemma FlagsPartition(width: int)
    ensures SetCount(ResponsiveFlags(width)) == 1
  {
  }

  /** A wider window never falls in a narrower class. */
  lemma ClassifyMonotone(w1: int, w2: int)
    requires w1 <= w2
    ensures Rank(Classify(w1)) <= Rank(Classify(w2))
  {
  }

  // ---------------------------------------------------------------------------
  // Style objects and spreading
  // ---------------------------------------------------------------------------

  /** A style value: a CSS text, a number, or a nested style object for a
      selector such as "& .MuiDataGrid-root". */
  datatype SxValue = Text(text: string) | Num(n: int) | Nested(style: map<string, SxValue>)

  type Style = map<string, SxValue>

  /** `{ ...fs[0], ...fs[1], ... }`: a shallow merge in which a later object's
      key replaces an earlier one's. */
  function Spread(fs: seq<Style>): (r: Style)
    ensures fs != [] ==> forall k :: k in fs[|fs| - 1] ==> k in r && r[k] == fs[|fs| - 1][k]
    ensures fs != [] ==> forall k :: k in Spread(fs[..|fs| - 1]) ==> k in r
  {
    if fs == [] then map[] else Spread(fs[..|fs| - 1]) + fs[|fs| - 1]
  }

  /** `...(cond && obj)`: the object when the condition holds, nothing otherwise. */
  function When(cond: bool, obj: Style): Style {
    if cond then obj else map[]
  }

  /** A key of the merge comes from some spread object. */
  lemma {:induction false} SpreadKeys(fs: seq<Style>, k: string)
    ensures k in Spread(fs) <==> exists j :: 0 <= j < |fs| && k in fs[j]
  {
    if fs != [] {
      var init := fs[..|fs| - 1];
      SpreadKeys(init, k);
      if k in Spread(fs) && k !in fs[|fs| - 1] {
        var j :| 0 <= j < |init| && k in init[j];
        assert fs[j] == init[j];
      }
      if exists j :: 0 <= j < |fs| && k in fs[j] {
        var j :| 0 <= j < |fs| && k in fs[j];
        if j < |fs| - 1 {
          assert init[j] == fs[j];
        }
      }
    }
  }

  /** A key no spread object has is missing from the merge. */
  lemma SpreadAbsent(fs: seq<Style>, k: string)
    requires forall j :: 0 <= j < |fs| ==> k !in fs[j]
    ensures k !in Spread(fs)
  {
    SpreadKeys(fs, k);
  }

  /** The later spread wins: a key takes its value from the last object that has it. */
  lemma {:induction false} SpreadLastWins(fs: seq<Style>, j: nat, k: string)
    requires j < |fs| && k in fs[j]
    requires forall l :: j < l < |fs| ==> k !in fs[l]
    ensures k in Spread(fs) && Spread(fs)[k] == fs[j][k]
  {
    if j < |fs| - 1 {
      var init := fs[..|fs| - 1];
      assert init[j] == fs[j];
      assert forall l :: j < l < |init| ==> init[l] == fs[l];
      SpreadLastWins(init, j, k);
    }
  }

  // ---------------------------------------------------------------------------
  // The wrapper's style
  // ---------------------------------------------------------------------------

  /** The wrapper's inputs; a missing `minHeight` or `maxHeight` takes its
      default, a missing `sx` contributes nothing. */
  datatype WrapperProps = WrapperProps(
    minHeight: Option<SxValue>,
    maxHeight: Option<SxValue>,
    aspectRatio: Option<string>,
    maintainAspectRatio: bool,
    sx: Style)

  /** The five font bands of the wrapper. */
  datatype FontBand = Tiny | Small | Medium | Wide | Huge

  function FontBandOf(width: int): FontBand {
    if width < 480 then Tiny
    else if width < 768 then Small
    else if width < 1024 then Medium
    else if width < 1440 then Wide
    else Huge
  }

  function BandFontSize(b: FontBand): string {
    match b
    case Tiny => "0.875rem"
    case Small => "0.9375rem"
    case Medium => "1rem"
    case Wide => "1.0625rem"
    case Huge => "1.125rem"
  }

  /** The DataGrid font size, by breakpoint class. */
  function GridFontSize(b: Breakpoint): string {
    match b
    case Mobile => "0.75rem"
    case Tablet => "0.8125rem"
    case _ => "0.875rem"
  }

  const Cell := "& .MuiDataGrid-cell"
  const ColumnHeader := "& .MuiDataGrid-columnHeader"
  const DataGridRoot := "& .MuiDataGrid-root"
  const TypographyRoot := "& .MuiTypography-root"

  /** The objects spread into the wrapper's style, in source order. */
  function Fragments(width: int, p: WrapperProps): (fs: seq<Style>)
    ensures |fs| == 13
    ensures fs[12] == p.sx
  {
    [ map["width" := Text("100%"), "maxWidth" := Text("100%"),
          "minHeight" := p.minHeight.GetOr(Text("auto")),
          "maxHeight" := p.maxHeight.GetOr(Text("none")),
          "overflow" := Text("hidden"), "position" := Text("relative")],
      When(p.aspectRatio.Some? && p.aspectRatio.value != "", map["aspectRatio" := Text(p.aspectRatio.GetOr(""))]),
      When(p.maintainAspectRatio, map["aspectRatio" := Text("16/9")]),
      When(width < 480, map["fontSize" := Text("0.875rem"),
                            TypographyRoot := Nested(map["fontSize" := Text("inherit")])]),
      When(480 <= width < 768, map["fontSize" := Text("0.9375rem")]),
      When(768 <= width < 1024, map["fontSize" := Text("1rem")]),
      When(1024 <= width < 1440, map["fontSize" := Text("1.0625rem")]),
      When(width >= 1440, map["fontSize" := Text("1.125rem")]),
      When(width >= 2560, map["fontSize" := Text("1.25rem"), "maxWidth" := Text("1920px"),
                              "margin" := Text("0 auto")]),
      When(width < 768, map[DataGridRoot := Nested(map["fontSize" := Text("0.75rem"),
                                                       Cell := Nested(map["padding" := Text("4px 6px")]),
                                                       ColumnHeader := Nested(map["padding" := Text("4px 6px")])])]),
      When(768 <= width < 1024, map[DataGridRoot := Nested(map["fontSize" := Text("0.8125rem")])]),
      When(width >= 1024, map[DataGridRoot := Nested(map["fontSize" := Text("0.875rem")])]),
      p.sx ]
  }

  /** The font-size fragments: exactly one of them applies to every width,
      and it is the one of the width's band. */
  lemma OneFontBandApplies(width: int, p: WrapperProps)
    ensures var fs := Fragments(width, p);
      forall j :: 3 <= j <= 7 ==> ("fontSize" in fs[j] <==> j == 3 + BandIndex(FontBandOf(width)))
  {
  }

  function BandIndex(b: FontBand): nat {
    match b
    case Tiny => 0
    case Small => 1
    case Medium => 2
    case Wide => 3
    case Huge => 4
  }

  /** The wrapper's style object. */
  function ResponsiveSx(width: int, p: WrapperProps): (r: Style)
    ensures forall k :: k in BaseKeys ==> k in r
  {
    BaseKeysPresent(width, p);
    Spread(Fragments(width, p))
  }

  /** The keys of the base object, which every width and every caller keep. */
  const BaseKeys: seq<string> := ["width", "maxWidth", "minHeight", "maxHeight", "overflow", "position"]

  lemma BaseKeysPresent(width: int, p: WrapperProps)
    ensures forall k :: k in BaseKeys ==> k in Spread(Fragments(width, p))
  {
    var fs := Fragments(width, p);
    forall k | k in BaseKeys
      ensures k in Spread(fs)
    {
      assert k in fs[0];
      SpreadKeys(fs, k);
    }
  }

  /** The caller's `sx` is spread last, so its keys override every computed key. */
  lemma CallerStyleWins(width: int, p: WrapperProps)
    ensures forall k :: k in p.sx ==> k in ResponsiveSx(width, p) && ResponsiveSx(width, p)[k] == p.sx[k]
  {
    var fs := Fragments(width, p);
    forall k | k in p.sx
      ensures k in Spread(fs) && Spread(fs)[k] == p.sx[k]
    {
      SpreadLastWins(fs, 12, k);
    }
  }

  /** The font size is the one of the width's band, except that ultra-wide
      screens (2560 and up) override it to 1.25rem. */
  lemma FontSizeByBand(width: int, p: WrapperProps)
    requires "fontSize" !in p.sx
    ensures "fontSize" in ResponsiveSx(width, p)
    ensures ResponsiveSx(width, p)["fontSize"]
         == Text(if width >= 2560 then "1.25rem" else BandFontSize(FontBandOf(width)))
  {
    var fs := Fragments(width, p);
    OneFontBandApplies(width, p);
    if width >= 2560 {
      SpreadLastWins(fs, 8, "fontSize");
    } else {
      SpreadLastWins(fs, 3 + BandIndex(FontBandOf(width)), "fontSize");
    }
  }

  /** Ultra-wide screens are capped at 1920px; narrower ones fill the width. */
  lemma UltraWideCap(width: int, p: WrapperProps)
    requires "maxWidth" !in p.sx
    ensures "maxWidth" in ResponsiveSx(width, p)
    ensures ResponsiveSx(width, p)["maxWidth"] == Text(if width >= 2560 then "1920px" else "100%")
  {
    var fs := Fragments(width, p);
    if width >= 2560 {
      SpreadLastWins(fs, 8, "maxWidth");
    } else {
      assert forall l :: 0 < l < 13 ==> "maxWidth" !in fs[l];
      SpreadLastWins(fs, 0, "maxWidth");
    }
  }

  /** Only ultra-wide screens are centred by a margin. */
  lemma UltraWideCentred(width: int, p: WrapperProps)
    requires "margin" !in p.sx
    ensures "margin" in ResponsiveSx(width, p) <==> width >= 2560
    ensures width >= 2560 ==> ResponsiveSx(width, p)["margin"] == Text("0 auto")
  {
    var fs := Fragments(width, p);
    if width >= 2560 {
      SpreadLastWins(fs, 8, "margin");
    } else {
      SpreadAbsent(fs, "margin");
    }
  }

  /** Maintaining the aspect ratio forces 16/9 even over an explicit ratio; a
      missing or empty ratio without it leaves the key out. */
  lemma AspectRatioRule(width: int, p: WrapperProps)
    requires "aspectRatio" !in p.sx
    ensures "aspectRatio" in ResponsiveSx(width, p) <==>
      p.maintainAspectRatio || (p.aspectRatio.Some? && p.aspectRatio.value != "")
    ensures p.maintainAspectRatio ==> ResponsiveSx(width, p)["aspectRatio"] == Text("16/9")
    ensures !p.maintainAspectRatio && p.aspectRatio.Some? && p.aspectRatio.value != "" ==>
      ResponsiveSx(width, p)["aspectRatio"] == Text(p.aspectRatio.value)
  {
    var fs := Fragments(width, p);
    if p.maintainAspectRatio {
      SpreadLastWins(fs, 2, "aspectRatio");
    } else if p.aspectRatio.Some? && p.aspectRatio.value != "" {
      SpreadLastWins(fs, 1, "aspectRatio");
    } else {
      SpreadAbsent(fs, "aspectRatio");
    }
  }

  /** The DataGrid font follows the breakpoint class, and only phones also get
      the compact cell padding. */
  lemma DataGridByBreakpoint(width: int, p: WrapperProps)
    requires DataGridRoot !in p.sx
    ensures DataGridRoot in ResponsiveSx(width, p)
    ensures var g := ResponsiveSx(width, p)[DataGridRoot];
      g.Nested? && "fontSize" in g.style && g.style["fontSize"] == Text(GridFontSize(Classify(width)))
      && (Cell in g.style <==> width < 768)
  {
    var fs := Fragments(width, p);
    if width < 768 {
      SpreadLastWins(fs, 9, DataGridRoot);
    } else if width < 1024 {
      SpreadLastWins(fs, 10, DataGridRoot);
    } else {
      SpreadLastWins(fs, 11, DataGridRoot);
    }
  }

  /** Only the narrowest band makes typography inherit the wrapper's font size. */
  lemma TypographyInheritsOnNarrow(width: int, p: WrapperProps)
    requires TypographyRoot !in p.sx
    ensures TypographyRoot in ResponsiveSx(width, p) <==> width < 480
  {
    var fs := Fragments(width, p);
    if width < 480 {
      assert TypographyRoot in fs[3];
      SpreadKeys(fs, TypographyRoot);
    } else {
      assert TypographyRoot != DataGridRoot by {
        assert TypographyRoot[6] != DataGridRoot[6];
      }
      SpreadAbsent(fs, TypographyRoot);
    }
  }

  /** The DataGrid bands are the breakpoint classes with desktop and large
      screens merged: mobile and tablet flags pick their own sizes. */
  lemma GridFontFollowsFlags(width: int)
    ensures ResponsiveFlags(width).isMobile ==> GridFontSize(Classify(width)) == "0.75rem"
    ensures ResponsiveFlags(width).isTablet ==> GridFontSize(Classify(width)) == "0.8125rem"
    ensures ResponsiveFlags(width).isDesktop || ResponsiveFlags(width).isLargeScreen ==>
      GridFontSize(Classify(width)) == "0.875rem"
  {
  }
}
