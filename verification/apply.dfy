/**
 * `apply_theme_to_config`: the theme's maps are laid over the maps
 * extracted from the target config, the colours block is built from the
 * merged bar map, the config's `colors { ... }` regions are removed, the
 * lines are rebuilt around the new block, and one `client.` directive per
 * merged window state is appended.
 *
 * The theme arrives as a value: reading it from YAML is not modelled.
 */
module Apply {
  import opened Wrappers
  import opened Text
  import opened Dicts
  import opened Themes
  import WindowColors
  import BarColors
  import Rewrite
  import Extract

  /**
   * `solve_color`: one lookup in the theme's palette. A value that names a
   * palette entry becomes that entry's colour, with no second lookup; any
   * other value, and every value when there is no palette, stays as it is.
   */
  function Resolve(palette: Palette, c: string): (r: string)
    requires !palette.NotMapping?
    ensures palette.Mapping? && c in Keys(palette.entries) ==> Get(palette.entries, c) == Some(r)
    ensures !(palette.Mapping? && c in Keys(palette.entries)) ==> r == c
  {
    if palette.Mapping? then
      match Get(palette.entries, c)
      case Some(v) => v
      case None => c
    else c
  }

  /** The bar template `t_barcolors` filled in: a tab, the role, then border, background and text. */
  function BarRecordLine(role: string, border: string, background: string, text: string): string {
    "\t" + role + " " + JoinWords([border, background, text])
  }

  /** The line a plain colour adds: a tab, the role and the colour. */
  function BarPlainLine(role: string, color: string): string {
    "\t" + role + " " + color
  }

  /** The window template `t_windowcolors` filled in, before its newline: it has no slot for the text colour. */
  function WindowDirectiveLine(state: string, border: string, background: string, indicator: string): string {
    "client." + state + " " + JoinWords([border, background, indicator])
  }

  /** The palette can be used wherever the loops below call `solve_color` or `.get`. */
  predicate Resolvable(palette: Palette, bars: Dict<BarValue>, windows: Dict<WindowColor>) {
    palette.NotMapping? ==> (forall i :: 0 <= i < |bars| ==> bars[i].1.Plain?) && windows == []
  }

  /**
   * What one role adds to the colours block. A record always adds its line;
   * a plain colour adds one only when it holds no `#` and the palette is a
   * dict (a missing palette counts as the empty dict).
   */
  function BarEntryText(palette: Palette, role: string, v: BarValue): (r: string)
    requires v.Record? ==> !palette.NotMapping?
    ensures r == "" <==> v.Plain? && ('#' in v.color || palette.NotMapping?)
  {
    match v
    case Record(b, bg, t) =>
      "\n" + BarRecordLine(role, Resolve(palette, b), Resolve(palette, bg), Resolve(palette, t)) + "\n"
    case Plain(s) =>
      if '#' in s then ""
      else if palette.NotMapping? then ""
      else "\n" + BarPlainLine(role, Resolve(palette, s))
  }

  /** The `barcolors_props` string: every role's text, in dict order. */
  function BarProps(palette: Palette, bars: Dict<BarValue>): string
    requires forall i :: 0 <= i < |bars| ==> bars[i].1.Record? ==> !palette.NotMapping?
    decreases |bars|
  {
    if bars == [] then ""
    else
      var n := |bars| - 1;
      BarProps(palette, bars[..n]) + BarEntryText(palette, bars[n].0, bars[n].1)
  }

  /** The loop that builds `barcolors_props`. */
  method BuildBarProps(palette: Palette, bars: Dict<BarValue>) returns (props: string)
    requires forall i :: 0 <= i < |bars| ==> bars[i].1.Record? ==> !palette.NotMapping?
    ensures props == BarProps(palette, bars)
  {
    props := "";
    for i := 0 to |bars|
      invariant props == BarProps(palette, bars[..i])
    {
      var k, v := bars[i].0, bars[i].1;
      BarPropsStep(palette, bars, i);
      match v
      case Record(b, bg, t) =>
        props := props + ("\n" + BarRecordLine(k, Resolve(palette, b), Resolve(palette, bg), Resolve(palette, t)) + "\n");
      case Plain(s) =>
        if '#' in s {
          // the value is set aside and never written
          assert BarEntryText(palette, k, v) == "";
          assert props == props + "";
        } else if !palette.NotMapping? {
          props := props + ("\n" + BarPlainLine(k, Resolve(palette, s)));
        } else {
          assert props == props + "";
        }
    }
    assert bars[..|bars|] == bars;
  }

  lemma BarPropsStep(palette: Palette, bars: Dict<BarValue>, i: nat)
    requires forall j :: 0 <= j < |bars| ==> bars[j].1.Record? ==> !palette.NotMapping?
    requires i < |bars|
    ensures BarProps(palette, bars[..i + 1]) == BarProps(palette, bars[..i]) + BarEntryText(palette, bars[i].0, bars[i].1)
  {
    assert bars[..i + 1][..i] == bars[..i];
  }

  /** The indentation of the `colorsblock` template's lines. */
  const BlockIndent := "    "

  /** The template's first line, the one that opens the block. */
  const BlockOpener := BlockIndent + "colors {"

  /** The template's last line, the one that closes the block. */
  const BlockCloser := BlockIndent + "}"

  /** The `colorsblock` template around the roles' text. */
  function ColorsBlock(props: string): string {
    "\n" + BlockOpener + "\n" + (BlockIndent + props) + "\n" + BlockCloser + "\n"
  }

  /**
   * Lines laid out as the block's: an empty line, the opener, and last the
   * closer, with the first region of the lines opening at the opener.
   */
  predicate BlockShaped(ls: seq<string>, opener: string, closer: string) {
    && 3 <= |ls| && ls[0] == "" && ls[1] == opener && ls[|ls| - 1] == closer
    && Rewrite.FirstRegion(ls).Some? && Rewrite.FirstRegion(ls).value.0 == 1
  }

  /**
   * The block is a region the removal pattern recognises: its lines start
   * with an empty line and the `colors {` line, its last line is the `}`
   * line, and the first region of the block opens at its second line.
   */
  lemma ColorsBlockLines(props: string)
    ensures BlockShaped(SplitLines(ColorsBlock(props)), BlockOpener, BlockCloser)
  {
    OpenerOpens();
    CloserCloses();
    BlockLines(ColorsBlock(props), BlockOpener, BlockIndent + props, BlockCloser);
  }

  /** The template's first line opens a `colors` group. */
  lemma OpenerOpens()
    ensures IsLine(BlockOpener) && BarColors.OpensColors(BlockOpener)
  {
    var pad, keyword, brace := BlockIndent, "colors", "{";
    assert "colors {" == keyword + " " + brace;
    assert forall i :: 0 <= i < |pad| ==> pad[i] == ' ';
    assert IsToken(keyword) && IsToken(brace);
    WordsOfIndentedPair(pad, keyword, brace);
    IndentedPairIsLine(pad, keyword, brace);
  }

  /** The template's last line can close a `colors` group. */
  lemma CloserCloses()
    ensures IsLine(BlockCloser) && Rewrite.HasClosing(BlockCloser)
  {
    assert ClosingAt(BlockCloser, |BlockIndent|);
  }

  /** Text laid out as the block is: after an empty line, an opener and later a closing line end the first region's search. */
  lemma BlockLines(text: string, opener: string, body: string, closer: string)
    requires IsLine(opener) && BarColors.OpensColors(opener)
    requires IsLine(closer) && Rewrite.HasClosing(closer)
    requires text == "\n" + opener + "\n" + body + "\n" + closer + "\n"
    ensures BlockShaped(SplitLines(text), opener, closer)
  {
    var tail := body + ("\n" + closer + "\n");
    SplitLinesEndsWith(body, closer);
    var rest := SplitLines(tail);
    assert rest != [] && rest[|rest| - 1] == closer;
    BlockText(opener, body, closer);
    SplitLinesCons("", opener + "\n" + tail);
    SplitLinesCons(opener, tail);
    var ls := SplitLines(text);
    assert ls == [""] + ([opener] + rest);
    RegionAtOpener(ls, opener, rest, closer);
  }

  /** The block's text regrouped line by line. */
  lemma BlockText(opener: string, body: string, closer: string)
    ensures "\n" + opener + "\n" + body + "\n" + closer + "\n"
         == "" + "\n" + (opener + "\n" + (body + ("\n" + closer + "\n")))
  {
  }

  /** Lines that start with an empty line and an opener, and end with a closing line, hold a region opened by that opener. */
  lemma RegionAtOpener(ls: seq<string>, opener: string, rest: seq<string>, closer: string)
    requires BarColors.OpensColors(opener) && Rewrite.HasClosing(closer)
    requires rest != [] && rest[|rest| - 1] == closer
    requires ls == [""] + ([opener] + rest)
    ensures BlockShaped(ls, opener, closer)
  {
    LastOfCons(opener, rest);
    LastOfCons("", [opener] + rest);
    assert Words("") == [];
    assert FirstFrom(ls, 0, BarColors.OpensColors) == Some(1);
    FirstFromLeast(ls, 2, Rewrite.HasClosing);
  }

  /** The text one window state adds at the end: its directive, colours resolved, and a newline. */
  function DirectiveText(palette: Palette, state: string, w: WindowColor): string
    requires !palette.NotMapping? && w.WindowColor?
  {
    WindowDirectiveLine(state, Resolve(palette, w.border), Resolve(palette, w.background), Resolve(palette, w.indicator)) + "\n"
  }

  /** The `client.` directives appended at the end, one per window state, in dict order. */
  function WindowLines(palette: Palette, windows: Dict<WindowColor>): string
    requires palette.NotMapping? ==> windows == []
    requires Complete(windows)
    decreases |windows|
  {
    if windows == [] then ""
    else
      var n := |windows| - 1;
      WindowLines(palette, windows[..n]) + DirectiveText(palette, windows[n].0, windows[n].1)
  }

  lemma WindowLinesStep(prefix: string, palette: Palette, windows: Dict<WindowColor>, i: nat)
    requires palette.NotMapping? ==> windows == []
    requires Complete(windows)
    requires i < |windows|
    ensures prefix + WindowLines(palette, windows[..i + 1])
            == prefix + WindowLines(palette, windows[..i]) + DirectiveText(palette, windows[i].0, windows[i].1)
  {
    var w := windows[..i + 1];
    assert w[..i] == windows[..i] && w[i] == windows[i];
    assert WindowLines(palette, w) == WindowLines(palette, windows[..i]) + DirectiveText(palette, windows[i].0, windows[i].1);
  }

  /** The final loop of `apply_theme_to_config`, appending to what the rewrite produced. */
  method EmitWindowLines(prefix: string, palette: Palette, windows: Dict<WindowColor>) returns (merged: string)
    requires palette.NotMapping? ==> windows == []
    requires Complete(windows)
    ensures merged == prefix + WindowLines(palette, windows)
  {
    merged := prefix;
    for i := 0 to |windows|
      invariant merged == prefix + WindowLines(palette, windows[..i])
    {
      WindowLinesStep(prefix, palette, windows, i);
      merged := merged + DirectiveText(palette, windows[i].0, windows[i].1);
    }
    assert windows[..|windows|] == windows;
  }

  /** `d.update(e)` as the in-place loop it is: each pair of `e` assigned in turn. */
  method MergeInto<V>(d: Dict<V>, e: Dict<V>) returns (merged: Dict<V>)
    ensures merged == Update(d, e)
  {
    merged := d;
    for i := 0 to |e|
      invariant Update(merged, e[i..]) == Update(d, e)
    {
      assert e[i..][1..] == e[i + 1..];
      merged := Put(merged, e[i].0, e[i].1);
    }
  }

  /** The bar map after `barcolors.update(tbarcolors)`. */
  function MergedBars(theme: Theme, config: string): Dict<BarValue>
    requires BarColors.EntriesHaveColors(config)
  {
    Update(BarColors.BarColorsOf(config), theme.barColors)
  }

  /** The window map after `window_colors.update(twincolors)`. */
  function MergedWindows(theme: Theme, config: string): Dict<WindowColor> {
    Update(WindowColors.WindowColorsOf(config), theme.windowColors)
  }

  /**
   * Nothing raises: extraction does not meet a blank bar entry, no merged
   * window state is left with the empty record (whose colours line 151
   * would fail to read), and the merge does not hit a palette that is not a
   * dict.
   */
  predicate Applicable(theme: Theme, config: string) {
    && BarColors.EntriesHaveColors(config)
    && Complete(MergedWindows(theme, config))
    && Resolvable(theme.colors, MergedBars(theme, config), MergedWindows(theme, config))
  }

  /** The text `apply_theme_to_config` returns. */
  function Applied(theme: Theme, config: string): string
    requires Applicable(theme, config)
  {
    var block := ColorsBlock(BarProps(theme.colors, MergedBars(theme, config)));
    Rewrite.Rewritten(Rewrite.StrippedLines(config), block) + WindowLines(theme.colors, MergedWindows(theme, config))
  }

  /** `apply_theme_to_config`, step by step as the source runs it. */
  method ApplyTheme(theme: Theme, config: string) returns (merged: string)
    requires Applicable(theme, config)
    ensures merged == Applied(theme, config)
  {
    var bars := BarColors.GetBarColors(config);
    bars := MergeInto(bars, theme.barColors);
    var windows := WindowColors.GetWindowColors(config);
    windows := MergeInto(windows, theme.windowColors);
    var props := BuildBarProps(theme.colors, bars);
    var block := ColorsBlock(props);
    var lines := Rewrite.StrippedLines(config);
    merged := Rewrite.RewriteLines(lines, block);
    merged := EmitWindowLines(merged, theme.colors, windows);
  }

  /** A theme as loaded from YAML: none of its dicts repeats a key. */
  predicate WellFormed(theme: Theme) {
    UniqueKeys(theme.windowColors) && UniqueKeys(theme.barColors)
    && (theme.colors.Mapping? ==> UniqueKeys(theme.colors.entries))
  }

  /**
   * Merge precedence: each merged map holds exactly the keys of the
   * extracted map and of the theme's, once each; the theme's value wins on
   * a shared key and a key only the config has keeps its extracted value.
   */
  lemma MergePrecedence(theme: Theme, config: string, k: string)
    requires BarColors.EntriesHaveColors(config) && WellFormed(theme)
    ensures UniqueKeys(MergedBars(theme, config)) && UniqueKeys(MergedWindows(theme, config))
    ensures k in Keys(MergedBars(theme, config)) <==>
      k in Keys(BarColors.BarColorsOf(config)) || k in Keys(theme.barColors)
    ensures Get(MergedBars(theme, config), k) ==
      if k in Keys(theme.barColors) then Get(theme.barColors, k) else Get(BarColors.BarColorsOf(config), k)
    ensures k in Keys(MergedWindows(theme, config)) <==>
      k in Keys(WindowColors.WindowColorsOf(config)) || k in Keys(theme.windowColors)
    ensures Get(MergedWindows(theme, config), k) ==
      if k in Keys(theme.windowColors) then Get(theme.windowColors, k) else Get(WindowColors.WindowColorsOf(config), k)
  {
    var extracted := Extract.ThemeFromConfig(config);
    UpdateKeys(extracted.barColors, theme.barColors);
    UpdateKeys(extracted.windowColors, theme.windowColors);
    UpdateKeySet(extracted.barColors, theme.barColors, k);
    UpdateKeySet(extracted.windowColors, theme.windowColors, k);
    UpdateGet(extracted.barColors, theme.barColors, k);
    UpdateGet(extracted.windowColors, theme.windowColors, k);
  }

  /**
   * Applying the theme extracted from a config to that config merges
   * nothing new: both maps stay as extracted. It raises nothing exactly
   * when the window extraction did not end in the NameError, whose empty
   * record would reach line 151.
   */
  lemma ReapplyExtracted(config: string)
    requires BarColors.EntriesHaveColors(config)
    ensures MergedBars(Extract.ThemeFromConfig(config), config) == BarColors.BarColorsOf(config)
    ensures MergedWindows(Extract.ThemeFromConfig(config), config) == WindowColors.WindowColorsOf(config)
    ensures Applicable(Extract.ThemeFromConfig(config), config)
            <==> !WindowColors.ScanAll(WindowColors.Directives(config, 0)).failed
  {
    var extracted := Extract.ThemeFromConfig(config);
    UpdateSelf(extracted.barColors);
    UpdateSelf(extracted.windowColors);
    WindowColors.ScanComplete(WindowColors.Directives(config, 0));
  }

  /**
   * When the merged window map still holds the empty record, so that line
   * 151 raises KeyError: exactly when the config's first directive ended
   * the extraction with the NameError and the theme does not give that
   * state colours of its own.
   */
  lemma MergedComplete(theme: Theme, config: string)
    requires WellFormed(theme) && Complete(theme.windowColors)
    ensures Complete(MergedWindows(theme, config)) <==>
      !WindowColors.ScanAll(WindowColors.Directives(config, 0)).failed
      || WindowColors.Directives(config, 0)[0].state in Keys(theme.windowColors)
  {
    var ms := WindowColors.Directives(config, 0);
    var w, e := WindowColors.WindowColorsOf(config), theme.windowColors;
    var merged := MergedWindows(theme, config);
    WindowColors.ScanComplete(ms);
    WindowColors.FailureOnlyAtFirst(ms);
    if !WindowColors.ScanAll(ms).failed {
      UpdatePairs(w, e);
      assert Complete(merged);
    } else {
      MergeOverEmpty(ms[0].state, e);
    }
  }

  /** The theme's records merged over the one empty record a failed extraction leaves: complete exactly when the theme has that state. */
  lemma MergeOverEmpty(st: string, e: Dict<WindowColor>)
    requires UniqueKeys(e) && Complete(e)
    ensures Complete(Update([(st, Empty)], e)) <==> st in Keys(e)
  {
    var w := [(st, Empty)];
    var merged := Update(w, e);
    UpdateGet(w, e, st);
    if st in Keys(e) {
      UpdatePairs(w, e);
      UpdateKeys(w, e);
      forall i | 0 <= i < |merged|
        ensures merged[i].1.WindowColor?
      {
        if merged[i].0 == st {
          GetOwn(merged, i);
          GetPair(e, st);
        }
      }
    } else {
      GetPair(merged, st);
      assert Get(merged, st) == Some(Empty);
    }
  }

  /**
   * A record line of the colours block, with the newline that follows it,
   * reads back through the entry pattern as the same role and record.
   */
  lemma BarRecordReadBack(role: string, border: string, background: string, text: string)
    requires IsWord(role) && IsToken(border) && IsToken(background) && IsToken(text)
    ensures BarColors.Entries(BarRecordLine(role, border, background, text) + "\n", 0)
            == [BarColors.Entry(role, [border, background, text])]
    ensures BarColors.ValueOf([border, background, text]) == Record(border, background, text)
  {
    var colours := [border, background, text];
    var x := JoinWords(colours);
    JoinWordsThree(border, background, text);
    assert x[0] == border[0];
    JoinWordsOneLine(colours);
    WordsOfJoin(colours);
    BarColors.TabbedLine(role, x);
  }

  /**
   * A plain line of the colours block, with the newline that follows it,
   * reads back as the same role and plain colour.
   */
  lemma BarPlainReadBack(role: string, color: string)
    requires IsWord(role) && IsToken(color)
    ensures BarColors.Entries(BarPlainLine(role, color) + "\n", 0) == [BarColors.Entry(role, [color])]
    ensures BarColors.ValueOf([color]) == Plain(color)
  {
    TokenOneLine(color);
    BarColors.TabbedLine(role, color);
    WordsOfSingle(color);
  }

  /**
   * An emitted window directive reads back, through the directive pattern,
   * as its state with border, background and then the indicator if that is
   * not empty: the text colour is gone, and a non-empty indicator comes
   * back in the text's position.
   */
  lemma WindowDirectiveReadBack(state: string, border: string, background: string, indicator: string)
    requires state in WindowColors.States
    requires IsToken(border) && IsToken(background) && (indicator == "" || IsToken(indicator))
    ensures WindowColors.Directives(WindowDirectiveLine(state, border, background, indicator) + "\n", 0)
            == [WindowColors.Directive(state, [border, background] + (if indicator == "" then [] else [indicator]))]
  {
    var x := JoinWords([border, background, indicator]);
    DirectiveColours(border, background, indicator);
    assert "" + WindowDirectiveLine(state, border, background, indicator) == WindowDirectiveLine(state, border, background, indicator);
    WindowColors.DirectiveLine("", state, x);
  }

  /** The colours of an emitted directive stay on its line and split back into the colours, an empty indicator giving nothing. */
  lemma DirectiveColours(border: string, background: string, indicator: string)
    requires IsToken(border) && IsToken(background) && (indicator == "" || IsToken(indicator))
    ensures var x := JoinWords([border, background, indicator]);
      x != [] && !IsSpace(x[0]) && (forall k :: 0 <= k < |x| ==> x[k] != '\n')
      && Words(x) == [border, background] + (if indicator == "" then [] else [indicator])
  {
    var colours := [border, background, indicator];
    var x := JoinWords(colours);
    JoinWordsThree(border, background, indicator);
    assert x[0] == border[0];
    JoinWordsOneLine(colours);
    if indicator == "" {
      assert colours == [border, background] + [""];
      WordsOfJoinEmptyLast([border, background]);
    } else {
      WordsOfJoin(colours);
    }
  }

  /**
   * Extracting from a config that holds only one emitted directive: with an
   * indicator, the indicator comes back as the text colour and the
   * indicator is empty; without one, the two remaining colours raise the
   * swallowed NameError and the state comes back with the empty record.
   */
  lemma WindowRoundTrip(state: string, border: string, background: string, indicator: string)
    requires state in WindowColors.States
    requires IsToken(border) && IsToken(background) && (indicator == "" || IsToken(indicator))
    ensures indicator != "" ==>
      WindowColors.WindowColorsOf(WindowDirectiveLine(state, border, background, indicator) + "\n")
      == [(state, WindowColor(border, background, indicator, ""))]
    ensures indicator == "" ==>
      WindowColors.WindowColorsOf(WindowDirectiveLine(state, border, background, indicator) + "\n") == [(state, Empty)]
  {
    WindowDirectiveReadBack(state, border, background, indicator);
    var m := WindowColors.Directive(state, [border, background] + (if indicator == "" then [] else [indicator]));
    assert [m][..0] == [];
    assert WindowColors.ScanAll([m]) == WindowColors.Step(WindowColors.Scan([], None, false), m);
  }

  /** With no active `bar {` line left after stripping, the block goes nowhere: the output is the kept lines, then the directives. */
  lemma NoBarNoBlock(theme: Theme, config: string)
    requires Applicable(theme, config)
    requires forall i :: 0 <= i < |Rewrite.StrippedLines(config)| ==> !Rewrite.OpensBarBlock(Rewrite.StrippedLines(config)[i])
    ensures Applied(theme, config)
            == Rewrite.Joined(Rewrite.Kept(Rewrite.StrippedLines(config))) + WindowLines(theme.colors, MergedWindows(theme, config))
  {
    var lines := Rewrite.StrippedLines(config);
    var block := ColorsBlock(BarProps(theme.colors, MergedBars(theme, config)));
    Rewrite.NoOpeners(lines);
    Rewrite.InsertionsBounded(lines);
    Rewrite.RewriteWithoutInsertions(lines, block);
    Rewrite.RewriteWithoutBlock(lines);
  }
}
