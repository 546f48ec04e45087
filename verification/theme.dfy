/** The theme record the extractor builds and the applier consumes. */
module Themes {
  import opened Dicts

  /**
   * A window state's record: its colours, as in
   * `client.STATE border background text indicator`, or the empty record
   * `{}` that the extractor stores before its first iteration fails.
   */
  datatype WindowColor = WindowColor(border: string, background: string, text: string, indicator: string) | Empty

  /** Every window state of the map has its four colours, so none of them can be missing when read. */
  predicate Complete(windows: Dict<WindowColor>) {
    forall i :: 0 <= i < |windows| ==> windows[i].1.WindowColor?
  }

  /**
   * A bar role's value: a record of three colours, or a single raw colour
   * string (what the extractor keeps for any entry that does not have
   * exactly three colours).
   */
  datatype BarValue = Record(border: string, background: string, text: string) | Plain(color: string)

  /**
   * The theme's optional `colors` palette: no `colors` key at all, a mapping
   * from symbolic names to colours, or a value that is not a mapping (an
   * empty `colors:` entry reads as null).
   */
  datatype Palette = Absent | Mapping(entries: Dict<string>) | NotMapping

  /** A theme: its description, its palette and its two colour maps. */
  datatype Theme = Theme(meta: string, colors: Palette, windowColors: Dict<WindowColor>, barColors: Dict<BarValue>)
}
