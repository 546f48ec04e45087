/**
 * The theme read back from a config (`theme_from_config_string`): the
 * window-colour and bar-colour extractors put together.
 */
module Extract {
  import opened Dicts
  import opened Themes
  import WindowColors
  import BarColors

  /** The theme `theme_from_config_string` builds: both extracted dicts, a fixed description and no palette. */
  function ThemeFromConfig(config: string): (t: Theme)
    requires BarColors.EntriesHaveColors(config)
    ensures t.meta == "Autogenerated theme" && t.colors == Absent
    ensures UniqueKeys(t.windowColors) && UniqueKeys(t.barColors)
    ensures forall k :: k in Keys(t.windowColors) ==> k in WindowColors.States
  {
    WindowColors.WindowKeysInStates(config);
    BarColors.BarKeys(config, "");
    Theme("Autogenerated theme", Absent, WindowColors.WindowColorsOf(config), BarColors.BarColorsOf(config))
  }
}
