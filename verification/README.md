# i3stylepy colour handling, modelled in Dafny

i3stylepy reads and rewrites the colour settings of an i3 window-manager
configuration. This project models the parts of `i3stylepy.py` that
do the work, leaving out file handling and YAML:

- **Window colours** (`get_window_colors`). Every
  `client.STATE colour colour colour [colour]` directive becomes a map entry
  STATE -> {border, background, text, indicator}. STATE is one of
  `focused`, `focused_inactive`, `unfocused` and `urgent`.
  - The loop carries `border`, `background` and `text` from one match to the
    next.
  - A match with neither three nor four colours reuses the previous match's
    three colours.
  - If such a match comes first, the loop raises a NameError, which the bare
    `except` swallows. Line 27 has already stored an empty record `{}` under
    that match's state, so the extraction returns just that entry.
- **Bar colours** (`get_bar_colors`). The
  `colors { ... }` region inside the first `bar { ... }` block is found, and
  each `ROLE colours...` entry in it becomes a map entry.
  - Exactly three colours make a {border, background, text} record.
  - Any other count keeps only the first colour, as a plain string.
- **Extracting a theme** (`theme_from_config_string`): both maps, a fixed
  description and no palette.
- **Applying a theme** (`apply_theme_to_config`). This runs in steps:
  - The theme's maps are laid over the maps extracted from the target
    config.
  - A colours block is built from the merged bar map, resolving palette
    names one level deep (`solve_color`).
  - Every existing `colors { ... }` region is removed.
  - The lines are rebuilt: `client.` lines are dropped, and the block goes
    in front of the first `}` line of each bar block.
  - One `client.` directive per merged window state is appended.

Modules:

- `Wrappers`: the option type.
- `Text`: characters, `split()`, `splitlines()`, and the scanning pieces of
  the regular expressions.
- `Dicts`: Python's insertion-ordered dicts as sequences of pairs, with
  `d[k] = v` and `update`.
- `Themes`: the theme record.
- `WindowColors`, `BarColors`, `Rewrite` and `Apply`: the operations.
- `Extract`: the theme built from a config (`theme_from_config_string`).

### How the regular expressions are read

**Directive and entry patterns.** The window-directive pattern (line 16) and
the bar-entry pattern (line 51) are followed on the text itself, the way
`re.finditer` runs them:

- Each search reports the leftmost match at or after the end of the previous
  match.
- The `\s+` after the state or role may cross line breaks.
- The captured `.+` runs to the end of its line.
- Where the whitespace runs to the end of the text, the capture gives
  characters back as the regex engine would.
- The window pattern is unanchored, so a directive inside a `#` comment is
  still extracted. `DirectiveLine` states this for any prefix without a `c`,
  such as `# `.

**Bar region.** The bar-region pattern (line 44) is read on the config's
lines:

- The region starts after the first line whose words are `colors {`, which
  must follow the first line whose words are `bar {`.
- Because the capture is greedy, it runs to the last `}` of the whole config
  that starts a line or follows whitespace. It stops one whitespace
  character before that `}`.
- The region's lines are joined by newlines to form the text the entry
  pattern runs on.

**Removal.** The removal pattern (line 134) is read on lines too. A region
opens on a line whose words are `colors {` and closes at the first later
`}` that starts a line or follows whitespace. The opener's indentation and
whatever follows the `}` are joined into one line.

**Three behaviours of the code worth knowing.** The model states each of
them as the code has it:

- `solve_color` looks up every value in the palette, including values that
  hold `#`. A palette key containing `#` is therefore resolved (`Resolve`).
- A plain bar value that holds `#`, such as `#fff`, is set aside at lines
  119-121 and never written, so the applied config loses it
  (`BarEntryText`).
- The window template has no slot for the text colour. Applying a theme
  writes border, background and indicator only, so the text colour of a
  `client.` line is lost and re-extraction reads the indicator as the text
  (`WindowRoundTrip`).

## Model

| member | source | states |
|---|---|---|
| Text.Words | i3stylepy.py:19 | `split()`: every element is a non-empty run of non-whitespace characters |
| Text.WordsOfToken | i3stylepy.py:19 | splitting a token followed by whitespace or nothing gives that token first, then the split of the rest |
| Text.WordsOfSpaced | i3stylepy.py:56 | splitting `w + " " + rest` gives `w` and then the split of `rest` |
| Text.WordsSkipsSpace | i3stylepy.py:19 | leading whitespace does not change the split |
| Text.WordsOfSingle | i3stylepy.py:56 | a single token splits into itself |
| Text.WordsOfJoin | i3stylepy.py:7-8 | splitting tokens joined by single spaces (as the templates lay them out) gives back those tokens |
| Text.WordsOfJoinEmptyLast | i3stylepy.py:7 | tokens joined with an empty last slot split back into just those tokens |
| Text.JoinWordsOneLine | i3stylepy.py:7-8 | a template line filled with tokens or empty values holds no line break |
| Text.JoinWordsThree | i3stylepy.py:8 | joining three values puts one space between each |
| Text.IndentWidth | i3stylepy.py:139 | `strip()` on the left: the indentation is all whitespace and is followed by a non-space or the end |
| Text.TokenWidth | i3stylepy.py:19 | a token's width covers only non-whitespace and stops at whitespace or the end |
| Text.ContainsIff | i3stylepy.py:136 | the substring test `sub in s` holds exactly when `sub` occurs at some index |
| Text.SpacedRest | i3stylepy.py:16 | the `\s+(.+)` tail, where it matches, ends after its start and inside the text |
| Text.SpacedRestOf | i3stylepy.py:16 | one space and a one-line non-blank value ended by a newline or the end are captured as exactly that value |
| Text.LineEndAt | i3stylepy.py:16 | `.+` stops exactly at the first line break |
| Text.WordEndAt | i3stylepy.py:51 | `\w+` runs exactly to the first non-word character |
| Text.SplitLines | i3stylepy.py:135 | `splitlines()`: no piece contains a line break |
| Text.SplitUnlines | i3stylepy.py:135 | lines without breaks, each ended by a newline, split back into themselves |
| Text.SplitLinesCons | i3stylepy.py:135 | a line followed by a newline is the first line of the split, whatever follows |
| Text.SplitLinesEndsWith | i3stylepy.py:135 | a line between two newlines at the end of a text is the last line of its split |
| Text.SplitLinesLast | i3stylepy.py:135 | without a final separator, the last line of the split is not empty |
| Text.FirstHitLeftmost | i3stylepy.py:18 | `finditer` reports the leftmost position where the pattern matches, and none when no position does |
| Text.FirstHitSkip | i3stylepy.py:18 | positions where the pattern fails do not change the search's result |
| Text.FirstHitNone | i3stylepy.py:54 | when no position matches, the search finds nothing |
| Text.FirstFrom | i3stylepy.py:44 | the line found from a point lies at or after it and satisfies the test |
| Text.FirstFromLeast | i3stylepy.py:44 | no line between the point and the one found satisfies the test, and when none is found no line from the point does |
| Text.LastFrom | i3stylepy.py:44 | the last line that satisfies a test, as a greedy capture reaches; no later line does |
| Dicts.Put | i3stylepy.py:27-31 | `d[k] = v`: `k` now maps to `v`, every other key is unchanged, an existing key keeps its place and a new key goes last |
| Dicts.PutPairs | i3stylepy.py:27-31 | after `d[k] = v` every pair is the new one or was already in `d` |
| Dicts.Get | i3stylepy.py:104 | a lookup succeeds exactly for keys of the dict |
| Dicts.GetPair | i3stylepy.py:104 | a successful lookup returns a value that is paired with that key in the dict |
| Dicts.Update | i3stylepy.py:107-111 | `d.update(e)`; `UpdateGet`, `UpdateKeys`, `UpdateKeySet` and `UpdatePairs` state its values, key order and pairs |
| Dicts.UpdateGet | i3stylepy.py:107 | after `d.update(e)`, a key of `e` maps to `e`'s value and any other key to `d`'s |
| Dicts.UpdateKeys | i3stylepy.py:107 | after `d.update(e)`, `d`'s keys keep their order and `e`'s new keys follow in `e`'s order, each once |
| Dicts.UpdateKeySet | i3stylepy.py:111 | the updated dict's keys are exactly those of the two dicts |
| Dicts.UpdatePairs | i3stylepy.py:111 | every pair of the updated dict comes from one of the two dicts |
| Dicts.UpdateWithOwn | i3stylepy.py:107 | updating a dict with pairs it already holds changes nothing |
| Dicts.UpdateSelf | i3stylepy.py:111 | updating a dict with itself changes nothing |
| WindowColors.StateFrom | i3stylepy.py:16 | the state alternation only reports one of the listed states, with a match ending inside the text |
| WindowColors.StateFromFirst | i3stylepy.py:16 | the alternation picks the first listed state that leads to a match |
| WindowColors.StateFromOwn | i3stylepy.py:16 | each of the four states, spelled out and followed by its colours, is matched as itself |
| WindowColors.DirectiveOwn | i3stylepy.py:16 | `client.STATE` followed by the tail matches with that state and the tail's capture |
| WindowColors.DirectiveInLine | i3stylepy.py:16 | a `client.STATE colours` line matches at its start and captures exactly its colours |
| WindowColors.DirectiveLine | i3stylepy.py:16-19 | a directive line, even behind a comment marker, yields exactly one match: its state with the split colours |
| WindowColors.OnlyDirective | i3stylepy.py:16-18 | a match that runs to the text's last character, with no `c` before it, is the only match of the text |
| WindowColors.SkipWithoutC | i3stylepy.py:16-18 | no match starts before a position with no `c` before it, so the search may start there |
| WindowColors.NoDirectiveNearEnd | i3stylepy.py:16 | fewer than seven characters left hold no match |
| WindowColors.Directives | i3stylepy.py:16-18 | every match's state is one of the four states |
| WindowColors.GetWindowColors | i3stylepy.py:10-35 | the extraction returns the map the scan of all matches builds, including the empty record the swallowed NameError leaves |
| WindowColors.ScanMatches | i3stylepy.py:18-33 | the loop over matches writes each record in turn, carrying the last three colours; at the NameError it has stored the empty record for that match's state and stops |
| WindowColors.ScanIteration | i3stylepy.py:19-31 | one iteration: four or three colours are stored and carried; otherwise the carried colours are stored; with nothing carried, the empty record is stored and the NameError ends the loop |
| WindowColors.Bind | i3stylepy.py:19-25 | the record one match binds; `ScanIteration` and `LastDirectiveWins` state it |
| WindowColors.Step | i3stylepy.py:19-31 | one iteration of the loop on the scan state; `ScanIteration` is proved to compute it, and `FailureIsFinal` and `FailureOnlyAtFirst` state how it fails |
| WindowColors.FailureIsFinal | i3stylepy.py:17-33 | once the NameError is raised, later matches change nothing |
| WindowColors.FailureOnlyAtFirst | i3stylepy.py:19-28 | the NameError happens exactly when the first match has neither three nor four colours, and then the map holds only that match's state, with the empty record |
| WindowColors.ScanComplete | i3stylepy.py:27-33 | every stored record has all four colours exactly when the NameError did not happen |
| WindowColors.CarriedIsLastFull | i3stylepy.py:22-24 | the carried colours are the first three of the latest match that had three or four |
| WindowColors.ScanKeysSound | i3stylepy.py:26-27 | every key of the scanned map is the state of some match, and no key repeats |
| WindowColors.ScanKeysComplete | i3stylepy.py:26-27 | without the NameError, every match's state is a key of the map |
| WindowColors.ScanKeys | i3stylepy.py:16-33 | keys are unique and among the four states, and without the NameError they are exactly the matched states |
| WindowColors.WindowKeys | i3stylepy.py:10-35 | the same, for the map extracted from a config |
| WindowColors.WindowKeysInStates | i3stylepy.py:16 | every key of the extracted map is one of the four states |
| WindowColors.LastDirectiveWins | i3stylepy.py:19-31 | the last match for a state decides its record: four colours bind border, background, text and indicator in order; three bind the first three with an empty indicator; otherwise the carried colours with an empty indicator |
| BarColors.EntryAt | i3stylepy.py:51 | an entry match has a non-empty role and ends after its start, inside the text |
| BarColors.FindEntry | i3stylepy.py:54 | the next entry match from a position ends after it |
| BarColors.TabbedEntry | i3stylepy.py:51 | a tab, a word, a space and a one-line value match as that role with that value |
| BarColors.TabbedLine | i3stylepy.py:51-56 | a tabbed entry line yields exactly one entry: the role with its split colours |
| BarColors.NoEntryInBlank | i3stylepy.py:51 | blank text holds no entry |
| BarColors.LastBrace | i3stylepy.py:44 | the closing `}` the greedy capture stops at is a `}` at the start of the line or after whitespace, no later position of the line is one, and none is found exactly when the line holds none |
| BarColors.Region | i3stylepy.py:44 | the bar pattern's capture, as lines; its extent is stated by `RegionFound` and its failure by `RegionNone` |
| BarColors.RegionFound | i3stylepy.py:44 | after the first `bar {` line and the first `colors {` line following it, the capture runs from the next line to the last line holding a qualifying `}`, cut one character before that `}` (the line dropped when the `}` starts it) |
| BarColors.RegionNone | i3stylepy.py:44 | the bar pattern fails exactly when no `bar {` line is followed by a `colors {` line and then by a line holding a qualifying `}` |
| BarColors.GetBarColors | i3stylepy.py:37-64 | the extractor returns the map built from the region's entries, and the empty map when there is no region |
| BarColors.WriteEntries | i3stylepy.py:54-63 | the loop writes each entry's value into the map in turn |
| BarColors.WriteEntry | i3stylepy.py:55-63 | one iteration writes, under the entry's role, a record for three colours and the first colour otherwise |
| BarColors.ScanEntriesSound | i3stylepy.py:55-57 | keys are unique and every key is some entry's role |
| BarColors.ScanEntriesComplete | i3stylepy.py:55-57 | every entry's role is a key |
| BarColors.BarKeys | i3stylepy.py:44-63 | the extracted map's keys are exactly the region's roles, once each; no region gives the empty map and raises nothing |
| BarColors.LastEntryWins | i3stylepy.py:58-63 | the last entry for a role decides its value: three colours make a record in order, any other count the first colour alone |
| Extract.ThemeFromConfig | i3stylepy.py:66-76 | the generated theme has the fixed description, no palette, unique keys and only the four window states |
| Apply.Resolve | i3stylepy.py:102-104 | `solve_color`: a palette key becomes its value, looked up once; anything else, or everything when there is no palette, is unchanged |
| Apply.BarEntryText | i3stylepy.py:115-124 | a role adds nothing exactly when it is a plain colour holding `#`, or the palette is not a dict |
| Apply.BuildBarProps | i3stylepy.py:114-124 | the loop accumulates every role's text, in map order |
| Apply.EmitWindowLines | i3stylepy.py:150-151 | the final loop appends one resolved directive per merged window state, in map order |
| Apply.MergeInto | i3stylepy.py:107 | the in-place `update` produces the merged dict |
| Apply.ColorsBlock | i3stylepy.py:126-130 | the `colorsblock` template; `ColorsBlockLines` states its lines |
| Apply.ColorsBlockLines | i3stylepy.py:126-134 | the block's lines are an empty line, the `colors {` line and, last, the `}` line, and the removal pattern finds a region opening at its `colors {` line: the pattern recognises the block the rewrite inserts |
| Apply.Applied | i3stylepy.py:131-153 | the text `apply_theme_to_config` returns; `ApplyTheme` is proved to compute it, and `NoBarNoBlock` states it without a bar block |
| Apply.ApplyTheme | i3stylepy.py:94-153 | when nothing raises (no blank bar entry, no empty window record, no palette that is not a dict), `apply_theme_to_config` returns the lines of the config after the substitution (`StrippedLines`), rebuilt, followed by the window directives |
| Apply.MergePrecedence | i3stylepy.py:105-111 | each merged map holds the config's keys and the theme's, once each; the theme wins on a shared key and config-only keys keep their values |
| Apply.ReapplyExtracted | i3stylepy.py:66-76 | applying the theme extracted from a config to that config merges to the extracted maps, and raises nothing exactly when the extraction did not end in the NameError |
| Apply.MergedComplete | i3stylepy.py:109-151 | the merged window map leaves no state with the empty record, so line 151 cannot raise KeyError, exactly when the extraction did not fail or the theme gives the failed state colours of its own |
| Apply.MergeOverEmpty | i3stylepy.py:111 | the theme's records laid over the one empty record leave every state with colours exactly when the theme has that state |
| Apply.BarRecordReadBack | i3stylepy.py:8 | a record's template line reads back as that role with its three colours, i.e. the same record |
| Apply.BarPlainReadBack | i3stylepy.py:124 | a plain colour's line reads back as that role with that colour |
| Apply.WindowDirectiveReadBack | i3stylepy.py:7 | a filled-in window template reads back as a directive with border, background and (if any) indicator |
| Apply.DirectiveColours | i3stylepy.py:7 | the template's colour slots form one non-blank line that splits into the filled-in colours |
| Apply.WindowRoundTrip | i3stylepy.py:7 | re-extracting an emitted directive loses the text colour: the indicator comes back as the text and the indicator is empty; with no indicator, the state comes back with the empty record |
| Apply.NoBarNoBlock | i3stylepy.py:132-153 | with no `bar {` line the output is the kept lines, then the directives: no block is inserted |
| Rewrite.FirstBraceFrom | i3stylepy.py:134 | the first `}` at the start of a line or after whitespace |
| Rewrite.StripColors | i3stylepy.py:134 | removing regions never adds lines |
| Rewrite.FirstRegion | i3stylepy.py:134 | the region found is an opener line and a later line that closes it, with no line between them closing one (the lazy `.+?` stops at the first `}`) |
| Rewrite.FirstRegionLeast | i3stylepy.py:134 | no line before the first region's opener opens one, and when no region is found the lines hold none |
| Rewrite.JoinRegion | i3stylepy.py:134 | what the substitution leaves of a region: the opener's indentation and what follows the closing `}`; `StripOnce` and `StripFinalRegion` state the lines around it |
| Rewrite.StripOnce | i3stylepy.py:134 | with one region, whose joined line opens nothing and after which no region follows, the removal replaces that region's lines by the joined line and keeps every other line |
| Rewrite.StripFinalRegion | i3stylepy.py:134 | a region closed on the last line with nothing left on the joined line leaves the lines before it and one empty line |
| Rewrite.StrippedLines | i3stylepy.py:134-135 | the lines `splitlines()` gives after the substitution: the stripped lines, except at most one final empty line |
| Rewrite.StrippedKeepsLines | i3stylepy.py:134-135 | a config that ends in a line separator, or holds no region, keeps every stripped line |
| Rewrite.StripDropsFinalRegion | i3stylepy.py:134-135 | a region ending the config without a final separator, leaving nothing on its joined line, leaves exactly the lines before it (`"a\ncolors {\n  x y\n}"` gives `["a"]`) |
| Rewrite.StripLeavesNoRegion | i3stylepy.py:134 | after removal no complete `colors { ... }` region is left |
| Rewrite.StripAfterFirst | i3stylepy.py:134 | lines before the first opener do not create a region |
| Rewrite.StripKeepsPrefix | i3stylepy.py:134 | lines before the first opener are unchanged, and a config with no opener is unchanged |
| Rewrite.RewriteLines | i3stylepy.py:135-148 | the reconstruction loop produces the rebuilt text |
| Rewrite.InBar | i3stylepy.py:136-148 | the `inbar` flag after a prefix of the lines; `InBarIff` states when it holds |
| Rewrite.Piece | i3stylepy.py:136-148 | what one iteration appends; `RewriteStep`, `PieceWithoutBlock` and `PieceLength` state it |
| Rewrite.RewriteStep | i3stylepy.py:136-148 | a `client.` line adds nothing; a comment is copied and does not touch `inbar`; any other line is copied with a newline, with the block in front when a bar block closes on it; `inbar` is updated as the loop does |
| Rewrite.InBarIff | i3stylepy.py:142-147 | `inbar` holds exactly when a `bar {` line was seen and no `}` line came after it |
| Rewrite.InBarSound | i3stylepy.py:142-147 | when `inbar` holds, there is an open bar line with no closing line after it |
| Rewrite.InBarComplete | i3stylepy.py:142-147 | an open bar line with no closing line after it makes `inbar` hold |
| Rewrite.InsertionsBounded | i3stylepy.py:142-147 | the block is inserted at most once per `bar {` line |
| Rewrite.NoOpeners | i3stylepy.py:142 | with no `bar {` line there are no openers |
| Rewrite.RewriteWithoutInsertions | i3stylepy.py:145-146 | without insertions the block does not matter |
| Rewrite.PieceWithoutBlock | i3stylepy.py:136-148 | without a block, a line adds itself and a newline unless it holds `client.` |
| Rewrite.PieceLength | i3stylepy.py:145-148 | a line adds the block's length only where the block is inserted |
| Rewrite.RewriteWithoutBlock | i3stylepy.py:135-148 | without a block, the output is every line not holding `client.`, in order, each ended by a newline |
| Rewrite.RewriteLength | i3stylepy.py:145-146 | the output is longer than the block-free output by one block per insertion |

## Left out

- Reading and writing YAML (`read_theme_from_yaml`, `theme_as_yaml`, lines 78-92). The theme is a value handed to `Apply.ApplyTheme`, and no serialisation round trip is claimed.
- YAML values of other shapes. A window record is either all four colours or the empty record `{}`; one with only some of the fields, a bar value that is neither a dict nor a string, and palette values that are not strings are not modelled.
- File and command-line handling: `applytheme`, `console`, `console2` and `listthemes` (lines 155-223). These only read and write files, list a directory or parse arguments.
- Text outside a line: the bar region, `bar {` and `colors {` are recognised on whole lines whose words are exactly those two. A `bar { ... colors {` written on one line, a `colors` and its `{` on different lines, and a `colors {` followed by more text on its line are not captured or removed as the regular expressions would.
- Region edge cases: the whitespace-then-character-then-whitespace the patterns demand around a captured region is not checked. An empty `colors {` block is removed up to its own `}`, where the lazy removal pattern would run on to a later `}`. The region's lines are rejoined with `\n`, so a lone `\r` or another `splitlines` break between entries is read as a newline.
- Non-ASCII word characters: `\w` covers ASCII letters, digits and `_` only, where Python's also admits other Unicode letters and digits. Whitespace (`\s`, `split()`, `strip()`) follows Python's full set, non-ASCII spaces included.
- KeyErrors from a theme without `bar_colors` or `window_colors` (lines 106, 110). The theme datatype always has both maps, so they cannot arise.
- BarColors.GetBarColors: the IndexError at line 63, raised for an entry whose colours are blank, is not modelled as an exception. It is the precondition `EntriesHaveColors`.
- Apply.ApplyTheme: the KeyError at line 151, raised when a merged window state holds the empty record (left by the swallowed NameError, or given by the theme itself), is not modelled as an exception. It is the precondition `Complete(MergedWindows(theme, config))` inside `Applicable`; `Apply.MergedComplete` states when it holds.
- Apply.ApplyTheme: the AttributeError from a palette that is not a dict (a `colors:` key with a null or list value) is not modelled as an exception. The precondition `Resolvable` rules out every call to `solve_color` on such a palette.
