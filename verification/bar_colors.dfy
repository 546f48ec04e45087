/**
 * The bar-colour extractor (`get_bar_colors`).
 *
 * The bar pattern is read at the level of the config's lines: the captured
 * colours region starts after the first `colors {` line that follows the
 * first `bar {` line and, because the capture is greedy, runs to the LAST
 * whitespace-preceded `}` of the whole config, not to the end of the bar
 * block, stopping one whitespace character before it. The region's lines,
 * joined by newlines, are the text the entry pattern then runs over.
 *
 * The entry pattern `\s*(\w+)\s+(.+)` runs on that text itself, as
 * `re.finditer` does: each search starts where the previous match ended and
 * reports the leftmost match, and the whitespace before and after the role
 * may cross line breaks, so a role alone on its line takes the next line as
 * its colours.
 */
module BarColors {
  import opened Wrappers
  import opened Text
  import opened Dicts
  import opened Themes

  /** One entry of the colours region: its role and its colour tokens. */
  datatype Entry = Entry(role: string, tokens: seq<string>)

  /** One match of the entry pattern: the role, the captured colours, and the index where the match ends. */
  datatype Hit = Hit(role: string, capture: string, end: nat)

  /**
   * The entry pattern tried at index `p` of the region text: optional
   * whitespace, a maximal run of word characters, then the `\s+(.+)` tail.
   * A shorter run of word characters never helps, since whitespace cannot
   * follow it.
   */
  function EntryAt(g: string, p: nat): (r: Option<Hit>)
    requires p <= |g|
    ensures r.Some? ==> p < r.value.end <= |g| && r.value.role != []
  {
    var q := SpaceEnd(g, p);
    var e := WordEnd(g, q);
    if q == e then None
    else
      match SpacedRest(g, e)
      case None => None
      case Some(t) => Some(Hit(g[q..e], t.capture, t.end))
  }

  /** The entry pattern tried at every index of the region text. */
  function EntryTry(g: string): nat -> Option<Hit> {
    (q: nat) => if q <= |g| then EntryAt(g, q) else None
  }

  /** The leftmost match at or after index `p`: the next match `re.finditer` reports. */
  function FindEntry(g: string, p: nat): (r: Option<Hit>)
    requires p <= |g|
    ensures r.Some? ==> p < r.value.end <= |g| && r.value.role != []
  {
    FirstHitLeftmost(EntryTry(g), p, |g|);
    FirstHit(EntryTry(g), p, |g|)
  }

  /**
   * A text made of a tab, a role, a space and colours that start with a
   * non-space and hold no newline, up to a newline or the end, matches the
   * entry pattern at its start, with the colours as the capture.
   */
  lemma TabbedEntry(role: string, colours: string, g: string)
    requires IsWord(role) && colours != [] && !IsSpace(colours[0])
    requires forall k :: 0 <= k < |colours| ==> colours[k] != '\n'
    requires StartsWith(g, ['\t'] + role + [' '] + colours)
    requires |g| == 2 + |role| + |colours| || g[2 + |role| + |colours|] == '\n'
    ensures FindEntry(g, 0) == Some(Hit(role, colours, 2 + |role| + |colours|))
  {
    var e := 1 + |role|;
    var pre := ['\t'] + role + [' '] + colours;
    assert g[..|pre|] == pre;
    assert g[0] == '\t' && g[1] == role[0];
    assert SpaceEnd(g, 0) == 1;
    forall k | 1 <= k < e
      ensures IsWordChar(g[k])
    {
      assert g[k] == pre[k] == role[k - 1];
    }
    assert g[e] == ' ';
    WordEndAt(g, 1, e);
    assert pre[1..e] == role;
    SliceOfPrefix(g, pre, 1, e);
    assert pre[e + 1..|pre|] == colours;
    SliceOfPrefix(g, pre, e + 1, |pre|);
    SpacedRestOf(g, e, colours);
  }

  /** A tabbed entry line followed by a newline reads as exactly one entry, with the colours split on whitespace. */
  lemma TabbedLine(role: string, colours: string)
    requires IsWord(role) && colours != [] && !IsSpace(colours[0])
    requires forall k :: 0 <= k < |colours| ==> colours[k] != '\n'
    ensures Entries("\t" + role + " " + colours + "\n", 0) == [Entry(role, Words(colours))]
  {
    var line := "\t" + role + " " + colours;
    var g := line + "\n";
    var n := |line|;
    assert g[..n] == line;
    TabbedEntry(role, colours, g);
    assert g[n] == '\n';
    NoEntryInBlank(g, n);
    assert Entries(g, n) == [];
    assert FindEntry(g, 0) == Some(Hit(role, colours, n));
  }

  /** Whitespace to the end of the text holds no entry. */
  lemma NoEntryInBlank(g: string, p: nat)
    requires p <= |g|
    requires forall k :: p <= k < |g| ==> IsSpace(g[k])
    ensures FindEntry(g, p) == None
  {
    forall q | p <= q <= |g|
      ensures EntryTry(g)(q).None?
    {
      SpaceEndAll(g, q);
    }
    FirstHitNone(EntryTry(g), p, |g|);
  }

  /** The whitespace run from `q` reaches the end of a text whose rest is all whitespace. */
  lemma {:induction false} SpaceEndAll(g: string, q: nat)
    requires q <= |g|
    requires forall k :: q <= k < |g| ==> IsSpace(g[k])
    ensures SpaceEnd(g, q) == |g|
    decreases |g| - q
  {
    if q < |g| {
      SpaceEndAll(g, q + 1);
    }
  }

  /**
   * All matches of the region text from index `pos` on, in order, each
   * search starting where the previous match ended; each match's captured
   * colours split on whitespace.
   */
  function Entries(g: string, pos: nat): (es: seq<Entry>)
    requires pos <= |g|
    decreases |g| - pos
  {
    match FindEntry(g, pos)
    case None => []
    case Some(h) => [Entry(h.role, Words(h.capture))] + Entries(g, h.end)
  }

  /** The value stored for an entry: exactly three tokens make a record, anything else keeps only the first token. */
  function ValueOf(tokens: seq<string>): BarValue
    requires tokens != []
  {
    if |tokens| == 3 then Record(tokens[0], tokens[1], tokens[2]) else Plain(tokens[0])
  }

  /** The extraction loop over the entries: each is written into the dict in turn. */
  function ScanEntries(es: seq<Entry>): Dict<BarValue>
    requires forall i :: 0 <= i < |es| ==> es[i].tokens != []
    decreases |es|
  {
    if es == [] then []
    else Put(ScanEntries(es[..|es| - 1]), es[|es| - 1].role, ValueOf(es[|es| - 1].tokens))
  }

  predicate OpensBar(line: string) {
    Words(line) == ["bar", "{"]
  }

  predicate OpensColors(line: string) {
    Words(line) == ["colors", "{"]
  }

  /** The position of the last `}` of a line that is preceded by whitespace or starts the line. */
  function LastBrace(line: string): (r: Option<nat>)
    ensures r.Some? ==> ClosingAt(line, r.value)
    ensures r.Some? ==> forall q :: r.value < q < |line| ==> !ClosingAt(line, q)
    ensures r.None? ==> forall q :: 0 <= q < |line| ==> !ClosingAt(line, q)
  {
    LastBraceBelow(line, |line|)
  }

  /** The backward search for such a `}` among the first `n` characters. */
  function LastBraceBelow(line: string, n: nat): (r: Option<nat>)
    requires n <= |line|
    ensures r.Some? ==> r.value < n && ClosingAt(line, r.value)
    ensures r.Some? ==> forall q :: r.value < q < n ==> !ClosingAt(line, q)
    ensures r.None? ==> forall q :: 0 <= q < n ==> !ClosingAt(line, q)
    decreases n
  {
    if n == 0 then None
    else if ClosingAt(line, n - 1) then Some(n - 1)
    else LastBraceBelow(line, n - 1)
  }

  predicate HasBrace(line: string) {
    LastBrace(line).Some?
  }

  /** The text the bar pattern captures, as lines; `None` where the pattern does not match. */
  function Region(lines: seq<string>): Option<seq<string>> {
    match FirstFrom(lines, 0, OpensBar)
    case None => None
    case Some(b) => RegionAfterBar(lines, b)
  }

  /** The rest of the match once the first `bar {` line is at `b`. */
  function RegionAfterBar(lines: seq<string>, b: nat): Option<seq<string>> {
    match FirstFrom(lines, b + 1, OpensColors)
    case None => None
    case Some(c) => RegionAfterColors(lines, c)
  }

  /** The rest of the match once the `colors {` line is at `c`: the last line holding a qualifying `}` ends it. */
  function RegionAfterColors(lines: seq<string>, c: nat): Option<seq<string>> {
    match LastFrom(lines, c + 1, HasBrace)
    case None => None
    case Some(l) => Some(Captured(lines, c, l))
  }

  /** The lines after the `colors {` line at `c`, up to line `l` cut before its last qualifying `}` and the space before it. */
  function Captured(lines: seq<string>, c: nat, l: nat): seq<string>
    requires c < l < |lines| && HasBrace(lines[l])
  {
    var brace := LastBrace(lines[l]).value;
    lines[c + 1..l] + (if brace == 0 then [] else [lines[l][..brace - 1]])
  }

  /**
   * Where the bar pattern matches, its group runs from the line after the
   * first `colors {` line that follows the first `bar {` line to one
   * character before the last qualifying `}` of the last line holding one.
   */
  lemma RegionFound(lines: seq<string>, b: nat, c: nat, l: nat)
    requires b < c < l < |lines|
    requires OpensBar(lines[b]) && forall j :: 0 <= j < b ==> !OpensBar(lines[j])
    requires OpensColors(lines[c]) && forall j :: b < j < c ==> !OpensColors(lines[j])
    requires HasBrace(lines[l]) && forall j :: l < j < |lines| ==> !HasBrace(lines[j])
    ensures Region(lines).Some?
    ensures var brace := LastBrace(lines[l]).value;
      Region(lines).value == lines[c + 1..l] + (if brace == 0 then [] else [lines[l][..brace - 1]])
  {
    RegionAtBar(lines, b);
    RegionAtColors(lines, b, c);
    RegionAtBrace(lines, c, l);
  }

  /** The match goes on from the first `bar {` line. */
  lemma RegionAtBar(lines: seq<string>, b: nat)
    requires b < |lines| && OpensBar(lines[b]) && forall j :: 0 <= j < b ==> !OpensBar(lines[j])
    ensures Region(lines) == RegionAfterBar(lines, b)
  {
    FirstFromIs(lines, 0, OpensBar, b);
  }

  /** It goes on from the first `colors {` line after that. */
  lemma RegionAtColors(lines: seq<string>, b: nat, c: nat)
    requires b < c < |lines| && OpensColors(lines[c]) && forall j :: b < j < c ==> !OpensColors(lines[j])
    ensures RegionAfterBar(lines, b) == RegionAfterColors(lines, c)
  {
    FirstFromIs(lines, b + 1, OpensColors, c);
    AfterBarAt(lines, b, c);
  }

  /** The step from the `bar {` line to the `colors {` line the search found. */
  lemma AfterBarAt(lines: seq<string>, b: nat, c: nat)
    requires FirstFrom(lines, b + 1, OpensColors) == Some(c)
    ensures RegionAfterBar(lines, b) == RegionAfterColors(lines, c)
  {
  }

  /** It ends at the last line holding a qualifying `}`. */
  lemma RegionAtBrace(lines: seq<string>, c: nat, l: nat)
    requires c < l < |lines| && HasBrace(lines[l]) && forall j :: l < j < |lines| ==> !HasBrace(lines[j])
    ensures RegionAfterColors(lines, c) == Some(Captured(lines, c, l))
  {
    LastFromIs(lines, c + 1, HasBrace, l);
  }

  /** The bar pattern fails to match exactly when no `bar {` line is followed by a `colors {` line and then by a line holding a qualifying `}`. */
  lemma RegionNone(lines: seq<string>)
    ensures Region(lines).None? <==>
      forall b, c, l :: 0 <= b < c < l < |lines| && OpensBar(lines[b]) && OpensColors(lines[c]) ==> !HasBrace(lines[l])
  {
    FirstFromLeast(lines, 0, OpensBar);
    match FirstFrom(lines, 0, OpensBar)
    case None =>
    case Some(b0) =>
      assert Region(lines) == RegionAfterBar(lines, b0);
      NoneAfterBar(lines, b0);
  }

  /** From the first `bar {` line on, the match fails exactly when no later `colors {` line is followed by a line holding a qualifying `}`. */
  lemma NoneAfterBar(lines: seq<string>, b0: nat)
    ensures RegionAfterBar(lines, b0).None? <==>
      forall c, l :: b0 < c < l < |lines| && OpensColors(lines[c]) ==> !HasBrace(lines[l])
  {
    FirstFromLeast(lines, b0 + 1, OpensColors);
    match FirstFrom(lines, b0 + 1, OpensColors)
    case None =>
    case Some(c0) =>
      assert RegionAfterBar(lines, b0) == RegionAfterColors(lines, c0);
      NoneAfterColors(lines, c0);
  }

  /** From the `colors {` line on, the match fails exactly when no later line holds a qualifying `}`. */
  lemma NoneAfterColors(lines: seq<string>, c0: nat)
    ensures RegionAfterColors(lines, c0).None? <==> forall l :: c0 < l < |lines| ==> !HasBrace(lines[l])
  {
  }

  /** The text the bar pattern captures: the region of the config's lines, joined by newlines. */
  function Group(config: string): Option<string> {
    match Region(SplitLines(config))
    case None => None
    case Some(region) => Some(JoinLines(region))
  }

  /** The entries `get_bar_colors` meets: none when the bar pattern does not match. */
  function EntriesOf(config: string): seq<Entry> {
    match Group(config)
    case None => []
    case Some(g) => Entries(g, 0)
  }

  /**
   * Every entry of the region has at least one colour token; an entry whose
   * colours are blank makes `get_bar_colors` index an empty list and raise.
   */
  predicate EntriesHaveColors(config: string) {
    forall i :: 0 <= i < |EntriesOf(config)| ==> EntriesOf(config)[i].tokens != []
  }

  /** What `get_bar_colors` returns, as a function of the config. */
  function BarColorsOf(config: string): Dict<BarValue>
    requires EntriesHaveColors(config)
  {
    ScanEntries(EntriesOf(config))
  }

  /**
   * `get_bar_colors`: find the region, then write one dict entry per match
   * of the entry pattern; no region gives the empty dict and nothing is
   * raised.
   */
  method GetBarColors(config: string) returns (colors: Dict<BarValue>)
    requires EntriesHaveColors(config)
    ensures colors == BarColorsOf(config)
    ensures Group(config).None? ==> colors == []
  {
    colors := [];
    var group := Group(config);
    if group.None? {
      return;
    }
    assert EntriesOf(config) == Entries(group.value, 0);
    colors := WriteEntries(Entries(group.value, 0));
  }

  /** The loop of `get_bar_colors` over the matches: each entry is written into the dict in turn. */
  method WriteEntries(entries: seq<Entry>) returns (colors: Dict<BarValue>)
    requires forall j :: 0 <= j < |entries| ==> entries[j].tokens != []
    ensures colors == ScanEntries(entries)
  {
    colors := [];
    for i := 0 to |entries|
      invariant colors == ScanEntries(entries[..i])
    {
      ScanEntriesPrefix(entries, i);
      colors := WriteEntry(colors, entries[i]);
    }
    assert entries[..|entries|] == entries;
  }

  /** One iteration of that loop: the entry's value, a record for three tokens and a plain colour otherwise, written under its role. */
  method WriteEntry(colors: Dict<BarValue>, e: Entry) returns (colors': Dict<BarValue>)
    requires e.tokens != []
    ensures colors' == Put(colors, e.role, ValueOf(e.tokens))
  {
    var value: BarValue;
    if |e.tokens| == 3 {
      value := Record(e.tokens[0], e.tokens[1], e.tokens[2]);
    } else {
      value := Plain(e.tokens[0]);
    }
    colors' := Put(colors, e.role, value);
  }

  /** Scanning one more entry is one more write. */
  lemma ScanEntriesPrefix(es: seq<Entry>, i: nat)
    requires i < |es|
    requires forall j :: 0 <= j < |es| ==> es[j].tokens != []
    ensures ScanEntries(es[..i + 1]) == Put(ScanEntries(es[..i]), es[i].role, ValueOf(es[i].tokens))
  {
    var q := es[..i + 1];
    assert q[..i] == es[..i] && q[i] == es[i];
  }

  /** One write adds its role to the keys and nothing else. */
  lemma PutKeys<V>(d: Dict<V>, role: string, v: V, k: string)
    ensures k in Keys(Put(d, role, v)) <==> k in Keys(d) || k == role
  {
    assert Get(Put(d, role, v), k).Some? <==> k in Keys(Put(d, role, v));
    assert Get(d, k).Some? <==> k in Keys(d);
  }

  /** The dict's keys come from the entries' roles, each once. */
  lemma {:induction false} ScanEntriesSound(es: seq<Entry>, k: string)
    requires forall i :: 0 <= i < |es| ==> es[i].tokens != []
    ensures UniqueKeys(ScanEntries(es))
    ensures k in Keys(ScanEntries(es)) ==> exists i :: 0 <= i < |es| && es[i].role == k
    decreases |es|
  {
    if es != [] {
      var init, last := es[..|es| - 1], es[|es| - 1];
      ScanEntriesSound(init, k);
      PutKeys(ScanEntries(init), last.role, ValueOf(last.tokens), k);
      if k in Keys(ScanEntries(es)) && k != last.role {
        var i :| 0 <= i < |init| && init[i].role == k;
        assert es[i] == init[i];
      }
    }
  }

  /** Every entry's role is a key of the dict. */
  lemma {:induction false} ScanEntriesComplete(es: seq<Entry>)
    requires forall i :: 0 <= i < |es| ==> es[i].tokens != []
    ensures forall i :: 0 <= i < |es| ==> es[i].role in Keys(ScanEntries(es))
    decreases |es|
  {
    if es != [] {
      var init, last := es[..|es| - 1], es[|es| - 1];
      var before := ScanEntries(init);
      ScanEntriesComplete(init);
      PutKeys(before, last.role, ValueOf(last.tokens), last.role);
      forall i | 0 <= i < |init|
        ensures es[i].role in Keys(ScanEntries(es))
      {
        assert init[i] == es[i];
        PutKeys(before, last.role, ValueOf(last.tokens), es[i].role);
      }
    }
  }

  /** The extracted bar dict has no key twice, and its keys are exactly the entries' roles. */
  lemma BarKeys(config: string, k: string)
    requires EntriesHaveColors(config)
    ensures UniqueKeys(BarColorsOf(config))
    ensures k in Keys(BarColorsOf(config)) <==> exists i :: 0 <= i < |EntriesOf(config)| && EntriesOf(config)[i].role == k
    ensures Group(config).None? ==> BarColorsOf(config) == []
  {
    var es := EntriesOf(config);
    ScanEntriesSound(es, k);
    ScanEntriesComplete(es);
  }

  /**
   * The value of a role is decided by its last entry: exactly three tokens
   * give a {border, background, text} record in that order, any other count
   * keeps the first token alone as a string.
   */
  lemma {:induction false} LastEntryWins(es: seq<Entry>, k: nat)
    requires forall i :: 0 <= i < |es| ==> es[i].tokens != []
    requires k < |es|
    requires forall j :: k < j < |es| ==> es[j].role != es[k].role
    ensures |es[k].tokens| == 3 ==>
      Get(ScanEntries(es), es[k].role) == Some(Record(es[k].tokens[0], es[k].tokens[1], es[k].tokens[2]))
    ensures |es[k].tokens| != 3 ==>
      Get(ScanEntries(es), es[k].role) == Some(Plain(es[k].tokens[0]))
    decreases |es|
  {
    var init := es[..|es| - 1];
    if k < |es| - 1 {
      LastEntryWins(init, k);
    }
  }
}
