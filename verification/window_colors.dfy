/**
 * The window-colour extractor (`get_window_colors`): every
 * `client.STATE colour colour colour [colour]` directive of the config text
 * becomes an entry STATE -> {border, background, text, indicator}.
 *
 * The directive pattern is followed on the text itself, the way
 * `re.finditer` runs it: the leftmost position where `client.`, one of the
 * four states, whitespace and at least one more character follow; the
 * match then ends at the end of that line and the search goes on from
 * there. The search is unanchored, so a directive inside a comment is found
 * too, and the whitespace after the state may run over line breaks, so a
 * state with nothing after it on its own line takes its colours from the
 * next line that is not blank.
 */
module WindowColors {
  import opened Wrappers
  import opened Text
  import opened Dicts
  import opened Themes

  /** The recognised window states, in the order the pattern's alternation tries them. */
  const States: seq<string> := ["focused", "focused_inactive", "unfocused", "urgent"]

  /** One match of the directive pattern: its state and its colour tokens. */
  datatype Directive = Directive(state: string, tokens: seq<string>)

  /** A match found in the text: its state, the text its `colorstring` group captured, and the index where it ends. */
  datatype Found = Found(state: string, capture: string, end: nat)

  /**
   * The alternation over `states` at index `a` of the text, just after
   * `client.`: the first state that is spelled out there and is followed by
   * the `\s+(.+)` tail.
   */
  function StateFrom(states: seq<string>, s: string, a: nat): (r: Option<Found>)
    requires a <= |s|
    ensures r.Some? ==> r.value.state in states && a < r.value.end <= |s|
    decreases |states|
  {
    if states == [] then None
    else
      var st := states[0];
      if StartsWith(s[a..], st) then
        match SpacedRest(s, a + |st|)
        case Some(t) => Some(Found(st, t.capture, t.end))
        case None => StateFrom(states[1..], s, a)
      else
        StateFrom(states[1..], s, a)
  }

  /** The alternation takes the first state that fits, skipping those before it. */
  lemma {:induction false} StateFromFirst(states: seq<string>, s: string, a: nat, k: nat)
    requires a <= |s|
    requires k < |states| && StartsWith(s[a..], states[k]) && SpacedRest(s, a + |states[k]|).Some?
    requires forall j :: 0 <= j < k ==> !StartsWith(s[a..], states[j]) || SpacedRest(s, a + |states[j]|).None?
    ensures StateFrom(states, s, a)
            == Some(Found(states[k], SpacedRest(s, a + |states[k]|).value.capture, SpacedRest(s, a + |states[k]|).value.end))
    decreases k
  {
    if k > 0 {
      StateFromFirst(states[1..], s, a, k - 1);
    }
  }

  /**
   * A state's own name followed by the tail selects that state, even where
   * a shorter state is a prefix of it (`focused` of `focused_inactive`).
   */
  lemma StateFromOwn(state: string, s: string, a: nat)
    requires state in States && a <= |s| && StartsWith(s[a..], state)
    requires SpacedRest(s, a + |state|).Some?
    ensures StateFrom(States, s, a)
            == Some(Found(state, SpacedRest(s, a + |state|).value.capture, SpacedRest(s, a + |state|).value.end))
  {
    if state == "focused" {
      StateFromFirst(States, s, a, 0);
    } else if state == "focused_inactive" {
      FocusedInactiveOwn(s, a);
    } else {
      OtherStateOwn(state, s, a);
    }
  }

  /** After `client.focused_inactive` the shorter alternative `focused` meets `_`, not whitespace, and fails. */
  lemma FocusedInactiveOwn(s: string, a: nat)
    requires a <= |s| && StartsWith(s[a..], "focused_inactive")
    requires SpacedRest(s, a + 16).Some?
    ensures StateFrom(States, s, a) == Some(Found("focused_inactive", SpacedRest(s, a + 16).value.capture, SpacedRest(s, a + 16).value.end))
  {
    assert s[a + 7] == s[a..][7] == '_';
    assert SpaceEnd(s, a + 7) == a + 7;
    StateFromFirst(States, s, a, 1);
  }

  /** `unfocused` and `urgent` share no prefix with the states tried before them. */
  lemma OtherStateOwn(state: string, s: string, a: nat)
    requires state == "unfocused" || state == "urgent"
    requires a <= |s| && StartsWith(s[a..], state)
    requires SpacedRest(s, a + |state|).Some?
    ensures StateFrom(States, s, a)
            == Some(Found(state, SpacedRest(s, a + |state|).value.capture, SpacedRest(s, a + |state|).value.end))
  {
    var t := s[a..];
    assert t[..|state|] == state;
    SkipFocused(t);
    if state == "unfocused" {
      StateFromFirst(States, s, a, 2);
    } else {
      SkipUnfocused(t);
      StateFromFirst(States, s, a, 3);
    }
  }

  /** A text that starts with `u` starts with neither of the two `focused` states. */
  lemma SkipFocused(t: string)
    requires t != [] && t[0] == 'u'
    ensures !StartsWith(t, "focused") && !StartsWith(t, "focused_inactive")
  {
    assert |t| < 7 || t[..7][0] != "focused"[0];
    assert |t| < 16 || t[..16][0] != "focused_inactive"[0];
  }

  /** A text whose second character is `r` does not start with `unfocused`. */
  lemma SkipUnfocused(t: string)
    requires |t| > 1 && t[1] == 'r'
    ensures !StartsWith(t, "unfocused")
  {
    assert |t| < 9 || t[..9][1] != "unfocused"[1];
  }

  /** The directive pattern tried at index `p` of the text. */
  function DirectiveAt(s: string, p: nat): (r: Option<Found>)
    requires p <= |s|
    ensures r.Some? ==> r.value.state in States && p < r.value.end <= |s|
  {
    if StartsWith(s[p..], "client.") then StateFrom(States, s, p + 7) else None
  }

  /** The directive pattern tried at every index of the text. */
  function DirectiveTry(s: string): nat -> Option<Found> {
    (q: nat) => if q <= |s| then DirectiveAt(s, q) else None
  }

  /** The leftmost match at or after index `p`: the next match `re.finditer` reports. */
  function FindDirective(s: string, p: nat): (r: Option<Found>)
    requires p <= |s|
    ensures r.Some? ==> r.value.state in States && p < r.value.end <= |s|
  {
    FirstHitLeftmost(DirectiveTry(s), p, |s|);
    FirstHit(DirectiveTry(s), p, |s|)
  }

  /** Where `client.`, a state and the tail start at index `p`, the pattern matches there, for that state. */
  lemma DirectiveOwn(state: string, s: string, p: nat)
    requires state in States && p <= |s| && StartsWith(s[p..], "client." + state)
    requires SpacedRest(s, p + 7 + |state|).Some?
    ensures DirectiveAt(s, p)
            == Some(Found(state, SpacedRest(s, p + 7 + |state|).value.capture, SpacedRest(s, p + 7 + |state|).value.end))
  {
    var t := s[p..];
    assert t[..7 + |state|] == "client." + state;
    assert t[..7] == "client.";
    assert s[p + 7..] == t[7..];
    assert t[7..][..|state|] == t[7..7 + |state|] == ("client." + state)[7..] == state;
    StateFromOwn(state, s, p + 7);
  }

  /**
   * A directive line followed by a newline reads as exactly one directive,
   * with the colours split on whitespace, whatever precedes it on its line
   * as long as no `c` does: a directive behind `# ` is found like any other.
   */
  lemma DirectiveLine(before: string, state: string, colours: string)
    requires forall k :: 0 <= k < |before| ==> before[k] != 'c'
    requires state in States && colours != [] && !IsSpace(colours[0])
    requires forall k :: 0 <= k < |colours| ==> colours[k] != '\n'
    ensures Directives(before + ("client." + state + " " + colours) + "\n", 0) == [Directive(state, Words(colours))]
  {
    var s := before + ("client." + state + " " + colours) + "\n";
    DirectiveInLine(before, state, colours);
    assert s[..|before|] == before;
    OnlyDirective(s, |before|, state, colours);
  }

  /** A match at `m` that runs to the last character, with no `c` before it, is the text's only match. */
  lemma OnlyDirective(s: string, m: nat, state: string, colours: string)
    requires 0 < |s| && m <= |s|
    requires forall k :: 0 <= k < m ==> s[k] != 'c'
    requires DirectiveAt(s, m) == Some(Found(state, colours, |s| - 1))
    ensures Directives(s, 0) == [Directive(state, Words(colours))]
  {
    var n := |s| - 1;
    SkipWithoutC(s, m);
    assert FindDirective(s, 0) == Some(Found(state, colours, n));
    NoDirectiveNearEnd(s, n);
    assert Directives(s, n) == [];
  }

  /** No match starts before index `m` when no `c` occurs there, so the search may as well start at `m`. */
  lemma SkipWithoutC(s: string, m: nat)
    requires m <= |s|
    requires forall k :: 0 <= k < m ==> s[k] != 'c'
    ensures FindDirective(s, 0) == FindDirective(s, m)
  {
    forall q | 0 <= q < m
      ensures DirectiveTry(s)(q).None?
    {
      var t := s[q..];
      assert t[0] == s[q];
      assert !StartsWith(t, "client.") by {
        assert |t| < 7 || t[..7][0] != "client."[0];
      }
    }
    FirstHitSkip(DirectiveTry(s), 0, m, |s|);
  }

  /** The match found where `client.` starts on such a line: its state, its colours, and the line's end. */
  lemma DirectiveInLine(before: string, state: string, colours: string)
    requires state in States && colours != [] && !IsSpace(colours[0])
    requires forall k :: 0 <= k < |colours| ==> colours[k] != '\n'
    ensures var s := before + ("client." + state + " " + colours) + "\n";
            DirectiveAt(s, |before|) == Some(Found(state, colours, |s| - 1))
  {
    var s := before + ("client." + state + " " + colours) + "\n";
    LineStart(before, state, colours);
    LineColours(before, state, colours);
    DirectiveOfParts(s, |before|, state, colours);
  }

  /** Where `client.` and a state start at `p` and the rest of the pattern captures `colours` up to `end`, that is the match at `p`. */
  lemma DirectiveOfParts(s: string, p: nat, state: string, colours: string)
    requires state in States && p <= |s| && StartsWith(s[p..], "client." + state)
    requires SpacedRest(s, p + 7 + |state|) == Some(Tail(colours, |s| - 1))
    ensures DirectiveAt(s, p) == Some(Found(state, colours, |s| - 1))
  {
    DirectiveOwn(state, s, p);
  }

  /** On such a line, the text from where `client.` starts begins with `client.` and the state. */
  lemma LineStart(before: string, state: string, colours: string)
    ensures var s := before + ("client." + state + " " + colours) + "\n";
            StartsWith(s[|before|..], "client." + state)
  {
    var s := before + ("client." + state + " " + colours) + "\n";
    assert s[|before|..][..7 + |state|] == "client." + state;
  }

  /** On such a line, the `\s+(.+)` after the state captures the colours and stops at the newline. */
  lemma LineColours(before: string, state: string, colours: string)
    requires colours != [] && !IsSpace(colours[0])
    requires forall k :: 0 <= k < |colours| ==> colours[k] != '\n'
    ensures var s := before + ("client." + state + " " + colours) + "\n";
            SpacedRest(s, |before| + 7 + |state|) == Some(Tail(colours, |s| - 1))
  {
    var s := before + ("client." + state + " " + colours) + "\n";
    var e := |before| + 7 + |state|;
    assert s[e] == ' ';
    assert s[e + 1..e + 1 + |colours|] == colours;
    assert s[|s| - 1] == '\n';
    SpacedRestOf(s, e, colours);
  }

  /** Fewer than seven characters before the end leave no room for `client.`. */
  lemma NoDirectiveNearEnd(s: string, p: nat)
    requires p <= |s| < p + 7
    ensures FindDirective(s, p) == None
  {
    forall q | p <= q <= |s|
      ensures DirectiveTry(s)(q).None?
    {
      assert |s[q..]| < 7;
    }
    FirstHitNone(DirectiveTry(s), p, |s|);
  }

  /**
   * All matches of the text from index `pos` on, in order, each search
   * starting where the previous match ended; each match's captured colours
   * split on whitespace.
   */
  function Directives(s: string, pos: nat): (ms: seq<Directive>)
    requires pos <= |s|
    ensures forall i :: 0 <= i < |ms| ==> ms[i].state in States
    decreases |s| - pos
  {
    match FindDirective(s, pos)
    case None => []
    case Some(f) => [Directive(f.state, Words(f.capture))] + Directives(s, f.end)
  }

  /** The `border`, `background` and `text` variables the loop carries from one match to the next. */
  datatype Carried = Carried(border: string, background: string, text: string)

  /**
   * The record one loop iteration builds: four tokens in order, three tokens
   * with an empty indicator, otherwise the carried colours with an empty
   * indicator, or `None` where the carried variables were never bound (the
   * NameError).
   */
  function Bind(tokens: seq<string>, carried: Option<Carried>): Option<WindowColor> {
    if |tokens| == 4 then Some(WindowColor(tokens[0], tokens[1], tokens[2], tokens[3]))
    else if |tokens| == 3 then Some(WindowColor(tokens[0], tokens[1], tokens[2], ""))
    else match carried
      case None => None
      case Some(c) => Some(WindowColor(c.border, c.background, c.text, ""))
  }

  /** The loop's state: the dict built so far, the carried variables, and whether the NameError ended it. */
  datatype Scan = Scan(colors: Dict<WindowColor>, carried: Option<Carried>, failed: bool)

  /**
   * One iteration. The state's entry is first set to the empty record; the
   * NameError comes only after that, when the colours are read, so a failing
   * iteration leaves the empty record behind.
   */
  function Step(s: Scan, m: Directive): Scan {
    if s.failed then s
    else match Bind(m.tokens, s.carried)
      case None => Scan(Put(s.colors, m.state, Empty), s.carried, true)
      case Some(c) => Scan(Put(s.colors, m.state, c), Some(Carried(c.border, c.background, c.text)), false)
  }

  /** The loop run over a sequence of matches. */
  function ScanAll(ms: seq<Directive>): Scan
    decreases |ms|
  {
    if ms == [] then Scan([], None, false) else Step(ScanAll(ms[..|ms| - 1]), ms[|ms| - 1])
  }

  /** What `get_window_colors` returns, as a function of the config. */
  function WindowColorsOf(config: string): Dict<WindowColor> {
    ScanAll(Directives(config, 0)).colors
  }

  /** The first three colours of the latest match that had three or four tokens. */
  function LastFull(ms: seq<Directive>): Option<Carried>
    decreases |ms|
  {
    if ms == [] then None
    else
      var t := ms[|ms| - 1].tokens;
      if |t| == 3 || |t| == 4 then Some(Carried(t[0], t[1], t[2])) else LastFull(ms[..|ms| - 1])
  }

  /**
   * `get_window_colors`: scan the matches, writing each into the dict; the
   * bare `except` turns the NameError into an early return of what was
   * collected so far.
   */
  method GetWindowColors(config: string) returns (colors: Dict<WindowColor>)
    ensures colors == WindowColorsOf(config)
  {
    colors := ScanMatches(Directives(config, 0));
  }

  /** The loop of `get_window_colors` over the matches, with the carried variables and the `except` that ends it. */
  method ScanMatches(matches: seq<Directive>) returns (colors: Dict<WindowColor>)
    ensures colors == ScanAll(matches).colors
  {
    colors := [];
    var carried: Option<Carried> := None;
    var failed := false;
    var i := 0;
    while i < |matches| && !failed
      invariant 0 <= i <= |matches|
      invariant Scan(colors, carried, failed) == ScanAll(matches[..i])
    {
      ScanAllStep(matches, i);
      colors, carried, failed := ScanIteration(colors, carried, matches[i]);
      i := i + 1;
    }
    if i < |matches| {
      FailureIsFinal(matches, i);
    } else {
      assert matches[..i] == matches;
    }
  }

  /**
   * One iteration of the loop: the four-token, three-token and carried
   * cases bind a record; with no carried colours the entry is already the
   * empty record when the NameError is raised.
   */
  method ScanIteration(colors: Dict<WindowColor>, carried: Option<Carried>, m: Directive)
    returns (colors': Dict<WindowColor>, carried': Option<Carried>, failed: bool)
    ensures Scan(colors', carried', failed) == Step(Scan(colors, carried, false), m)
  {
    var indicator := "";
    var record: WindowColor;
    if |m.tokens| == 4 {
      record := WindowColor(m.tokens[0], m.tokens[1], m.tokens[2], m.tokens[3]);
    } else if |m.tokens| == 3 {
      record := WindowColor(m.tokens[0], m.tokens[1], m.tokens[2], indicator);
    } else if carried.Some? {
      record := WindowColor(carried.value.border, carried.value.background, carried.value.text, indicator);
    } else {
      return Put(colors, m.state, Empty), carried, true;
    }
    colors' := Put(colors, m.state, record);
    carried' := Some(Carried(record.border, record.background, record.text));
    failed := false;
  }

  /** The scan of one more match is one more loop iteration. */
  lemma ScanAllStep(ms: seq<Directive>, i: nat)
    requires i < |ms|
    ensures ScanAll(ms[..i + 1]) == Step(ScanAll(ms[..i]), ms[i])
  {
    assert ms[..i + 1][..i] == ms[..i];
  }

  /** Once the NameError has ended the loop, later matches change nothing. */
  lemma {:induction false} FailureIsFinal(ms: seq<Directive>, i: nat)
    requires i <= |ms|
    requires ScanAll(ms[..i]).failed
    ensures ScanAll(ms) == ScanAll(ms[..i])
    decreases |ms| - i
  {
    if i < |ms| {
      var init := ms[..|ms| - 1];
      assert init[..i] == ms[..i];
      FailureIsFinal(init, i);
    } else {
      assert ms[..i] == ms;
    }
  }

  /**
   * The NameError happens exactly when the very first match has neither
   * three nor four tokens, and then the dict holds only that match's state,
   * mapped to the empty record.
   */
  lemma {:induction false} FailureOnlyAtFirst(ms: seq<Directive>)
    ensures ScanAll(ms).failed <==> ms != [] && |ms[0].tokens| != 3 && |ms[0].tokens| != 4
    ensures ScanAll(ms).failed ==> ScanAll(ms).colors == [(ms[0].state, Empty)]
    ensures !ScanAll(ms).failed && ms != [] ==> ScanAll(ms).carried.Some?
    decreases |ms|
  {
    if ms != [] {
      var init := ms[..|ms| - 1];
      FailureOnlyAtFirst(init);
      if init != [] {
        assert init[0] == ms[0];
      }
    }
  }

  /** While no NameError has occurred, the carried variables hold the latest three- or four-token match. */
  lemma {:induction false} CarriedIsLastFull(ms: seq<Directive>)
    requires !ScanAll(ms).failed
    ensures ScanAll(ms).carried == LastFull(ms)
    decreases |ms|
  {
    if ms != [] {
      CarriedIsLastFull(ms[..|ms| - 1]);
    }
  }

  /** One loop iteration, failing or not, adds its match's state to the keys and nothing else; after the failure nothing changes. */
  lemma StepKeys(s: Scan, m: Directive, k: string)
    ensures UniqueKeys(s.colors) ==> UniqueKeys(Step(s, m).colors)
    ensures s.failed || (k in Keys(Step(s, m).colors) <==> k in Keys(s.colors) || k == m.state)
    ensures s.failed ==> Step(s, m) == s
  {
    if !s.failed {
      var c := if Bind(m.tokens, s.carried).Some? then Bind(m.tokens, s.carried).value else Empty;
      assert Step(s, m).colors == Put(s.colors, m.state, c);
      assert Get(Put(s.colors, m.state, c), k).Some? <==> k in Keys(Put(s.colors, m.state, c));
      assert Get(s.colors, k).Some? <==> k in Keys(s.colors);
    }
  }

  /** Every stored record has its colours exactly when the NameError did not end the scan. */
  lemma {:induction false} ScanComplete(ms: seq<Directive>)
    ensures Complete(ScanAll(ms).colors) <==> !ScanAll(ms).failed
    decreases |ms|
  {
    if ms != [] {
      var init, last := ms[..|ms| - 1], ms[|ms| - 1];
      ScanComplete(init);
      FailureOnlyAtFirst(ms);
      var before := ScanAll(init);
      if !ScanAll(ms).failed {
        var c := Bind(last.tokens, before.carried).value;
        assert ScanAll(ms).colors == Put(before.colors, last.state, c);
        PutPairs(before.colors, last.state, c);
      } else {
        assert ScanAll(ms).colors[0].1 == Empty;
      }
    }
  }

  /** Keys come from the matches, each at most once. */
  lemma {:induction false} ScanKeysSound(ms: seq<Directive>, k: string)
    ensures UniqueKeys(ScanAll(ms).colors)
    ensures k in Keys(ScanAll(ms).colors) ==> exists i :: 0 <= i < |ms| && ms[i].state == k
    decreases |ms|
  {
    if ms != [] {
      var init := ms[..|ms| - 1];
      ScanKeysSound(init, k);
      StepKeys(ScanAll(init), ms[|ms| - 1], k);
      if k in Keys(ScanAll(ms).colors) && k != ms[|ms| - 1].state {
        var i :| 0 <= i < |init| && init[i].state == k;
        assert ms[i] == init[i];
      }
    }
  }

  /** A step that binds a record keeps every key and adds its match's state. */
  lemma StepKeeps(s: Scan, m: Directive, k: string)
    requires !Step(s, m).failed
    ensures !s.failed
    ensures k in Keys(s.colors) ==> k in Keys(Step(s, m).colors)
    ensures m.state in Keys(Step(s, m).colors)
  {
    var c := Bind(m.tokens, s.carried).value;
    assert Step(s, m).colors == Put(s.colors, m.state, c);
  }

  /** Unless the NameError ended the scan, every matched state is a key. */
  lemma {:induction false} ScanKeysComplete(ms: seq<Directive>)
    requires !ScanAll(ms).failed
    ensures forall i :: 0 <= i < |ms| ==> ms[i].state in Keys(ScanAll(ms).colors)
    decreases |ms|
  {
    if ms != [] {
      var init, last := ms[..|ms| - 1], ms[|ms| - 1];
      var before := ScanAll(init);
      assert ScanAll(ms) == Step(before, last);
      StepKeeps(before, last, last.state);
      ScanKeysComplete(init);
      forall i | 0 <= i < |init|
        ensures ms[i].state in Keys(ScanAll(ms).colors)
      {
        assert init[i] == ms[i];
        StepKeeps(before, last, ms[i].state);
      }
    }
  }

  /**
   * The extracted dict's keys are window states, each at most once, and,
   * unless the NameError ended the scan, exactly the states of the matches.
   */
  lemma WindowKeys(config: string, k: string)
    ensures UniqueKeys(WindowColorsOf(config))
    ensures k in Keys(WindowColorsOf(config)) ==> k in States
    ensures !ScanAll(Directives(config, 0)).failed ==>
      (k in Keys(WindowColorsOf(config)) <==> exists i :: 0 <= i < |Directives(config, 0)| && Directives(config, 0)[i].state == k)
  {
    ScanKeys(Directives(config, 0), k);
  }

  /** The keys of a scan are the states of its matches, each once, unless the NameError ended it. */
  lemma ScanKeys(ms: seq<Directive>, k: string)
    requires forall i :: 0 <= i < |ms| ==> ms[i].state in States
    ensures UniqueKeys(ScanAll(ms).colors)
    ensures k in Keys(ScanAll(ms).colors) ==> k in States
    ensures !ScanAll(ms).failed ==> (k in Keys(ScanAll(ms).colors) <==> exists i :: 0 <= i < |ms| && ms[i].state == k)
  {
    ScanKeysSound(ms, k);
    if !ScanAll(ms).failed {
      ScanKeysComplete(ms);
    }
  }

  /**
   * A later directive for a state replaces the earlier record entirely: the
   * state's entry is the record bound by its last match. Four tokens bind
   * border, background, text and indicator in order; three bind the first
   * three with an empty indicator; any other count reuses the colours of the
   * latest three- or four-token match before it, with an empty indicator.
   */
  lemma {:induction false} LastDirectiveWins(ms: seq<Directive>, k: nat)
    requires k < |ms|
    requires !ScanAll(ms).failed
    requires forall j :: k < j < |ms| ==> ms[j].state != ms[k].state
    ensures Get(ScanAll(ms).colors, ms[k].state) == Bind(ms[k].tokens, LastFull(ms[..k]))
    ensures |ms[k].tokens| == 4 ==>
      Get(ScanAll(ms).colors, ms[k].state)
        == Some(WindowColor(ms[k].tokens[0], ms[k].tokens[1], ms[k].tokens[2], ms[k].tokens[3]))
    ensures |ms[k].tokens| == 3 ==>
      Get(ScanAll(ms).colors, ms[k].state)
        == Some(WindowColor(ms[k].tokens[0], ms[k].tokens[1], ms[k].tokens[2], ""))
    ensures |ms[k].tokens| != 3 && |ms[k].tokens| != 4 ==>
      LastFull(ms[..k]).Some? &&
      Get(ScanAll(ms).colors, ms[k].state)
        == Some(WindowColor(LastFull(ms[..k]).value.border, LastFull(ms[..k]).value.background,
                            LastFull(ms[..k]).value.text, ""))
    decreases |ms|
  {
    var init := ms[..|ms| - 1];
    assert !ScanAll(init).failed;
    if k == |ms| - 1 {
      CarriedIsLastFull(init);
    } else {
      assert init[..k] == ms[..k];
      LastDirectiveWins(init, k);
    }
  }

  /** The extracted dict holds only the four window states, each once. */
  lemma WindowKeysInStates(config: string)
    ensures UniqueKeys(WindowColorsOf(config))
    ensures forall k :: k in Keys(WindowColorsOf(config)) ==> k in States
  {
    forall k | k in Keys(WindowColorsOf(config))
      ensures k in States
    {
      WindowKeys(config, k);
    }
    WindowKeys(config, "");
  }
}
