/**
 * The two line passes of `apply_theme_to_config` over the target config:
 *  - removing every existing `colors { ... }` region (the `re.sub` call),
 *    read at the level of lines: a region opens on a line whose words are
 *    `colors {` and closes at the first later `}` that begins a line or
 *    follows whitespace; the opener's indentation and whatever follows the
 *    `}` are joined into one line, and the search goes on after it;
 *  - the reconstruction loop, driven by the single `inbar` flag: `client.`
 *    lines are dropped, comment lines copied, every other line copied with
 *    the colours block put in front of the first `}` line of a bar block.
 */
module Rewrite {
  import opened Wrappers
  import opened Text
  import BarColors

  /** The first closing `}` of a line at or after position `p`. */
  function FirstBraceFrom(line: string, p: nat): (r: Option<nat>)
    ensures r.Some? ==> p <= r.value && ClosingAt(line, r.value)
    ensures r.Some? ==> forall q :: p <= q < r.value ==> !ClosingAt(line, q)
    ensures r.None? ==> forall q :: p <= q < |line| ==> !ClosingAt(line, q)
    decreases |line| - p
  {
    if p >= |line| then None
    else if ClosingAt(line, p) then Some(p)
    else FirstBraceFrom(line, p + 1)
  }

  /** A line where an open region ends. */
  predicate HasClosing(line: string) {
    FirstBraceFrom(line, 0).Some?
  }

  /**
   * The config with its `colors { ... }` regions removed. The first line
   * that opens a region is joined with what follows the first closing `}`
   * after it; a region that is never closed is left alone, and then so is
   * every later one.
   */
  function StripColors(lines: seq<string>): (r: seq<string>)
    ensures |r| <= |lines|
    decreases |lines|
  {
    match FirstRegion(lines)
    case None => lines
    case Some(oc) => lines[..oc.0] + StripColors([JoinRegion(lines[oc.0], lines[oc.1])] + lines[oc.1 + 1..])
  }

  /** The first region: the first opener line, and the first line after it that closes it. */
  function FirstRegion(lines: seq<string>): (r: Option<(nat, nat)>)
    ensures r.Some? ==> r.value.0 < r.value.1 < |lines|
    ensures r.Some? ==> BarColors.OpensColors(lines[r.value.0]) && HasClosing(lines[r.value.1])
    ensures r.Some? ==> forall j :: r.value.0 < j < r.value.1 ==> !HasClosing(lines[j])
  {
    match FirstFrom(lines, 0, BarColors.OpensColors)
    case None => None
    case Some(o) =>
      match FirstFrom(lines, o + 1, HasClosing)
      case None => None
      case Some(c) =>
        FirstFromLeast(lines, o + 1, HasClosing);
        Some((o, c))
  }

  /** The line a removed region leaves: the opener's indentation, then what follows the closing `}`. */
  function JoinRegion(opener: string, closer: string): string
    requires HasClosing(closer)
  {
    opener[..IndentWidth(opener)] + closer[FirstBraceFrom(closer, 0).value + 1..]
  }

  /** No line opens a region that a later line closes. */
  predicate NoColorsRegion(lines: seq<string>) {
    forall o, c :: 0 <= o < c < |lines| && BarColors.OpensColors(lines[o]) ==> !HasClosing(lines[c])
  }

  /**
   * The search for the first region: no line before its opener opens one,
   * and where the search finds none, the lines hold no region at all.
   */
  lemma FirstRegionLeast(lines: seq<string>)
    ensures FirstRegion(lines).Some? ==> forall j :: 0 <= j < FirstRegion(lines).value.0 ==> !BarColors.OpensColors(lines[j])
    ensures FirstRegion(lines).None? ==> NoColorsRegion(lines)
  {
    FirstFromLeast(lines, 0, BarColors.OpensColors);
    match FirstFrom(lines, 0, BarColors.OpensColors)
    case None =>
    case Some(o) =>
      FirstFromLeast(lines, o + 1, HasClosing);
      forall o', c | 0 <= o' < c < |lines| && BarColors.OpensColors(lines[o']) && FirstRegion(lines).None?
        ensures !HasClosing(lines[c])
      {
        assert o <= o';
      }
  }

  /** One substitution: the first region is joined into one line and the rest is stripped in turn. */
  lemma StripUnfold(lines: seq<string>, o: nat, c: nat)
    requires FirstRegion(lines) == Some((o, c))
    ensures StripColors(lines) == lines[..o] + StripColors([JoinRegion(lines[o], lines[c])] + lines[c + 1..])
  {
  }

  /**
   * A config with one region: when the line the first region leaves opens
   * nothing and no region follows it, the substitution replaces that region
   * by the joined line and changes nothing else.
   */
  lemma StripOnce(lines: seq<string>, o: nat, c: nat)
    requires FirstRegion(lines) == Some((o, c))
    requires !BarColors.OpensColors(JoinRegion(lines[o], lines[c]))
    requires NoColorsRegion(lines[c + 1..])
    ensures StripColors(lines) == lines[..o] + [JoinRegion(lines[o], lines[c])] + lines[c + 1..]
  {
    StripUnfold(lines, o, c);
    StripAfterFirst([JoinRegion(lines[o], lines[c])], lines[c + 1..]);
  }

  /**
   * The lines `splitlines()` gives for the config after the substitution.
   * When the last region's `}` ends a config that has no final separator and
   * nothing else stands on the joined line, the substituted text ends with
   * the separator before that line, so the empty joined line is not a line.
   */
  function StrippedLines(config: string): (r: seq<string>)
    ensures r <= StripColors(SplitLines(config))
    ensures |StripColors(SplitLines(config))| <= |r| + 1
  {
    var lines := StripColors(SplitLines(config));
    if lines != [] && lines[|lines| - 1] == "" && !EndsInBreak(config) then lines[..|lines| - 1] else lines
  }

  /**
   * The joined line is dropped only at the end of a config without a final
   * separator: a config that ends in one, or that holds no region, keeps
   * every stripped line.
   */
  lemma StrippedKeepsLines(config: string)
    ensures EndsInBreak(config) || FirstRegion(SplitLines(config)).None? ==> StrippedLines(config) == StripColors(SplitLines(config))
  {
    var lines := SplitLines(config);
    if !EndsInBreak(config) && FirstRegion(lines).None? {
      assert StripColors(lines) == lines;
      if lines != [] {
        SplitLinesLast(config);
      }
    }
  }

  /**
   * A region closed on the config's last line, with no indentation before it
   * and nothing after its `}`, leaves no line behind when the config has no
   * final separator: `"a\ncolors {\n  x y\n}"` gives the lines of `"a\n"`.
   */
  lemma StripDropsFinalRegion(config: string, lines: seq<string>, o: nat)
    requires FirstRegion(lines) == Some((o, |lines| - 1))
    requires JoinRegion(lines[o], lines[|lines| - 1]) == ""
    requires lines == SplitLines(config) && !EndsInBreak(config)
    ensures StrippedLines(config) == lines[..o]
  {
    StripFinalRegion(lines, o);
    var stripped := StripColors(lines);
    assert stripped[..|stripped| - 1] == lines[..o];
  }

  /** A region closed on the last line whose joined line is empty leaves that empty line last. */
  lemma StripFinalRegion(lines: seq<string>, o: nat)
    requires FirstRegion(lines) == Some((o, |lines| - 1))
    requires JoinRegion(lines[o], lines[|lines| - 1]) == ""
    ensures StripColors(lines) == lines[..o] + [""]
  {
    var c := |lines| - 1;
    StripUnfold(lines, o, c);
    assert [JoinRegion(lines[o], lines[c])] + lines[c + 1..] == [""];
    assert !BarColors.OpensColors("");
    assert StripColors([""]) == [""];
  }

  /** After the substitution no `colors { ... }` region is left. */
  lemma {:induction false} StripLeavesNoRegion(lines: seq<string>)
    ensures NoColorsRegion(StripColors(lines))
    decreases |lines|
  {
    FirstRegionLeast(lines);
    var first := FirstRegion(lines);
    if first.Some? {
      var o, c := first.value.0, first.value.1;
      var tail := [JoinRegion(lines[o], lines[c])] + lines[c + 1..];
      StripUnfold(lines, o, c);
      StripLeavesNoRegion(tail);
      StripAfterFirst(lines[..o], StripColors(tail));
    }
  }

  /** Putting lines that open nothing in front keeps a config free of regions. */
  lemma StripAfterFirst(prefix: seq<string>, rest: seq<string>)
    requires forall j :: 0 <= j < |prefix| ==> !BarColors.OpensColors(prefix[j])
    requires NoColorsRegion(rest)
    ensures NoColorsRegion(prefix + rest)
  {
    var r := prefix + rest;
    var o := |prefix|;
    forall o', c' | 0 <= o' < c' < |r| && BarColors.OpensColors(r[o'])
      ensures !HasClosing(r[c'])
    {
      if o' >= o {
        assert r[o'] == rest[o' - o] && r[c'] == rest[c' - o];
      }
    }
  }

  /** Lines before the first region opener pass through the substitution unchanged; a config without one is returned as is. */
  lemma StripKeepsPrefix(lines: seq<string>, n: nat)
    requires n <= |lines|
    requires forall j :: 0 <= j < n ==> !BarColors.OpensColors(lines[j])
    ensures n <= |StripColors(lines)| && StripColors(lines)[..n] == lines[..n]
    ensures n == |lines| ==> StripColors(lines) == lines
  {
    match FirstRegion(lines)
    case None =>
    case Some(oc) =>
      assert n <= oc.0;
      StripUnfold(lines, oc.0, oc.1);
      assert StripColors(lines)[..n] == lines[..oc.0][..n];
  }

  /** A comment line: its first non-blank character is `#`. */
  predicate IsComment(line: string) {
    var t := TrimLeft(line);
    t != [] && t[0] == '#'
  }

  /** A line the loop drops: window directives are written again at the end. */
  predicate Dropped(line: string) {
    Contains(line, "client.")
  }

  /** A line that reaches the `inbar` logic: neither dropped nor a comment. */
  predicate Active(line: string) {
    !Dropped(line) && !IsComment(line)
  }

  predicate OpensBarBlock(line: string) {
    Active(line) && Contains(line, "bar {")
  }

  predicate ClosesBrace(line: string) {
    Active(line) && Contains(line, "}")
  }

  /** The `inbar` flag after the loop has seen `lines`. */
  function InBar(lines: seq<string>): bool
    decreases |lines|
  {
    if lines == [] then false
    else
      var inbar := InBar(lines[..|lines| - 1]);
      var line := lines[|lines| - 1];
      if !Active(line) then inbar
      else (inbar || Contains(line, "bar {")) && !Contains(line, "}")
  }

  /** The block goes in front of `line`, once the loop has seen `before`. */
  predicate InsertsBefore(before: seq<string>, line: string) {
    Active(line) && (InBar(before) || Contains(line, "bar {")) && Contains(line, "}")
  }

  /** What one iteration appends to the output. */
  function Piece(before: seq<string>, line: string, block: string): string {
    if Dropped(line) then ""
    else if IsComment(line) then line + "\n"
    else if InsertsBefore(before, line) then block + line + "\n"
    else line + "\n"
  }

  /** The reconstructed config text. */
  function Rewritten(lines: seq<string>, block: string): string
    decreases |lines|
  {
    if lines == [] then ""
    else
      var before := lines[..|lines| - 1];
      Rewritten(before, block) + Piece(before, lines[|lines| - 1], block)
  }

  /** The reconstruction loop of `apply_theme_to_config`. */
  method RewriteLines(lines: seq<string>, block: string) returns (merged: string)
    ensures merged == Rewritten(lines, block)
  {
    merged := "";
    var inbar := false;
    for i := 0 to |lines|
      invariant merged == Rewritten(lines[..i], block)
      invariant inbar == InBar(lines[..i])
    {
      var line := lines[i];
      RewriteStep(lines, i, block);
      if Contains(line, "client.") {
        assert merged + "" == merged;
        continue;
      }
      if IsComment(line) {
        merged := merged + line + "\n";
        continue;
      }
      if Contains(line, "bar {") {
        inbar := true;
      }
      if inbar && Contains(line, "}") {
        merged := merged + block;
        inbar := false;
      }
      merged := merged + line + "\n";
    }
    assert lines[..|lines|] == lines;
  }

  /** One iteration, in the terms of the loop's own tests. */
  lemma RewriteStep(lines: seq<string>, i: nat, block: string)
    requires i < |lines|
    ensures Contains(lines[i], "client.") ==> Rewritten(lines[..i + 1], block) == Rewritten(lines[..i], block)
    ensures !Contains(lines[i], "client.") && IsComment(lines[i]) ==>
      Rewritten(lines[..i + 1], block) == Rewritten(lines[..i], block) + lines[i] + "\n"
    ensures Active(lines[i]) && (InBar(lines[..i]) || Contains(lines[i], "bar {")) && Contains(lines[i], "}") ==>
      Rewritten(lines[..i + 1], block) == Rewritten(lines[..i], block) + block + lines[i] + "\n"
    ensures Active(lines[i]) && !((InBar(lines[..i]) || Contains(lines[i], "bar {")) && Contains(lines[i], "}")) ==>
      Rewritten(lines[..i + 1], block) == Rewritten(lines[..i], block) + lines[i] + "\n"
    ensures InBar(lines[..i + 1]) == (if !Active(lines[i]) then InBar(lines[..i])
                                      else (InBar(lines[..i]) || Contains(lines[i], "bar {")) && !Contains(lines[i], "}"))
  {
    var pre := lines[..i + 1];
    assert pre[..i] == lines[..i];
    assert pre[i] == lines[i];
  }

  /** An active `bar {` line with no active `}` line from it on. */
  predicate OpenBlockAt(lines: seq<string>, j: int) {
    0 <= j < |lines| && OpensBarBlock(lines[j]) && forall m :: j <= m < |lines| ==> !ClosesBrace(lines[m])
  }

  /**
   * The loop is inside a bar block exactly when some active `bar {` line has
   * been seen with no active `}` line from it on.
   */
  lemma InBarIff(lines: seq<string>)
    ensures InBar(lines) <==> exists j :: OpenBlockAt(lines, j)
  {
    if InBar(lines) {
      var j := InBarSound(lines);
    } else {
      forall j | OpenBlockAt(lines, j)
        ensures false
      {
        InBarComplete(lines, j);
      }
    }
  }

  /** Inside a bar block, the `bar {` line that opened it is still open. */
  lemma {:induction false} InBarSound(lines: seq<string>) returns (j: nat)
    requires InBar(lines)
    ensures OpenBlockAt(lines, j)
    decreases |lines|
  {
    var n := |lines| - 1;
    var init, line := lines[..n], lines[n];
    if Active(line) && Contains(line, "bar {") {
      j := n;
    } else {
      j := InBarSound(init);
      forall m | j <= m < |lines|
        ensures !ClosesBrace(lines[m])
      {
        if m < n {
          assert lines[m] == init[m];
        }
      }
    }
  }

  /** An open block puts the loop inside a bar block. */
  lemma {:induction false} InBarComplete(lines: seq<string>, j: nat)
    requires OpenBlockAt(lines, j)
    ensures InBar(lines)
    decreases |lines|
  {
    var n := |lines| - 1;
    var init := lines[..n];
    if j < n {
      forall m | j <= m < n
        ensures !ClosesBrace(init[m])
      {
        assert init[m] == lines[m];
      }
      InBarComplete(init, j);
    }
    assert !ClosesBrace(lines[n]);
  }

  /** Number of active `bar {` lines. */
  function Openers(lines: seq<string>): nat
    decreases |lines|
  {
    if lines == [] then 0
    else Openers(lines[..|lines| - 1]) + (if OpensBarBlock(lines[|lines| - 1]) then 1 else 0)
  }

  /** Number of places where the colours block is put in. */
  function Insertions(lines: seq<string>): nat
    decreases |lines|
  {
    if lines == [] then 0
    else
      var before := lines[..|lines| - 1];
      Insertions(before) + (if InsertsBefore(before, lines[|lines| - 1]) then 1 else 0)
  }

  /** Each `bar {` line leads to at most one insertion; a still-open one to none yet. */
  lemma {:induction false} InsertionsBounded(lines: seq<string>)
    ensures Insertions(lines) + (if InBar(lines) then 1 else 0) <= Openers(lines)
    decreases |lines|
  {
    if lines != [] {
      InsertionsBounded(lines[..|lines| - 1]);
    }
  }

  /** Without an active `bar {` line there is nothing to count. */
  lemma {:induction false} NoOpeners(lines: seq<string>)
    requires forall i :: 0 <= i < |lines| ==> !OpensBarBlock(lines[i])
    ensures Openers(lines) == 0
    decreases |lines|
  {
    if lines != [] {
      NoOpeners(lines[..|lines| - 1]);
    }
  }

  /** Where nothing is inserted the block does not matter. */
  lemma {:induction false} RewriteWithoutInsertions(lines: seq<string>, block: string)
    requires Insertions(lines) == 0
    ensures Rewritten(lines, block) == Rewritten(lines, "")
    decreases |lines|
  {
    if lines != [] {
      var before := lines[..|lines| - 1];
      RewriteWithoutInsertions(before, block);
    }
  }

  /** The lines the loop keeps. */
  function Kept(lines: seq<string>): seq<string>
    decreases |lines|
  {
    if lines == [] then []
    else
      var last := lines[|lines| - 1];
      Kept(lines[..|lines| - 1]) + (if Dropped(last) then [] else [last])
  }

  /** Lines joined back into text, each ended by a newline. */
  function Joined(lines: seq<string>): string
    decreases |lines|
  {
    if lines == [] then "" else Joined(lines[..|lines| - 1]) + lines[|lines| - 1] + "\n"
  }

  /** With an empty block, one line adds itself and a newline unless it is dropped. */
  lemma PieceWithoutBlock(before: seq<string>, line: string)
    ensures Piece(before, line, "") == if Dropped(line) then "" else line + "\n"
  {
    assert "" + line + "\n" == line + "\n";
  }

  /** The block adds its length to a line's piece exactly where it is put in. */
  lemma PieceLength(before: seq<string>, line: string, block: string)
    ensures |Piece(before, line, block)| == |Piece(before, line, "")| + (if InsertsBefore(before, line) then |block| else 0)
  {
  }

  /** With an empty block the loop copies every line except the `client.` ones, in order, each with a newline. */
  lemma {:induction false} RewriteWithoutBlock(lines: seq<string>)
    ensures Rewritten(lines, "") == Joined(Kept(lines))
    decreases |lines|
  {
    if lines != [] {
      var before, last := lines[..|lines| - 1], lines[|lines| - 1];
      RewriteWithoutBlock(before);
      assert Rewritten(lines, "") == Rewritten(before, "") + Piece(before, last, "");
      PieceWithoutBlock(before, last);
      if Dropped(last) {
        assert Kept(lines) == Kept(before);
      } else {
        var k := Kept(before) + [last];
        assert Kept(lines) == k;
        assert k[..|k| - 1] == Kept(before);
        assert Joined(k) == Joined(Kept(before)) + last + "\n";
      }
    }
  }

  /** One more insertion adds one more block's length; kept apart so that the product is reasoned about without the rest of the proof in view. */
  lemma MulSucc(n: nat, k: nat)
    ensures (n + 1) * k == n * k + k
  {
  }

  /** The output is the block-free copy plus one copy of the block per insertion. */
  lemma {:induction false} RewriteLength(lines: seq<string>, block: string)
    ensures |Rewritten(lines, block)| == |Rewritten(lines, "")| + Insertions(lines) * |block|
    decreases |lines|
  {
    if lines != [] {
      var before, last := lines[..|lines| - 1], lines[|lines| - 1];
      RewriteLength(before, block);
      var n, k := Insertions(before), |block|;
      var a, b := |Rewritten(before, block)|, |Rewritten(before, "")|;
      assert a == b + n * k;
      assert |Rewritten(lines, block)| == a + |Piece(before, last, block)|;
      assert |Rewritten(lines, "")| == b + |Piece(before, last, "")|;
      PieceLength(before, last, block);
      if InsertsBefore(before, last) {
        assert Insertions(lines) == n + 1;
        MulSucc(n, k);
      } else {
        assert Insertions(lines) == n;
      }
    }
  }
}
