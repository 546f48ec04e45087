/**
 * The few string operations of Python that the tool relies on: whitespace
 * (`str.isspace`, regex `\s`), `str.split()` with no argument, the
 * substring test `sub in s`, `str.startswith`, `str.splitlines()`, the `\w`
 * word class, and the `\s+(.+)` tail that both extraction patterns end with.
 */
module Text {
  import opened Wrappers

  /** Python's whitespace: `str.isspace`, which is also what `\s`, `split()` and `strip()` use. */
  predicate IsSpace(c: char) {
    || c == ' ' || c == '\t' || c == '\n' || c == '\r' || c == '\U{B}' || c == '\U{C}'
    || ('\U{1C}' <= c <= '\U{1F}')
    || c == '\U{85}' || c == '\U{A0}' || c == '\U{1680}'
    || ('\U{2000}' <= c <= '\U{200A}')
    || c == '\U{2028}' || c == '\U{2029}' || c == '\U{202F}' || c == '\U{205F}' || c == '\U{3000}'
  }

  /** The regex class `\w`, restricted to ASCII: letters, digits and underscore. */
  predicate IsWordChar(c: char) {
    ('a' <= c <= 'z') || ('A' <= c <= 'Z') || ('0' <= c <= '9') || c == '_'
  }

  /** A non-empty run of `\w` characters. */
  predicate IsWord(s: string) {
    s != [] && forall i :: 0 <= i < |s| ==> IsWordChar(s[i])
  }

  /** A non-empty string without whitespace: what `split()` hands back. */
  predicate IsToken(s: string) {
    s != [] && forall i :: 0 <= i < |s| ==> !IsSpace(s[i])
  }

  predicate StartsWith(s: string, prefix: string) {
    |prefix| <= |s| && s[..|prefix|] == prefix
  }

  /** A `}` at position `p` that begins the line or follows whitespace: where `\s+}` or a leading `}` can end a match. */
  predicate ClosingAt(line: string, p: int) {
    0 <= p < |line| && line[p] == '}' && (p == 0 || IsSpace(line[p - 1]))
  }

  /** Any slice within a prefix of `s` is the same slice of `s`. */
  lemma SliceOfPrefix(s: string, prefix: string, i: nat, j: nat)
    requires StartsWith(s, prefix) && i <= j <= |prefix|
    ensures s[i..j] == prefix[i..j]
  {
    forall k | i <= k < j
      ensures s[k] == prefix[k]
    {
      assert s[..|prefix|][k] == s[k];
    }
  }

  /** `sub` occurs in `s` starting at index `i`. */
  predicate OccursAt(s: string, sub: string, i: int) {
    0 <= i <= |s| - |sub| && s[i..i + |sub|] == sub
  }

  /** Python's `sub in s`. */
  function Contains(s: string, sub: string): bool
    decreases |s|
  {
    if |s| < |sub| then false
    else if s[..|sub|] == sub then true
    else Contains(s[1..], sub)
  }

  /** The substring test holds exactly when `sub` occurs at some index of `s`. */
  lemma {:induction false} ContainsIff(s: string, sub: string)
    ensures Contains(s, sub) <==> exists i :: OccursAt(s, sub, i)
    decreases |s|
  {
    if |s| < |sub| {
    } else if s[..|sub|] == sub {
      assert OccursAt(s, sub, 0);
    } else {
      ContainsIff(s[1..], sub);
      forall i | 0 <= i <= |s| - 1 - |sub|
        ensures OccursAt(s[1..], sub, i) <==> OccursAt(s, sub, i + 1)
      {
        assert s[1..][i..i + |sub|] == s[i + 1..i + 1 + |sub|];
      }
      assert !OccursAt(s, sub, 0);
      assert forall i :: OccursAt(s, sub, i) ==> OccursAt(s[1..], sub, i - 1);
    }
  }

  /** Number of leading whitespace characters. */
  function IndentWidth(s: string): (n: nat)
    ensures n <= |s|
    ensures forall i :: 0 <= i < n ==> IsSpace(s[i])
    ensures n < |s| ==> !IsSpace(s[n])
    decreases |s|
  {
    if s != [] && IsSpace(s[0]) then 1 + IndentWidth(s[1..]) else 0
  }

  /** `s.lstrip()`. */
  function TrimLeft(s: string): string {
    s[IndentWidth(s)..]
  }

  /** Length of the leading run of non-whitespace characters. */
  function TokenWidth(s: string): (n: nat)
    ensures n <= |s|
    ensures forall i :: 0 <= i < n ==> !IsSpace(s[i])
    ensures n < |s| ==> IsSpace(s[n])
    decreases |s|
  {
    if s != [] && !IsSpace(s[0]) then 1 + TokenWidth(s[1..]) else 0
  }

  /** Python's `s.split()`: the maximal whitespace-free runs of `s`, in order. */
  function Words(s: string): (ws: seq<string>)
    ensures forall i :: 0 <= i < |ws| ==> IsToken(ws[i])
    decreases |s|
  {
    var t := TrimLeft(s);
    if t == [] then []
    else
      var n := TokenWidth(t);
      [t[..n]] + Words(t[n..])
  }

  /** Leading whitespace never produces a word of its own. */
  lemma {:induction false} WordsSkipsSpace(c: char, s: string)
    requires IsSpace(c)
    ensures Words([c] + s) == Words(s)
  {
    assert ([c] + s)[1..] == s;
    assert IndentWidth([c] + s) == 1 + IndentWidth(s);
    assert TrimLeft([c] + s) == TrimLeft(s);
  }

  /** A token followed by the end or by whitespace is the first word. */
  lemma {:induction false} WordsOfToken(w: string, rest: string)
    requires IsToken(w)
    requires rest == [] || IsSpace(rest[0])
    ensures Words(w + rest) == [w] + Words(rest)
  {
    var s := w + rest;
    assert IndentWidth(s) == 0;
    assert TrimLeft(s) == s;
    TokenWidthOf(w, rest);
    assert s[..|w|] == w && s[|w|..] == rest;
  }

  lemma {:induction false} TokenWidthOf(w: string, rest: string)
    requires forall i :: 0 <= i < |w| ==> !IsSpace(w[i])
    requires rest == [] || IsSpace(rest[0])
    ensures TokenWidth(w + rest) == |w|
    decreases |w|
  {
    if w != [] {
      assert (w + rest)[1..] == w[1..] + rest;
      TokenWidthOf(w[1..], rest);
    }
  }

  /** An indentation never produces a word of its own. */
  lemma {:induction false} WordsSkipsIndent(pad: string, s: string)
    requires forall i :: 0 <= i < |pad| ==> IsSpace(pad[i])
    ensures Words(pad + s) == Words(s)
    decreases |pad|
  {
    if pad != [] {
      var rest := pad[1..] + s;
      assert pad + s == [pad[0]] + rest;
      WordsSkipsSpace(pad[0], rest);
      assert forall i :: 0 <= i < |pad| - 1 ==> pad[1..][i] == pad[i + 1];
      WordsSkipsIndent(pad[1..], s);
    } else {
      assert pad + s == s;
    }
  }

  /** An indented pair of tokens with one space between them splits into the pair. */
  lemma WordsOfIndentedPair(pad: string, a: string, b: string)
    requires forall i :: 0 <= i < |pad| ==> IsSpace(pad[i])
    requires IsToken(a) && IsToken(b)
    ensures Words(pad + (a + " " + b)) == [a, b]
  {
    WordsOfSpaced(a, b);
    WordsOfSingle(b);
    WordsSkipsIndent(pad, a + " " + b);
  }

  /** An indented pair of tokens with one space between them lies within one line. */
  lemma IndentedPairIsLine(pad: string, a: string, b: string)
    requires forall i :: 0 <= i < |pad| ==> pad[i] == ' '
    requires IsToken(a) && IsToken(b)
    ensures IsLine(pad + (a + " " + b))
  {
    var s := pad + (a + " " + b);
    forall k | 0 <= k < |s|
      ensures !IsLineBreak(s[k])
    {
      if |pad| <= k < |pad| + |a| {
        assert s[k] == a[k - |pad|];
      } else if |pad| + |a| < k {
        assert s[k] == b[k - |pad| - |a| - 1];
      }
    }
  }

  /** `"a b c"`-style joins split back into their parts: one space after a token. */
  lemma {:induction false} WordsOfSpaced(w: string, rest: string)
    requires IsToken(w)
    ensures Words(w + " " + rest) == [w] + Words(rest)
  {
    assert w + " " + rest == w + ([' '] + rest);
    WordsOfToken(w, [' '] + rest);
    WordsSkipsSpace(' ', rest);
  }

  /** A token holds no newline, since a newline is whitespace. */
  lemma TokenOneLine(w: string)
    requires IsToken(w)
    ensures forall k :: 0 <= k < |w| ==> w[k] != '\n'
  {
    forall k | 0 <= k < |w|
      ensures w[k] != '\n'
    {
      assert !IsSpace(w[k]);
    }
  }

  /** Words of a single token. */
  lemma {:induction false} WordsOfSingle(w: string)
    requires IsToken(w)
    ensures Words(w) == [w]
  {
    assert w + [] == w;
    WordsOfToken(w, []);
    assert TrimLeft([]) == [];
  }

  /** `" ".join(ws)`. */
  function JoinWords(ws: seq<string>): string
    decreases |ws|
  {
    if ws == [] then "" else if |ws| == 1 then ws[0] else ws[0] + " " + JoinWords(ws[1..])
  }

  /** Joining a word in front of a non-empty list puts one space between it and the rest. */
  lemma JoinWordsCons(w: string, ws: seq<string>)
    requires ws != []
    ensures JoinWords([w] + ws) == w + ([' '] + JoinWords(ws))
  {
    var all := [w] + ws;
    assert all[0] == w && all[1..] == ws;
    assert w + " " + JoinWords(ws) == w + ([' '] + JoinWords(ws));
  }

  /** Three items joined by spaces. */
  lemma JoinWordsThree(a: string, b: string, c: string)
    ensures JoinWords([a, b, c]) == a + " " + b + " " + c
  {
    assert [a, b, c][1..] == [b, c];
    assert [b, c][1..] == [c];
    assert JoinWords([b, c]) == b + " " + c;
    assert a + " " + (b + " " + c) == a + " " + b + " " + c;
  }

  /** Splitting a space-joined list of tokens gives the tokens back. */
  lemma {:induction false} WordsOfJoin(ws: seq<string>)
    requires forall i :: 0 <= i < |ws| ==> IsToken(ws[i])
    ensures Words(JoinWords(ws)) == ws
    decreases |ws|
  {
    if ws == [] {
      assert TrimLeft([]) == [];
    } else if |ws| == 1 {
      WordsOfSingle(ws[0]);
    } else {
      WordsOfJoin(ws[1..]);
      WordsOfSpaced(ws[0], JoinWords(ws[1..]));
    }
  }

  /** Words joined by single spaces, the last possibly empty, hold no newline. */
  lemma {:induction false} JoinWordsOneLine(ws: seq<string>)
    requires forall i :: 0 <= i < |ws| ==> IsToken(ws[i]) || ws[i] == ""
    ensures forall k :: 0 <= k < |JoinWords(ws)| ==> JoinWords(ws)[k] != '\n'
    decreases |ws|
  {
    if |ws| == 1 {
      assert JoinWords(ws) == ws[0];
    } else if |ws| > 1 {
      JoinWordsOneLine(ws[1..]);
      var tail := JoinWords(ws[1..]);
      var j := JoinWords(ws);
      assert j == ws[0] + " " + tail;
      forall k | 0 <= k < |j|
        ensures j[k] != '\n'
      {
        if k < |ws[0]| {
          assert j[k] == ws[0][k];
        } else if k > |ws[0]| {
          assert j[k] == tail[k - |ws[0]| - 1];
        }
      }
    }
  }

  /** A token followed by one space splits back into that token alone. */
  lemma {:induction false} WordsOfTrailingSpace(w: string)
    requires IsToken(w)
    ensures Words(w + " ") == [w]
  {
    assert w + " " == w + " " + "";
    WordsOfSpaced(w, "");
    assert TrimLeft([]) == [];
  }

  /** A trailing empty item leaves only a trailing space, which splitting ignores. */
  lemma {:induction false} WordsOfJoinEmptyLast(ws: seq<string>)
    requires ws != []
    requires forall i :: 0 <= i < |ws| ==> IsToken(ws[i])
    ensures Words(JoinWords(ws + [""])) == ws
    decreases |ws|
  {
    var rest := ws[1..] + [""];
    assert ws + [""] == [ws[0]] + rest;
    JoinWordsCons(ws[0], rest);
    var tail := JoinWords(rest);
    if |ws| == 1 {
      assert rest == [""];
      assert tail == "";
      assert ws[0] + ([' '] + tail) == ws[0] + " ";
      WordsOfTrailingSpace(ws[0]);
    } else {
      assert ws[0] + ([' '] + tail) == ws[0] + " " + tail;
      WordsOfJoinEmptyLast(ws[1..]);
      WordsOfSpaced(ws[0], tail);
      assert ws == [ws[0]] + ws[1..];
    }
  }

  /** The index of the first newline at or after `i`, or the end of `s`: where a `.+` that starts at `i` stops. */
  function LineEnd(s: string, i: nat): (r: nat)
    requires i <= |s|
    ensures i <= r <= |s|
    decreases |s| - i
  {
    if i == |s| || s[i] == '\n' then i else LineEnd(s, i + 1)
  }

  /** The index just past the whitespace run that starts at `i`. */
  function SpaceEnd(s: string, i: nat): (r: nat)
    requires i <= |s|
    ensures i <= r <= |s|
    decreases |s| - i
  {
    if i == |s| || !IsSpace(s[i]) then i else SpaceEnd(s, i + 1)
  }

  /** The index just past the run of `\w` characters that starts at `i`. */
  function WordEnd(s: string, i: nat): (r: nat)
    requires i <= |s|
    ensures i <= r <= |s|
    decreases |s| - i
  {
    if i == |s| || !IsWordChar(s[i]) then i else WordEnd(s, i + 1)
  }

  /** The `\w` run from `i` stops at `j` when every character before `j` is a word character and the one at `j` is not. */
  lemma {:induction false} WordEndAt(s: string, i: nat, j: nat)
    requires i <= j <= |s|
    requires forall k :: i <= k < j ==> IsWordChar(s[k])
    requires j == |s| || !IsWordChar(s[j])
    ensures WordEnd(s, i) == j
    decreases j - i
  {
    if i < j {
      WordEndAt(s, i + 1, j);
    }
  }

  /** What the `\s+(.+)` tail of a pattern captures, and where the match ends. */
  datatype Tail = Tail(capture: string, end: nat)

  /**
   * The pattern tail `\s+(.+)` tried at position `e`, where `.` matches
   * anything but a newline. The greedy `\s+` takes the whole whitespace run,
   * newlines included, and the capture runs from the first character after
   * it to the end of that line. Only when the run reaches the end of the
   * text does `\s+` give characters back, and then the capture is blank.
   */
  function SpacedRest(s: string, e: nat): (r: Option<Tail>)
    requires e <= |s|
    ensures r.Some? ==> e < r.value.end <= |s|
  {
    var b := SpaceEnd(s, e);
    if b == e then None
    else if b < |s| then
      var end := LineEnd(s, b);
      Some(Tail(s[b..end], end))
    else BlankTail(s, e + 1, b)
  }

  /**
   * The tail when the whitespace run reaches the end of the text: `\s+`
   * gives back characters, the last one first, until `.` can match one that
   * is not a newline at some index of `lo..hi`; the capture is then blank.
   */
  function BlankTail(s: string, lo: nat, hi: nat): (r: Option<Tail>)
    requires lo <= hi <= |s|
    ensures r.Some? ==> lo < r.value.end <= |s|
    decreases hi - lo
  {
    if lo == hi then None
    else if s[hi - 1] != '\n' then Some(Tail(s[hi - 1..LineEnd(s, hi - 1)], LineEnd(s, hi - 1)))
    else BlankTail(s, lo, hi - 1)
  }

  /** A single space, then text without newlines that starts with a non-space, then a newline or the end: the tail captures that text. */
  lemma SpacedRestOf(s: string, e: nat, x: string)
    requires e + 1 + |x| <= |s|
    requires s[e] == ' ' && s[e + 1..e + 1 + |x|] == x
    requires x != [] && !IsSpace(x[0]) && forall k :: 0 <= k < |x| ==> x[k] != '\n'
    requires e + 1 + |x| == |s| || s[e + 1 + |x|] == '\n'
    ensures SpacedRest(s, e) == Some(Tail(x, e + 1 + |x|))
  {
    assert s[e + 1] == x[0];
    assert SpaceEnd(s, e) == e + 1;
    forall k | e + 1 <= k < e + 1 + |x|
      ensures s[k] != '\n'
    {
      assert s[k] == x[k - e - 1];
    }
    LineEndAt(s, e + 1, e + 1 + |x|);
  }

  /** `.+` from `i` stops at `j` when there is no newline before `j` and a newline or the end at `j`. */
  lemma {:induction false} LineEndAt(s: string, i: nat, j: nat)
    requires i <= j <= |s|
    requires forall k :: i <= k < j ==> s[k] != '\n'
    requires j == |s| || s[j] == '\n'
    ensures LineEnd(s, i) == j
    decreases j - i
  {
    if i < j {
      LineEndAt(s, i + 1, j);
    }
  }

  /** The separators `str.splitlines` breaks at; a `\r\n` pair counts as one. */
  predicate IsLineBreak(c: char) {
    || c == '\n' || c == '\r' || c == '\U{B}' || c == '\U{C}'
    || ('\U{1C}' <= c <= '\U{1E}')
    || c == '\U{85}' || c == '\U{2028}' || c == '\U{2029}'
  }

  /** The index of the first line separator at or after `i`, or the end of `s`. */
  function BreakFrom(s: string, i: nat): (r: nat)
    requires i <= |s|
    ensures i <= r <= |s|
    ensures forall k :: i <= k < r ==> !IsLineBreak(s[k])
    ensures r < |s| ==> IsLineBreak(s[r])
    decreases |s| - i
  {
    if i == |s| || IsLineBreak(s[i]) then i else BreakFrom(s, i + 1)
  }

  /** A line as `str.splitlines` hands it back: free of separators. */
  predicate IsLine(line: string) {
    forall k :: 0 <= k < |line| ==> !IsLineBreak(line[k])
  }

  /** `s.splitlines()`: the text cut at its separators, which are dropped; a final separator opens no empty line. */
  function SplitLines(s: string): (ls: seq<string>)
    ensures forall i :: 0 <= i < |ls| ==> IsLine(ls[i])
    decreases |s|
  {
    if s == [] then []
    else
      var b := BreakFrom(s, 0);
      if b == |s| then [s]
      else
        var skip := if s[b] == '\r' && b + 1 < |s| && s[b + 1] == '\n' then 2 else 1;
        [s[..b]] + SplitLines(s[b + skip..])
  }

  /** The text ends in a line separator, so `splitlines()` opens no line after it. */
  predicate EndsInBreak(s: string) {
    s != [] && IsLineBreak(s[|s| - 1])
  }

  /** Without a final separator, the last line `splitlines()` gives is not empty. */
  lemma {:induction false} SplitLinesLast(s: string)
    requires !EndsInBreak(s) && SplitLines(s) != []
    ensures SplitLines(s)[|SplitLines(s)| - 1] != ""
    decreases |s|
  {
    var b := BreakFrom(s, 0);
    if b < |s| {
      var skip := if s[b] == '\r' && b + 1 < |s| && s[b + 1] == '\n' then 2 else 1;
      var rest := s[b + skip..];
      if rest != [] {
        assert rest[|rest| - 1] == s[|s| - 1];
        SplitLinesLast(rest);
      }
    }
  }

  /** Lines each followed by a newline: the shape of the text the rewriter produces. */
  function Unlines(ls: seq<string>): string
    decreases |ls|
  {
    if ls == [] then "" else ls[0] + "\n" + Unlines(ls[1..])
  }

  /** `"\n".join(ls)`. */
  function JoinLines(ls: seq<string>): string
    decreases |ls|
  {
    if ls == [] then "" else if |ls| == 1 then ls[0] else ls[0] + "\n" + JoinLines(ls[1..])
  }

  /** A line followed by a newline is the first line of the split, whatever follows. */
  lemma SplitLinesCons(l: string, rest: string)
    requires IsLine(l)
    ensures SplitLines(l + "\n" + rest) == [l] + SplitLines(rest)
  {
    var s := l + "\n" + rest;
    assert s[|l|] == '\n';
    assert forall k :: 0 <= k < |l| ==> s[k] == l[k];
    assert BreakFrom(s, 0) == |l|;
    assert s[..|l|] == l;
    assert s[|l| + 1..] == rest;
  }

  /** A line between two newlines at the end of a text is the last line of its split, whatever comes before. */
  lemma {:induction false} SplitLinesEndsWith(x: string, l: string)
    requires IsLine(l)
    ensures |SplitLines(x + ("\n" + l + "\n"))| >= 2
    ensures SplitLines(x + ("\n" + l + "\n"))[|SplitLines(x + ("\n" + l + "\n"))| - 1] == l
    decreases |x|, 1
  {
    var s := x + ("\n" + l + "\n");
    assert s[|x|] == '\n';
    var first, next := SplitLinesStep(s);
    assert |first| <= |x|;
    SplitLinesAfterFirst(x, l, next);
    var tail := SplitLines(s[next..]);
    LastOfCons(first, tail);
    assert SplitLines(s) == [first] + tail;
  }

  /** What follows the first separator of such a text still ends with the line. */
  lemma {:induction false} SplitLinesAfterFirst(x: string, l: string, next: nat)
    requires IsLine(l) && 0 < next <= |x| + 1
    ensures var tail := SplitLines((x + ("\n" + l + "\n"))[next..]);
      tail != [] && tail[|tail| - 1] == l
    decreases |x|, 0
  {
    var t := "\n" + l + "\n";
    if next <= |x| {
      DropOfAppend(x, t, next);
      SplitLinesEndsWith(x[next..], l);
    } else {
      DropIntoSecond(x, t, next);
      assert t[1..] == l + "\n" + "";
      SplitLinesCons(l, "");
    }
  }

  /** The first line of a text that holds a separator, and where the rest of the text starts after that separator. */
  lemma SplitLinesStep(s: string) returns (first: string, next: nat)
    requires exists k :: 0 <= k < |s| && IsLineBreak(s[k])
    ensures |first| < |s| && IsLineBreak(s[|first|])
    ensures forall k :: 0 <= k < |first| ==> !IsLineBreak(s[k])
    ensures next <= |s| && SplitLines(s) == [first] + SplitLines(s[next..])
    ensures next == |first| + 1 || (next == |first| + 2 && s[|first|] == '\r')
  {
    var b := BreakFrom(s, 0);
    next := if s[b] == '\r' && b + 1 < |s| && s[b + 1] == '\n' then b + 2 else b + 1;
    first := s[..b];
  }

  /** Dropping past the first part of a concatenation. */
  lemma DropIntoSecond(x: string, t: string, i: nat)
    requires |x| <= i <= |x| + |t|
    ensures (x + t)[i..] == t[i - |x|..]
  {
  }

  /** Putting an element in front keeps the last element. */
  lemma LastOfCons<T>(h: T, t: seq<T>)
    requires t != []
    ensures |[h] + t| == |t| + 1 && ([h] + t)[|t|] == t[|t| - 1]
  {
  }

  /** Dropping a prefix of the first part of a concatenation. */
  lemma DropOfAppend(x: string, t: string, i: nat)
    requires i <= |x|
    ensures (x + t)[i..] == x[i..] + t
  {
  }

  /** Splitting newline-terminated lines gives the lines back. */
  lemma {:induction false} SplitUnlines(ls: seq<string>)
    requires forall i :: 0 <= i < |ls| ==> IsLine(ls[i])
    ensures SplitLines(Unlines(ls)) == ls
    decreases |ls|
  {
    if ls != [] {
      SplitLinesCons(ls[0], Unlines(ls[1..]));
      SplitUnlines(ls[1..]);
    }
  }

  /** The first of `f(p)`, `f(p + 1)`, ..., `f(n)` that reports something: a leftmost search. */
  function FirstHit<T>(f: nat -> Option<T>, p: nat, n: nat): (r: Option<T>)
    decreases n + 1 - p
  {
    if n < p then None
    else if f(p).Some? then f(p)
    else FirstHit(f, p + 1, n)
  }

  /** Indices that report nothing are passed over. */
  lemma {:induction false} FirstHitSkip<T>(f: nat -> Option<T>, p: nat, m: nat, n: nat)
    requires p <= m <= n + 1
    requires forall q :: p <= q < m ==> f(q).None?
    ensures FirstHit(f, p, n) == FirstHit(f, m, n)
    decreases m - p
  {
    if p < m {
      FirstHitSkip(f, p + 1, m, n);
    }
  }

  /** Where no index reports anything, neither does the search. */
  lemma {:induction false} FirstHitNone<T>(f: nat -> Option<T>, p: nat, n: nat)
    requires forall q :: p <= q <= n ==> f(q).None?
    ensures FirstHit(f, p, n) == None
    decreases n + 1 - p
  {
    if p <= n {
      FirstHitNone(f, p + 1, n);
    }
  }

  /** The search reports the value at the first index that has one, and nothing when no index has one. */
  lemma {:induction false} FirstHitLeftmost<T>(f: nat -> Option<T>, p: nat, n: nat)
    ensures FirstHit(f, p, n).None? ==> forall q :: p <= q <= n ==> f(q).None?
    ensures FirstHit(f, p, n).Some? ==>
      exists q :: p <= q <= n && f(q) == FirstHit(f, p, n) && forall q' :: p <= q' < q ==> f(q').None?
    decreases n + 1 - p
  {
    if p <= n && f(p).None? {
      FirstHitLeftmost(f, p + 1, n);
    }
  }

  /** The first index at or after `from` whose line satisfies `P`: a forward line search. */
  function FirstFrom(lines: seq<string>, from: nat, P: string -> bool): (r: Option<nat>)
    ensures r.Some? ==> from <= r.value < |lines| && P(lines[r.value])
    decreases |lines| - from
  {
    if from >= |lines| then None
    else if P(lines[from]) then Some(from)
    else FirstFrom(lines, from + 1, P)
  }

  /** The forward search finds the first such line: no line before it satisfies `P`, and none at all when it finds nothing. */
  lemma {:induction false} FirstFromLeast(lines: seq<string>, from: nat, P: string -> bool)
    ensures FirstFrom(lines, from, P).Some? ==> forall j :: from <= j < FirstFrom(lines, from, P).value ==> !P(lines[j])
    ensures FirstFrom(lines, from, P).None? ==> forall j :: from <= j < |lines| ==> !P(lines[j])
    decreases |lines| - from
  {
    if from < |lines| && !P(lines[from]) {
      FirstFromLeast(lines, from + 1, P);
    }
  }

  /** A line that satisfies `P` with none before it, from `from` on, satisfying `P` is the one the forward search finds. */
  lemma FirstFromIs(lines: seq<string>, from: nat, P: string -> bool, f: nat)
    requires from <= f < |lines| && P(lines[f])
    requires forall j :: from <= j < f ==> !P(lines[j])
    ensures FirstFrom(lines, from, P) == Some(f)
  {
    FirstFromLeast(lines, from, P);
  }

  /** A line that satisfies `P` with none after it satisfying `P` is the one the backward search finds. */
  lemma LastFromIs(lines: seq<string>, from: nat, P: string -> bool, l: nat)
    requires from <= l < |lines| && P(lines[l])
    requires forall j :: l < j < |lines| ==> !P(lines[j])
    ensures LastFrom(lines, from, P) == Some(l)
  {
  }

  /** The last index at or after `from` whose line satisfies `P`: a backward line search. */
  function LastFrom(lines: seq<string>, from: nat, P: string -> bool): (r: Option<nat>)
    ensures r.Some? ==> from <= r.value < |lines| && P(lines[r.value])
    ensures r.Some? ==> forall j :: r.value < j < |lines| ==> !P(lines[j])
    ensures r.None? ==> forall j :: from <= j < |lines| ==> !P(lines[j])
  {
    LastBelow(lines, from, |lines|, P)
  }

  /** The backward search over the lines before index `n`. */
  function LastBelow(lines: seq<string>, from: nat, n: nat, P: string -> bool): (r: Option<nat>)
    requires n <= |lines|
    ensures r.Some? ==> from <= r.value < n && P(lines[r.value])
    ensures r.Some? ==> forall j :: r.value < j < n ==> !P(lines[j])
    ensures r.None? ==> forall j :: from <= j < n ==> !P(lines[j])
    decreases n
  {
    if n <= from then None
    else if P(lines[n - 1]) then Some(n - 1)
    else LastBelow(lines, from, n - 1, P)
  }
}
