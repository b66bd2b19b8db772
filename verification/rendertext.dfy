/** The text handling of the renderer: `sanitizeText` (line breaks to a
    space, Turkish letters to ASCII, anything else outside ASCII to `?`),
    the greedy word wrap `wrapText`, and how many wrapped lines a node box
    keeps. String widths come from the font, which is a parameter here. */
module RenderText {
  import opened Wrappers
  import Jdk
  import Style

  // ---------------------------------------------------------------------
  // sanitizeText

  predicate IsBreak(c: char) {
    c == '\r' || c == '\n'
  }

  predicate IsAscii(c: char) {
    c as int < 0x80
  }

  predicate NoBreaks(s: string) {
    forall k :: 0 <= k < |s| ==> !IsBreak(s[k])
  }

  /** The length of the run of CR and LF characters `s` starts with. */
  function LeadingBreaks(s: string): (n: nat)
    ensures n <= |s|
    ensures n < |s| ==> !IsBreak(s[n])
    ensures forall k :: 0 <= k < n ==> IsBreak(s[k])
  {
    if |s| > 0 && IsBreak(s[0]) then 1 + LeadingBreaks(s[1..]) else 0
  }

  /** `replaceAll("[\\r\\n]+", " ")`: every maximal run of CR and LF
      characters becomes one space. */
  function CollapseBreaks(s: string): (r: string)
    ensures NoBreaks(r)
    ensures |r| <= |s|
    ensures |s| > 0 ==> |r| > 0
    decreases |s|
  {
    if |s| == 0 then []
    else if IsBreak(s[0]) then " " + CollapseBreaks(s[LeadingBreaks(s)..])
    else [s[0]] + CollapseBreaks(s[1..])
  }

  /** Text without line breaks is left as it is. */
  lemma {:induction false} CollapseKeepsPlain(s: string)
    requires NoBreaks(s)
    ensures CollapseBreaks(s) == s
    decreases |s|
  {
    if |s| > 0 {
      CollapseKeepsPlain(s[1..]);
    }
  }

  /** A run of line breaks between two pieces that do not touch it with a
      break of their own turns into exactly one space. */
  lemma {:induction false} CollapseRun(a: string, run: string, b: string)
    requires |run| > 0 && forall k :: 0 <= k < |run| ==> IsBreak(run[k])
    requires |a| == 0 || !IsBreak(a[|a| - 1])
    requires |b| == 0 || !IsBreak(b[0])
    ensures CollapseBreaks(a + run + b) == CollapseBreaks(a) + " " + CollapseBreaks(b)
  {
    CollapseAppend(a, run + b);
    CollapseLeadingRun(run, b);
    assert a + run + b == a + (run + b);
  }

  /** Text that does not end inside a run of breaks is collapsed on its own. */
  lemma {:induction false} CollapseAppend(x: string, y: string)
    requires |x| == 0 || !IsBreak(x[|x| - 1])
    ensures CollapseBreaks(x + y) == CollapseBreaks(x) + CollapseBreaks(y)
    decreases |x|, 1
  {
    if |x| == 0 {
      assert x + y == y;
    } else if IsBreak(x[0]) {
      CollapseAppendRun(x, y);
    } else {
      CollapseAppendChar(x, y);
    }
  }

  /** The step of `CollapseAppend` for text that starts with a run of breaks. */
  lemma {:induction false} CollapseAppendRun(x: string, y: string)
    requires |x| > 0 && IsBreak(x[0]) && !IsBreak(x[|x| - 1])
    ensures CollapseBreaks(x + y) == CollapseBreaks(x) + CollapseBreaks(y)
    decreases |x|, 0
  {
    var n := LeadingBreaks(x);
    assert n < |x|;
    LeadingBreaksAppend(x, y);
    assert (x + y)[n..] == x[n..] + y;
    CollapseAppend(x[n..], y);
  }

  /** The step of `CollapseAppend` for text that starts with another character. */
  lemma {:induction false} CollapseAppendChar(x: string, y: string)
    requires |x| > 0 && !IsBreak(x[0]) && !IsBreak(x[|x| - 1])
    ensures CollapseBreaks(x + y) == CollapseBreaks(x) + CollapseBreaks(y)
    decreases |x|, 0
  {
    var tail := x[1..];
    assert (x + y)[1..] == tail + y;
    CollapseAppend(tail, y);
  }

  lemma {:induction false} LeadingBreaksAppend(x: string, y: string)
    requires LeadingBreaks(x) < |x|
    ensures LeadingBreaks(x + y) == LeadingBreaks(x)
    decreases |x|
  {
    if IsBreak(x[0]) {
      assert (x + y)[1..] == x[1..] + y;
      LeadingBreaksAppend(x[1..], y);
    }
  }

  lemma {:induction false} LeadingBreaksOfRun(run: string, b: string)
    requires forall k :: 0 <= k < |run| ==> IsBreak(run[k])
    requires |b| == 0 || !IsBreak(b[0])
    ensures LeadingBreaks(run + b) == |run|
    decreases |run|
  {
    if |run| > 0 {
      assert (run + b)[1..] == run[1..] + b;
      LeadingBreaksOfRun(run[1..], b);
    } else {
      assert run + b == b;
    }
  }

  lemma CollapseLeadingRun(run: string, b: string)
    requires |run| > 0 && forall k :: 0 <= k < |run| ==> IsBreak(run[k])
    requires |b| == 0 || !IsBreak(b[0])
    ensures CollapseBreaks(run + b) == " " + CollapseBreaks(b)
  {
    LeadingBreaksOfRun(run, b);
    assert IsBreak((run + b)[0]);
    assert (run + b)[|run|..] == b;
  }

  /** `s.replace(from, to)` for one character by another. */
  function ReplaceChar(s: string, from: char, to: char): (r: string)
    ensures |r| == |s|
    ensures forall k :: 0 <= k < |s| ==> r[k] == (if s[k] == from then to else s[k])
    ensures from != to ==> from !in r
    ensures from !in s ==> r == s
  {
    seq(|s|, k requires 0 <= k < |s| => if s[k] == from then to else s[k])
  }

  /** Replacing a second time changes nothing, and the replaced character is
      found in the result exactly where it was in the input. */
  lemma ReplaceCharIdempotent(s: string, from: char, to: char)
    ensures ReplaceChar(ReplaceChar(s, from, to), from, to) == ReplaceChar(s, from, to)
    ensures forall k :: 0 <= k < |s| ==> (ReplaceChar(s, from, to)[k] == to <==> s[k] == from || s[k] == to)
  {
  }

  /** The twelve `replace` calls, in the order the code makes them. */
  const Transliterations: seq<(char, char)> := [
    ('\U{15F}', 's'), ('\U{15E}', 'S'),
    ('\U{11F}', 'g'), ('\U{11E}', 'G'),
    ('\U{FC}', 'u'), ('\U{DC}', 'U'),
    ('\U{F6}', 'o'), ('\U{D6}', 'O'),
    ('\U{E7}', 'c'), ('\U{C7}', 'C'),
    ('\U{131}', 'i'), ('\U{130}', 'I')]

  /** A chain of `replace` calls, applied left to right. */
  function ReplaceEach(s: string, pairs: seq<(char, char)>): string
    decreases |pairs|
  {
    if |pairs| == 0 then s else ReplaceEach(ReplaceChar(s, pairs[0].0, pairs[0].1), pairs[1..])
  }

  /** What a chain of replacements does to one character. */
  function ReplaceEachChar(c: char, pairs: seq<(char, char)>): char
    decreases |pairs|
  {
    if |pairs| == 0 then c else ReplaceEachChar(if c == pairs[0].0 then pairs[0].1 else c, pairs[1..])
  }

  /** A chain of single-character replacements works character by character. */
  lemma {:induction false} ReplaceEachPointwise(s: string, pairs: seq<(char, char)>)
    ensures |ReplaceEach(s, pairs)| == |s|
    ensures forall k :: 0 <= k < |s| ==> ReplaceEach(s, pairs)[k] == ReplaceEachChar(s[k], pairs)
    decreases |pairs|
  {
    if |pairs| > 0 {
      ReplaceEachPointwise(ReplaceChar(s, pairs[0].0, pairs[0].1), pairs[1..]);
    }
  }

  /** Every replacement turns a letter outside ASCII into an ASCII letter. */
  predicate AsciiStandIns(pairs: seq<(char, char)>) {
    forall k :: 0 <= k < |pairs| ==>
      !IsAscii(pairs[k].0) && IsAscii(pairs[k].1) && !IsBreak(pairs[k].1)
  }

  /** The stand-in of the first pair whose letter is `c`, or `c` itself:
      the replacement table read as a lookup. */
  function StandIn(c: char, pairs: seq<(char, char)>): char
    decreases |pairs|
  {
    if |pairs| == 0 then c else if c == pairs[0].0 then pairs[0].1 else StandIn(c, pairs[1..])
  }

  lemma {:induction false} ChainSkipsAscii(c: char, pairs: seq<(char, char)>)
    requires AsciiStandIns(pairs) && IsAscii(c)
    ensures ReplaceEachChar(c, pairs) == c
    decreases |pairs|
  {
    if |pairs| > 0 {
      ChainSkipsAscii(c, pairs[1..]);
    }
  }

  /** When no stand-in is itself replaced later, the chain of replacements
      is one lookup in the table. */
  lemma {:induction false} ChainIsLookup(c: char, pairs: seq<(char, char)>)
    requires AsciiStandIns(pairs)
    ensures ReplaceEachChar(c, pairs) == StandIn(c, pairs)
    decreases |pairs|
  {
    if |pairs| > 0 {
      if c == pairs[0].0 {
        ChainSkipsAscii(pairs[0].1, pairs[1..]);
      } else {
        ChainIsLookup(c, pairs[1..]);
      }
    }
  }

  lemma TransliterationsAscii()
    ensures AsciiStandIns(Transliterations)
  {
  }

  lemma StandInKeepsBreaks(c: char, pairs: seq<(char, char)>)
    requires AsciiStandIns(pairs)
    ensures IsBreak(StandIn(c, pairs)) <==> IsBreak(c)
    ensures IsAscii(c) ==> StandIn(c, pairs) == c
  {
  }

  /** `replaceAll("[^\\x00-\\x7F]", "?")`. */
  function MaskNonAscii(s: string): (r: string)
    ensures |r| == |s|
    ensures forall k :: 0 <= k < |s| ==> r[k] == (if IsAscii(s[k]) then s[k] else '?')
    ensures forall k :: 0 <= k < |r| ==> IsAscii(r[k])
  {
    seq(|s|, k requires 0 <= k < |s| => if IsAscii(s[k]) then s[k] else '?')
  }

  /** Masking twice is masking once, and ASCII text comes back unchanged. */
  lemma MaskIdempotent(s: string)
    ensures MaskNonAscii(MaskNonAscii(s)) == MaskNonAscii(s)
    ensures (forall k :: 0 <= k < |s| ==> IsAscii(s[k])) ==> MaskNonAscii(s) == s
  {
  }

  /** What `sanitizeText` makes of one character that is not a line break. */
  function SanitizeChar(c: char): char {
    var t := StandIn(c, Transliterations);
    if IsAscii(t) then t else '?'
  }

  /** The twelve `replace` calls as one pass: each character is looked up
      in the table, and line breaks are left alone. */
  function Transliterate(s: string): (r: string)
    ensures |r| == |s|
    ensures forall k :: 0 <= k < |s| ==> r[k] == StandIn(s[k], Transliterations)
    ensures forall k :: 0 <= k < |s| ==> (IsBreak(r[k]) <==> IsBreak(s[k]))
  {
    ReplaceEachPointwise(s, Transliterations);
    TransliterationsAscii();
    forall k | 0 <= k < |s|
      ensures ReplaceEach(s, Transliterations)[k] == StandIn(s[k], Transliterations)
      ensures IsBreak(StandIn(s[k], Transliterations)) <==> IsBreak(s[k])
    {
      ChainIsLookup(s[k], Transliterations);
      StandInKeepsBreaks(s[k], Transliterations);
    }
    ReplaceEach(s, Transliterations)
  }

  /** `sanitizeText(text)`: "" for `null`; otherwise breaks collapsed, the
      twelve Turkish letters replaced, and the rest of non-ASCII masked. */
  function SanitizeText(text: Option<string>): (r: string)
    ensures text.None? ==> r == []
    ensures forall k :: 0 <= k < |r| ==> IsAscii(r[k]) && !IsBreak(r[k])
    ensures text.Some? ==> |r| <= |text.value|
    ensures text.Some? && |text.value| > 0 ==> |r| > 0
  {
    if text.None? then []
    else
      var collapsed := CollapseBreaks(text.value);
      MaskNonAscii(Transliterate(collapsed))
  }

  /** Text without line breaks is sanitized character by character. */
  lemma SanitizePointwise(s: string)
    requires NoBreaks(s)
    ensures |SanitizeText(Some(s))| == |s|
    ensures forall k :: 0 <= k < |s| ==> SanitizeText(Some(s))[k] == SanitizeChar(s[k])
  {
    CollapseKeepsPlain(s);
  }

  /** ASCII text without line breaks comes back unchanged. */
  lemma SanitizeKeepsPlainText(s: string)
    requires forall k :: 0 <= k < |s| ==> IsAscii(s[k]) && !IsBreak(s[k])
    ensures SanitizeText(Some(s)) == s
  {
    SanitizePointwise(s);
    TransliterationsAscii();
    forall k | 0 <= k < |s| ensures SanitizeText(Some(s))[k] == s[k] {
      StandInKeepsBreaks(s[k], Transliterations);
    }
  }

  /** Sanitizing twice is sanitizing once. */
  lemma SanitizeIdempotent(text: Option<string>)
    ensures SanitizeText(Some(SanitizeText(text))) == SanitizeText(text)
  {
    SanitizeKeepsPlainText(SanitizeText(text));
  }

  // ---------------------------------------------------------------------
  // wrapText

  /** The lines finished so far and the line being filled. */
  datatype WrapState = WrapState(lines: seq<string>, current: string)

  /** One pass of the word loop: the word goes on the current line unless
      that line is non-empty and the longer line would be wider than
      `maxWidth`; then the current line is finished and the word starts the
      next one. */
  function WrapStep(st: WrapState, word: string, width: string -> real, maxWidth: real): WrapState {
    var testLine := if |st.current| == 0 then word else st.current + " " + word;
    if width(testLine) > maxWidth && |st.current| > 0 then WrapState(st.lines + [st.current], word)
    else WrapState(st.lines, testLine)
  }

  function WrapWords(words: seq<string>, width: string -> real, maxWidth: real): WrapState
  {
    if |words| == 0 then WrapState([], [])
    else WrapStep(WrapWords(words[..|words| - 1], width, maxWidth), words[|words| - 1], width, maxWidth)
  }

  /** The finished lines plus the current one when it is not empty. */
  function Visible(st: WrapState): seq<string> {
    st.lines + (if |st.current| > 0 then [st.current] else [])
  }

  /** `wrapText(text, font, fontSize, maxWidth)` with `width` standing for
      `font.getStringWidth(s) / 1000 * fontSize`: no lines for `null` or
      empty text, otherwise the greedy packing of the words of
      `text.split("\\s+")`. */
  function WrapText(text: Option<string>, width: string -> real, maxWidth: real): seq<string>
  {
    if text.None? || |text.value| == 0 then []
    else Visible(WrapWords(Jdk.SplitOnSpace(text.value), width, maxWidth))
  }

  /** The word a line starts with. */
  function FirstWord(line: string): string {
    if |line| == 0 || line[0] == ' ' then [] else [line[0]] + FirstWord(line[1..])
  }

  /** The greedy packing as a property of its lines:
      none is empty; joined with single spaces they give back the non-empty
      words; a line holding more than one word fits; and each line was ended
      only because the first word of the next one did not fit on it. */
  predicate WellWrapped(lines: seq<string>, words: seq<string>, width: string -> real, maxWidth: real) {
    && (forall i :: 0 <= i < |lines| ==> lines[i] != [])
    && Jdk.Unwords(lines) == Jdk.Unwords(Jdk.NonEmpty(words))
    && (forall i :: 0 <= i < |lines| ==> ' ' !in lines[i] || width(lines[i]) <= maxWidth)
    && (forall i :: 0 < i < |lines| ==> width(lines[i - 1] + " " + FirstWord(lines[i])) > maxWidth)
  }

  /** Words as `split("\\s+")` returns them: no whitespace in any, and only
      the first may be empty. */
  predicate SplitWords(words: seq<string>) {
    && (forall k :: 0 <= k < |words| ==> Jdk.NoSpace(words[k]))
    && (forall k :: 0 < k < |words| ==> words[k] != [])
  }

  lemma {:induction false} WrapWordsWellWrapped(words: seq<string>, width: string -> real, maxWidth: real)
    requires SplitWords(words)
    ensures var st := WrapWords(words, width, maxWidth);
            WellWrapped(Visible(st), words, width, maxWidth)
            && (|st.lines| > 0 ==> |st.current| > 0)
            && (|words| > 0 && words[0] != [] ==> |st.current| > 0)
  {
    if |words| > 0 {
      var n := |words| - 1;
      var prefix := words[..n];
      var word := words[n];
      assert SplitWords(prefix);
      WrapWordsWellWrapped(prefix, width, maxWidth);
      var st := WrapWords(prefix, width, maxWidth);
      assert words == prefix + [word];
      assert n > 0 ==> word != [];
      assert ' ' !in word by {
        assert Jdk.NoSpace(word);
        assert forall k :: 0 <= k < |word| ==> !Jdk.IsRegexSpace(word[k]);
      }
      if |st.current| == 0 {
        WrapFirstWord(st, prefix, word, width, maxWidth);
        if n > 0 {
          assert prefix[0] == words[0];
        }
      } else if width(st.current + " " + word) > maxWidth {
        WrapBreakStep(st, prefix, word, width, maxWidth);
      } else {
        WrapFitStep(st, prefix, word, width, maxWidth);
      }
    }
  }

  /** The first word goes on the empty current line. */
  lemma WrapFirstWord(st: WrapState, prefix: seq<string>, word: string, width: string -> real, maxWidth: real)
    requires WellWrapped(Visible(st), prefix, width, maxWidth)
    requires |st.current| == 0 && |st.lines| == 0
    requires ' ' !in word
    ensures var next := WrapStep(st, word, width, maxWidth);
            WellWrapped(Visible(next), prefix + [word], width, maxWidth)
            && |next.lines| == 0 && next.current == word
  {
    var next := WrapStep(st, word, width, maxWidth);
    assert next == WrapState([], word);
    assert Visible(next) == if word == [] then [] else [word];
    EmptyUnwords(Jdk.NonEmpty(prefix));
    Jdk.NonEmptySnoc(prefix, word);
  }

  /** A word that does not fit ends the current line and starts the next. */
  lemma WrapBreakStep(st: WrapState, prefix: seq<string>, word: string, width: string -> real, maxWidth: real)
    requires WellWrapped(Visible(st), prefix, width, maxWidth)
    requires |st.current| > 0 && word != [] && ' ' !in word
    requires width(st.current + " " + word) > maxWidth
    ensures var next := WrapStep(st, word, width, maxWidth);
            WellWrapped(Visible(next), prefix + [word], width, maxWidth)
            && |next.current| > 0
  {
    var v := Visible(st);
    assert v == st.lines + [st.current];
    var next := WrapStep(st, word, width, maxWidth);
    assert Visible(next) == v + [word];
    EmptyUnwords(Jdk.NonEmpty(prefix));
    UnwordsSnoc(v, word);
    UnwordsSnoc(Jdk.NonEmpty(prefix), word);
    Jdk.NonEmptySnoc(prefix, word);
    FirstWordOfWord(word);
  }

  /** A word that fits joins the current line. */
  lemma WrapFitStep(st: WrapState, prefix: seq<string>, word: string, width: string -> real, maxWidth: real)
    requires WellWrapped(Visible(st), prefix, width, maxWidth)
    requires |st.current| > 0 && word != []
    requires width(st.current + " " + word) <= maxWidth
    ensures var next := WrapStep(st, word, width, maxWidth);
            WellWrapped(Visible(next), prefix + [word], width, maxWidth)
            && |next.current| > 0
  {
    var v := Visible(st);
    var testLine := st.current + " " + word;
    assert v == st.lines + [st.current];
    var next := WrapStep(st, word, width, maxWidth);
    var w := Visible(next);
    assert w == st.lines + [testLine];
    assert forall i :: 0 <= i < |st.lines| ==> st.lines[i] == v[i];
    FitJoins(st, prefix, word);
    FirstWordExtend(st.current, word);
    forall i | 0 < i < |w| ensures width(w[i - 1] + " " + FirstWord(w[i])) > maxWidth {
      assert w[i - 1] == v[i - 1];
      assert FirstWord(w[i]) == FirstWord(v[i]);
    }
  }

  /** Joining the line a word was added to gives the words so far. */
  lemma FitJoins(st: WrapState, prefix: seq<string>, word: string)
    requires Jdk.Unwords(Visible(st)) == Jdk.Unwords(Jdk.NonEmpty(prefix))
    requires |st.current| > 0 && word != []
    ensures Jdk.Unwords(st.lines + [st.current + " " + word]) == Jdk.Unwords(Jdk.NonEmpty(prefix + [word]))
  {
    assert Visible(st) == st.lines + [st.current];
    EmptyUnwords(Jdk.NonEmpty(prefix));
    UnwordsSnoc(st.lines, st.current);
    UnwordsSnoc(st.lines, st.current + " " + word);
    UnwordsSnoc(Jdk.NonEmpty(prefix), word);
    Jdk.NonEmptySnoc(prefix, word);
  }

  /** The lines of `wrapText` are greedily packed. */
  lemma WrapTextWellWrapped(text: string, width: string -> real, maxWidth: real)
    requires |text| > 0
    ensures WellWrapped(WrapText(Some(text), width, maxWidth), Jdk.SplitOnSpace(text), width, maxWidth)
  {
    WrapWordsWellWrapped(Jdk.SplitOnSpace(text), width, maxWidth);
  }

  /** Text that fits on one line stays one line. */
  lemma WrapShortText(word: string, width: string -> real, maxWidth: real)
    requires |word| > 0 && Jdk.NoSpace(word)
    ensures WrapText(Some(word), width, maxWidth) == [word]
  {
    assert Jdk.SplitOnSpace(word) == [word];
    assert [word][..0] == [];
    var st := WrapWords([word], width, maxWidth);
    var none: seq<string> := [];
    assert WrapWords(none, width, maxWidth) == WrapState([], []);
    assert st == WrapStep(WrapWords(none, width, maxWidth), word, width, maxWidth);
    assert st == WrapState([], word);
  }

  lemma UnwordsSnoc(ws: seq<string>, w: string)
    ensures Jdk.Unwords(ws + [w]) == if |ws| == 0 then w else Jdk.Unwords(ws) + " " + w
  {
    if |ws| > 1 {
      assert (ws + [w])[1..] == ws[1..] + [w];
      UnwordsSnoc(ws[1..], w);
    } else if |ws| == 1 {
      assert ws + [w] == [ws[0], w];
      assert [ws[0], w][1..] == [w];
      assert Jdk.Join([ws[0], w], ' ') == ws[0] + [' '] + Jdk.Join([w], ' ');
    }
  }

  lemma EmptyUnwords(ws: seq<string>)
    requires forall k :: 0 <= k < |ws| ==> ws[k] != []
    ensures Jdk.Unwords(ws) == [] <==> ws == []
  {
  }

  lemma {:induction false} FirstWordOfWord(w: string)
    requires ' ' !in w
    ensures FirstWord(w) == w
  {
    if |w| > 0 {
      FirstWordOfWord(w[1..]);
    }
  }

  lemma {:induction false} FirstWordExtend(line: string, w: string)
    requires |line| > 0
    ensures FirstWord(line + " " + w) == FirstWord(line)
  {
    if line[0] != ' ' {
      assert (line + " " + w)[1..] == line[1..] + " " + w;
      if |line| > 1 {
        FirstWordExtend(line[1..], w);
      } else {
        assert line[1..] + " " + w == " " + w;
      }
    }
  }

  // ---------------------------------------------------------------------
  // How many wrapped lines a node box keeps

  /** The line height of node text: the node font size times 1.3. */
  const LineHeight: real := Style.NodeTextFontSize * Style.NodeTextLineHeight

  /** `Math.max(1, (int) Math.floor(h / lineHeight))`. */
  function MaxLines(h: real): (r: int)
    ensures r >= 1
  {
    var fitting := Jdk.DoubleToInt32((h / LineHeight).Floor as real);
    if fitting > 1 then fitting else 1
  }

  /** Only the first `MaxLines(h)` lines are drawn. */
  function Truncate(lines: seq<string>, h: real): (r: seq<string>)
    ensures |r| == if |lines| > MaxLines(h) then MaxLines(h) else |lines|
    ensures r == lines[..|r|]
  {
    if |lines| > MaxLines(h) then lines[..MaxLines(h)] else lines
  }

  /** Truncation keeps at least one line, the kept lines fit in the height
      whenever one line does, and every line is kept when all of them fit. */
  lemma TruncateFits(lines: seq<string>, h: real)
    ensures |lines| > 0 ==> |Truncate(lines, h)| >= 1
    ensures h >= LineHeight ==> |Truncate(lines, h)| as real * LineHeight <= h
    ensures (h / LineHeight).Floor >= |lines| && |lines| <= Jdk.MaxInt32 ==> Truncate(lines, h) == lines
  {
    var f := (h / LineHeight).Floor;
    assert f as real <= h / LineHeight;
    assert MaxLines(h) == (if f > Jdk.MaxInt32 then Jdk.MaxInt32 else if f > 1 then f else 1);
    if h >= LineHeight {
      assert f >= 1;
      assert MaxLines(h) <= f;
      assert MaxLines(h) as real * LineHeight <= f as real * LineHeight <= h;
    }
  }

  /** The height `drawNode` gives the name of a position: the box less the
      band kept for the norm when the norm is shown (never less than one
      line), the whole box otherwise. */
  function NameAreaHeight(boxHeight: real, norm: int): real {
    if norm > 0 then
      var reservedBottom := Style.NodePadding + Style.NodeNormMarginTop + Style.NodeNormFontSize + Style.NodePadding;
      var rest := boxHeight - reservedBottom;
      if rest > LineHeight then rest else LineHeight
    else boxHeight
  }

  /** In a node box a name shows at most six lines next to a norm and at
      most eight without one. */
  lemma NodeNameLines(norm: int)
    ensures MaxLines(NameAreaHeight(Style.NodeHeight, norm)) == if norm > 0 then 6 else 8
  {
    if norm > 0 {
      assert NameAreaHeight(Style.NodeHeight, norm) == 137.0;
      assert (137.0 / LineHeight).Floor == 6;
    } else {
      assert (180.0 / LineHeight).Floor == 8;
    }
  }
}
