/** DeSpanFilter: WordPress wraps legacy paragraphs in redundant spans. The
    filter first deletes every `</span>` that ends a line (`</span>$` in
    multi-line mode), then every `<span…>` opening tag that starts a line
    (`^<span[^>]*?>`), the latter reaching up to the first `>` after `<span`,
    across line breaks if need be. */
module DeSpanFilter {
  import opened Strings

  const SpanOpen := "<span"
  const SpanClose := "</span>"

  /** `span_end.sub('', text)`. */
  function StripSpanEnds(text: string): (r: string)
    ensures |r| <= |text|
    decreases |text|
  {
    if text == [] then []
    else if ClosesLine(text) then StripSpanEnds(text[7..])
    else [text[0]] + StripSpanEnds(text[1..])
  }

  /** `span_start.sub('', text)`, reading `text` from a point that is the start
      of a line exactly when `atLineStart` holds. */
  function StripSpanStarts(text: string, atLineStart: bool): (r: string)
    ensures |r| <= |text|
    decreases |text|
  {
    if text == [] then []
    else if atLineStart && StartsWith(text, SpanOpen) && IndexOf(text, '>', 5) < |text| then
      StripSpanStarts(text[IndexOf(text, '>', 5) + 1..], false)
    else [text[0]] + StripSpanStarts(text[1..], text[0] == '\n')
  }

  /** DeSpanFilter.__call__. */
  function DeSpan(text: string): string {
    StripSpanStarts(StripSpanEnds(text), true)
  }

  // ---------------------------------------------------------------------------
  // The same filter, one line at a time

  /** A line without its closing `</span>`, if it ends with one. */
  function DropSpanEnd(line: string): string {
    if EndsWith(line, SpanClose) then line[..|line| - 7] else line
  }

  /** A line without its opening `<span…>`, if it starts with one that closes on the line. */
  function DropSpanOpen(line: string): string {
    if StartsWith(line, SpanOpen) && IndexOf(line, '>', 5) < |line| then line[IndexOf(line, '>', 5) + 1..] else line
  }

  function DeSpanLine(line: string): string {
    DropSpanOpen(DropSpanEnd(line))
  }

  /** A line that starts with `<span` but holds no `>` after it: its opening tag
      would run on into the next line. */
  predicate OpensAcrossLines(line: string) {
    StartsWith(line, SpanOpen) && IndexOf(line, '>', 5) == |line|
  }

  /** The `</span>$` test at the front of `text`. */
  predicate ClosesLine(text: string) {
    StartsWith(text, SpanClose) && (|text| == 7 || text[7] == '\n')
  }

  // Used by StripSpanEndsBreak and StripSpanEndsLine.
  lemma ClosesLineAtBreak(line: string, rest: string)
    requires '\n' !in line
    ensures ClosesLine(line + "\n" + rest) <==> line == SpanClose
    ensures ClosesLine(line) <==> line == SpanClose
  {
    var text := line + "\n" + rest;
    assert |line| < 7 ==> text[|line|] == '\n';
    assert |line| >= 7 ==> text[..7] == line[..7];
    assert |line| > 7 ==> text[7] == line[7];
  }

  // Used by StripSpanEndsBreak and StripSpanEndsLine.
  lemma DropSpanEndStep(line: string)
    requires line != [] && line != SpanClose
    ensures DropSpanEnd(line) == [line[0]] + DropSpanEnd(line[1..])
  {
    if |line| >= 8 {
      assert line[1..][|line| - 8..] == line[|line| - 7..];
      assert line[1..][..|line| - 8] == line[1..|line| - 7];
    }
  }

  lemma {:induction false} StripSpanEndsLine(line: string)
    requires '\n' !in line
    ensures StripSpanEnds(line) == DropSpanEnd(line)
    decreases |line|
  {
    ClosesLineAtBreak(line, "");
    if line != [] && line != SpanClose {
      StripSpanEndsLine(line[1..]);
      DropSpanEndStep(line);
    }
  }

  lemma {:induction false} StripSpanEndsBreak(line: string, rest: string)
    requires '\n' !in line
    ensures StripSpanEnds(line + "\n" + rest) == DropSpanEnd(line) + "\n" + StripSpanEnds(rest)
    decreases |line|
  {
    var text := line + "\n" + rest;
    ClosesLineAtBreak(line, rest);
    if line == [] {
      assert text == "\n" + rest;
    } else if line == SpanClose {
      assert text[7..] == "\n" + rest;
    } else {
      assert text[1..] == line[1..] + "\n" + rest;
      StripEndsCopyStep(text);
      StripSpanEndsBreak(line[1..], rest);
      DropSpanEndStep(line);
    }
  }

  /** One step of the `</span>$` scan away from a match: the character is copied. */
  lemma StripEndsCopyStep(text: string)
    requires text != [] && !ClosesLine(text)
    ensures StripSpanEnds(text) == [text[0]] + StripSpanEnds(text[1..])
  {
  }

  /** Away from a line start nothing is deleted up to the end of the line. */
  lemma {:induction false} StripSpanStartsMidLine(line: string, rest: string)
    requires '\n' !in line
    ensures StripSpanStarts(line, false) == line
    ensures StripSpanStarts(line + "\n" + rest, false) == line + "\n" + StripSpanStarts(rest, true)
    decreases |line|
  {
    var text := line + "\n" + rest;
    if line == [] {
      assert text == "\n" + rest;
    } else {
      assert text[1..] == line[1..] + "\n" + rest;
      StripSpanStartsMidLine(line[1..], rest);
    }
  }

  // Used by StripPlainBreak and StripSpanStartsBreak.
  lemma NoOpenAtBreak(line: string, rest: string)
    requires '\n' !in line && !StartsWith(line, SpanOpen)
    ensures !StartsWith(line + "\n" + rest, SpanOpen)
  {
    var text := line + "\n" + rest;
    assert |line| < 5 ==> text[|line|] == '\n';
    assert |line| >= 5 ==> text[..5] == line[..5];
  }

  // Used by OpenAtBreak.
  lemma OpenOnLine(line: string, rest: string)
    requires StartsWith(line, SpanOpen) && IndexOf(line, '>', 5) < |line|
    ensures StartsWith(line + rest, SpanOpen)
    ensures IndexOf(line + rest, '>', 5) == IndexOf(line, '>', 5)
    ensures (line + rest)[IndexOf(line, '>', 5) + 1..] == line[IndexOf(line, '>', 5) + 1..] + rest
  {
    IndexOfExtend(line, rest, '>', 5);
    assert (line + rest)[..5] == line[..5];
  }

  lemma StripSpanStartsLine(line: string)
    requires '\n' !in line
    ensures StripSpanStarts(line, true) == DropSpanOpen(line)
  {
    if line != [] {
      StripSpanStartsMidLine(line[1..], "");
      if StartsWith(line, SpanOpen) && IndexOf(line, '>', 5) < |line| {
        StripSpanStartsMidLine(line[IndexOf(line, '>', 5) + 1..], "");
      }
    }
  }

  lemma StripSpanStartsBreak(line: string, rest: string)
    requires '\n' !in line && !OpensAcrossLines(line)
    ensures StripSpanStarts(line + "\n" + rest, true) == DropSpanOpen(line) + "\n" + StripSpanStarts(rest, true)
  {
    if line == [] {
      assert line + "\n" + rest == "\n" + rest;
      NoOpenAtBreak(line, rest);
      StripCopyStep("\n" + rest, true);
    } else if StartsWith(line, SpanOpen) {
      StripOpenBreak(line, rest);
    } else {
      StripPlainBreak(line, rest);
    }
  }

  /** One step of the scan where no opening tag is deleted: the character is copied. */
  lemma StripCopyStep(text: string, atLineStart: bool)
    requires text != [] && !(atLineStart && StartsWith(text, SpanOpen) && IndexOf(text, '>', 5) < |text|)
    ensures StripSpanStarts(text, atLineStart) == [text[0]] + StripSpanStarts(text[1..], text[0] == '\n')
  {
  }

  /** One step of the scan at a line start that holds an opening tag: the tag is dropped. */
  lemma StripOpenStep(text: string)
    requires StartsWith(text, SpanOpen) && IndexOf(text, '>', 5) < |text|
    ensures StripSpanStarts(text, true) == StripSpanStarts(text[IndexOf(text, '>', 5) + 1..], false)
  {
    assert text != [];
  }

  // Used by StripSpanStartsBreak.
  lemma StripOpenBreak(line: string, rest: string)
    requires '\n' !in line && StartsWith(line, SpanOpen) && IndexOf(line, '>', 5) < |line|
    ensures StripSpanStarts(line + "\n" + rest, true) == DropSpanOpen(line) + "\n" + StripSpanStarts(rest, true)
  {
    OpenAtBreak(line, rest);
    StripOpenStep(line + "\n" + rest);
    StripSpanStartsMidLine(line[IndexOf(line, '>', 5) + 1..], rest);
  }

  /** An opening tag that closes on its line, seen from the whole text. */
  lemma OpenAtBreak(line: string, rest: string)
    requires StartsWith(line, SpanOpen) && IndexOf(line, '>', 5) < |line|
    ensures StartsWith(line + "\n" + rest, SpanOpen)
    ensures IndexOf(line + "\n" + rest, '>', 5) == IndexOf(line, '>', 5)
    ensures (line + "\n" + rest)[IndexOf(line, '>', 5) + 1..] == line[IndexOf(line, '>', 5) + 1..] + "\n" + rest
  {
    OpenOnLine(line, "\n" + rest);
    ConcatAssoc(line, "\n", rest);
    ConcatAssoc(line[IndexOf(line, '>', 5) + 1..], "\n", rest);
  }

  // Used by StripSpanStartsBreak.
  lemma StripPlainBreak(line: string, rest: string)
    requires '\n' !in line && line != [] && !StartsWith(line, SpanOpen)
    ensures StripSpanStarts(line + "\n" + rest, true) == DropSpanOpen(line) + "\n" + StripSpanStarts(rest, true)
  {
    NoOpenAtBreak(line, rest);
    PlainStripStep(line, rest);
    StripSpanStartsMidLine(line[1..], rest);
    ConsLineGlue(StripSpanStarts(line + "\n" + rest, true), line[0], StripSpanStarts(line[1..] + "\n" + rest, false),
      line[1..], StripSpanStarts(rest, true), line);
  }

  /** The first step of the scan over a line that opens no span. */
  lemma PlainStripStep(line: string, rest: string)
    requires '\n' !in line && line != [] && !StartsWith(line + "\n" + rest, SpanOpen)
    ensures StripSpanStarts(line + "\n" + rest, true) == [line[0]] + StripSpanStarts(line[1..] + "\n" + rest, false)
  {
    StripCopyStep(line + "\n" + rest, true);
    assert (line + "\n" + rest)[0] == line[0] != '\n';
    assert (line + "\n" + rest)[1..] == line[1..] + "\n" + rest;
  }

  /** DeSpan works line by line: each line loses a `</span>` at its end and then
      a `<span…>` at its start, and nothing else changes, as long as no opening
      tag runs on into the next line. */
  lemma {:induction false} DeSpanByLines(lines: seq<string>)
    requires forall i :: 0 <= i < |lines| ==> '\n' !in lines[i] && !OpensAcrossLines(DropSpanEnd(lines[i]))
    ensures DeSpan(Join(lines, "\n")) == Join(seq(|lines|, i requires 0 <= i < |lines| => DeSpanLine(lines[i])), "\n")
  {
    var out := seq(|lines|, i requires 0 <= i < |lines| => DeSpanLine(lines[i]));
    if |lines| == 1 {
      StripSpanEndsLine(lines[0]);
      StripSpanStartsLine(DropSpanEnd(lines[0]));
    } else if |lines| > 1 {
      var line, rest := lines[0], Join(lines[1..], "\n");
      StripSpanEndsBreak(line, rest);
      StripSpanStartsBreak(DropSpanEnd(line), StripSpanEnds(rest));
      DeSpanByLines(lines[1..]);
      assert out[1..] == seq(|lines| - 1, i requires 0 <= i < |lines| - 1 => DeSpanLine(lines[1..][i]));
    }
  }

  /** A one-line paragraph wrapped in a span, `<span attrs>inner</span>`, comes
      out as `inner`. */
  lemma SpanWrappedLine(attrs: string, inner: string)
    requires '>' !in attrs && '\n' !in attrs && '\n' !in inner
    ensures DeSpan(SpanOpen + attrs + ">" + inner + SpanClose) == inner
  {
    var open := SpanOpen + attrs + ">";
    var line := open + inner + SpanClose;
    assert '\n' !in line by {
      assert line == SpanOpen + attrs + ">" + inner + SpanClose;
    }
    StripSpanEndsLine(line);
    SpanCloseDropped(open + inner);
    assert '\n' !in open + inner;
    StripSpanStartsLine(open + inner);
    SpanOpenDropped(attrs, inner);
  }

  // Used by SpanWrappedLine.
  lemma SpanCloseDropped(s: string)
    ensures DropSpanEnd(s + SpanClose) == s
  {
    var line := s + SpanClose;
    assert line[|line| - 7..] == SpanClose;
    assert line[..|line| - 7] == s;
  }

  // Used by SpanWrappedLine.
  lemma SpanOpenDropped(attrs: string, inner: string)
    requires '>' !in attrs
    ensures DropSpanOpen(SpanOpen + attrs + ">" + inner) == inner
  {
    var open := SpanOpen + attrs + ">";
    assert forall j :: 5 <= j < |open| - 1 ==> open[j] == attrs[j - 5];
    IndexOfIs(open, '>', 5, |open| - 1);
    IndexOfExtend(open, inner, '>', 5);
    assert (open + inner)[..5] == SpanOpen;
    assert (open + inner)[|open|..] == inner;
  }

  /** The filter is not idempotent: a span nested directly in another at the
      start of the line needs a second pass. */
  lemma NestedSpansNeedTwoPasses(inner: string)
    requires '\n' !in inner
    ensures DeSpan(SpanOpen + ">" + (SpanOpen + ">" + inner + SpanClose) + SpanClose) == SpanOpen + ">" + inner + SpanClose
    ensures DeSpan(DeSpan(SpanOpen + ">" + (SpanOpen + ">" + inner + SpanClose) + SpanClose)) == inner
  {
    BareSpanOneLine(inner);
    BareSpanDropped(SpanOpen + ">" + inner + SpanClose);
    BareSpanDropped(inner);
  }

  // Used by NestedSpansNeedTwoPasses.
  lemma BareSpanOneLine(inner: string)
    requires '\n' !in inner
    ensures '\n' !in SpanOpen + ">" + inner + SpanClose
  {
  }

  /** A one-line paragraph wrapped in a span without attributes. */
  lemma BareSpanDropped(inner: string)
    requires '\n' !in inner
    ensures DeSpan(SpanOpen + ">" + inner + SpanClose) == inner
  {
    SpanWrappedLine("", inner);
    assert SpanOpen + "" + ">" + inner + SpanClose == SpanOpen + ">" + inner + SpanClose;
  }
}
