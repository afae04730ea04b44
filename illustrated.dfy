/** IllustratedParagraphFilter: a paragraph that starts with an image and runs
    straight on into text gets a blank line after the image. The pattern is
    `^(<img[^>]+>)([^\s])` in multi-line mode, replaced by `\1\n\n\2`. */
module IllustratedParagraphFilter {
  import opened Strings

  const ImgOpen := "<img"

  /** The index of the `>` closing an `<img` tag at the front of `text`. */
  function TagEnd(text: string): (c: nat)
    requires StartsWith(text, ImgOpen)
    ensures 4 <= c <= |text|
  {
    IndexOf(text, '>', 4)
  }

  /** At the front of `text`: an `<img…>` tag with at least one character
      between `<img` and `>`, followed by a character that is not whitespace. */
  predicate ImageRunsOn(text: string) {
    && StartsWith(text, ImgOpen)
    && 5 <= TagEnd(text)
    && TagEnd(text) + 1 < |text|
    && !IsSpace(text[TagEnd(text) + 1])
  }

  /** `leading_image.sub(r'\1\n\n\2', text)`, reading `text` from a point that is
      the start of a line exactly when `atLineStart` holds. */
  function IllustrateFrom(text: string, atLineStart: bool): (r: string)
    ensures |r| >= |text|
    decreases |text|
  {
    if text == [] then []
    else if atLineStart && ImageRunsOn(text) then
      var c := TagEnd(text);
      text[..c + 1] + "\n\n" + [text[c + 1]] + IllustrateFrom(text[c + 2..], false)
    else [text[0]] + IllustrateFrom(text[1..], text[0] == '\n')
  }

  /** IllustratedParagraphFilter.__call__. */
  function IllustratedParagraph(text: string): string {
    IllustrateFrom(text, true)
  }

  /** `r` is `text` with line breaks added: every other character occurs as
      often in `r` as in `text`, and `r` is longer by exactly the number of
      added line breaks. */
  predicate AddsOnlyBreaks(r: string, text: string) {
    && (forall ch :: ch != '\n' ==> Count(r, ch) == Count(text, ch))
    && Count(r, '\n') - Count(text, '\n') == |r| - |text|
  }

  /** The filter only ever adds line breaks; it never deletes anything. */
  lemma {:induction false} OnlyLineBreaksAdded(text: string, atLineStart: bool)
    ensures AddsOnlyBreaks(IllustrateFrom(text, atLineStart), text)
    decreases |text|
  {
    if text != [] {
      if atLineStart && ImageRunsOn(text) {
        OnlyLineBreaksAdded(text[TagEnd(text) + 2..], false);
        IllustrateImageStep(text);
        ImageSplit(text);
        AddsOnlyBreaksAtImage(IllustrateFrom(text, true), text, text[..TagEnd(text) + 1], text[TagEnd(text) + 1],
          text[TagEnd(text) + 2..], IllustrateFrom(text[TagEnd(text) + 2..], false));
      } else {
        OnlyLineBreaksAdded(text[1..], text[0] == '\n');
        IllustrateCopyStep(text, atLineStart);
        ConsSplit(text);
        AddsOnlyBreaksAtCopy(IllustrateFrom(text, atLineStart), text, text[0], text[1..], IllustrateFrom(text[1..], text[0] == '\n'));
      }
    } else {
      assert IllustrateFrom(text, atLineStart) == [];
    }
  }

  // Used by OnlyLineBreaksAdded.
  lemma ImageSplit(text: string)
    requires ImageRunsOn(text)
    ensures text == text[..TagEnd(text) + 1] + [text[TagEnd(text) + 1]] + text[TagEnd(text) + 2..]
  {
  }

  // Used by IllustrateMidLine and OnlyLineBreaksAdded.
  lemma ConsSplit(text: string)
    requires text != []
    ensures text == [text[0]] + text[1..]
  {
  }

  // Used by OnlyLineBreaksAdded.
  lemma AddsOnlyBreaksAtImage(r: string, text: string, head: string, x: char, tail: string, rest: string)
    requires r == head + "\n\n" + [x] + rest && text == head + [x] + tail
    requires AddsOnlyBreaks(rest, tail)
    ensures AddsOnlyBreaks(r, text)
  {
    forall ch
      ensures Count(r, ch) + Count(tail, ch) == Count(text, ch) + Count(rest, ch) + (if ch == '\n' then 2 else 0)
    {
      CountAppend(head + "\n\n" + [x], rest, ch);
      CountAppend(head + "\n\n", [x], ch);
      CountAppend(head, "\n\n", ch);
      CountAppend(head + [x], tail, ch);
      CountAppend(head, [x], ch);
    }
  }

  // Used by OnlyLineBreaksAdded.
  lemma AddsOnlyBreaksAtCopy(r: string, text: string, x: char, tail: string, rest: string)
    requires r == [x] + rest && text == [x] + tail
    requires AddsOnlyBreaks(rest, tail)
    ensures AddsOnlyBreaks(r, text)
  {
    forall ch
      ensures Count(r, ch) + Count(tail, ch) == Count(text, ch) + Count(rest, ch)
    {
      CountAppend([x], rest, ch);
      CountAppend([x], tail, ch);
    }
  }

  // ---------------------------------------------------------------------------
  // The same filter, one line at a time

  /** The filter on one line: a break after a leading image that runs on into text. */
  function IllustrateLine(line: string): string {
    if ImageRunsOn(line) then line[..TagEnd(line) + 1] + "\n\n" + line[TagEnd(line) + 1..] else line
  }

  /** A line that starts with `<img` but holds no `>`: its tag runs on into the next line. */
  predicate ImageOpensAcrossLines(line: string) {
    StartsWith(line, ImgOpen) && TagEnd(line) == |line|
  }

  lemma {:induction false} IllustrateMidLine(line: string, rest: string)
    requires '\n' !in line
    ensures IllustrateFrom(line, false) == line
    ensures IllustrateFrom(line + "\n" + rest, false) == line + "\n" + IllustratedParagraph(rest)
    decreases |line|
  {
    if line == [] {
      IllustrateCopyStep("\n" + rest, false);
      DropPrefix("\n", rest);
      assert [] + "\n" + rest == "\n" + rest;
    } else {
      IllustrateMidLine(line[1..], rest);
      MidLineStep(line, rest);
      ConsSplit(line);
      ConsLineGlue(IllustrateFrom(line + "\n" + rest, false), line[0], IllustrateFrom(line[1..] + "\n" + rest, false),
        line[1..], IllustratedParagraph(rest), line);
    }
  }

  /** One step of the scan in mid-line, alone and followed by more lines. */
  lemma MidLineStep(line: string, rest: string)
    requires '\n' !in line && line != []
    ensures IllustrateFrom(line, false) == [line[0]] + IllustrateFrom(line[1..], false)
    ensures IllustrateFrom(line + "\n" + rest, false) == [line[0]] + IllustrateFrom(line[1..] + "\n" + rest, false)
  {
    IllustrateCopyStep(line, false);
    IllustrateCopyStep(line + "\n" + rest, false);
    assert line[0] in line;
    assert (line + "\n" + rest)[0] == line[0];
    assert (line + "\n" + rest)[1..] == line[1..] + "\n" + rest;
  }

  lemma IllustrateLineAlone(line: string)
    requires '\n' !in line
    ensures IllustrateFrom(line, true) == IllustrateLine(line)
  {
    if ImageRunsOn(line) {
      IllustrateLineRunsOn(line);
    } else if line != [] {
      IllustrateMidLine(line[1..], "");
    }
  }

  // Used by IllustrateLineAlone.
  lemma IllustrateLineRunsOn(line: string)
    requires '\n' !in line && ImageRunsOn(line)
    ensures IllustrateFrom(line, true) == IllustrateLine(line)
  {
    IllustrateImageStep(line);
    TailOnLine(line);
    IllustrateMidLine(line[TagEnd(line) + 2..], "");
    LineRunsOnIs(line);
    AloneGlue(IllustrateFrom(line, true), line[..TagEnd(line) + 1], line[TagEnd(line) + 1],
      IllustrateFrom(line[TagEnd(line) + 2..], false), line[TagEnd(line) + 2..], IllustrateLine(line));
  }

  /** What follows the character after an image tag stays on the tag's line. */
  lemma TailOnLine(line: string)
    requires '\n' !in line && ImageRunsOn(line)
    ensures '\n' !in line[TagEnd(line) + 2..]
  {
    NotInSuffix(line, '\n', TagEnd(line) + 2);
  }

  // Used by IllustrateLineRunsOn.
  lemma AloneGlue(a: string, head: string, x: char, b: string, tail: string, l: string)
    requires a == head + "\n\n" + [x] + b && b == tail && l == head + "\n\n" + ([x] + tail)
    ensures a == l
  {
  }

  // Used by NotRunningOnAtBreak.
  lemma NoImageAtBreak(line: string, rest: string)
    requires '\n' !in line && !StartsWith(line, ImgOpen)
    ensures !StartsWith(line + "\n" + rest, ImgOpen)
  {
    var text := line + "\n" + rest;
    assert |line| < 4 ==> text[|line|] == '\n';
    assert |line| >= 4 ==> text[..4] == line[..4];
  }

  // Used by NotRunningOnAtBreak and RunsOnStepAtBreak.
  lemma ImageOnLine(line: string, rest: string)
    requires '\n' !in line && StartsWith(line, ImgOpen) && TagEnd(line) < |line|
    ensures StartsWith(line + "\n" + rest, ImgOpen)
    ensures TagEnd(line + "\n" + rest) == TagEnd(line)
    ensures ImageRunsOn(line + "\n" + rest) <==> ImageRunsOn(line)
  {
    var text := line + "\n" + rest;
    assert text == line + ("\n" + rest);
    IndexOfExtend(line, "\n" + rest, '>', 4);
    assert text[..4] == line[..4];
    var c := TagEnd(line);
    if c + 1 < |line| {
      assert text[c + 1] == line[c + 1];
    } else {
      assert text[c + 1] == '\n';
    }
  }

  lemma IllustrateBreak(line: string, rest: string)
    requires '\n' !in line && !ImageOpensAcrossLines(line)
    ensures IllustratedParagraph(line + "\n" + rest) == IllustrateLine(line) + "\n" + IllustratedParagraph(rest)
  {
    if line == [] {
      IllustrateBreakEmpty(rest);
    } else if ImageRunsOn(line) {
      IllustrateBreakRunsOn(line, rest);
    } else {
      IllustrateBreakPlain(line, rest);
    }
  }

  // Used by IllustrateBreak.
  lemma IllustrateBreakEmpty(rest: string)
    ensures IllustratedParagraph([] + "\n" + rest) == IllustrateLine([]) + "\n" + IllustratedParagraph(rest)
  {
    assert [] + "\n" + rest == "\n" + rest;
    assert |"\n" + rest| >= 4 ==> ("\n" + rest)[..4][0] == '\n';
    IllustrateCopyStep("\n" + rest, true);
    DropPrefix("\n", rest);
  }

  // Used by IllustrateBreak.
  lemma IllustrateBreakPlain(line: string, rest: string)
    requires '\n' !in line && line != [] && !ImageOpensAcrossLines(line) && !ImageRunsOn(line)
    ensures IllustratedParagraph(line + "\n" + rest) == IllustrateLine(line) + "\n" + IllustratedParagraph(rest)
  {
    NotRunningOnAtBreak(line, rest);
    PlainLineStep(line, rest);
    IllustrateMidLine(line[1..], rest);
    ConsLineGlue(IllustratedParagraph(line + "\n" + rest), line[0], IllustrateFrom(line[1..] + "\n" + rest, false),
      line[1..], IllustratedParagraph(rest), line);
  }

  /** The first step of the scan over a line whose image, if any, does not run on. */
  lemma PlainLineStep(line: string, rest: string)
    requires '\n' !in line && line != [] && !ImageRunsOn(line + "\n" + rest)
    ensures IllustratedParagraph(line + "\n" + rest) == [line[0]] + IllustrateFrom(line[1..] + "\n" + rest, false)
  {
    IllustrateCopyStep(line + "\n" + rest, true);
    assert (line + "\n" + rest)[0] == line[0] != '\n';
    assert (line + "\n" + rest)[1..] == line[1..] + "\n" + rest;
  }

  // Used by IllustrateBreakPlain.
  lemma NotRunningOnAtBreak(line: string, rest: string)
    requires '\n' !in line && !ImageOpensAcrossLines(line) && !ImageRunsOn(line)
    ensures !ImageRunsOn(line + "\n" + rest)
  {
    if StartsWith(line, ImgOpen) {
      ImageOnLine(line, rest);
    } else {
      NoImageAtBreak(line, rest);
    }
  }

  /** One step of the scan where no image runs on: the character is copied. */
  lemma IllustrateCopyStep(text: string, atLineStart: bool)
    requires text != [] && !(atLineStart && ImageRunsOn(text))
    ensures IllustrateFrom(text, atLineStart) == [text[0]] + IllustrateFrom(text[1..], text[0] == '\n')
  {
  }

  /** One step of the scan at an image that runs on. */
  lemma IllustrateImageStep(text: string)
    requires ImageRunsOn(text)
    ensures IllustrateFrom(text, true)
         == text[..TagEnd(text) + 1] + "\n\n" + [text[TagEnd(text) + 1]] + IllustrateFrom(text[TagEnd(text) + 2..], false)
  {
  }

  // Used by IllustrateBreak.
  lemma IllustrateBreakRunsOn(line: string, rest: string)
    requires '\n' !in line && ImageRunsOn(line)
    ensures IllustratedParagraph(line + "\n" + rest) == IllustrateLine(line) + "\n" + IllustratedParagraph(rest)
  {
    RunsOnAtBreak(line, rest);
    LineRunsOnIs(line);
    Compose(IllustratedParagraph(line + "\n" + rest), line[..TagEnd(line) + 1], line[TagEnd(line) + 1],
      line[TagEnd(line) + 2..], IllustratedParagraph(rest), IllustrateLine(line));
  }

  /** The scan over a line whose image runs on, followed by the rest of the text. */
  lemma RunsOnAtBreak(line: string, rest: string)
    requires '\n' !in line && ImageRunsOn(line)
    ensures TagEnd(line) + 2 <= |line|
    ensures IllustratedParagraph(line + "\n" + rest)
         == line[..TagEnd(line) + 1] + "\n\n" + [line[TagEnd(line) + 1]] + (line[TagEnd(line) + 2..] + "\n" + IllustratedParagraph(rest))
  {
    TailOnLine(line);
    RunsOnStepAtBreak(line, rest);
    IllustrateMidLine(line[TagEnd(line) + 2..], rest);
  }

  /** The image step, taken at the start of a line followed by more text. */
  lemma RunsOnStepAtBreak(line: string, rest: string)
    requires '\n' !in line && ImageRunsOn(line)
    ensures TagEnd(line) + 2 <= |line|
    ensures IllustratedParagraph(line + "\n" + rest)
         == line[..TagEnd(line) + 1] + "\n\n" + [line[TagEnd(line) + 1]] + IllustrateFrom(line[TagEnd(line) + 2..] + "\n" + rest, false)
  {
    var text := line + "\n" + rest;
    ImageOnLine(line, rest);
    IllustrateImageStep(text);
    BreakPieces(line, rest, TagEnd(line));
  }

  // Used by IllustrateBreakRunsOn and IllustrateLineRunsOn.
  lemma LineRunsOnIs(line: string)
    requires ImageRunsOn(line)
    ensures IllustrateLine(line) == line[..TagEnd(line) + 1] + "\n\n" + ([line[TagEnd(line) + 1]] + line[TagEnd(line) + 2..])
  {
    var c := TagEnd(line);
    assert line[c + 1..] == [line[c + 1]] + line[c + 2..];
  }

  // Used by IllustrateBreakRunsOn.
  lemma Compose(a: string, head: string, x: char, tail: string, r: string, l: string)
    requires a == head + "\n\n" + [x] + (tail + "\n" + r)
    requires l == head + "\n\n" + ([x] + tail)
    ensures a == l + "\n" + r
  {
  }

  // Used by RunsOnStepAtBreak.
  lemma BreakPieces(line: string, rest: string, c: nat)
    requires c + 2 <= |line|
    ensures (line + "\n" + rest)[..c + 1] == line[..c + 1]
    ensures (line + "\n" + rest)[c + 1] == line[c + 1]
    ensures (line + "\n" + rest)[c + 2..] == line[c + 2..] + "\n" + rest
  {
  }

  /** The filter works line by line: a line that starts with an image running
      straight into text is split after the image by a blank line, and every
      other line (an image in mid-line, one followed by whitespace, no image) is
      kept as it is, as long as no image tag runs on into the next line. */
  lemma {:induction false} IllustratedByLines(lines: seq<string>)
    requires forall i :: 0 <= i < |lines| ==> '\n' !in lines[i] && !ImageOpensAcrossLines(lines[i])
    ensures IllustratedParagraph(Join(lines, "\n"))
         == Join(seq(|lines|, i requires 0 <= i < |lines| => IllustrateLine(lines[i])), "\n")
  {
    var out := seq(|lines|, i requires 0 <= i < |lines| => IllustrateLine(lines[i]));
    if |lines| == 1 {
      IllustrateLineAlone(lines[0]);
    } else if |lines| > 1 {
      IllustrateBreak(lines[0], Join(lines[1..], "\n"));
      IllustratedByLines(lines[1..]);
      assert out[1..] == seq(|lines| - 1, i requires 0 <= i < |lines| - 1 => IllustrateLine(lines[1..][i]));
    }
  }

  /** A line `<img attrs>text` whose text starts with a non-space character
      becomes `<img attrs>`, a blank line, and `text`. */
  lemma ImageThenText(attrs: string, text: string)
    requires attrs != [] && '>' !in attrs && '\n' !in attrs && '\n' !in text
    requires text != [] && !IsSpace(text[0])
    ensures IllustratedParagraph(ImgOpen + attrs + ">" + text) == ImgOpen + attrs + ">" + "\n\n" + text
  {
    var tag := ImgOpen + attrs + ">";
    var line := tag + text;
    assert forall j :: 4 <= j < |tag| - 1 ==> tag[j] == attrs[j - 4];
    IndexOfIs(tag, '>', 4, |tag| - 1);
    assert line[..4] == tag[..4];
    IndexOfExtend(tag, text, '>', 4);
    assert line[|tag|] == text[0];
    assert '\n' !in line by {
      assert line == ImgOpen + attrs + ">" + text;
    }
    IllustrateLineAlone(line);
    assert line[..|tag|] == tag && line[|tag|..] == text;
  }
}
