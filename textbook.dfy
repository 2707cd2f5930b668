/**
  The textbook view: the lesson picked by its id (falling back to the first
  lesson) and its text rendered line by line as headings, bullets and
  paragraphs.
 */
module Textbook {
  import opened Common
  import opened JsString

  /** A lesson, shaped like `Lesson`. */
  datatype Lesson = Lesson(
    id: string,
    title: string,
    description: string,
    videoUrl: string,
    watchUrl: string,
    thumbnail: string,
    textbookContent: string)

  /**
    `LESSONS.find(l => l.id === selectedLessonId) || LESSONS[0]`. The
    application reads `LESSONS[0]` unconditionally when it starts, so there is
    at least one lesson.
   */
  function CurrentLesson(lessons: seq<Lesson>, selectedLessonId: string): (l: Lesson)
    requires |lessons| > 0
    ensures l in lessons
    ensures forall i :: 0 <= i < |lessons| && lessons[i].id == selectedLessonId ==>
              (forall j :: 0 <= j < i ==> lessons[j].id != selectedLessonId) ==> l == lessons[i]
    ensures (forall i :: 0 <= i < |lessons| ==> lessons[i].id != selectedLessonId) ==> l == lessons[0]
    ensures (exists i :: 0 <= i < |lessons| && lessons[i].id == selectedLessonId) ==> l.id == selectedLessonId
  {
    match FindFirst(lessons, (x: Lesson) => x.id == selectedLessonId)
    case Some(k) => lessons[k]
    case None => lessons[0]
  }

  /** A rendered line of the textbook. */
  datatype Block = Heading(text: string) | Bullet(text: string) | Paragraph(text: string)

  /** No whitespace at either end, as `trim` leaves it. */
  predicate IsTrimmed(s: string)
  {
    s != [] ==> !IsWhitespace(s[0]) && !IsWhitespace(s[|s| - 1])
  }

  /** How one line is shown; `None` for a blank line, which renders nothing. */
  function ClassifyLine(line: string): (r: Option<Block>)
    ensures r.None? <==> AllWhitespace(line)
    ensures r.Some? && r.value.Paragraph? ==> r.value.text != []
    ensures r.Some? ==> IsTrimmed(r.value.text)
  {
    if StartsWith(Trim(line), "##") then Some(Heading(Trim(ReplaceFirst(line, "##"))))
    else if StartsWith(Trim(line), "-") then Some(Bullet(Trim(ReplaceFirst(line, "-"))))
    else if Trim(line) == "" then None
    else Some(Paragraph(Trim(line)))
  }

  /**
    The classification read off the trimmed line alone: a `##` prefix wins
    over a `-` prefix, the marker is cut from the front of the trimmed line,
    and whatever is left is trimmed again.
   */
  lemma ClassifyByTrimmedLine(line: string)
    ensures var t := Trim(line);
            ClassifyLine(line) ==
              if StartsWith(t, "##") then Some(Heading(Trim(t[2..])))
              else if StartsWith(t, "-") then Some(Bullet(Trim(t[1..])))
              else if t == [] then None
              else Some(Paragraph(t))
  {
    var t := Trim(line);
    if StartsWith(t, "##") {
      ReplaceFirstAfterTrim(line, "##");
    } else if StartsWith(t, "-") {
      ReplaceFirstAfterTrim(line, "-");
    }
  }

  /** `lines.map(...)` with the blank lines' `null` dropped. */
  function Blocks(lines: seq<string>): (r: seq<Block>)
    ensures |r| <= |lines|
    ensures forall i :: 0 <= i < |r| ==> IsTrimmed(r[i].text)
  {
    if |lines| == 0 then []
    else
      var rest := Blocks(lines[1..]);
      var c := ClassifyLine(lines[0]);
      if c.None? then rest
      else
        PrependTrimmed(c.value, rest);
        [c.value] + rest
  }

  lemma PrependTrimmed(b: Block, rest: seq<Block>)
    requires IsTrimmed(b.text)
    requires forall i :: 0 <= i < |rest| ==> IsTrimmed(rest[i].text)
    ensures forall i :: 0 <= i < |rest| + 1 ==> IsTrimmed(([b] + rest)[i].text)
  {
  }

  /** Rendering keeps line order: the blocks of two runs of lines follow each other. */
  lemma {:induction false} BlocksAppend(a: seq<string>, b: seq<string>)
    ensures Blocks(a + b) == Blocks(a) + Blocks(b)
  {
    if |a| == 0 {
      assert a + b == b;
    } else {
      assert (a + b)[1..] == a[1..] + b;
      BlocksAppend(a[1..], b);
    }
  }

  /** The textbook body: the lesson text split on newlines, each line classified. */
  function RenderTextbook(content: string): (r: seq<Block>)
    ensures |r| <= |Split(content, '\n')|
    ensures forall i :: 0 <= i < |r| ==> IsTrimmed(r[i].text)
  {
    Blocks(Split(content, '\n'))
  }

  /** A text without a newline renders as its single line. */
  lemma RenderSingleLine(line: string)
    requires '\n' !in line
    ensures RenderTextbook(line) == match ClassifyLine(line)
                                    case Some(b) => [b]
                                    case None => []
  {
    SplitNoSep(line, '\n');
  }

  /**
    Rendering works line by line: the blocks of two texts joined by a newline
    are the blocks of the first followed by those of the second.
   */
  lemma RenderLineByLine(first: string, second: string)
    ensures RenderTextbook(first + "\n" + second) == RenderTextbook(first) + RenderTextbook(second)
  {
    var ps, qs := Split(first, '\n'), Split(second, '\n');
    JoinSplit(first, '\n');
    JoinSplit(second, '\n');
    JoinAppend(ps, qs, '\n');
    SplitJoin(ps + qs, '\n');
    BlocksAppend(ps, qs);
  }

  lemma {:induction false} JoinAppend(ps: seq<string>, qs: seq<string>, sep: char)
    requires |ps| >= 1 && |qs| >= 1
    ensures Join(ps + qs, sep) == Join(ps, sep) + [sep] + Join(qs, sep)
  {
    if |ps| == 1 {
      assert (ps + qs)[1..] == qs;
    } else {
      assert (ps + qs)[1..] == ps[1..] + qs;
      JoinAppend(ps[1..], qs, sep);
    }
  }
}
