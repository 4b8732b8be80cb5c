/**
 Serialisation of one stopping place's steps, as written to its output file:
 either CSV (a `step,number` header, then one `time,number` line per step) or
 a small XML document (a declaration, an empty line, `<stoppingPlace>`, one
 `<step time=".." number=".."/>` element per step, `</stoppingPlace>`).

 Each writer is proved against a reader: splitting its text into lines gives
 the header, then one line per step in step order, then the footer, and
 decoding the lines gives back each step's time text and number.
 */
module Render {
  import opened Events
  import opened Timeline
  import opened Wrappers

  /** One step as read back from the text: the rendered time and the occupancy. */
  datatype Row = Row(timeText: string, number: int)

  const CsvHeader: string := "step,number"
  const XmlDeclaration: string := "<?xml version= \"1.0\" encoding=\"UTF-8\"?>"
  const RootOpen: string := "<stoppingPlace>"
  const RootClose: string := "</stoppingPlace>"
  /** The text of a step element before its time. */
  const StepOpen: string := "    <step time=\""
  /** The text of a step element between the quote closing the time and its number. */
  const NumberAttribute: string := " number=\""
  /** The text of a step element after the quote closing its number. */
  const StepClose: string := "/>"

  /**
   What the rendering of a time must avoid for the output to be read back:
   a line break, the CSV separator and the XML attribute quote.
   */
  predicate TimeTextOk(s: string) {
    '\n' !in s && ',' !in s && '"' !in s
  }

  // Decimal rendering of the occupancy, as Python's `%s` prints an int.

  function DigitChar(d: nat): char
    requires d < 10
  {
    (d + '0' as int) as char
  }

  function DigitValue(c: char): int {
    c as int - '0' as int
  }

  function NatText(n: nat): (r: string)
    ensures r != []
    ensures forall c :: c in r ==> '0' <= c <= '9'
    ensures n >= 10 ==> r[0] != '0'
  {
    if n < 10 then [DigitChar(n)] else NatText(n / 10) + [DigitChar(n % 10)]
  }

  function IntText(n: int): string {
    if n < 0 then "-" + NatText(-n) else NatText(n)
  }

  function ParseNat(s: string): int {
    if s == [] then 0 else ParseNat(s[..|s| - 1]) * 10 + DigitValue(s[|s| - 1])
  }

  function ParseInt(s: string): int {
    if s != [] && s[0] == '-' then -ParseNat(s[1..]) else ParseNat(s)
  }

  lemma {:induction false} NatTextRoundTrip(n: nat)
    ensures ParseNat(NatText(n)) == n
  {
    if n >= 10 {
      NatTextRoundTrip(n / 10);
      var s := NatText(n);
      assert s[..|s| - 1] == NatText(n / 10);
    }
  }

  /** Reading back the rendering of a number gives the number. */
  lemma IntTextRoundTrip(n: int)
    ensures ParseInt(IntText(n)) == n
  {
    if n < 0 {
      NatTextRoundTrip(-n);
      assert ("-" + NatText(-n))[1..] == NatText(-n);
    } else {
      NatTextRoundTrip(n);
      assert NatText(n)[0] in NatText(n);
    }
  }

  /** A rendered number is made of digits and a minus sign only. */
  lemma IntTextPlain(n: int)
    ensures TimeTextOk(IntText(n))
  {
    if n < 0 {
      assert IntText(n) == ['-'] + NatText(-n);
    }
  }

  // Lines and their separation.

  /** The text of `lines`, each terminated by a line break. */
  function Unlines(lines: seq<string>): string {
    if lines == [] then [] else lines[0] + "\n" + Unlines(lines[1..])
  }

  /** The text before the first `sep` and the text after it; the whole text and "" when there is none. */
  function SplitFirst(s: string, sep: char): (r: (string, string))
    ensures sep !in r.0
    ensures sep in s ==> s == r.0 + [sep] + r.1
    ensures sep !in s ==> r == (s, "")
  {
    if s == [] then ("", "")
    else if s[0] == sep then
      assert s == "" + [sep] + s[1..];
      ("", s[1..])
    else
      var (before, after) := SplitFirst(s[1..], sep);
      assert s == [s[0]] + s[1..];
      assert sep in s[1..] ==> s == [s[0]] + before + [sep] + after;
      ([s[0]] + before, after)
  }

  /** The lines of `text`: the pieces between line breaks, the last break ending the last line. */
  function SplitLines(text: string): seq<string>
    decreases |text|
  {
    if text == [] then []
    else
      var split := SplitFirst(text, '\n');
      assert |split.1| < |text|;
      [split.0] + SplitLines(split.1)
  }

  lemma {:induction false} SplitFirstOf(a: string, sep: char, b: string)
    requires sep !in a
    ensures SplitFirst(a + [sep] + b, sep) == (a, b)
  {
    if a != [] {
      assert a[0] in a;
      assert (a + [sep] + b)[0] == a[0];
      assert (a + [sep] + b)[1..] == a[1..] + [sep] + b;
      SplitFirstOf(a[1..], sep, b);
      assert a == [a[0]] + a[1..];
    } else {
      assert (a + [sep] + b)[1..] == b;
    }
  }

  /** Splitting the text of lines without line breaks gives back those lines. */
  lemma {:induction false} SplitUnlines(lines: seq<string>)
    requires forall i :: 0 <= i < |lines| ==> '\n' !in lines[i]
    ensures SplitLines(Unlines(lines)) == lines
  {
    if lines != [] {
      var text := Unlines(lines);
      assert text == lines[0] + ['\n'] + Unlines(lines[1..]);
      SplitFirstOf(lines[0], '\n', Unlines(lines[1..]));
      SplitUnlines(lines[1..]);
      assert lines == [lines[0]] + lines[1..];
    }
  }

  lemma {:induction false} UnlinesSnoc(lines: seq<string>, line: string)
    ensures Unlines(lines + [line]) == Unlines(lines) + line + "\n"
  {
    if lines == [] {
      assert [] + [line] == [line];
    } else {
      assert (lines + [line])[1..] == lines[1..] + [line];
      UnlinesSnoc(lines[1..], line);
    }
  }

  // The two encodings, line by line.

  function CsvLine(fmt: Time -> string, step: Step): string {
    fmt(step.time) + "," + IntText(step.count)
  }

  function CsvRows(fmt: Time -> string, steps: seq<Step>): seq<string> {
    seq(|steps|, i requires 0 <= i < |steps| => CsvLine(fmt, steps[i]))
  }

  /** The lines of a CSV file: the header once, then one line per step, in step order. */
  function CsvLines(fmt: Time -> string, steps: seq<Step>): seq<string> {
    [CsvHeader] + CsvRows(fmt, steps)
  }

  function StepElement(fmt: Time -> string, step: Step): string {
    StepOpen + fmt(step.time) + "\"" + NumberAttribute + IntText(step.count) + "\"" + StepClose
  }

  function StepElements(fmt: Time -> string, steps: seq<Step>): seq<string> {
    seq(|steps|, i requires 0 <= i < |steps| => StepElement(fmt, steps[i]))
  }

  const XmlHead: seq<string> := [XmlDeclaration, "", RootOpen]

  /** The lines of an XML file: declaration, empty line, root opening, one element per step in step order, root closing. */
  function XmlLines(fmt: Time -> string, steps: seq<Step>): seq<string> {
    XmlHead + StepElements(fmt, steps) + [RootClose]
  }

  /** What a reader of either file learns of each step. */
  function Rows(fmt: Time -> string, steps: seq<Step>): seq<Row> {
    seq(|steps|, i requires 0 <= i < |steps| => Row(fmt(steps[i].time), steps[i].count))
  }

  // Readers.

  /** The rest of `s` after `prefix`, when `s` starts with it. */
  function AfterPrefix(prefix: string, s: string): Option<string> {
    if |prefix| <= |s| && s[..|prefix|] == prefix then Some(s[|prefix|..]) else None
  }

  lemma AfterPrefixOf(prefix: string, s: string)
    ensures AfterPrefix(prefix, prefix + s) == Some(s)
  {
    assert (prefix + s)[..|prefix|] == prefix;
    assert (prefix + s)[|prefix|..] == s;
  }

  /**
   The two quoted texts of a line shaped `open a" mid b" close` (where `open`
   and `mid` end with the opening quotes); None for a line of another shape.
   */
  function DecodeQuoted(open: string, mid: string, close: string, line: string): Option<(string, string)> {
    match AfterPrefix(open, line)
    case None => None
    case Some(afterOpen) =>
      var (a, rest) := SplitFirst(afterOpen, '"');
      match AfterPrefix(mid, rest)
      case None => None
      case Some(afterMid) =>
        var (b, tail) := SplitFirst(afterMid, '"');
        if tail == close then Some((a, b)) else None
  }

  lemma DecodeQuotedOf(open: string, mid: string, close: string, a: string, b: string)
    requires '"' !in a && '"' !in b
    ensures DecodeQuoted(open, mid, close, open + a + "\"" + mid + b + "\"" + close) == Some((a, b))
  {
    var last := b + ['"'] + close;
    var tail := mid + last;
    assert open + a + "\"" + mid + b + "\"" + close == open + (a + ['"'] + tail);
    AfterPrefixOf(open, a + ['"'] + tail);
    SplitFirstOf(a, '"', tail);
    AfterPrefixOf(mid, last);
    SplitFirstOf(b, '"', close);
  }

  function DecodeCsvLine(line: string): Row {
    var (time, number) := SplitFirst(line, ',');
    Row(time, ParseInt(number))
  }

  function DecodeCsv(text: string): Option<seq<Row>> {
    var lines := SplitLines(text);
    if lines == [] || lines[0] != CsvHeader then None else Some(DecodeCsvLines(lines[1..]))
  }

  function DecodeCsvLines(lines: seq<string>): seq<Row> {
    seq(|lines|, i requires 0 <= i < |lines| => DecodeCsvLine(lines[i]))
  }

  function DecodeStepElement(line: string): Option<Row> {
    match DecodeQuoted(StepOpen, NumberAttribute, StepClose, line)
    case None => None
    case Some((time, number)) => Some(Row(time, ParseInt(number)))
  }

  /** The rows of the step element lines; None when some line is not a step element. */
  function DecodeStepElements(lines: seq<string>): Option<seq<Row>> {
    if forall i :: 0 <= i < |lines| ==> DecodeStepElement(lines[i]).Some?
    then Some(seq(|lines|, i requires 0 <= i < |lines| => DecodeStepElement(lines[i]).value))
    else None
  }

  function DecodeXml(text: string): Option<seq<Row>> {
    var lines := SplitLines(text);
    if |lines| <= |XmlHead| || lines[..|XmlHead|] != XmlHead || lines[|lines| - 1] != RootClose then None
    else DecodeStepElements(lines[|XmlHead|..|lines| - 1])
  }

  // Round trips.

  /** A CSV line reads back as the step's time text and number. */
  lemma CsvLineRoundTrip(fmt: Time -> string, step: Step)
    requires TimeTextOk(fmt(step.time))
    ensures '\n' !in CsvLine(fmt, step)
    ensures DecodeCsvLine(CsvLine(fmt, step)) == Row(fmt(step.time), step.count)
  {
    IntTextPlain(step.count);
    IntTextRoundTrip(step.count);
    assert CsvLine(fmt, step) == fmt(step.time) + [','] + IntText(step.count);
    SplitFirstOf(fmt(step.time), ',', IntText(step.count));
  }

  lemma StepElementPlain(fmt: Time -> string, step: Step)
    requires TimeTextOk(fmt(step.time))
    ensures '\n' !in StepElement(fmt, step)
  {
    IntTextPlain(step.count);
    assert '\n' !in StepOpen && '\n' !in NumberAttribute && '\n' !in StepClose;
  }

  /** A step element reads back as the step's time text and number. */
  lemma StepElementRoundTrip(fmt: Time -> string, step: Step)
    requires TimeTextOk(fmt(step.time))
    ensures '\n' !in StepElement(fmt, step)
    ensures DecodeStepElement(StepElement(fmt, step)) == Some(Row(fmt(step.time), step.count))
  {
    StepElementPlain(fmt, step);
    IntTextPlain(step.count);
    IntTextRoundTrip(step.count);
    DecodeQuotedOf(StepOpen, NumberAttribute, StepClose, fmt(step.time), IntText(step.count));
  }

  lemma StepElementsRoundTrip(fmt: Time -> string, steps: seq<Step>)
    requires forall i :: 0 <= i < |steps| ==> TimeTextOk(fmt(steps[i].time))
    ensures forall i :: 0 <= i < |steps| ==> '\n' !in StepElements(fmt, steps)[i]
    ensures DecodeStepElements(StepElements(fmt, steps)) == Some(Rows(fmt, steps))
  {
    var lines, rows := StepElements(fmt, steps), Rows(fmt, steps);
    forall i | 0 <= i < |steps|
      ensures '\n' !in lines[i]
      ensures DecodeStepElement(lines[i]) == Some(rows[i])
    {
      StepElementRoundTrip(fmt, steps[i]);
    }
    assert seq(|lines|, i requires 0 <= i < |lines| => DecodeStepElement(lines[i]).value) == rows;
  }

  lemma CsvRowsRoundTrip(fmt: Time -> string, steps: seq<Step>)
    requires forall i :: 0 <= i < |steps| ==> TimeTextOk(fmt(steps[i].time))
    ensures forall i :: 0 <= i < |steps| ==> '\n' !in CsvRows(fmt, steps)[i]
    ensures DecodeCsvLines(CsvRows(fmt, steps)) == Rows(fmt, steps)
  {
    forall i | 0 <= i < |steps|
      ensures '\n' !in CsvRows(fmt, steps)[i]
      ensures DecodeCsvLine(CsvRows(fmt, steps)[i]) == Rows(fmt, steps)[i]
    {
      CsvLineRoundTrip(fmt, steps[i]);
    }
  }

  /** The CSV text of the steps splits into its lines and reads back as the steps' rows. */
  lemma CsvRoundTrip(fmt: Time -> string, steps: seq<Step>)
    requires forall i :: 0 <= i < |steps| ==> TimeTextOk(fmt(steps[i].time))
    ensures SplitLines(Unlines(CsvLines(fmt, steps))) == CsvLines(fmt, steps)
    ensures DecodeCsv(Unlines(CsvLines(fmt, steps))) == Some(Rows(fmt, steps))
  {
    var lines := CsvLines(fmt, steps);
    var rows := CsvRows(fmt, steps);
    CsvRowsRoundTrip(fmt, steps);
    assert lines[1..] == rows;
    forall i | 0 <= i < |lines| ensures '\n' !in lines[i] {
      if i > 0 {
        assert lines[i] == rows[i - 1];
      }
    }
    SplitUnlines(lines);
  }

  /** The parts of `head + body + [foot]`. */
  lemma Framed(head: seq<string>, body: seq<string>, foot: string)
    ensures var lines := head + body + [foot];
      && lines[..|head|] == head
      && lines[|head|..|lines| - 1] == body
      && lines[|lines| - 1] == foot
      && (forall i :: 0 <= i < |lines| ==>
            lines[i] == if i < |head| then head[i] else if i < |lines| - 1 then body[i - |head|] else foot)
  {
  }

  lemma XmlFramePlain()
    ensures forall i :: 0 <= i < |XmlHead| ==> '\n' !in XmlHead[i]
    ensures '\n' !in RootClose
  {
  }

  /** The XML text of the steps splits into its lines and reads back as the steps' rows. */
  lemma XmlRoundTrip(fmt: Time -> string, steps: seq<Step>)
    requires forall i :: 0 <= i < |steps| ==> TimeTextOk(fmt(steps[i].time))
    ensures SplitLines(Unlines(XmlLines(fmt, steps))) == XmlLines(fmt, steps)
    ensures DecodeXml(Unlines(XmlLines(fmt, steps))) == Some(Rows(fmt, steps))
  {
    var lines := XmlLines(fmt, steps);
    var elements := StepElements(fmt, steps);
    StepElementsRoundTrip(fmt, steps);
    XmlFramePlain();
    Framed(XmlHead, elements, RootClose);
    SplitUnlines(lines);
  }

  lemma CsvLinesSnoc(fmt: Time -> string, steps: seq<Step>, i: nat)
    requires i < |steps|
    ensures CsvLines(fmt, steps[..i + 1]) == CsvLines(fmt, steps[..i]) + [CsvLine(fmt, steps[i])]
  {
  }

  lemma StepElementsSnoc(fmt: Time -> string, steps: seq<Step>, i: nat)
    requires i < |steps|
    ensures StepElements(fmt, steps[..i + 1]) == StepElements(fmt, steps[..i]) + [StepElement(fmt, steps[i])]
  {
  }

  lemma XmlHeadText()
    ensures Unlines(XmlHead) == XmlDeclaration + "\n\n" + RootOpen + "\n"
  {
    UnlinesSnoc([], XmlDeclaration);
    UnlinesSnoc([XmlDeclaration], "");
    UnlinesSnoc([XmlDeclaration, ""], RootOpen);
    assert [] + [XmlDeclaration] == [XmlDeclaration];
    assert [XmlDeclaration] + [""] == [XmlDeclaration, ""];
    assert [XmlDeclaration, ""] + [RootOpen] == XmlHead;
  }

  /** The CSV writer: the header, then one `time,number` line per step. */
  method WriteCsv(fmt: Time -> string, steps: seq<Step>) returns (text: string)
    requires forall i :: 0 <= i < |steps| ==> TimeTextOk(fmt(steps[i].time))
    ensures text == Unlines(CsvLines(fmt, steps))
    ensures SplitLines(text) == CsvLines(fmt, steps)
    ensures DecodeCsv(text) == Some(Rows(fmt, steps))
  {
    text := CsvHeader + "\n";
    assert CsvLines(fmt, steps[..0]) == [CsvHeader];
    for i := 0 to |steps|
      invariant text == Unlines(CsvLines(fmt, steps[..i]))
    {
      var step := steps[i];
      ghost var before := text;
      text := text + fmt(step.time) + "," + IntText(step.count) + "\n";
      assert text == before + CsvLine(fmt, step) + "\n";
      CsvLinesSnoc(fmt, steps, i);
      UnlinesSnoc(CsvLines(fmt, steps[..i]), CsvLine(fmt, step));
    }
    assert steps[..|steps|] == steps;
    CsvRoundTrip(fmt, steps);
  }

  /** The XML writer: declaration and root opening, one element per step, root closing. */
  method WriteXml(fmt: Time -> string, steps: seq<Step>) returns (text: string)
    requires forall i :: 0 <= i < |steps| ==> TimeTextOk(fmt(steps[i].time))
    ensures text == Unlines(XmlLines(fmt, steps))
    ensures SplitLines(text) == XmlLines(fmt, steps)
    ensures DecodeXml(text) == Some(Rows(fmt, steps))
  {
    text := XmlDeclaration + "\n\n";
    text := text + RootOpen + "\n";
    XmlHeadText();
    assert XmlHead + StepElements(fmt, steps[..0]) == XmlHead;
    for i := 0 to |steps|
      invariant text == Unlines(XmlHead + StepElements(fmt, steps[..i]))
    {
      var step := steps[i];
      ghost var before := text;
      text := text + StepOpen + fmt(step.time) + "\"" + NumberAttribute + IntText(step.count) + "\"" + StepClose + "\n";
      assert text == before + StepElement(fmt, step) + "\n";
      StepElementsSnoc(fmt, steps, i);
      assert XmlHead + StepElements(fmt, steps[..i + 1])
          == (XmlHead + StepElements(fmt, steps[..i])) + [StepElement(fmt, step)];
      UnlinesSnoc(XmlHead + StepElements(fmt, steps[..i]), StepElement(fmt, step));
    }
    assert steps[..|steps|] == steps;
    UnlinesSnoc(XmlHead + StepElements(fmt, steps), RootClose);
    text := text + RootClose + "\n";
    XmlRoundTrip(fmt, steps);
  }
}
