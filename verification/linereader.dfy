/**
 LinesCount: the number of successful TextReader.ReadLine calls on a file's decoded text.
 ReadLine returns the characters up to the next "\n", "\r" or "\r\n" (the terminator is
 consumed, not returned), returns a final unterminated line as it is, and returns null
 once the text is exhausted.
 */
module LineReader {
  import opened Wrappers

  /** How a line read by ReadLine ended. */
  datatype Eol = LF | CR | CRLF | EndOfText

  /** One line as ReadLine sees it: its text and the terminator consumed after it. */
  datatype Line = Line(text: string, eol: Eol)

  predicate IsBreak(c: char) {
    c == '\n' || c == '\r'
  }

  /** A string without line-break characters. */
  predicate NoBreak(t: string) {
    forall i :: 0 <= i < |t| ==> !IsBreak(t[i])
  }

  function EolText(e: Eol): string {
    match e
    case LF => "\n"
    case CR => "\r"
    case CRLF => "\r\n"
    case EndOfText => ""
  }

  /** The characters a line occupies in the text, terminator included. */
  function LineChars(l: Line): string {
    l.text + EolText(l.eol)
  }

  /** The position of the first line-break character, |s| when there is none. */
  function FirstBreak(s: string): (n: nat)
    ensures n <= |s| && NoBreak(s[..n])
    ensures n < |s| ==> IsBreak(s[n])
  {
    if |s| == 0 || IsBreak(s[0]) then 0
    else
      var k := FirstBreak(s[1..]);
      assert s[..k + 1] == [s[0]] + s[1..][..k];
      k + 1
  }

  /** One TextReader.ReadLine call: None at the end of the text, otherwise the line and the
      text still unread. */
  function ReadLine(s: string): (r: Option<(Line, string)>)
    ensures r.None? <==> |s| == 0
    ensures r.Some? ==> LineChars(r.value.0) + r.value.1 == s
    ensures r.Some? ==> NoBreak(r.value.0.text)
    ensures r.Some? && r.value.0.eol == EndOfText ==> r.value.1 == [] && r.value.0.text != []
    ensures r.Some? && r.value.0.eol == CR ==> r.value.1 == [] || r.value.1[0] != '\n'
  {
    if |s| == 0 then None
    else
      var i := FirstBreak(s);
      if i == |s| then
        Some((Line(s, EndOfText), []))
      else if s[i] == '\r' && i + 1 < |s| && s[i + 1] == '\n' then
        assert s == s[..i] + "\r\n" + s[i + 2..];
        Some((Line(s[..i], CRLF), s[i + 2..]))
      else if s[i] == '\r' then
        assert s == s[..i] + "\r" + s[i + 1..];
        Some((Line(s[..i], CR), s[i + 1..]))
      else
        assert s == s[..i] + "\n" + s[i + 1..];
        Some((Line(s[..i], LF), s[i + 1..]))
  }

  /** The lines successive ReadLine calls return, in order. */
  function ReadAll(s: string): (ls: seq<Line>)
    ensures |ls| == 0 <==> |s| == 0
    decreases |s|
  {
    match ReadLine(s)
    case None => []
    case Some((l, rest)) =>
      assert |rest| < |s| by {
        assert |LineChars(l)| > 0;
      }
      [l] + ReadAll(rest)
  }

  /** The text the lines were read from. */
  function Render(ls: seq<Line>): string {
    if |ls| == 0 then "" else LineChars(ls[0]) + Render(ls[1..])
  }

  /** Reading loses no character: the lines and their terminators make up the text. */
  lemma {:induction false} RenderReadAll(s: string)
    ensures Render(ReadAll(s)) == s
    decreases |s|
  {
    if |s| > 0 {
      var (l, rest) := ReadLine(s).value;
      assert |rest| < |s| by {
        assert |LineChars(l)| > 0;
      }
      RenderReadAll(rest);
      assert ReadAll(s)[1..] == ReadAll(rest);
    }
  }

  /** The line sequences ReadLine can produce: no break inside a line, only the last line
      may end the text (and then is not empty), and a CR-ended line is not followed by an
      empty LF-ended line, since that "\r\n" would be read as one terminator. */
  predicate WellFormed(ls: seq<Line>) {
    && (forall k :: 0 <= k < |ls| ==> NoBreak(ls[k].text))
    && (forall k :: 0 <= k < |ls| ==> ls[k].eol == EndOfText ==> k == |ls| - 1 && ls[k].text != [])
    && (forall k :: 0 <= k < |ls| - 1 ==> ls[k].eol == CR ==> !(ls[k + 1].text == [] && ls[k + 1].eol == LF))
  }

  /** ReadAll takes the first line off with ReadLine and reads the rest the same way. */
  lemma ReadAllStep(s: string)
    requires |s| > 0
    ensures |ReadLine(s).value.1| < |s|
    ensures ReadAll(s) == [ReadLine(s).value.0] + ReadAll(ReadLine(s).value.1)
  {
    assert |LineChars(ReadLine(s).value.0)| > 0;
  }

  /** No line the reader returns holds a break. */
  lemma {:induction false} ReadAllNoBreak(s: string)
    ensures forall k :: 0 <= k < |ReadAll(s)| ==> NoBreak(ReadAll(s)[k].text)
    decreases |s|
  {
    if |s| > 0 {
      ReadAllStep(s);
      ReadAllNoBreak(ReadLine(s).value.1);
    }
  }

  /** Only the last line the reader returns may end the text, and then it is not empty. */
  lemma {:induction false} ReadAllEndOfText(s: string)
    ensures forall k :: 0 <= k < |ReadAll(s)| ==> ReadAll(s)[k].eol == EndOfText ==> k == |ReadAll(s)| - 1 && ReadAll(s)[k].text != []
    decreases |s|
  {
    if |s| > 0 {
      ReadAllStep(s);
      ReadAllEndOfText(ReadLine(s).value.1);
    }
  }

  /** A line the reader ends at a lone "\r" is not followed by an empty "\n"-ended line. */
  lemma {:induction false} ReadAllNoSplitCrLf(s: string)
    ensures forall k :: 0 <= k < |ReadAll(s)| - 1 ==> ReadAll(s)[k].eol == CR ==> !(ReadAll(s)[k + 1].text == [] && ReadAll(s)[k + 1].eol == LF)
    decreases |s|
  {
    if |s| > 0 {
      var (l, rest) := ReadLine(s).value;
      ReadAllStep(s);
      ReadAllNoSplitCrLf(rest);
      var tail := ReadAll(rest);
      if l.eol == CR && |tail| > 0 {
        RenderReadAll(rest);
        assert rest == LineChars(tail[0]) + Render(tail[1..]);
      }
    }
  }

  /** Whatever the text, the reader's lines are well formed. */
  lemma {:induction false} ReadAllWellFormed(s: string)
    ensures WellFormed(ReadAll(s))
  {
    ReadAllNoBreak(s);
    ReadAllEndOfText(s);
    ReadAllNoSplitCrLf(s);
  }

  /** ReadLine takes exactly one line off a text that starts with that line. */
  lemma ReadLineOf(l: Line, rest: string)
    requires NoBreak(l.text)
    requires l.eol == EndOfText ==> rest == [] && l.text != []
    requires l.eol == CR ==> rest == [] || rest[0] != '\n'
    ensures ReadLine(LineChars(l) + rest) == Some((l, rest))
  {
    var s := LineChars(l) + rest;
    var i := FirstBreak(s);
    assert s[..|l.text|] == l.text;
    if l.eol != EndOfText {
      assert s[|l.text|] == EolText(l.eol)[0];
      assert i == |l.text|;
      if l.eol == CRLF {
        assert s[i + 1] == '\n';
        assert s[i + 2..] == rest;
      } else {
        assert s[i + 1..] == rest;
      }
    }
  }

  /** Dropping the first line keeps a sequence well formed. */
  lemma WellFormedTail(ls: seq<Line>)
    requires |ls| > 0 && WellFormed(ls)
    ensures WellFormed(ls[1..])
  {
    assert forall k :: 0 <= k < |ls| - 1 ==> ls[1..][k] == ls[k + 1];
  }

  /** What the first line of a well-formed sequence leaves after it allows ReadLine to stop
      right there: nothing after an end-of-text line, and no "\n" right after a lone "\r". */
  lemma RestAfterFirst(ls: seq<Line>)
    requires |ls| > 0 && WellFormed(ls)
    ensures ls[0].eol == EndOfText ==> Render(ls[1..]) == [] && ls[0].text != []
    ensures ls[0].eol == CR ==> Render(ls[1..]) == [] || Render(ls[1..])[0] != '\n'
  {
    var tail := ls[1..];
    if |tail| > 0 {
      assert tail[0] == ls[1];
      assert Render(tail) == LineChars(tail[0]) + Render(tail[1..]);
      if tail[0].text != [] {
        assert Render(tail)[0] == tail[0].text[0];
      }
    }
  }

  /** Reading the text of well-formed lines gives those lines back. */
  lemma {:induction false} ReadAllRender(ls: seq<Line>)
    requires WellFormed(ls)
    ensures ReadAll(Render(ls)) == ls
    decreases |ls|
  {
    if |ls| > 0 {
      var rest := Render(ls[1..]);
      WellFormedTail(ls);
      RestAfterFirst(ls);
      ReadLineOf(ls[0], rest);
      assert Render(ls) == LineChars(ls[0]) + rest;
      ReadAllStep(Render(ls));
      ReadAllRender(ls[1..]);
      assert ls == [ls[0]] + ls[1..];
    }
  }


  /** The number of lines ReadLine yields before reporting the end of the text. */
  function LineTotal(content: string): nat {
    |ReadAll(content)|
  }

  /** LinesCount: `total` counts the successful ReadLine calls. */
  method LinesCount(content: string) returns (total: nat)
    ensures total == LineTotal(content)
  {
    total := 0;
    var rest := content;
    var line := ReadLine(rest);
    while line.Some?
      invariant line == ReadLine(rest)
      invariant total + |ReadAll(rest)| == |ReadAll(content)|
      decreases |rest|
    {
      assert |line.value.1| < |rest| by {
        assert |LineChars(line.value.0)| > 0;
      }
      total := total + 1;
      rest := line.value.1;
      line := ReadLine(rest);
    }
  }

  /** The number of line terminators in the text, "\r\n" counting as one. */
  function Breaks(s: string): nat {
    if |s| == 0 then 0
    else if s[0] == '\r' && |s| > 1 && s[1] == '\n' then 1 + Breaks(s[2..])
    else if IsBreak(s[0]) then 1 + Breaks(s[1..])
    else Breaks(s[1..])
  }

  /** The text ends with characters after its last terminator. */
  predicate HasUnterminatedTail(s: string) {
    |s| > 0 && !IsBreak(s[|s| - 1])
  }

  /** Characters without a break in front of the text do not change the terminator count. */
  lemma {:induction false} BreaksSkipText(t: string, s: string)
    requires NoBreak(t)
    ensures Breaks(t + s) == Breaks(s)
    decreases |t|
  {
    if |t| > 0 {
      assert (t + s)[0] == t[0] && !IsBreak(t[0]);
      assert (t + s)[1..] == t[1..] + s;
      BreaksSkipText(t[1..], s);
    } else {
      assert t + s == s;
    }
  }

  /** A terminator in front of the text adds one to the count, provided a lone CR is not
      followed by a '\n' (the two would form one "\r\n"). */
  lemma BreaksAfterEol(e: Eol, rest: string)
    requires e != EndOfText
    requires e == CR ==> rest == [] || rest[0] != '\n'
    ensures Breaks(EolText(e) + rest) == 1 + Breaks(rest)
  {
    var t := EolText(e) + rest;
    if e == CRLF {
      assert t[2..] == rest;
    } else {
      assert t[1..] == rest;
    }
  }

  /** A line read by ReadLine contributes its own terminator to the count, if it has one. */
  lemma BreaksOfLine(l: Line, rest: string)
    requires NoBreak(l.text)
    requires l.eol == EndOfText ==> rest == []
    requires l.eol == CR ==> rest == [] || rest[0] != '\n'
    ensures Breaks(LineChars(l) + rest) == (if l.eol == EndOfText then 0 else 1) + Breaks(rest)
  {
    assert LineChars(l) + rest == l.text + (EolText(l.eol) + rest);
    BreaksSkipText(l.text, EolText(l.eol) + rest);
    if l.eol == EndOfText {
      assert EolText(l.eol) + rest == rest;
    } else {
      BreaksAfterEol(l.eol, rest);
    }
  }

  /** Whether the text ends unterminated is decided by what follows the first line. */
  lemma TailOfLine(l: Line, rest: string)
    requires l.eol == EndOfText ==> rest == [] && l.text != []
    requires NoBreak(l.text)
    ensures HasUnterminatedTail(LineChars(l) + rest) <==>
              if |rest| > 0 then HasUnterminatedTail(rest) else l.eol == EndOfText
  {
    var s := LineChars(l) + rest;
    if |rest| > 0 {
      assert s[|s| - 1] == rest[|rest| - 1];
    } else if l.eol == EndOfText {
      assert s == l.text;
    } else {
      assert s[|s| - 1] == EolText(l.eol)[|EolText(l.eol)| - 1];
    }
  }

  /** The count in closed form: one line per terminator, plus one for an unterminated tail.
      Empty text has no lines; K terminators followed by a non-empty last line give K + 1. */
  lemma {:induction false} LineCountClosedForm(s: string)
    ensures LineTotal(s) == Breaks(s) + (if HasUnterminatedTail(s) then 1 else 0)
    decreases |s|
  {
    if |s| > 0 {
      var (l, rest) := ReadLine(s).value;
      assert |rest| < |s| by {
        assert |LineChars(l)| > 0;
      }
      assert |ReadAll(s)| == 1 + |ReadAll(rest)|;
      LineCountClosedForm(rest);
      BreaksOfLine(l, rest);
      TailOfLine(l, rest);
    }
  }
}
