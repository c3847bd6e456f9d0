/**
 * The chatbot's incremental decoder for the server-sent event stream of the
 * chat relay. Text arrives in chunks; complete lines are taken off a buffer,
 * `data: ` lines are parsed, and every non-empty content delta is appended
 * to the assistant's text, which the last chat message displays.
 *
 * `JSON.parse` followed by `choices?.[0]?.delta?.content` is a parameter
 * `parse` of type `string -> Delta`.
 */
module EventStream {
  import opened Optional
  import opened Text

  datatype Role = User | Assistant

  /** A chat message as the widget keeps it. */
  datatype Msg = Msg(role: Role, content: string)

  /** The result of parsing a payload: a parse failure, or the content delta if there is one. */
  datatype Delta = Malformed | Parsed(content: Option<string>)

  /**
   * The decoder's state: the unconsumed text (`textBuffer`), the assistant
   * text so far (`assistantSoFar`), and the chat messages.
   */
  datatype Decoder = Decoder(buffer: string, text: string, messages: seq<Msg>)

  /** What a line is: ignorable, the end marker `[DONE]`, or a data payload. */
  datatype LineKind = Skip | Done | Data(payload: string)

  /** What handling a line does: continue with some content (possibly none), stop, or fail. */
  datatype Effect = Pass(content: string) | Finish | Fail

  /** `s.indexOf(c)`: the first position holding `c`, `None` for -1. */
  function IndexOf(s: string, c: char): (r: Option<nat>)
    ensures r.None? ==> forall i :: 0 <= i < |s| ==> s[i] != c
    ensures r.Some? ==> r.value < |s| && s[r.value] == c
    ensures r.Some? ==> forall i :: 0 <= i < r.value ==> s[i] != c
  {
    if |s| == 0 then None
    else if s[0] == c then Some(0)
    else match IndexOf(s[1..], c)
      case None => None
      case Some(i) => Some(i + 1)
  }

  /** Appending text after a `c` does not move the first `c`. */
  lemma IndexOfAppend(a: string, b: string, c: char)
    requires IndexOf(a, c).Some?
    ensures IndexOf(a + b, c) == IndexOf(a, c)
  {
    var k := IndexOf(a, c).value;
    assert (a + b)[k] == c;
  }

  /** `if (line.endsWith('\r')) line = line.slice(0, -1)`. */
  function StripCR(line: string): (r: string)
    ensures r <= line && |line| - 1 <= |r|
    ensures EndsWith(line, "\r") <==> |r| < |line|
  {
    if EndsWith(line, "\r") then line[..|line| - 1] else line
  }

  /**
   * The classification of a line (after its `\r` is removed): comments
   * (`:`), blank lines and lines not starting with `data: ` are skipped;
   * the payload is the rest of the line, trimmed.
   */
  function Classify(line: string): LineKind {
    if StartsWith(line, ":") || IsBlank(line) then Skip
    else if !StartsWith(line, "data: ") then Skip
    else
      var payload := Trim(line[6..]);
      if payload == "[DONE]" then Done else Data(payload)
  }

  /**
   * The effect of a line: data whose parse fails is a failure; a parsed
   * delta contributes its content when that is a non-empty string (`if (content)`).
   */
  function LineEffect(line: string, parse: string -> Delta): Effect {
    KindEffect(Classify(line), parse)
  }

  /** The effect of a classified line. */
  function KindEffect(kind: LineKind, parse: string -> Delta): Effect {
    match kind
    case Skip => Pass("")
    case Done => Finish
    case Data(payload) =>
      match parse(payload)
      case Malformed => Fail
      case Parsed(content) => if content.Some? then Pass(content.value) else Pass("")
  }

  /** The decoder's reading of a line, for a given payload parser. */
  function Interpreter(parse: string -> Delta): string -> Effect {
    line => LineEffect(line, parse)
  }

  /** A line and the line with one more whitespace character at its end are blank together. */
  lemma BlankIgnoresTrailingWhitespace(s: string, c: char)
    requires IsWhitespace(c)
    ensures IsBlank(s + [c]) <==> IsBlank(s)
  {
    TrimIgnoresTrailingWhitespace(s, c);
  }

  /** Classification looks only at the two prefixes, blankness, and the trimmed payload. */
  lemma ClassifyByParts(a: string, b: string)
    requires StartsWith(a, ":") == StartsWith(b, ":")
    requires IsBlank(a) == IsBlank(b)
    requires StartsWith(a, "data: ") == StartsWith(b, "data: ")
    requires StartsWith(a, "data: ") ==> Trim(a[6..]) == Trim(b[6..])
    ensures Classify(a) == Classify(b)
  {
  }

  /** One more character at the end does not change a prefix test the string already decides. */
  lemma PrefixKept(s: string, c: char, p: string)
    requires |p| <= |s|
    ensures StartsWith(s + [c], p) == StartsWith(s, p)
  {
    assert (s + [c])[..|p|] == s[..|p|];
  }

  /** A carriage return appended to a line shorter than six characters cannot complete `data: `. */
  lemma ShortIsNotData(s: string)
    requires |s| < 6
    ensures !StartsWith(s + ['\r'], "data: ") && !StartsWith(s, "data: ")
  {
    assert |s + ['\r']| == 6 ==> (s + ['\r'])[5] == '\r';
  }

  /** A carriage return appended to a `data: ` line is trimmed off its payload. */
  lemma PayloadIgnoresCR(s: string)
    requires |s| >= 6
    ensures Trim((s + ['\r'])[6..]) == Trim(s[6..])
  {
    assert (s + ['\r'])[6..] == s[6..] + ['\r'];
    TrimIgnoresTrailingWhitespace(s[6..], '\r');
  }

  /** Appending a carriage return to a line does not change how it is classified. */
  lemma ClassifyIgnoresTrailingCR(s: string)
    ensures Classify(s + ['\r']) == Classify(s)
  {
    BlankIgnoresTrailingWhitespace(s, '\r');
    CommentIgnoresCR(s);
    DataIgnoresCR(s);
    ClassifyByParts(s + ['\r'], s);
  }

  /** A carriage return appended to a line does not change whether it is a comment. */
  lemma CommentIgnoresCR(s: string)
    ensures StartsWith(s + ['\r'], ":") == StartsWith(s, ":")
  {
    if |s| == 0 {
      assert (s + ['\r'])[0] == '\r';
    } else {
      PrefixKept(s, '\r', ":");
    }
  }

  /** A carriage return appended to a line does not change whether it is a `data: ` line, nor its trimmed payload. */
  lemma DataIgnoresCR(s: string)
    ensures StartsWith(s + ['\r'], "data: ") == StartsWith(s, "data: ")
    ensures StartsWith(s, "data: ") ==> Trim((s + ['\r'])[6..]) == Trim(s[6..])
  {
    if |s| >= 6 {
      PrefixKept(s, '\r', "data: ");
      PayloadIgnoresCR(s);
    } else {
      ShortIsNotData(s);
    }
  }

  /** Removing a trailing carriage return never changes how a line is classified. */
  lemma ClassifyIgnoresCR(line: string)
    ensures Classify(StripCR(line)) == Classify(line)
  {
    if EndsWith(line, "\r") {
      var s := StripCR(line);
      assert line == s + ['\r'] by {
        assert line[|line| - 1] == '\r';
      }
      ClassifyIgnoresTrailingCR(s);
    }
  }

  /**
   * `setMessages` with the snapshot: the last message is replaced by the
   * assistant text if it is an assistant message, otherwise the text is
   * appended as a new assistant message.
   */
  function Snapshot(messages: seq<Msg>, text: string): (r: seq<Msg>)
    ensures |r| > 0 && r[|r| - 1] == Msg(Assistant, text)
    ensures r[..|r| - 1] == (if |messages| > 0 && messages[|messages| - 1].role == Assistant then messages[..|messages| - 1] else messages)
  {
    if |messages| > 0 && messages[|messages| - 1].role == Assistant then
      messages[..|messages| - 1] + [Msg(Assistant, text)]
    else messages + [Msg(Assistant, text)]
  }

  /**
   * One run of the inner loop: take complete lines off the buffer until
   * none is left, `[DONE]` is read (the rest stays buffered), or a payload
   * fails to parse (the line, without its `\r`, is put back in front).
   */
  function Drain(st: Decoder, interpret: string -> Effect): (r: Decoder)
    ensures st.text <= r.text
    ensures |r.buffer| <= |st.buffer|
    decreases |st.buffer|
  {
    match IndexOf(st.buffer, '\n')
    case None => st
    case Some(k) =>
      var line := StripCR(st.buffer[..k]);
      var rest := st.buffer[k + 1..];
      match interpret(line)
      case Finish => st.(buffer := rest)
      case Fail => st.(buffer := line + "\n" + rest)
      case Pass(content) => Drain(Advance(st, rest, content), interpret)
  }

  /**
   * Consume a line that passed: the buffer becomes `rest`; non-empty content
   * is appended to the text and the new text is shown (`if (content)`).
   */
  function Advance(st: Decoder, rest: string, content: string): (r: Decoder)
    ensures r.buffer == rest && r.text == st.text + content
    ensures content == "" ==> r.messages == st.messages
  {
    if content == "" then st.(buffer := rest)
    else
      var text := st.text + content;
      Decoder(rest, text, Snapshot(st.messages, text))
  }

  /** One chunk read from the stream: append it to the buffer, then run the inner loop. */
  function Feed(st: Decoder, chunk: string, interpret: string -> Effect): Decoder {
    Drain(st.(buffer := st.buffer + chunk), interpret)
  }

  /** The outer loop over every chunk until the reader reports done. */
  function FeedAll(st: Decoder, chunks: seq<string>, interpret: string -> Effect): Decoder
    decreases |chunks|
  {
    if |chunks| == 0 then st else FeedAll(Feed(st, chunks[0], interpret), chunks[1..], interpret)
  }

  /** The chunks joined together: the text of the whole stream. */
  function Concat(chunks: seq<string>): string
    decreases |chunks|
  {
    if |chunks| == 0 then "" else chunks[0] + Concat(chunks[1..])
  }

  // ----- A reference reading of the stream: split into lines first, then interpret. -----

  /** The complete (newline-terminated) lines of `s`, without their newlines. */
  function Lines(s: string): seq<string>
    decreases |s|
  {
    match IndexOf(s, '\n')
    case None => []
    case Some(k) => [s[..k]] + Lines(s[k + 1..])
  }

  /** The text after the last newline of `s`: an incomplete line. */
  function Tail(s: string): (r: string)
    ensures IndexOf(r, '\n').None?
    decreases |s|
  {
    match IndexOf(s, '\n')
    case None => s
    case Some(k) => Tail(s[k + 1..])
  }

  /** Lines written back with their newlines. */
  function Join(lines: seq<string>): string
    decreases |lines|
  {
    if |lines| == 0 then "" else lines[0] + "\n" + Join(lines[1..])
  }

  /** A text around its newline at `k`: the line, the newline, the rest. */
  lemma SplitAt(s: string, k: nat)
    requires k < |s| && s[k] == '\n'
    ensures s == s[..k] + "\n" + s[k + 1..]
  {
    assert s[k..] == [s[k]] + s[k + 1..];
    assert s == s[..k] + s[k..];
  }

  /** Splitting loses nothing: the lines, rejoined, followed by the tail, are the text. */
  lemma {:induction false} LinesJoinTail(s: string)
    ensures Join(Lines(s)) + Tail(s) == s
    decreases |s|
  {
    match IndexOf(s, '\n')
    case None =>
    case Some(k) =>
      var line, rest := s[..k], s[k + 1..];
      LinesJoinTail(rest);
      SplitAt(s, k);
      assert ([line] + Lines(rest))[1..] == Lines(rest);
  }

  /** Lines of a concatenation: the lines of `a`, then those of `a`'s tail continued by `b`. */
  lemma {:induction false} LinesOfAppend(a: string, b: string)
    ensures Lines(a + b) == Lines(a) + Lines(Tail(a) + b)
    ensures Tail(a + b) == Tail(Tail(a) + b)
    decreases |a|
  {
    match IndexOf(a, '\n')
    case None =>
    case Some(k) =>
      LinesOfAppend(a[k + 1..], b);
      LinesOfAppendStep(a, b, k);
  }

  /** The step of `LinesOfAppend`: its statement for the rest after the first line gives it for the whole. */
  lemma LinesOfAppendStep(a: string, b: string, k: nat)
    requires IndexOf(a, '\n') == Some(k)
    requires var rest := a[k + 1..];
      Lines(rest + b) == Lines(rest) + Lines(Tail(rest) + b) && Tail(rest + b) == Tail(Tail(rest) + b)
    ensures Lines(a + b) == Lines(a) + Lines(Tail(a) + b)
    ensures Tail(a + b) == Tail(Tail(a) + b)
  {
    var line, rest := a[..k], a[k + 1..];
    AppendFirstLine(a, b, k);
    FirstLine(a, k);
    ConsOfAppend(line, Lines(rest), Lines(Tail(rest) + b));
  }

  /** A list with an element in front, continued: the element in front of the continued list. */
  lemma ConsOfAppend<T>(x: T, a: seq<T>, b: seq<T>)
    ensures [x] + (a + b) == ([x] + a) + b
  {
  }

  /** A text whose first newline is at `k`, continued by `b`: the same first line, then the rest continued. */
  lemma AppendFirstLine(a: string, b: string, k: nat)
    requires IndexOf(a, '\n') == Some(k)
    ensures Lines(a + b) == [a[..k]] + Lines(a[k + 1..] + b)
    ensures Tail(a + b) == Tail(a[k + 1..] + b)
  {
    IndexOfAppend(a, b, '\n');
    assert (a + b)[..k] == a[..k];
    assert (a + b)[k + 1..] == a[k + 1..] + b;
    FirstLine(a + b, k);
  }

  /** The text a line contributes when it passes. */
  function LineText(line: string, interpret: string -> Effect): string {
    match interpret(StripCR(line))
    case Pass(content) => content
    case _ => ""
  }

  /** The contents the lines contribute, in order. */
  function Contents(lines: seq<string>, interpret: string -> Effect): string
    decreases |lines|
  {
    if |lines| == 0 then "" else LineText(lines[0], interpret) + Contents(lines[1..], interpret)
  }

  lemma {:induction false} ContentsAppend(a: seq<string>, b: seq<string>, interpret: string -> Effect)
    ensures Contents(a + b, interpret) == Contents(a, interpret) + Contents(b, interpret)
    decreases |a|
  {
    if |a| > 0 {
      assert (a + b)[1..] == a[1..] + b;
      ContentsAppend(a[1..], b, interpret);
    } else {
      assert a + b == b;
    }
  }

  /** Every line neither ends the stream nor fails to parse. */
  predicate Clean(lines: seq<string>, interpret: string -> Effect) {
    forall i :: 0 <= i < |lines| ==> interpret(StripCR(lines[i])).Pass?
  }

  /** The number of leading lines that pass: the position of the first `[DONE]` or failure. */
  function ClearRun(lines: seq<string>, interpret: string -> Effect): (n: nat)
    ensures n <= |lines|
    ensures forall i :: 0 <= i < n ==> interpret(StripCR(lines[i])).Pass?
    ensures n < |lines| ==> !interpret(StripCR(lines[n])).Pass?
    decreases |lines|
  {
    if |lines| == 0 || !interpret(StripCR(lines[0])).Pass? then 0
    else 1 + ClearRun(lines[1..], interpret)
  }

  /** The contents of a list with a line in front. */
  lemma ContentsCons(line: string, rest: seq<string>, interpret: string -> Effect)
    ensures Contents([line] + rest, interpret) == LineText(line, interpret) + Contents(rest, interpret)
  {
    assert ([line] + rest)[1..] == rest;
  }

  /** Slicing a list with one element in front. */
  lemma ConsSlices<T>(x: T, tail: seq<T>, n: nat)
    requires n <= |tail|
    ensures ([x] + tail)[..n + 1] == [x] + tail[..n]
    ensures ([x] + tail)[n + 1..] == tail[n..]
  {
  }

  /** The first complete line of a text, and what is left after its newline. */
  lemma FirstLine(s: string, k: nat)
    requires IndexOf(s, '\n') == Some(k)
    ensures Lines(s) == [s[..k]] + Lines(s[k + 1..])
    ensures Tail(s) == Tail(s[k + 1..])
  {
  }

  /**
   * The line-by-line reading of a buffer already split into `lines` and an
   * incomplete `tail`: interpret the lines in order from the given text and
   * messages, stopping at `[DONE]` or at a failure.
   */
  function ReadLines(text: string, messages: seq<Msg>, lines: seq<string>, tail: string,
                     interpret: string -> Effect): Decoder
    decreases |lines|
  {
    if |lines| == 0 then Decoder(tail, text, messages)
    else
      var line := StripCR(lines[0]);
      match interpret(line)
      case Finish => Decoder(Join(lines[1..]) + tail, text, messages)
      case Fail => Decoder(line + "\n" + Join(lines[1..]) + tail, text, messages)
      case Pass(content) =>
        var next := Advance(Decoder("", text, messages), "", content);
        ReadLines(next.text, next.messages, lines[1..], tail, interpret)
  }

  /**
   * The inner loop, which searches the buffer for one newline at a time, is
   * the line-by-line reading of the buffer's complete lines and tail.
   */
  lemma {:induction false} DrainReadsLines(st: Decoder, interpret: string -> Effect)
    ensures Drain(st, interpret) == ReadLines(st.text, st.messages, Lines(st.buffer), Tail(st.buffer), interpret)
    decreases |st.buffer|
  {
    match IndexOf(st.buffer, '\n')
    case None =>
    case Some(k) =>
      var line := StripCR(st.buffer[..k]);
      if interpret(line).Pass? {
        var next := DrainPassStep(st, k, interpret);
        DrainReadsLines(next, interpret);
      } else {
        DrainStopStep(st, k, interpret);
      }
  }

  /**
   * A first line that passes: both readings continue from the same text and
   * messages with the rest of the buffer.
   */
  lemma DrainPassStep(st: Decoder, k: nat, interpret: string -> Effect) returns (next: Decoder)
    requires IndexOf(st.buffer, '\n') == Some(k)
    requires interpret(StripCR(st.buffer[..k])).Pass?
    ensures |next.buffer| < |st.buffer|
    ensures Drain(st, interpret) == Drain(next, interpret)
    ensures ReadLines(st.text, st.messages, Lines(st.buffer), Tail(st.buffer), interpret)
         == ReadLines(next.text, next.messages, Lines(next.buffer), Tail(next.buffer), interpret)
  {
    var raw, rest := st.buffer[..k], st.buffer[k + 1..];
    var content := interpret(StripCR(raw)).content;
    next := Advance(st, rest, content);
    DrainPasses(st, k, interpret);
    ReadLinesPassesFirst(st, k, interpret);
  }

  /** The inner loop goes on from the state `Advance` leaves after a first line that passes. */
  lemma DrainPasses(st: Decoder, k: nat, interpret: string -> Effect)
    requires IndexOf(st.buffer, '\n') == Some(k)
    requires interpret(StripCR(st.buffer[..k])).Pass?
    ensures var content := interpret(StripCR(st.buffer[..k])).content;
      Drain(st, interpret) == Drain(Advance(st, st.buffer[k + 1..], content), interpret)
  {
  }

  /** The line-by-line reading goes on, after a first line that passes, from the rest of the buffer. */
  lemma ReadLinesPassesFirst(st: Decoder, k: nat, interpret: string -> Effect)
    requires IndexOf(st.buffer, '\n') == Some(k)
    requires interpret(StripCR(st.buffer[..k])).Pass?
    ensures var rest := st.buffer[k + 1..];
      var next := Advance(st, rest, interpret(StripCR(st.buffer[..k])).content);
      ReadLines(st.text, st.messages, Lines(st.buffer), Tail(st.buffer), interpret)
        == ReadLines(next.text, next.messages, Lines(rest), Tail(rest), interpret)
  {
    var raw, rest := st.buffer[..k], st.buffer[k + 1..];
    var content := interpret(StripCR(raw)).content;
    FirstLine(st.buffer, k);
    ReadLinesFirst(st.text, st.messages, raw, Lines(rest), Tail(rest), interpret);
    var next := Advance(st, rest, content);
    assert next.text == Advance(Decoder("", st.text, st.messages), "", content).text;
    assert next.messages == Advance(Decoder("", st.text, st.messages), "", content).messages;
  }

  /** A first line that ends the stream or fails: both readings stop with the same buffer. */
  lemma DrainStopStep(st: Decoder, k: nat, interpret: string -> Effect)
    requires IndexOf(st.buffer, '\n') == Some(k)
    requires !interpret(StripCR(st.buffer[..k])).Pass?
    ensures Drain(st, interpret) == ReadLines(st.text, st.messages, Lines(st.buffer), Tail(st.buffer), interpret)
  {
    var raw, rest := st.buffer[..k], st.buffer[k + 1..];
    var line := StripCR(raw);
    var back := if interpret(line).Finish? then rest else line + "\n" + rest;
    DrainStops(st, k, interpret);
    assert Drain(st, interpret) == st.(buffer := back);
    ReadLinesStopsFirst(st, k, interpret);
  }

  /** The inner loop stops at a first line that does not pass, keeping the rest buffered. */
  lemma DrainStops(st: Decoder, k: nat, interpret: string -> Effect)
    requires IndexOf(st.buffer, '\n') == Some(k)
    requires !interpret(StripCR(st.buffer[..k])).Pass?
    ensures var line, rest := StripCR(st.buffer[..k]), st.buffer[k + 1..];
      Drain(st, interpret) == st.(buffer := if interpret(line).Finish? then rest else line + "\n" + rest)
  {
  }

  /** The line-by-line reading stops at a first line that does not pass, with the same buffer. */
  lemma ReadLinesStopsFirst(st: Decoder, k: nat, interpret: string -> Effect)
    requires IndexOf(st.buffer, '\n') == Some(k)
    requires !interpret(StripCR(st.buffer[..k])).Pass?
    ensures var line, rest := StripCR(st.buffer[..k]), st.buffer[k + 1..];
      ReadLines(st.text, st.messages, Lines(st.buffer), Tail(st.buffer), interpret)
        == st.(buffer := if interpret(line).Finish? then rest else line + "\n" + rest)
  {
    var raw, rest := st.buffer[..k], st.buffer[k + 1..];
    FirstLine(st.buffer, k);
    LinesJoinTail(rest);
    ReadLinesStopsAt(st.text, st.messages, raw, Lines(rest), Tail(rest), rest, interpret);
  }

  /** Reading a list whose first line does not pass keeps the rest, or the line and the rest, buffered. */
  lemma ReadLinesStopsAt(text: string, messages: seq<Msg>, raw: string, lines: seq<string>, tail: string,
                         rest: string, interpret: string -> Effect)
    requires Join(lines) + tail == rest
    requires !interpret(StripCR(raw)).Pass?
    ensures var line := StripCR(raw);
      ReadLines(text, messages, [raw] + lines, tail, interpret)
        == Decoder(if interpret(line).Finish? then rest else line + "\n" + rest, text, messages)
  {
    var line := StripCR(raw);
    ReadLinesFirst(text, messages, raw, lines, tail, interpret);
    if interpret(line).Fail? {
      assert line + "\n" + Join(lines) + tail == line + "\n" + (Join(lines) + tail);
    }
  }

  /** The line-by-line reading of a list with a line in front: that line's effect decides. */
  lemma ReadLinesFirst(text: string, messages: seq<Msg>, raw: string, lines: seq<string>, tail: string,
                       interpret: string -> Effect)
    ensures var line := StripCR(raw);
      var r := ReadLines(text, messages, [raw] + lines, tail, interpret);
      && (interpret(line).Finish? ==> r == Decoder(Join(lines) + tail, text, messages))
      && (interpret(line).Fail? ==> r == Decoder(line + "\n" + Join(lines) + tail, text, messages))
      && (interpret(line).Pass? ==>
            var next := Advance(Decoder("", text, messages), "", interpret(line).content);
            r == ReadLines(next.text, next.messages, lines, tail, interpret))
  {
    assert ([raw] + lines)[0] == raw;
    assert ([raw] + lines)[1..] == lines;
  }

  /**
   * The text the reading adds: the contents of the lines before the first
   * `[DONE]` or failure.
   */
  lemma {:induction false} ReadLinesText(text: string, messages: seq<Msg>, lines: seq<string>, tail: string,
                                         interpret: string -> Effect)
    ensures ReadLines(text, messages, lines, tail, interpret).text == text + Cleared(lines, interpret)
    decreases |lines|
  {
    if |lines| > 0 && interpret(StripCR(lines[0])).Pass? {
      var content := interpret(StripCR(lines[0])).content;
      var next := Advance(Decoder("", text, messages), "", content);
      ReadLinesText(next.text, next.messages, lines[1..], tail, interpret);
      ReadLinesTextStep(text, messages, lines, tail, interpret);
    } else {
      ReadLinesTextStop(text, messages, lines, tail, interpret);
    }
  }

  /** The step of `ReadLinesText`: its statement after a first line that passes gives it with that line. */
  lemma ReadLinesTextStep(text: string, messages: seq<Msg>, lines: seq<string>, tail: string,
                          interpret: string -> Effect)
    requires |lines| > 0 && interpret(StripCR(lines[0])).Pass?
    requires var next := Advance(Decoder("", text, messages), "", interpret(StripCR(lines[0])).content);
      ReadLines(next.text, next.messages, lines[1..], tail, interpret).text == next.text + Cleared(lines[1..], interpret)
    ensures ReadLines(text, messages, lines, tail, interpret).text == text + Cleared(lines, interpret)
  {
    var content := interpret(StripCR(lines[0])).content;
    var next := Advance(Decoder("", text, messages), "", content);
    var rest := Cleared(lines[1..], interpret);
    assert ReadLines(text, messages, lines, tail, interpret) == ReadLines(next.text, next.messages, lines[1..], tail, interpret);
    assert next.text == text + content;
    assert Cleared(lines, interpret) == content + rest;
    assert (text + content) + rest == text + (content + rest);
  }

  /** Reading stops, with the text unchanged, when there is no line or the first one does not pass. */
  lemma ReadLinesTextStop(text: string, messages: seq<Msg>, lines: seq<string>, tail: string,
                          interpret: string -> Effect)
    requires |lines| == 0 || !interpret(StripCR(lines[0])).Pass?
    ensures ReadLines(text, messages, lines, tail, interpret).text == text + Cleared(lines, interpret)
  {
    assert Cleared(lines, interpret) == "";
    assert text + "" == text;
  }

  /** The contents of the lines before the first one that does not pass. */
  function Cleared(lines: seq<string>, interpret: string -> Effect): string
    decreases |lines|
  {
    if |lines| == 0 || !interpret(StripCR(lines[0])).Pass? then ""
    else interpret(StripCR(lines[0])).content + Cleared(lines[1..], interpret)
  }

  /** `Cleared` is the contents of the leading run of passing lines. */
  lemma {:induction false} ClearedIsRunContents(lines: seq<string>, interpret: string -> Effect)
    ensures Cleared(lines, interpret) == Contents(lines[..ClearRun(lines, interpret)], interpret)
    decreases |lines|
  {
    if |lines| == 0 || !interpret(StripCR(lines[0])).Pass? {
      assert lines[..0] == [];
    } else {
      var n' := ClearRun(lines[1..], interpret);
      var done := lines[1..][..n'];
      ClearedIsRunContents(lines[1..], interpret);
      assert lines[..n' + 1] == [lines[0]] + done;
      ContentsCons(lines[0], done, interpret);
    }
  }

  /** On lines that all pass, `Cleared` is the contents of all of them. */
  lemma {:induction false} ClearedOfClean(lines: seq<string>, interpret: string -> Effect)
    requires Clean(lines, interpret)
    ensures Cleared(lines, interpret) == Contents(lines, interpret)
    decreases |lines|
  {
    if |lines| > 0 {
      ClearedOfClean(lines[1..], interpret);
    }
  }

  /** When every line passes, the reading leaves the incomplete tail buffered. */
  lemma {:induction false} ReadLinesLeavesTail(text: string, messages: seq<Msg>, lines: seq<string>, tail: string,
                                               interpret: string -> Effect)
    requires Clean(lines, interpret)
    ensures ReadLines(text, messages, lines, tail, interpret).buffer == tail
    decreases |lines|
  {
    if |lines| > 0 {
      var content := interpret(StripCR(lines[0])).content;
      var next := Advance(Decoder("", text, messages), "", content);
      ReadLinesLeavesTail(next.text, next.messages, lines[1..], tail, interpret);
    }
  }

  /** The text after line `n`: the later lines and the incomplete tail. */
  function After(lines: seq<string>, n: nat, tail: string): string
    requires n < |lines|
  {
    Join(lines[n + 1..]) + tail
  }

  /**
   * When a line ends the reading, what follows it stays buffered: after
   * `[DONE]` the later lines alone, after a failure the failed line (without
   * its `\r`) in front of them.
   */
  lemma {:induction false} ReadLinesStops(text: string, messages: seq<Msg>, lines: seq<string>, tail: string,
                                          interpret: string -> Effect)
    requires ClearRun(lines, interpret) < |lines|
    ensures var n := ClearRun(lines, interpret);
      var line := StripCR(lines[n]);
      var r := ReadLines(text, messages, lines, tail, interpret);
      && (interpret(line).Finish? ==> r.buffer == After(lines, n, tail))
      && (interpret(line).Fail? ==> r.buffer == line + "\n" + After(lines, n, tail))
    decreases |lines|
  {
    if interpret(StripCR(lines[0])).Pass? {
      var content := interpret(StripCR(lines[0])).content;
      var next := Advance(Decoder("", text, messages), "", content);
      ReadLinesStops(next.text, next.messages, lines[1..], tail, interpret);
      var n' := ClearRun(lines[1..], interpret);
      assert lines[n' + 1] == lines[1..][n'];
      assert lines[n' + 2..] == lines[1..][n' + 1..];
    }
  }

  /** A buffer whose lines all pass is consumed up to its tail, and its contents are shown. */
  lemma DrainClean(st: Decoder, interpret: string -> Effect)
    requires Clean(Lines(st.buffer), interpret)
    ensures Drain(st, interpret).buffer == Tail(st.buffer)
    ensures Drain(st, interpret).text == st.text + Contents(Lines(st.buffer), interpret)
  {
    var lines := Lines(st.buffer);
    DrainReadsLines(st, interpret);
    ReadLinesText(st.text, st.messages, lines, Tail(st.buffer), interpret);
    ClearedOfClean(lines, interpret);
    ReadLinesLeavesTail(st.text, st.messages, lines, Tail(st.buffer), interpret);
    assert lines[..|lines|] == lines;
  }

  /** A joined list of lines passes exactly when both parts pass. */
  lemma CleanAppend(a: seq<string>, b: seq<string>, interpret: string -> Effect)
    ensures Clean(a + b, interpret) <==> Clean(a, interpret) && Clean(b, interpret)
  {
    if Clean(a + b, interpret) {
      forall i | 0 <= i < |a|
        ensures interpret(StripCR(a[i])).Pass?
      {
        assert (a + b)[i] == a[i];
      }
      forall i | 0 <= i < |b|
        ensures interpret(StripCR(b[i])).Pass?
      {
        assert (a + b)[|a| + i] == b[i];
      }
    }
    if Clean(a, interpret) && Clean(b, interpret) {
      forall i | 0 <= i < |a + b|
        ensures interpret(StripCR((a + b)[i])).Pass?
      {
        if i < |a| {
          assert (a + b)[i] == a[i];
        } else {
          assert (a + b)[i] == b[i - |a|];
        }
      }
    }
  }

  /** One chunk whose completed lines all pass: the buffer keeps the new tail and the text gains their contents. */
  lemma FeedClean(st: Decoder, chunk: string, interpret: string -> Effect)
    requires Clean(Lines(st.buffer + chunk), interpret)
    ensures Feed(st, chunk, interpret).buffer == Tail(st.buffer + chunk)
    ensures Feed(st, chunk, interpret).text == st.text + Contents(Lines(st.buffer + chunk), interpret)
  {
    DrainClean(st.(buffer := st.buffer + chunk), interpret);
  }

  /**
   * Over a stream in which every complete line passes, feeding chunk after
   * chunk leaves exactly the incomplete last line buffered, wherever the
   * chunk boundaries fall.
   */
  lemma {:induction false} FeedAllBuffer(st: Decoder, chunks: seq<string>, interpret: string -> Effect)
    requires IndexOf(st.buffer, '\n').None?
    requires Clean(Lines(st.buffer + Concat(chunks)), interpret)
    ensures FeedAll(st, chunks, interpret).buffer == Tail(st.buffer + Concat(chunks))
    decreases |chunks|
  {
    if |chunks| == 0 {
      assert st.buffer + Concat(chunks) == st.buffer;
    } else {
      var x := st.buffer + chunks[0];
      var y := Concat(chunks[1..]);
      assert st.buffer + Concat(chunks) == x + y;
      LinesOfAppend(x, y);
      CleanAppend(Lines(x), Lines(Tail(x) + y), interpret);
      FeedClean(st, chunks[0], interpret);
      FeedAllBuffer(Feed(st, chunks[0], interpret), chunks[1..], interpret);
    }
  }

  /**
   * Over a stream in which every complete line passes, feeding chunk after
   * chunk shows the contents of all complete lines, wherever the chunk
   * boundaries fall.
   */
  lemma {:induction false} FeedAllText(st: Decoder, chunks: seq<string>, interpret: string -> Effect)
    requires IndexOf(st.buffer, '\n').None?
    requires Clean(Lines(st.buffer + Concat(chunks)), interpret)
    ensures FeedAll(st, chunks, interpret).text == st.text + Contents(Lines(st.buffer + Concat(chunks)), interpret)
    decreases |chunks|
  {
    if |chunks| == 0 {
      assert st.buffer + Concat(chunks) == st.buffer;
      assert st.text + "" == st.text;
    } else {
      var x := st.buffer + chunks[0];
      var y := Concat(chunks[1..]);
      assert st.buffer + Concat(chunks) == x + y;
      LinesOfAppend(x, y);
      CleanAppend(Lines(x), Lines(Tail(x) + y), interpret);
      var st1 := Feed(st, chunks[0], interpret);
      FeedClean(st, chunks[0], interpret);
      FeedAllText(st1, chunks[1..], interpret);
      ContentsSplit(st.text, x, y, interpret);
    }
  }

  /** The contents of a text are those of a prefix's lines, then those of the rest. */
  lemma ContentsSplit(text: string, x: string, y: string, interpret: string -> Effect)
    ensures (text + Contents(Lines(x), interpret)) + Contents(Lines(Tail(x) + y), interpret)
      == text + Contents(Lines(x + y), interpret)
  {
    var a, b := Lines(x), Lines(Tail(x) + y);
    LinesOfAppend(x, y);
    ContentsAppend(a, b, interpret);
    AppendAssoc(text, Contents(a, interpret), Contents(b, interpret), Contents(Lines(x + y), interpret));
  }

  /** Appending two parts one after the other is appending their concatenation. */
  lemma AppendAssoc(text: string, c1: string, c2: string, c: string)
    requires c == c1 + c2
    ensures (text + c1) + c2 == text + c
  {
  }

  // ----- What the chat displays while the stream is read. -----

  /** The conversation up to the user's message: non-empty, ending with that message. */
  predicate AwaitingReply(base: seq<Msg>) {
    |base| > 0 && base[|base| - 1].role == User
  }

  /** The conversation with the assistant's text so far: no bubble until there is text. */
  function Shown(base: seq<Msg>, text: string): seq<Msg> {
    if text == "" then base else base + [Msg(Assistant, text)]
  }

  /** The decoder's state before the first chunk. */
  function Start(base: seq<Msg>): Decoder {
    Decoder("", "", base)
  }

  /** A snapshot of longer text replaces the assistant bubble, or opens it for the first text. */
  lemma SnapshotShows(base: seq<Msg>, text: string, content: string)
    requires AwaitingReply(base) && content != ""
    ensures Snapshot(Shown(base, text), text + content) == Shown(base, text + content)
  {
    if text != "" {
      assert (base + [Msg(Assistant, text)])[..|base|] == base;
    }
  }

  /** Consuming a line keeps the display in step with the text. */
  lemma AdvanceShows(st: Decoder, rest: string, content: string, base: seq<Msg>)
    requires AwaitingReply(base) && st.messages == Shown(base, st.text)
    ensures Advance(st, rest, content).messages == Shown(base, Advance(st, rest, content).text)
  {
    if content != "" {
      SnapshotShows(base, st.text, content);
    } else {
      assert st.text + content == st.text;
    }
  }

  /** The line-by-line reading keeps the display in step with the text. */
  lemma {:induction false} ReadLinesShows(text: string, messages: seq<Msg>, lines: seq<string>, tail: string,
                                          interpret: string -> Effect, base: seq<Msg>)
    requires AwaitingReply(base) && messages == Shown(base, text)
    ensures var r := ReadLines(text, messages, lines, tail, interpret);
      r.messages == Shown(base, r.text)
    decreases |lines|
  {
    if |lines| > 0 && interpret(StripCR(lines[0])).Pass? {
      var content := interpret(StripCR(lines[0])).content;
      var next := Advance(Decoder("", text, messages), "", content);
      AdvanceShows(Decoder("", text, messages), "", content, base);
      ReadLinesShows(next.text, next.messages, lines[1..], tail, interpret, base);
    }
  }

  /**
   * Whatever the stream holds, after every chunk the chat shows the
   * conversation followed by one assistant message holding exactly the text
   * so far, or no assistant message while there is no text.
   */
  lemma {:induction false} FeedAllShows(st: Decoder, chunks: seq<string>, interpret: string -> Effect, base: seq<Msg>)
    requires AwaitingReply(base) && st.messages == Shown(base, st.text)
    ensures var r := FeedAll(st, chunks, interpret);
      r.messages == Shown(base, r.text)
    decreases |chunks|
  {
    if |chunks| > 0 {
      var fed := st.(buffer := st.buffer + chunks[0]);
      DrainReadsLines(fed, interpret);
      ReadLinesShows(fed.text, fed.messages, Lines(fed.buffer), Tail(fed.buffer), interpret, base);
      FeedAllShows(Feed(st, chunks[0], interpret), chunks[1..], interpret, base);
    }
  }

  /**
   * Chunk boundaries do not matter for a stream whose complete lines all
   * pass: two ways of cutting the same text into chunks end in the same
   * state, with the same buffer, text and messages.
   */
  lemma ChunkingIrrelevant(base: seq<Msg>, chunks1: seq<string>, chunks2: seq<string>, interpret: string -> Effect)
    requires AwaitingReply(base)
    requires Concat(chunks1) == Concat(chunks2)
    requires Clean(Lines(Concat(chunks1)), interpret)
    ensures FeedAll(Start(base), chunks1, interpret) == FeedAll(Start(base), chunks2, interpret)
  {
    var whole := Concat(chunks1);
    assert Start(base).buffer + whole == whole;
    FeedAllBuffer(Start(base), chunks1, interpret);
    FeedAllBuffer(Start(base), chunks2, interpret);
    FeedAllText(Start(base), chunks1, interpret);
    FeedAllText(Start(base), chunks2, interpret);
    FeedAllShows(Start(base), chunks1, interpret, base);
    FeedAllShows(Start(base), chunks2, interpret, base);
  }

  /** Reading a whole clean stream shows the contents of all its complete lines and keeps the last, incomplete one. */
  lemma CleanStreamShowsAll(base: seq<Msg>, chunks: seq<string>, interpret: string -> Effect)
    requires AwaitingReply(base)
    requires Clean(Lines(Concat(chunks)), interpret)
    ensures var r := FeedAll(Start(base), chunks, interpret);
      && r.text == Contents(Lines(Concat(chunks)), interpret)
      && r.buffer == Tail(Concat(chunks))
      && r.messages == Shown(base, r.text)
  {
    var st, all := Start(base), Concat(chunks);
    assert st.buffer + all == all;
    FeedAllBuffer(st, chunks, interpret);
    FeedAllText(st, chunks, interpret);
    FeedAllShows(st, chunks, interpret, base);
    assert "" + Contents(Lines(all), interpret) == Contents(Lines(all), interpret);
  }

  // ----- The two ways the reading stops early. -----

  /** `c` at `j` and nowhere before: `j` is the first position of `c`. */
  lemma IndexOfFirst(s: string, j: nat, c: char)
    requires j < |s| && s[j] == c
    requires forall i :: 0 <= i < j ==> s[i] != c
    ensures IndexOf(s, c) == Some(j)
  {
  }

  /** No complete line contains a newline. */
  lemma {:induction false} LinesHaveNoNewline(s: string, i: nat)
    requires i < |Lines(s)|
    ensures forall j :: 0 <= j < |Lines(s)[i]| ==> Lines(s)[i][j] != '\n'
    decreases |s|
  {
    var k := IndexOf(s, '\n').value;
    FirstLine(s, k);
    if i > 0 {
      LinesHaveNoNewline(s[k + 1..], i - 1);
    }
  }

  /** A trailing carriage return never changes what a line does. */
  lemma EffectIgnoresCR(line: string, parse: string -> Delta)
    ensures LineEffect(StripCR(line), parse) == LineEffect(line, parse)
  {
    ClassifyIgnoresCR(line);
    EffectOfKind(StripCR(line), line, parse);
  }

  /** Two lines of the same kind have the same effect. */
  lemma EffectOfKind(a: string, b: string, parse: string -> Delta)
    requires Classify(a) == Classify(b)
    ensures LineEffect(a, parse) == LineEffect(b, parse)
  {
  }

  /** A reading of lines that a trailing `\r` never changes, as the decoder's own reading is. */
  ghost predicate IgnoresCR(interpret: string -> Effect) {
    forall line {:trigger interpret(StripCR(line))} :: interpret(StripCR(line)) == interpret(line)
  }

  /** The decoder's reading of lines ignores a trailing `\r`. */
  lemma InterpreterIgnoresCR(parse: string -> Delta)
    ensures IgnoresCR(Interpreter(parse))
  {
    forall line
      ensures Interpreter(parse)(StripCR(line)) == Interpreter(parse)(line)
    {
      EffectIgnoresCR(line, parse);
    }
  }

  /** The buffer's first complete line is one that fails. */
  predicate Stuck(st: Decoder, interpret: string -> Effect) {
    match IndexOf(st.buffer, '\n')
    case None => false
    case Some(k) => interpret(StripCR(st.buffer[..k])).Fail?
  }

  /** A line without newline, put back in front of a text, is again the first line. */
  lemma PutBackIsFirst(line: string, rest: string)
    requires forall j :: 0 <= j < |line| ==> line[j] != '\n'
    ensures IndexOf(line + "\n" + rest, '\n') == Some(|line|)
    ensures (line + "\n" + rest)[..|line|] == line
  {
    IndexOfFirst(line + "\n" + rest, |line|, '\n');
  }

  /**
   * On a line that fails (for the decoder: a payload that does not parse)
   * the reading stops with that line put back first, so the decoder is stuck on it.
   */
  lemma FailureSticks(st: Decoder, interpret: string -> Effect)
    requires IgnoresCR(interpret)
    requires var lines := Lines(st.buffer); var n := ClearRun(lines, interpret);
      n < |lines| && interpret(StripCR(lines[n])).Fail?
    ensures Stuck(Drain(st, interpret), interpret)
  {
    var lines, tail := Lines(st.buffer), Tail(st.buffer);
    var n := ClearRun(lines, interpret);
    var line := StripCR(lines[n]);
    var rest := After(lines, n, tail);
    ReadLinesStops(st.text, st.messages, lines, tail, interpret);
    assert ReadLines(st.text, st.messages, lines, tail, interpret).buffer == line + "\n" + rest;
    DrainReadsLines(st, interpret);
    LinesHaveNoNewline(st.buffer, n);
    StrippedHasNoNewline(lines[n]);
    StuckOn(Drain(st, interpret), line, rest, interpret);
  }

  /** Removing a trailing `\r` from a line without newline leaves a line without newline. */
  lemma StrippedHasNoNewline(s: string)
    requires forall j :: 0 <= j < |s| ==> s[j] != '\n'
    ensures forall j :: 0 <= j < |StripCR(s)| ==> StripCR(s)[j] != '\n'
  {
  }

  /** A buffer holding a newline-free failing line first, then anything: the decoder is stuck. */
  lemma StuckOn(st: Decoder, line: string, rest: string, interpret: string -> Effect)
    requires IgnoresCR(interpret)
    requires st.buffer == line + "\n" + rest
    requires forall j :: 0 <= j < |line| ==> line[j] != '\n'
    requires interpret(line).Fail?
    ensures Stuck(st, interpret)
  {
    PutBackIsFirst(line, rest);
    assert interpret(StripCR(line)) == interpret(line);
  }

  /**
   * A stuck decoder stays stuck: the next chunk is appended to the buffer,
   * but the failed line is read again, fails again and is put back again, so
   * neither the text nor the messages change.
   */
  lemma FeedWhileStuck(st: Decoder, chunk: string, interpret: string -> Effect)
    requires IgnoresCR(interpret)
    requires Stuck(st, interpret)
    ensures var r := Feed(st, chunk, interpret);
      r.text == st.text && r.messages == st.messages && Stuck(r, interpret)
  {
    var raw, after := StuckShape(st, interpret);
    var line, rest := StripCR(raw), after + chunk;
    var fed := st.(buffer := st.buffer + chunk);
    AppendAssoc(raw + "\n", after, chunk, rest);
    DrainOnFailedLine(fed, raw, rest, interpret);
    StrippedHasNoNewline(raw);
    StuckOn(Feed(st, chunk, interpret), line, rest, interpret);
  }

  /** A stuck buffer is its failing first line, a newline, and the rest. */
  lemma StuckShape(st: Decoder, interpret: string -> Effect) returns (raw: string, after: string)
    requires Stuck(st, interpret)
    ensures st.buffer == raw + "\n" + after
    ensures forall j :: 0 <= j < |raw| ==> raw[j] != '\n'
    ensures interpret(StripCR(raw)).Fail?
  {
    var k := IndexOf(st.buffer, '\n').value;
    raw, after := st.buffer[..k], st.buffer[k + 1..];
    SplitAt(st.buffer, k);
  }

  /** A failing newline-free line in front of the buffer is put back without its `\r`, and nothing else changes. */
  lemma DrainOnFailedLine(st: Decoder, raw: string, rest: string, interpret: string -> Effect)
    requires st.buffer == raw + "\n" + rest
    requires forall j :: 0 <= j < |raw| ==> raw[j] != '\n'
    requires interpret(StripCR(raw)).Fail?
    ensures Drain(st, interpret) == st.(buffer := StripCR(raw) + "\n" + rest)
  {
    PutBackIsFirst(raw, rest);
    assert st.buffer[|raw| + 1..] == rest;
    DrainOnFailure(st, interpret, |raw|);
  }

  /** On a failing first line one run of the inner loop only puts that line back, without its `\r`. */
  lemma DrainOnFailure(st: Decoder, interpret: string -> Effect, k: nat)
    requires IndexOf(st.buffer, '\n') == Some(k)
    requires interpret(StripCR(st.buffer[..k])).Fail?
    ensures Drain(st, interpret) == st.(buffer := StripCR(st.buffer[..k]) + "\n" + st.buffer[k + 1..])
  {
  }

  /** Once stuck, nothing more is ever shown, however many chunks follow. */
  lemma {:induction false} StuckForever(st: Decoder, chunks: seq<string>, interpret: string -> Effect)
    requires IgnoresCR(interpret)
    requires Stuck(st, interpret)
    ensures var r := FeedAll(st, chunks, interpret);
      r.text == st.text && r.messages == st.messages
    decreases |chunks|
  {
    if |chunks| > 0 {
      FeedWhileStuck(st, chunks[0], interpret);
      StuckForever(Feed(st, chunks[0], interpret), chunks[1..], interpret);
    }
  }

  // ----- `[DONE]` ends one run of the inner loop, not the reading. -----

  /** A parser that takes every payload as its own content delta. */
  function Echo(): string -> Delta {
    (payload: string) => Parsed(Some(payload))
  }

  /** The end marker, and a data line after it, as the decoder reads them. */
  lemma MarkerAndDataLines()
    ensures LineEffect(DoneLine, Echo()) == Finish
    ensures LineEffect("data: hi", Echo()) == Pass("hi")
  {
    TrimOfTrimmed("data: [DONE]");
    TrimOfTrimmed("[DONE]");
    assert "data: [DONE]"[6..] == "[DONE]";
    TrimOfTrimmed("data: hi");
    TrimOfTrimmed("hi");
    assert "data: hi"[6..] == "hi";
  }

  /**
   * `break` on `[DONE]` leaves only the inner loop: lines after the marker
   * stay buffered and are read when the next chunk arrives. The same text
   * therefore shows nothing when it arrives in one chunk, and the next
   * line's content when the marker line arrives alone first.
   */
  lemma DoneOnlyPausesReading(base: seq<Msg>, marker: string, line: string, content: string,
                              interpret: string -> Effect)
    requires forall j :: 0 <= j < |marker| ==> marker[j] != '\n'
    requires forall j :: 0 <= j < |line| ==> line[j] != '\n'
    requires interpret(StripCR(marker)) == Finish && interpret(StripCR(line)) == Pass(content)
    ensures var one := FeedAll(Start(base), [marker + "\n" + line + "\n"], interpret);
      one.text == "" && one.buffer == line + "\n"
    ensures var two := FeedAll(Start(base), [marker + "\n", line + "\n"], interpret);
      two.text == content && two.buffer == ""
  {
    var whole := marker + "\n" + line + "\n";
    assert whole == marker + "\n" + (line + "\n");
    FeedMarker(base, marker, line + "\n", interpret);
    assert FeedAll(Start(base), [whole], interpret) == FeedAll(Feed(Start(base), whole, interpret), [], interpret);
    assert marker + "\n" == marker + "\n" + "";
    FeedMarker(base, marker, "", interpret);
    var paused := Feed(Start(base), marker + "\n", interpret);
    FeedLine(paused, line, content, interpret);
    assert FeedAll(Start(base), [marker + "\n", line + "\n"], interpret) == FeedAll(paused, [line + "\n"], interpret);
  }

  /** A first chunk opening with the end marker line leaves what follows the marker buffered. */
  lemma FeedMarker(base: seq<Msg>, marker: string, rest: string, interpret: string -> Effect)
    requires forall j :: 0 <= j < |marker| ==> marker[j] != '\n'
    requires interpret(StripCR(marker)) == Finish
    ensures Feed(Start(base), marker + "\n" + rest, interpret) == Start(base).(buffer := rest)
  {
    var chunk := marker + "\n" + rest;
    assert "" + chunk == chunk;
    PutBackIsFirst(marker, rest);
    DrainOnFinish(Start(base).(buffer := chunk), interpret, |marker|);
  }

  /** One passing line arriving on an empty buffer adds its content and leaves nothing buffered. */
  lemma FeedLine(st: Decoder, line: string, content: string, interpret: string -> Effect)
    requires st.buffer == ""
    requires forall j :: 0 <= j < |line| ==> line[j] != '\n'
    requires interpret(StripCR(line)) == Pass(content)
    ensures var r := FeedAll(st, [line + "\n"], interpret);
      r.text == st.text + content && r.buffer == ""
  {
    var fed := st.(buffer := st.buffer + (line + "\n"));
    assert fed.buffer == line + "\n" + "";
    PutBackIsFirst(line, "");
    DrainOnPass(fed, interpret, |line|);
    assert fed.buffer[|line| + 1..] == "";
    var next := Advance(fed, "", content);
    assert IndexOf(next.buffer, '\n').None?;
    assert FeedAll(st, [line + "\n"], interpret) == FeedAll(next, [], interpret);
  }

  /** A line that passes is consumed, and the inner loop goes on with the rest. */
  lemma DrainOnPass(st: Decoder, interpret: string -> Effect, k: nat)
    requires IndexOf(st.buffer, '\n') == Some(k)
    requires interpret(StripCR(st.buffer[..k])).Pass?
    ensures var content := interpret(StripCR(st.buffer[..k])).content;
      Drain(st, interpret) == Drain(Advance(st, st.buffer[k + 1..], content), interpret)
  {
  }

  /** On an end marker one run of the inner loop consumes that line and stops. */
  lemma DrainOnFinish(st: Decoder, interpret: string -> Effect, k: nat)
    requires IndexOf(st.buffer, '\n') == Some(k)
    requires interpret(StripCR(st.buffer[..k])).Finish?
    ensures Drain(st, interpret) == st.(buffer := st.buffer[k + 1..])
  {
  }

  /** The relay's end marker line. */
  const DoneLine := "data: [DONE]"

  /** Neither example line contains a newline. */
  lemma SingleLines()
    ensures forall j :: 0 <= j < |DoneLine| ==> DoneLine[j] != '\n'
    ensures forall j :: 0 <= j < |"data: hi"| ==> "data: hi"[j] != '\n'
  {
  }

  /** The general fact on the relay's own marker and a data line, with payloads taken as content. */
  lemma DoneExample(base: seq<Msg>)
    ensures FeedAll(Start(base), [DoneLine + "\n" + "data: hi" + "\n"], Interpreter(Echo())).text == ""
    ensures FeedAll(Start(base), [DoneLine + "\n", "data: hi" + "\n"], Interpreter(Echo())).text == "hi"
  {
    SingleLines();
    MarkerAndDataLines();
    assert StripCR(DoneLine) == DoneLine;
    assert StripCR("data: hi") == "data: hi";
    DoneOnlyPausesReading(base, DoneLine, "data: hi", "hi", Interpreter(Echo()));
  }
}
