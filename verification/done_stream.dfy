/**
 * Streams that end with the relay's end marker. `[DONE]` only pauses the
 * decoder's inner loop: the lines after it stay buffered and are read when the
 * next chunk arrives. When no line fails and every line after the first
 * marker shows nothing (another marker, or a line without content), the text
 * read is the contents of the lines before the first marker, however the
 * stream is cut into chunks. The buffer left at the end does depend on the
 * cuts: see `EventStream.DoneOnlyPausesReading`.
 */
module DoneStream {
  import opened EventStream

  /** A line effect that shows nothing: the end marker, or a line without content. */
  predicate Silent(e: Effect) {
    e.Finish? || e == Pass("")
  }

  /** Every line shows nothing. */
  predicate Quiet(lines: seq<string>, interpret: string -> Effect) {
    forall i :: 0 <= i < |lines| ==> Silent(interpret(StripCR(lines[i])))
  }

  /**
   * No line fails, and the first line that does not pass (the first end
   * marker, if there is one) is followed only by lines that show nothing.
   */
  predicate EndsAtDone(lines: seq<string>, interpret: string -> Effect) {
    var n := ClearRun(lines, interpret);
    n == |lines| || (interpret(StripCR(lines[n])).Finish? && Quiet(lines[n + 1..], interpret))
  }

  /** A clean list of lines trivially ends at the end marker: it has none. */
  lemma CleanEndsAtDone(lines: seq<string>, interpret: string -> Effect)
    requires Clean(lines, interpret)
    ensures EndsAtDone(lines, interpret)
  {
  }

  /** A joined list of lines shows nothing exactly when both parts show nothing. */
  lemma QuietAppend(a: seq<string>, b: seq<string>, interpret: string -> Effect)
    ensures Quiet(a + b, interpret) <==> Quiet(a, interpret) && Quiet(b, interpret)
  {
    if Quiet(a + b, interpret) {
      forall i | 0 <= i < |a|
        ensures Silent(interpret(StripCR(a[i])))
      {
        assert (a + b)[i] == a[i];
      }
      forall i | 0 <= i < |b|
        ensures Silent(interpret(StripCR(b[i])))
      {
        assert (a + b)[|a| + i] == b[i];
      }
    }
    if Quiet(a, interpret) && Quiet(b, interpret) {
      forall i | 0 <= i < |a + b|
        ensures Silent(interpret(StripCR((a + b)[i])))
      {
        if i < |a| {
          assert (a + b)[i] == a[i];
        } else {
          assert (a + b)[i] == b[i - |a|];
        }
      }
    }
  }

  /** A line without a newline. */
  predicate NoNewline(line: string) {
    forall j :: 0 <= j < |line| ==> line[j] != '\n'
  }

  /** Lines written back and followed by a text are read again as the same lines, then the text's own. */
  lemma {:induction false} LinesOfJoin(lines: seq<string>, t: string)
    requires forall i :: 0 <= i < |lines| ==> NoNewline(lines[i])
    ensures Lines(Join(lines) + t) == lines + Lines(t)
    decreases |lines|
  {
    if |lines| == 0 {
      assert Join(lines) + t == t;
      assert lines + Lines(t) == Lines(t);
    } else {
      var first, later := lines[0], lines[1..];
      var rest := Join(later) + t;
      LinesOfJoin(later, t);
      assert Join(lines) + t == first + "\n" + rest;
      PutBackIsFirst(first, rest);
      FirstLine(first + "\n" + rest, |first|);
      assert (first + "\n" + rest)[|first| + 1..] == rest;
      ConsOfAppend(first, later, Lines(t));
      assert lines == [first] + later;
    }
  }

  /** The lines after line `n` of a text contain no newline. */
  lemma LaterLinesHaveNoNewline(s: string, n: nat)
    requires n < |Lines(s)|
    ensures var later := Lines(s)[n + 1..];
      forall i :: 0 <= i < |later| ==> NoNewline(later[i])
  {
    var later := Lines(s)[n + 1..];
    forall i | 0 <= i < |later|
      ensures NoNewline(later[i])
    {
      assert later[i] == Lines(s)[n + 1 + i];
      LinesHaveNoNewline(s, n + 1 + i);
    }
  }

  /** Reading lines that show nothing leaves the text and the messages as they were. */
  lemma {:induction false} ReadLinesQuiet(text: string, messages: seq<Msg>, lines: seq<string>, tail: string,
                                          interpret: string -> Effect)
    requires Quiet(lines, interpret)
    ensures var r := ReadLines(text, messages, lines, tail, interpret);
      r.text == text && r.messages == messages
    decreases |lines|
  {
    if |lines| > 0 && interpret(StripCR(lines[0])).Pass? {
      assert Silent(interpret(StripCR(lines[0])));
      var next := Advance(Decoder("", text, messages), "", "");
      assert next.text == text;
      assert Quiet(lines[1..], interpret) by {
        forall i | 0 <= i < |lines[1..]|
          ensures Silent(interpret(StripCR(lines[1..][i])))
        {
          assert lines[1..][i] == lines[i + 1];
        }
      }
      ReadLinesQuiet(text, messages, lines[1..], tail, interpret);
    }
  }

  /**
   * One run of the inner loop over lines that show nothing (with `more` still
   * to come) changes neither the text nor the messages, and what it leaves
   * buffered, followed by `more`, again holds only lines that show nothing.
   */
  lemma QuietDrain(st: Decoder, more: string, interpret: string -> Effect)
    requires Quiet(Lines(st.buffer + more), interpret)
    ensures var r := Drain(st, interpret);
      && r.text == st.text && r.messages == st.messages
      && Quiet(Lines(r.buffer + more), interpret)
  {
    var lines, tail := Lines(st.buffer), Tail(st.buffer);
    LinesOfAppend(st.buffer, more);
    QuietAppend(lines, Lines(tail + more), interpret);
    DrainReadsLines(st, interpret);
    ReadLinesQuiet(st.text, st.messages, lines, tail, interpret);
    var n := ClearRun(lines, interpret);
    if n == |lines| {
      ReadLinesLeavesTail(st.text, st.messages, lines, tail, interpret);
    } else {
      ReadLinesStops(st.text, st.messages, lines, tail, interpret);
      assert Silent(interpret(StripCR(lines[n])));
      QuietSuffix(lines, n + 1, interpret);
      QuietAfterStop(st.buffer, n, more, interpret);
    }
  }

  /** The lines from position `m` on of lines that show nothing show nothing. */
  lemma QuietSuffix(lines: seq<string>, m: nat, interpret: string -> Effect)
    requires m <= |lines| && Quiet(lines, interpret)
    ensures Quiet(lines[m..], interpret)
  {
    forall i | 0 <= i < |lines[m..]|
      ensures Silent(interpret(StripCR(lines[m..][i])))
    {
      assert lines[m..][i] == lines[m + i];
    }
  }

  /** Feeding chunks whose lines (with what is buffered) all show nothing changes neither text nor messages. */
  lemma {:induction false} FeedAllQuiet(st: Decoder, chunks: seq<string>, interpret: string -> Effect)
    requires Quiet(Lines(st.buffer + Concat(chunks)), interpret)
    ensures var r := FeedAll(st, chunks, interpret);
      r.text == st.text && r.messages == st.messages
    decreases |chunks|
  {
    if |chunks| > 0 {
      var rest := Concat(chunks[1..]);
      ConcatFirst(st.buffer, chunks);
      QuietDrain(st.(buffer := st.buffer + chunks[0]), rest, interpret);
      FeedAllQuiet(Feed(st, chunks[0], interpret), chunks[1..], interpret);
    }
  }

  /** Lines that all pass, followed by more: the reading runs through them and on into the rest. */
  lemma {:induction false} ClearedAfterClean(a: seq<string>, b: seq<string>, interpret: string -> Effect)
    requires Clean(a, interpret)
    ensures ClearRun(a + b, interpret) == |a| + ClearRun(b, interpret)
    ensures Cleared(a + b, interpret) == Contents(a, interpret) + Cleared(b, interpret)
    decreases |a|
  {
    if |a| == 0 {
      assert a + b == b;
    } else {
      assert (a + b)[0] == a[0];
      assert (a + b)[1..] == a[1..] + b;
      ClearedAfterClean(a[1..], b, interpret);
    }
  }

  /** Lines of which one does not pass, followed by more: the reading stops before reaching the rest. */
  lemma {:induction false} ClearedStopsEarly(a: seq<string>, b: seq<string>, interpret: string -> Effect)
    requires ClearRun(a, interpret) < |a|
    ensures ClearRun(a + b, interpret) == ClearRun(a, interpret)
    ensures Cleared(a + b, interpret) == Cleared(a, interpret)
    decreases |a|
  {
    assert (a + b)[0] == a[0];
    if interpret(StripCR(a[0])).Pass? {
      assert (a + b)[1..] == a[1..] + b;
      ClearedStopsEarly(a[1..], b, interpret);
    }
  }

  /** After lines that all pass, the rest of a stream that ends at the end marker still ends at it. */
  lemma EndsAtDoneAfterClean(a: seq<string>, b: seq<string>, interpret: string -> Effect)
    requires Clean(a, interpret) && EndsAtDone(a + b, interpret)
    ensures EndsAtDone(b, interpret)
  {
    ClearedAfterClean(a, b, interpret);
    var m := ClearRun(b, interpret);
    if m < |b| {
      MarkerAt(a + b, |a| + m, interpret);
      SuffixSlices(a, b, m);
    }
  }

  /** A position inside the second part of a joined list: the same element, and the same rest. */
  lemma SuffixSlices<T>(a: seq<T>, b: seq<T>, m: nat)
    requires m < |b|
    ensures (a + b)[|a| + m] == b[m] && (a + b)[|a| + m + 1..] == b[m + 1..]
  {
  }

  /**
   * When line `n` of `a` is the first not to pass and the whole stream ends at
   * the end marker, that line is the marker and everything after it shows nothing.
   */
  lemma EndsAtDoneInPrefix(a: seq<string>, b: seq<string>, interpret: string -> Effect)
    requires ClearRun(a, interpret) < |a| && EndsAtDone(a + b, interpret)
    ensures var n := ClearRun(a, interpret);
      interpret(StripCR(a[n])).Finish? && Quiet(a[n + 1..], interpret) && Quiet(b, interpret)
  {
    var n, whole := ClearRun(a, interpret), a + b;
    ClearedStopsEarly(a, b, interpret);
    MarkerAt(whole, n, interpret);
    PrefixSlices(a, b, n);
    QuietAppend(a[n + 1..], b, interpret);
  }

  /** Where a stream that ends at the end marker stops reading, there is the marker, and silence after it. */
  lemma MarkerAt(lines: seq<string>, n: nat, interpret: string -> Effect)
    requires EndsAtDone(lines, interpret) && ClearRun(lines, interpret) == n < |lines|
    ensures interpret(StripCR(lines[n])).Finish? && Quiet(lines[n + 1..], interpret)
  {
  }

  /** A position inside the first part of a joined list: the same element, and the rest continued. */
  lemma PrefixSlices<T>(a: seq<T>, b: seq<T>, n: nat)
    requires n < |a|
    ensures (a + b)[n] == a[n] && (a + b)[n + 1..] == a[n + 1..] + b
  {
  }

  /**
   * Over a stream that ends at the end marker, feeding chunk after chunk
   * adds exactly the contents of the lines before the first marker: the
   * lines after it are read as later chunks arrive, but show nothing.
   */
  lemma {:induction false} DoneStreamText(st: Decoder, chunks: seq<string>, interpret: string -> Effect)
    requires IndexOf(st.buffer, '\n').None?
    requires EndsAtDone(Lines(st.buffer + Concat(chunks)), interpret)
    ensures FeedAll(st, chunks, interpret).text == st.text + Cleared(Lines(st.buffer + Concat(chunks)), interpret)
    decreases |chunks|
  {
    if |chunks| == 0 {
      assert st.buffer + Concat(chunks) == st.buffer;
      assert st.text + "" == st.text;
    } else if Clean(Lines(st.buffer + chunks[0]), interpret) {
      var next := Feed(st, chunks[0], interpret);
      var x, y := st.buffer + chunks[0], Concat(chunks[1..]);
      CleanFirstChunk(st, chunks, interpret);
      DoneStreamText(next, chunks[1..], interpret);
      AppendAssoc(st.text, Contents(Lines(x), interpret), Cleared(Lines(next.buffer + y), interpret),
        Cleared(Lines(st.buffer + Concat(chunks)), interpret));
    } else {
      DoneStreamStops(st, chunks, interpret);
    }
  }

  /**
   * A first chunk that completes only passing lines: the decoder shows their
   * contents, keeps the new incomplete line, and the rest of the stream still
   * ends at the end marker.
   */
  lemma CleanFirstChunk(st: Decoder, chunks: seq<string>, interpret: string -> Effect)
    requires |chunks| > 0
    requires Clean(Lines(st.buffer + chunks[0]), interpret)
    requires EndsAtDone(Lines(st.buffer + Concat(chunks)), interpret)
    ensures var next, x, y := Feed(st, chunks[0], interpret), st.buffer + chunks[0], Concat(chunks[1..]);
      && IndexOf(next.buffer, '\n').None?
      && next.text == st.text + Contents(Lines(x), interpret)
      && EndsAtDone(Lines(next.buffer + y), interpret)
      && Cleared(Lines(st.buffer + Concat(chunks)), interpret)
           == Contents(Lines(x), interpret) + Cleared(Lines(next.buffer + y), interpret)
  {
    var x, y := st.buffer + chunks[0], Concat(chunks[1..]);
    ConcatFirst(st.buffer, chunks);
    CleanPrefix(x, y, interpret);
    DrainClean(st.(buffer := x), interpret);
  }

  /** The whole stream is the first chunk, after what is buffered, then the other chunks. */
  lemma ConcatFirst(buffer: string, chunks: seq<string>)
    requires |chunks| > 0
    ensures buffer + Concat(chunks) == (buffer + chunks[0]) + Concat(chunks[1..])
  {
  }

  /** A text whose lines all pass, continued by `y`: the rest still ends at the marker, and adds its own contents. */
  lemma CleanPrefix(x: string, y: string, interpret: string -> Effect)
    requires Clean(Lines(x), interpret)
    requires EndsAtDone(Lines(x + y), interpret)
    ensures EndsAtDone(Lines(Tail(x) + y), interpret)
    ensures Cleared(Lines(x + y), interpret) == Contents(Lines(x), interpret) + Cleared(Lines(Tail(x) + y), interpret)
  {
    var a, b := Lines(x), Lines(Tail(x) + y);
    LinesOfAppend(x, y);
    EndsAtDoneAfterClean(a, b, interpret);
    ClearedAfterClean(a, b, interpret);
  }

  /** The step of `DoneStreamText` where the first chunk completes the first end marker line. */
  lemma DoneStreamStops(st: Decoder, chunks: seq<string>, interpret: string -> Effect)
    requires |chunks| > 0
    requires !Clean(Lines(st.buffer + chunks[0]), interpret)
    requires EndsAtDone(Lines(st.buffer + Concat(chunks)), interpret)
    ensures FeedAll(st, chunks, interpret).text == st.text + Cleared(Lines(st.buffer + Concat(chunks)), interpret)
  {
    var x, y := st.buffer + chunks[0], Concat(chunks[1..]);
    ConcatFirst(st.buffer, chunks);
    LinesOfAppend(x, y);
    var a, tail := Lines(x), Tail(x);
    var b := Lines(tail + y);
    var n := ClearRun(a, interpret);
    EndsAtDoneInPrefix(a, b, interpret);
    ClearedStopsEarly(a, b, interpret);
    DrainReadsLines(st.(buffer := x), interpret);
    ReadLinesText(st.text, st.messages, a, tail, interpret);
    ReadLinesStops(st.text, st.messages, a, tail, interpret);
    var paused := Feed(st, chunks[0], interpret);
    assert paused.buffer == After(a, n, tail);
    QuietAfterStop(x, n, y, interpret);
    FeedAllQuiet(paused, chunks[1..], interpret);
  }

  /** After the end marker at line `n`, what stays buffered followed by the rest of the stream shows nothing. */
  lemma QuietAfterStop(x: string, n: nat, y: string, interpret: string -> Effect)
    requires n < |Lines(x)|
    requires Quiet(Lines(x)[n + 1..], interpret) && Quiet(Lines(Tail(x) + y), interpret)
    ensures Quiet(Lines(After(Lines(x), n, Tail(x)) + y), interpret)
  {
    var later := Lines(x)[n + 1..];
    LaterLinesHaveNoNewline(x, n);
    assert After(Lines(x), n, Tail(x)) + y == Join(later) + (Tail(x) + y);
    LinesOfJoin(later, Tail(x) + y);
    QuietAppend(later, Lines(Tail(x) + y), interpret);
  }

  /**
   * Reading a whole stream that ends at the end marker shows the contents of
   * the lines before the first marker, as one assistant message after the
   * conversation (none if they have no content).
   */
  lemma DoneStreamShowsPrefix(base: seq<Msg>, chunks: seq<string>, interpret: string -> Effect)
    requires AwaitingReply(base)
    requires EndsAtDone(Lines(Concat(chunks)), interpret)
    ensures var r := FeedAll(Start(base), chunks, interpret);
      var lines := Lines(Concat(chunks));
      && r.text == Contents(lines[..ClearRun(lines, interpret)], interpret)
      && r.messages == Shown(base, r.text)
  {
    var st, all := Start(base), Concat(chunks);
    assert st.buffer + all == all;
    DoneStreamText(st, chunks, interpret);
    ClearedIsRunContents(Lines(all), interpret);
    assert "" + Cleared(Lines(all), interpret) == Cleared(Lines(all), interpret);
    FeedAllShows(st, chunks, interpret, base);
  }

  /**
   * Over a stream that ends at the end marker, the chunk boundaries do not
   * change the text or the messages (only what is left buffered).
   */
  lemma DoneChunkingIrrelevant(base: seq<Msg>, chunks1: seq<string>, chunks2: seq<string>, interpret: string -> Effect)
    requires AwaitingReply(base)
    requires Concat(chunks1) == Concat(chunks2)
    requires EndsAtDone(Lines(Concat(chunks1)), interpret)
    ensures var r1, r2 := FeedAll(Start(base), chunks1, interpret), FeedAll(Start(base), chunks2, interpret);
      r1.text == r2.text && r1.messages == r2.messages
  {
    DoneStreamShowsPrefix(base, chunks1, interpret);
    DoneStreamShowsPrefix(base, chunks2, interpret);
  }
}
