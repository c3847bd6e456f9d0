/**
 * The FAQ chat widget's `sendMessage`: the guard against blank input and
 * overlapping requests, the user message, the request history, the streamed
 * reply read by the event-stream decoder, and the apology shown on failure.
 *
 * The network exchange is a parameter `Reply`: either the request fails
 * before a body is available (`fetch` throws, or the response is not ok or
 * has no body), or the body arrives as a sequence of decoded text chunks,
 * possibly cut short by a read error.
 */
module Chatbot {
  import opened Optional
  import opened Text
  import opened EventStream
  import opened DoneStream

  /** The widget's state: the conversation, the input box, and whether a reply is being read. */
  datatype Chat = Chat(messages: seq<Msg>, input: string, loading: bool)

  /** What the relay does with the request. */
  datatype Reply =
    | Refused
    | Streamed(chunks: seq<string>, interrupted: bool)

  /** The result of `sendMessage`: the widget's state afterwards, and the history sent, if a request was made. */
  datatype Outcome = Outcome(chat: Chat, request: Option<seq<Msg>>)

  /** The assistant message added when the exchange fails. */
  const Apology := "Sorry, something went wrong. Please try again! 😅"

  /** The exchange ends in the `catch` branch: no usable response, or a read error part-way. */
  predicate Failed(reply: Reply) {
    reply.Refused? || reply.interrupted
  }

  /** The assistant text the decoder accumulates over the chunks that did arrive. */
  function ReplyText(base: seq<Msg>, reply: Reply, parse: string -> Delta): string {
    match reply
    case Refused => ""
    case Streamed(chunks, _) => FeedAll(Start(base), chunks, Interpreter(parse)).text
  }

  /**
   * `sendMessage(text)`. Blank text, or a send while a reply is still being
   * read, changes nothing and sends nothing. Otherwise the trimmed text is
   * added as a user message, the earlier conversation plus that message is
   * sent, the input box is cleared, and the reply is shown as one assistant
   * message holding the text read so far (none while there is no text); a
   * failure adds the apology after it. Loading is over at the end.
   */
  function SendMessage(chat: Chat, text: string, reply: Reply, parse: string -> Delta): (r: Outcome)
    ensures IsBlank(text) || chat.loading ==> r == Outcome(chat, None)
    ensures !IsBlank(text) && !chat.loading ==>
      var base := chat.messages + [Msg(User, Trim(text))];
      && r.request == Some(base)
      && r.chat.input == "" && !r.chat.loading
      && r.chat.messages == Shown(base, ReplyText(base, reply, parse))
                            + (if Failed(reply) then [Msg(Assistant, Apology)] else [])
  {
    if IsBlank(text) || chat.loading then Outcome(chat, None)
    else
      var base := chat.messages + [Msg(User, Trim(text))];
      var shown := match reply
        case Refused => base
        case Streamed(chunks, _) =>
          (FeedAllShows(Start(base), chunks, Interpreter(parse), base);
           FeedAll(Start(base), chunks, Interpreter(parse)).messages);
      var messages := if Failed(reply) then shown + [Msg(Assistant, Apology)] else shown;
      Outcome(Chat(messages, "", false), Some(base))
  }

  /** The message a send adds is the trimmed text, which is never blank. */
  lemma UserMessageIsTrimmed(chat: Chat, text: string, reply: Reply, parse: string -> Delta)
    requires !IsBlank(text) && !chat.loading
    ensures var r := SendMessage(chat, text, reply, parse);
      && r.chat.messages[..|chat.messages| + 1] == chat.messages + [Msg(User, Trim(text))]
      && Trim(text) != ""
      && Trim(Trim(text)) == Trim(text)
  {
    var t := Trim(text);
    var base := chat.messages + [Msg(User, t)];
    var r := SendMessage(chat, text, reply, parse);
    var shown := Shown(base, ReplyText(base, reply, parse));
    assert shown[..|base|] == base;
    assert r.chat.messages[..|base|] == shown[..|base|];
    TrimIdempotent(text);
  }

  /** Trimming what is already trimmed changes nothing. */
  lemma TrimIdempotent(s: string)
    ensures Trim(Trim(s)) == Trim(s)
  {
    var t := Trim(s);
    if |t| > 0 {
      assert TrimEnd(s) == TrimEnd(s)[..|TrimEnd(s)|];
      assert t[|t| - 1] == TrimEnd(s)[|TrimEnd(s)| - 1];
      TrimOfTrimmed(t);
    }
  }

  /**
   * A request that fails outright shows the user's message followed by
   * exactly one apology, and nothing from the assistant.
   */
  lemma RefusedShowsApology(chat: Chat, text: string, parse: string -> Delta)
    requires !IsBlank(text) && !chat.loading
    ensures SendMessage(chat, text, Refused, parse).chat.messages
      == chat.messages + [Msg(User, Trim(text)), Msg(Assistant, Apology)]
  {
  }

  /**
   * A complete reply whose lines all pass shows the contents of its complete
   * lines, in order, as one assistant message after the user's, and no apology.
   */
  lemma CleanReplyShowsContents(chat: Chat, text: string, chunks: seq<string>, parse: string -> Delta)
    requires !IsBlank(text) && !chat.loading
    requires Clean(Lines(Concat(chunks)), Interpreter(parse))
    ensures var base := chat.messages + [Msg(User, Trim(text))];
      SendMessage(chat, text, Streamed(chunks, false), parse).chat.messages
        == Shown(base, Contents(Lines(Concat(chunks)), Interpreter(parse)))
  {
    var base := chat.messages + [Msg(User, Trim(text))];
    CleanStreamShowsAll(base, chunks, Interpreter(parse));
  }

  /**
   * Over a clean reply, where the relay's chunk boundaries fall does not
   * change what the widget ends up showing.
   */
  lemma ChunkBoundariesInvisible(chat: Chat, text: string, chunks1: seq<string>, chunks2: seq<string>,
                                 parse: string -> Delta)
    requires Concat(chunks1) == Concat(chunks2)
    requires Clean(Lines(Concat(chunks1)), Interpreter(parse))
    ensures SendMessage(chat, text, Streamed(chunks1, false), parse)
      == SendMessage(chat, text, Streamed(chunks2, false), parse)
  {
    if !IsBlank(text) && !chat.loading {
      var base := chat.messages + [Msg(User, Trim(text))];
      ChunkingIrrelevant(base, chunks1, chunks2, Interpreter(parse));
    }
  }

  /**
   * A complete reply that ends at the relay's end marker (no line fails and
   * nothing after the first marker has content) shows the contents of the
   * lines before the first marker as one assistant message, and no apology.
   */
  lemma DoneReplyShowsPrefix(chat: Chat, text: string, chunks: seq<string>, parse: string -> Delta)
    requires !IsBlank(text) && !chat.loading
    requires EndsAtDone(Lines(Concat(chunks)), Interpreter(parse))
    ensures var base := chat.messages + [Msg(User, Trim(text))];
      var lines := Lines(Concat(chunks));
      SendMessage(chat, text, Streamed(chunks, false), parse).chat.messages
        == Shown(base, Contents(lines[..ClearRun(lines, Interpreter(parse))], Interpreter(parse)))
  {
    var base := chat.messages + [Msg(User, Trim(text))];
    DoneStreamShowsPrefix(base, chunks, Interpreter(parse));
  }

  /**
   * Over a reply that ends at the end marker, where the chunk boundaries fall
   * does not change what the widget ends up showing.
   */
  lemma DoneChunkBoundariesInvisible(chat: Chat, text: string, chunks1: seq<string>, chunks2: seq<string>,
                                     parse: string -> Delta)
    requires Concat(chunks1) == Concat(chunks2)
    requires EndsAtDone(Lines(Concat(chunks1)), Interpreter(parse))
    ensures SendMessage(chat, text, Streamed(chunks1, false), parse)
      == SendMessage(chat, text, Streamed(chunks2, false), parse)
  {
    if !IsBlank(text) && !chat.loading {
      var base := chat.messages + [Msg(User, Trim(text))];
      DoneChunkingIrrelevant(base, chunks1, chunks2, Interpreter(parse));
    }
  }

  /**
   * A read error part-way keeps the text already shown and adds one apology
   * after it: the same display as the chunks read so far, plus the apology.
   */
  lemma InterruptedKeepsPartialReply(chat: Chat, text: string, chunks: seq<string>, parse: string -> Delta)
    requires !IsBlank(text) && !chat.loading
    ensures var complete := SendMessage(chat, text, Streamed(chunks, false), parse);
      var cut := SendMessage(chat, text, Streamed(chunks, true), parse);
      cut.chat.messages == complete.chat.messages + [Msg(Assistant, Apology)]
  {
  }

  /**
   * A line whose payload fails to parse is not an error the widget reports:
   * the stream is read to its end without an apology, but from that line on
   * nothing more is shown.
   */
  lemma MalformedLineEndsDisplay(chat: Chat, text: string, first: seq<string>, later: seq<string>,
                                 parse: string -> Delta)
    requires !IsBlank(text) && !chat.loading
    requires Stuck(FeedAll(Start(chat.messages + [Msg(User, Trim(text))]), first, Interpreter(parse)), Interpreter(parse))
    ensures SendMessage(chat, text, Streamed(first + later, false), parse)
      == SendMessage(chat, text, Streamed(first, false), parse)
  {
    var base := chat.messages + [Msg(User, Trim(text))];
    var interpret := Interpreter(parse);
    var mid := FeedAll(Start(base), first, interpret);
    FeedAllAppend(Start(base), first, later, interpret);
    InterpreterIgnoresCR(parse);
    StuckForever(mid, later, interpret);
  }

  /** Feeding two runs of chunks is feeding the first run, then the second. */
  lemma {:induction false} FeedAllAppend(st: Decoder, a: seq<string>, b: seq<string>, interpret: string -> Effect)
    ensures FeedAll(st, a + b, interpret) == FeedAll(FeedAll(st, a, interpret), b, interpret)
    decreases |a|
  {
    if |a| == 0 {
      assert a + b == b;
    } else {
      assert (a + b)[0] == a[0];
      assert (a + b)[1..] == a[1..] + b;
      FeedAllAppend(Feed(st, a[0], interpret), a[1..], b, interpret);
    }
  }
}
