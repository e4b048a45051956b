/** Line-buffered capture of the output of a service. */
module LogCapture {
  import opened Sequences
  import opened Text

  datatype LogStream = Stdout | Stderr

  datatype Entry = Entry(stream: LogStream, message: string)

  // ---------------------------------------------------------------- specification

  /** What one stream has logged, and the partial line it holds back. */
  datatype Capture = Capture(logged: seq<string>, buffer: string) {
    function EndLine(): Capture {
      Capture(if buffer == "" then logged else logged + [buffer], "")
    }
  }

  const EMPTY := Capture([], "")

  function Push(c: Capture, ch: char): Capture {
    if ch == '\n' then c.EndLine() else Capture(c.logged, c.buffer + [ch])
  }

  function Feed(c: Capture, text: string): Capture
    decreases |text|
  {
    if text == "" then c else Feed(Push(c, text[0]), text[1..])
  }

  function Tagged(stream: LogStream, lines: seq<string>): seq<Entry> {
    seq(|lines|, i requires 0 <= i < |lines| => Entry(stream, lines[i]))
  }

  function NonEmpty(lines: seq<string>): seq<string> {
    if lines == [] then []
    else (if lines[0] == "" then [] else [lines[0]]) + NonEmpty(lines[1..])
  }

  /** The promise: the non-empty lines of a text, in order. */
  function LinesOf(text: string): seq<string> {
    NonEmpty(Split(text, "\n"))
  }

  // ---------------------------------------------------------------- the stream

  /** The receiver that several streams share. */
  class LogWriter {
    var entries: seq<Entry>

    constructor ()
      ensures entries == []
    {
      entries := [];
    }

    method WriteLog(stream: LogStream, message: string)
      modifies this
      ensures entries == old(entries) + [Entry(stream, message)]
    {
      entries := entries + [Entry(stream, message)];
    }
  }

  class LogCaptureStream {
    const writer: LogWriter
    const stream: LogStream
    var lineBuffer: string

    constructor (writer: LogWriter, stream: LogStream)
      ensures this.writer == writer && this.stream == stream && lineBuffer == ""
    {
      this.writer, this.stream, lineBuffer := writer, stream, "";
    }

    method Write(text: string)
      modifies this, writer
      ensures var c := Feed(Capture([], old(lineBuffer)), text);
              writer.entries == old(writer.entries) + Tagged(stream, c.logged) && lineBuffer == c.buffer
    {
      ghost var logged: seq<string> := [];
      for i := 0 to |text|
        invariant writer.entries == old(writer.entries) + Tagged(stream, logged)
        invariant Feed(Capture([], old(lineBuffer)), text) == Feed(Capture(logged, lineBuffer), text[i..])
      {
        assert text[i..][0] == text[i] && text[i..][1..] == text[i + 1..];
        if text[i] == '\n' {
          var line := lineBuffer;
          lineBuffer := "";
          if line != "" {
            writer.WriteLog(stream, line);
            TaggedAppend(stream, logged, line);
            logged := logged + [line];
          }
        } else {
          lineBuffer := lineBuffer + [text[i]];
        }
      }
    }

    /** Logs the partial line as an entry of its own. Dropping the stream does the same. */
    method Flush()
      modifies this, writer
      ensures writer.entries == old(writer.entries) + Tagged(stream, Capture([], old(lineBuffer)).EndLine().logged)
      ensures lineBuffer == ""
    {
      if lineBuffer != "" {
        var line := lineBuffer;
        lineBuffer := "";
        writer.WriteLog(stream, line);
      }
    }
  }

  method Perform(s: LogCaptureStream, op: Op)
    modifies s, s.writer
    ensures var c := Apply(Capture([], old(s.lineBuffer)), op);
            s.writer.entries == old(s.writer.entries) + Tagged(s.stream, c.logged) && s.lineBuffer == c.buffer
  {
    match op
    case WriteOp(text) => s.Write(text);
    case FlushOp => s.Flush();
  }

  /** Opens any number of streams with the same tag on the same writer. */
  class LogCaptureSink {
    const writer: LogWriter
    const stream: LogStream

    constructor (writer: LogWriter, stream: LogStream)
      ensures this.writer == writer && this.stream == stream
    {
      this.writer, this.stream := writer, stream;
    }

    method Stream() returns (s: LogCaptureStream)
      ensures fresh(s) && s.writer == writer && s.stream == stream && s.lineBuffer == ""
    {
      s := new LogCaptureStream(writer, stream);
    }
  }

  lemma TaggedAppend(stream: LogStream, lines: seq<string>, line: string)
    ensures Tagged(stream, []) == []
    ensures Tagged(stream, lines + [line]) == Tagged(stream, lines) + [Entry(stream, line)]
  {
  }

  // ---------------------------------------------------------------- streaming equals batch

  lemma {:induction false} FeedAppend(c: Capture, a: string, b: string)
    ensures Feed(c, a + b) == Feed(Feed(c, a), b)
    decreases |a|
  {
    if a == "" {
      assert a + b == b;
    } else {
      assert (a + b)[1..] == a[1..] + b;
      FeedAppend(Push(c, a[0]), a[1..], b);
    }
  }

  function Flatten(chunks: seq<string>): string {
    if chunks == [] then "" else chunks[0] + Flatten(chunks[1..])
  }

  function FeedAll(c: Capture, chunks: seq<string>): Capture
    decreases |chunks|
  {
    if chunks == [] then c else FeedAll(Feed(c, chunks[0]), chunks[1..])
  }

  lemma SplitFirst(text: string)
    requires text != ""
    ensures Split(text[1..], "\n") != []
    ensures var rest := Split(text[1..], "\n");
            Split(text, "\n") == if text[0] == '\n' then [""] + rest else [[text[0]] + rest[0]] + rest[1..]
  {
    assert "\n" <= text <==> text[0] == '\n';
  }

  /** What the buffer and the parts of a text that follows it come to. */
  function Lines(buffer: string, parts: seq<string>): seq<string>
    requires parts != []
  {
    NonEmpty([buffer + parts[0]] + parts[1..])
  }

  lemma LinesAfterBreak(buffer: string, rest: seq<string>)
    requires rest != []
    ensures Lines(buffer, [""] + rest) == (if buffer == "" then [] else [buffer]) + Lines("", rest)
  {
    var all := [buffer + ""] + rest;
    assert buffer + "" == buffer && "" + rest[0] == rest[0];
    assert ([""] + rest)[1..] == rest && all[1..] == rest && [rest[0]] + rest[1..] == rest;
  }

  lemma LinesAfterChar(buffer: string, c: char, rest: seq<string>)
    requires rest != []
    ensures Lines(buffer, [[c] + rest[0]] + rest[1..]) == Lines(buffer + [c], rest)
  {
    Reassociate(buffer, [c], rest[0]);
  }

  /** The buffered partial line and the rest of the text make up the lines still to come. */
  lemma {:induction false} FeedLogsLines(c: Capture, text: string)
    ensures Split(text, "\n") != []
    ensures Feed(c, text).EndLine().logged == c.logged + Lines(c.buffer, Split(text, "\n"))
    decreases |text|
  {
    hide Lines, Split;
    if text == "" {
      LastLine(c.buffer);
    } else {
      SplitFirst(text);
      FeedLogsLines(Push(c, text[0]), text[1..]);
      if text[0] == '\n' {
        LinesAfterBreak(c.buffer, Split(text[1..], "\n"));
      } else {
        LinesAfterChar(c.buffer, text[0], Split(text[1..], "\n"));
      }
    }
  }

  lemma LastLine(buffer: string)
    ensures Split("", "\n") != []
    ensures Lines(buffer, Split("", "\n")) == if buffer == "" then [] else [buffer]
  {
    var parts, all := Split("", "\n"), [buffer];
    assert parts == [""] && buffer + parts[0] == buffer;
    assert [buffer + parts[0]] + parts[1..] == all;
    assert all[1..] == [] && NonEmpty(all[1..]) == [];
    assert NonEmpty(all) == if buffer == "" then [] else [buffer];
  }

  lemma {:induction false} FeedAllIsFeed(c: Capture, chunks: seq<string>)
    ensures FeedAll(c, chunks) == Feed(c, Flatten(chunks))
    decreases |chunks|
  {
    if chunks != [] {
      FeedAllIsFeed(Feed(c, chunks[0]), chunks[1..]);
      FeedAppend(c, chunks[0], Flatten(chunks[1..]));
    }
  }

  /** However the output is cut into writes, what is logged once the stream is dropped is
      the non-empty lines of the whole output. */
  lemma ChunksLogLines(chunks: seq<string>)
    ensures FeedAll(EMPTY, chunks).EndLine().logged == LinesOf(Flatten(chunks))
  {
    FeedAllIsFeed(EMPTY, chunks);
    var parts := Split(Flatten(chunks), "\n");
    FeedLogsLines(EMPTY, Flatten(chunks));
    assert EMPTY.buffer + parts[0] == parts[0];
    assert [parts[0]] + parts[1..] == parts;
  }

  /** A service writes its output in chunks to a stream of the sink, which is then dropped:
      whatever the chunks, the log gains the non-empty lines of the output. */
  method CaptureOutput(sink: LogCaptureSink, chunks: seq<string>)
    modifies sink.writer
    ensures sink.writer.entries == old(sink.writer.entries) + Tagged(sink.stream, LinesOf(Flatten(chunks)))
  {
    hide Feed, Split;
    var s := sink.Stream();
    for i := 0 to |chunks|
      invariant s.lineBuffer == FeedAll(EMPTY, chunks[..i]).buffer
      invariant sink.writer.entries
             == old(sink.writer.entries) + Tagged(sink.stream, FeedAll(EMPTY, chunks[..i]).logged)
    {
      ghost var c := FeedAll(EMPTY, chunks[..i]);
      s.Write(chunks[i]);
      assert chunks[..i + 1] == chunks[..i] + [chunks[i]];
      FeedAllAppend(EMPTY, chunks[..i], chunks[i]);
      FeedIsLocal(c.logged, c.buffer, chunks[i]);
      TaggedConcat(sink.stream, c.logged, Feed(Capture([], c.buffer), chunks[i]).logged);
    }
    assert chunks[..|chunks|] == chunks;
    ghost var all := FeedAll(EMPTY, chunks);
    s.Flush();
    ChunksLogLines(chunks);
    TaggedConcat(sink.stream, all.logged, Capture([], all.buffer).EndLine().logged);
    assert all.logged + Capture([], all.buffer).EndLine().logged == all.EndLine().logged;
  }

  lemma TaggedConcat(stream: LogStream, a: seq<string>, b: seq<string>)
    ensures Tagged(stream, a + b) == Tagged(stream, a) + Tagged(stream, b)
  {
  }

  lemma {:induction false} FeedAllAppend(c: Capture, chunks: seq<string>, chunk: string)
    ensures FeedAll(c, chunks + [chunk]) == Feed(FeedAll(c, chunks), chunk)
    decreases |chunks|
  {
    if chunks == [] {
      assert chunks + [chunk] == [chunk];
      assert FeedAll(Feed(c, chunk), []) == Feed(c, chunk);
    } else {
      assert (chunks + [chunk])[1..] == chunks[1..] + [chunk];
      FeedAllAppend(Feed(c, chunks[0]), chunks[1..], chunk);
    }
  }

  // ---------------------------------------------------------------- flushes in between

  datatype Op = WriteOp(text: string) | FlushOp

  function Apply(c: Capture, op: Op): Capture {
    match op
    case WriteOp(text) => Feed(c, text)
    case FlushOp => c.EndLine()
  }

  /** A flush ends the line as a newline does, only without one in the output. */
  lemma FlushIsBreak(c: Capture)
    ensures Apply(c, FlushOp) == Apply(c, WriteOp("\n"))
    ensures Apply(c, FlushOp) == Capture(c.logged + (if c.buffer == "" then [] else [c.buffer]), "")
  {
    assert Feed(c, "\n") == Feed(Push(c, '\n'), "\n"[1..]);
  }

  function Run(c: Capture, ops: seq<Op>): Capture {
    if ops == [] then c else Apply(Run(c, ops[..|ops| - 1]), ops[|ops| - 1])
  }

  function Written(ops: seq<Op>): string {
    if ops == [] then ""
    else
      var last := ops[|ops| - 1];
      Written(ops[..|ops| - 1]) + if last.WriteOp? then last.text else ""
  }

  function WithoutNewlines(text: string): string {
    if text == "" then ""
    else (if text[0] == '\n' then "" else [text[0]]) + WithoutNewlines(text[1..])
  }

  /** Everything logged so far and everything held back. */
  function Content(c: Capture): string {
    Flatten(c.logged) + c.buffer
  }

  ghost predicate Clean(c: Capture) {
    && '\n' !in c.buffer
    && forall line :: line in c.logged ==> line != "" && '\n' !in line
  }

  lemma {:induction false} FlattenAppend(lines: seq<string>, line: string)
    ensures Flatten(lines + [line]) == Flatten(lines) + line
  {
    if lines == [] {
      assert lines + [line] == [line];
      assert Flatten([line]) == line + Flatten([]);
    } else {
      assert (lines + [line])[1..] == lines[1..] + [line];
      FlattenAppend(lines[1..], line);
    }
  }

  lemma EndLineKeepsContent(c: Capture)
    requires Clean(c)
    ensures Content(c.EndLine()) == Content(c) && Clean(c.EndLine())
  {
    FlattenAppend(c.logged, c.buffer);
  }

  lemma PushKeepsContent(c: Capture, ch: char)
    requires Clean(c)
    ensures Clean(Push(c, ch)) && Content(Push(c, ch)) == Content(c) + WithoutNewlines([ch])
  {
    if ch == '\n' {
      EndLineKeepsContent(c);
      assert WithoutNewlines([ch]) == "";
    } else {
      assert WithoutNewlines([ch]) == [ch];
      Reassociate(Flatten(c.logged), c.buffer, [ch]);
    }
  }

  lemma {:induction false} FeedKeepsContent(c: Capture, text: string)
    requires Clean(c)
    ensures Content(Feed(c, text)) == Content(c) + WithoutNewlines(text) && Clean(Feed(c, text))
    decreases |text|
  {
    hide Content, Clean, Push, WithoutNewlines;
    if text == "" {
      NothingWithout(Content(c));
    } else {
      var first, tail := [text[0]], text[1..];
      PushKeepsContent(c, text[0]);
      FeedKeepsContent(Push(c, text[0]), tail);
      WithoutNewlinesConcat(first, tail);
      assert first + tail == text;
      Reassociate(Content(c), WithoutNewlines(first), WithoutNewlines(tail));
    }
  }

  lemma NothingWithout(content: string)
    ensures content + WithoutNewlines("") == content
  {
  }

  lemma {:induction false} WithoutNewlinesConcat(a: string, b: string)
    ensures WithoutNewlines(a + b) == WithoutNewlines(a) + WithoutNewlines(b)
  {
    if a == "" {
      assert a + b == b;
    } else {
      assert (a + b)[1..] == a[1..] + b;
      WithoutNewlinesConcat(a[1..], b);
    }
  }

  /** With flushes anywhere, no character but newlines is lost, added or moved, no entry is
      empty, and neither entries nor the buffer contain a newline. */
  lemma {:induction false} FlushesLoseNothing(ops: seq<Op>)
    ensures Content(Run(EMPTY, ops)) == WithoutNewlines(Written(ops))
    ensures Clean(Run(EMPTY, ops))
    decreases |ops|
  {
    if ops != [] {
      var init, last := ops[..|ops| - 1], ops[|ops| - 1];
      FlushesLoseNothing(init);
      match last {
        case WriteOp(text) =>
          FeedKeepsContent(Run(EMPTY, init), text);
          WithoutNewlinesConcat(Written(init), text);
        case FlushOp =>
          EndLineKeepsContent(Run(EMPTY, init));
          assert Written(ops) == Written(init);
      }
    }
  }

  // ---------------------------------------------------------------- many streams, one writer

  /** A call on the stream with the given number. */
  datatype Event = Event(id: nat, op: Op)

  /** A logged line, and the stream that logged it. The log itself shows its tag only. */
  datatype Line = Line(id: nat, message: string)

  datatype Log = Log(lines: seq<Line>, buffers: seq<string>)

  function Labelled(id: nat, messages: seq<string>): seq<Line> {
    seq(|messages|, i requires 0 <= i < |messages| => Line(id, messages[i]))
  }

  function Handle(log: Log, e: Event): Log
    requires e.id < |log.buffers|
  {
    var c := Apply(Capture([], log.buffers[e.id]), e.op);
    Log(log.lines + Labelled(e.id, c.logged), log.buffers[e.id := c.buffer])
  }

  /** Everything `n` new streams log, in order, and what they hold back. */
  function HandleAll(n: nat, events: seq<Event>): (log: Log)
    requires forall e :: e in events ==> e.id < n
    ensures |log.buffers| == n && forall line :: line in log.lines ==> line.id < n
  {
    if events == [] then Log([], seq(n, i => ""))
    else Handle(HandleAll(n, events[..|events| - 1]), events[|events| - 1])
  }

  function Visible(tags: seq<LogStream>, lines: seq<Line>): seq<Entry>
    requires forall line :: line in lines ==> line.id < |tags|
  {
    seq(|lines|, i requires 0 <= i < |lines| => Entry(tags[lines[i].id], lines[i].message))
  }

  function Messages(lines: seq<Line>, id: nat): seq<string> {
    if lines == [] then []
    else (if lines[0].id == id then [lines[0].message] else []) + Messages(lines[1..], id)
  }

  function OpsOf(events: seq<Event>, id: nat): seq<Op> {
    if events == [] then []
    else
      var last := events[|events| - 1];
      OpsOf(events[..|events| - 1], id) + if last.id == id then [last.op] else []
  }

  lemma {:induction false} MessagesConcat(a: seq<Line>, b: seq<Line>, id: nat)
    ensures Messages(a + b, id) == Messages(a, id) + Messages(b, id)
  {
    if a == [] {
      assert a + b == b;
    } else {
      assert (a + b)[1..] == a[1..] + b;
      MessagesConcat(a[1..], b, id);
    }
  }

  lemma {:induction false} MessagesOfLabelled(from: nat, messages: seq<string>, id: nat)
    ensures Messages(Labelled(from, messages), id) == if from == id then messages else []
  {
    if messages != [] {
      assert Labelled(from, messages)[1..] == Labelled(from, messages[1..]);
      MessagesOfLabelled(from, messages[1..], id);
    }
  }

  /** What was logged before does not influence what is logged next. */
  lemma {:induction false} FeedIsLocal(logged: seq<string>, buffer: string, text: string)
    ensures Feed(Capture(logged, buffer), text)
         == Capture(logged + Feed(Capture([], buffer), text).logged, Feed(Capture([], buffer), text).buffer)
    decreases |text|
  {
    if text == "" {
      assert logged + [] == logged;
    } else if text[0] == '\n' {
      var mine, alone := Capture(logged, buffer).EndLine(), Capture([], buffer).EndLine();
      FeedIsLocal(mine.logged, "", text[1..]);
      FeedIsLocal(alone.logged, "", text[1..]);
      assert mine.logged == logged + alone.logged;
      var rest := Feed(Capture([], ""), text[1..]).logged;
      assert logged + alone.logged + rest == logged + (alone.logged + rest);
    } else {
      FeedIsLocal(logged, buffer + [text[0]], text[1..]);
    }
  }

  lemma ApplyIsLocal(c: Capture, op: Op)
    ensures var alone := Apply(Capture([], c.buffer), op);
            Apply(c, op) == Capture(c.logged + alone.logged, alone.buffer)
  {
    if op.WriteOp? {
      FeedIsLocal(c.logged, c.buffer, op.text);
    }
  }

  /** A call changes what came from its stream, and what that holds back, and nothing else. */
  lemma MessagesNext(log: Log, e: Event, id: nat)
    requires e.id < |log.buffers| && id < |log.buffers|
    ensures var c := Apply(Capture([], log.buffers[e.id]), e.op);
            && Messages(Handle(log, e).lines, id) == Messages(log.lines, id) + (if e.id == id then c.logged else [])
            && Handle(log, e).buffers[id] == (if e.id == id then c.buffer else log.buffers[id])
  {
    hide Apply, Messages, Labelled;
    var c := Apply(Capture([], log.buffers[e.id]), e.op);
    MessagesConcat(log.lines, Labelled(e.id, c.logged), id);
    MessagesOfLabelled(e.id, c.logged, id);
  }

  lemma RunNext(ops: seq<Op>, op: Op)
    ensures Run(EMPTY, ops + [op]) == Apply(Run(EMPTY, ops), op)
  {
    assert (ops + [op])[..|ops|] == ops;
  }

  /** Streams that share a writer, and even a tag, do not disturb each other: what came from
      a stream, and what it holds back, is what it would log and hold back on its own. */
  lemma {:induction false} StreamsAreIndependent(n: nat, events: seq<Event>, id: nat)
    requires id < n && forall e :: e in events ==> e.id < n
    ensures Capture(Messages(HandleAll(n, events).lines, id), HandleAll(n, events).buffers[id])
         == Run(EMPTY, OpsOf(events, id))
    decreases |events|
  {
    hide Apply, Handle, Messages, Run;
    if events == [] {
      NothingRun(id);
    } else {
      var init, last := events[..|events| - 1], events[|events| - 1];
      StreamsAreIndependent(n, init, id);
      MessagesNext(HandleAll(n, init), last, id);
      if last.id == id {
        ApplyIsLocal(Run(EMPTY, OpsOf(init, id)), last.op);
        RunNext(OpsOf(init, id), last.op);
      } else {
        assert OpsOf(events, id) == OpsOf(init, id);
      }
    }
  }

  lemma NothingRun(id: nat)
    ensures Messages([], id) == [] && Run(EMPTY, []) == EMPTY
  {
  }

  /** Any sequence of calls on any number of streams, with the same tag or different ones,
      that share a writer: the writer receives the lines in the order of the calls, each
      under the tag of the stream it came from. */
  method DriveAll(writer: LogWriter, streams: seq<LogCaptureStream>, tags: seq<LogStream>, events: seq<Event>)
    requires forall i, j :: 0 <= i < j < |streams| ==> streams[i] != streams[j]
    requires |tags| == |streams|
    requires forall i :: 0 <= i < |streams| ==>
               streams[i].writer == writer && streams[i].stream == tags[i] && streams[i].lineBuffer == ""
    requires forall e :: e in events ==> e.id < |streams|
    modifies writer, streams
    ensures writer.entries == old(writer.entries) + Visible(tags, HandleAll(|tags|, events).lines)
    ensures forall i :: 0 <= i < |streams| ==> streams[i].lineBuffer == HandleAll(|tags|, events).buffers[i]
  {
    hide Apply, Visible, Tagged, HandleAll;
    ghost var before, log := writer.entries, HandleAll(|tags|, []);
    NothingHandled(tags);
    for k := 0 to |events|
      invariant log == HandleAll(|tags|, events[..k])
      invariant writer.entries == before + Visible(tags, log.lines)
      invariant forall i :: 0 <= i < |tags| ==> streams[i].lineBuffer == log.buffers[i]
    {
      var e := events[k];
      HandleNext(tags, events, k);
      Perform(streams[e.id], e.op);
      log := HandleAll(|tags|, events[..k + 1]);
    }
    assert events[..|events|] == events;
  }

  lemma NothingHandled(tags: seq<LogStream>)
    ensures Visible(tags, HandleAll(|tags|, []).lines) == []
    ensures forall i :: 0 <= i < |tags| ==> HandleAll(|tags|, []).buffers[i] == ""
  {
  }

  lemma HandleNext(tags: seq<LogStream>, events: seq<Event>, k: nat)
    requires k < |events| && forall e :: e in events ==> e.id < |tags|
    ensures var log, next := HandleAll(|tags|, events[..k]), HandleAll(|tags|, events[..k + 1]);
            var c := Apply(Capture([], log.buffers[events[k].id]), events[k].op);
            && next.buffers == log.buffers[events[k].id := c.buffer]
            && Visible(tags, next.lines) == Visible(tags, log.lines) + Tagged(tags[events[k].id], c.logged)
  {
    hide Apply, Visible, Tagged, Labelled;
    assert events[..k + 1][..k] == events[..k];
    var log := HandleAll(|tags|, events[..k]);
    VisibleConcat(tags, log.lines, events[k].id, Apply(Capture([], log.buffers[events[k].id]), events[k].op).logged);
  }

  lemma VisibleConcat(tags: seq<LogStream>, lines: seq<Line>, id: nat, messages: seq<string>)
    requires id < |tags| && forall line :: line in lines ==> line.id < |tags|
    ensures forall line :: line in lines + Labelled(id, messages) ==> line.id < |tags|
    ensures Visible(tags, lines + Labelled(id, messages)) == Visible(tags, lines) + Tagged(tags[id], messages)
  {
  }
}
