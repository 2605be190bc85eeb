/**
 * The incremental reader of a provider's event stream: a line splitter fed by
 * network chunks, with early exit. A subset of section 9.2.6 of the WHATWG HTML
 * standard (interpreting an event stream), over already decoded characters.
 */
module EventStream {
  import opened Prelude
  import opened TextLines

  datatype Format = OpenAi | AnthropicMessages

  datatype Choice = Choice(content: Option<string>, finishReason: Option<string>)

  datatype AnthropicDelta = AnthropicDelta(text: Option<string>, stopReason: Option<string>)

  datatype AnthropicEvent = AnthropicEvent(eventType: Option<string>, delta: Option<AnthropicDelta>)

  /** The wire format, and JSON decoding of a payload as an arbitrary partial function. */
  datatype Decoder = Decoder(
    format: Format,
    openAi: string -> Option<seq<Choice>>,
    anthropic: string -> Option<AnthropicEvent>)

  datatype Event = Skip | Delta(text: Option<string>, stop: bool)

  datatype Halt = Reading | Stopped | ClientGone | Broken(error: string)

  /** `sent` are the deltas handed to the client, the last of which failed if the client is gone. */
  datatype Progress = Progress(sent: seq<string>, fullText: string, halt: Halt)

  const START := Progress([], "", Reading)

  // ---- One line --------------------------------------------------------------

  predicate IsWhitespace(c: char) {
    || '\t' <= c <= '\r' || c == ' ' || c == '\U{85}' || c == '\U{A0}' || c == '\U{1680}'
    || '\U{2000}' <= c <= '\U{200A}' || c == '\U{2028}' || c == '\U{2029}' || c == '\U{202F}'
    || c == '\U{205F}' || c == '\U{3000}'
  }

  /** The 25 characters with the Unicode property White_Space. */
  lemma WhitespaceTable(c: char)
    ensures IsWhitespace(c) <==> c in {
              '\t', '\n', '\U{B}', '\U{C}', '\r', ' ', '\U{85}', '\U{A0}', '\U{1680}', '\U{2000}', '\U{2001}',
              '\U{2002}', '\U{2003}', '\U{2004}', '\U{2005}', '\U{2006}', '\U{2007}', '\U{2008}', '\U{2009}',
              '\U{200A}', '\U{2028}', '\U{2029}', '\U{202F}', '\U{205F}', '\U{3000}'}
  {
  }

  function TrimStart(s: string): string {
    if s != [] && IsWhitespace(s[0]) then TrimStart(s[1..]) else s
  }

  function TrimEnd(s: string): string {
    if s != [] && IsWhitespace(s[|s| - 1]) then TrimEnd(s[..|s| - 1]) else s
  }

  function Trim(s: string): string {
    TrimEnd(TrimStart(s))
  }

  function TrimReturns(s: string): string {
    if s != [] && s[|s| - 1] == '\r' then TrimReturns(s[..|s| - 1]) else s
  }

  function StripPrefix(s: string, prefix: string): Option<string> {
    if prefix <= s then Some(s[|prefix|..]) else None
  }

  function Payload(rawLine: string): Option<string> {
    var line := TrimReturns(rawLine);
    match StripPrefix(line, "data: ")
    case Some(p) => Some(Trim(p))
    case None =>
      match StripPrefix(line, "data:")
      case Some(p) => Some(Trim(p))
      case None => None
  }

  ghost predicate AllWhitespace(s: string) {
    forall i :: 0 <= i < |s| ==> IsWhitespace(s[i])
  }

  /** Trimming cuts whitespace from both ends, and all of it. */
  lemma TrimMeaning(s: string)
    ensures exists i, j :: 0 <= i <= j <= |s| && Trim(s) == s[i..j] && AllWhitespace(s[..i]) && AllWhitespace(s[j..])
    ensures var t := Trim(s); t != "" ==> !IsWhitespace(t[0]) && !IsWhitespace(t[|t| - 1])
  {
    var i := TrimStartMeaning(s);
    var j := TrimEndMeaning(s[i..]);
    assert s[i..][..j] == s[i..i + j] && s[i..][j..] == s[i + j..];
    assert AllWhitespace(s[..i]) && AllWhitespace(s[i + j..]);
  }

  lemma {:induction false} TrimStartMeaning(s: string) returns (i: nat)
    ensures i <= |s| && TrimStart(s) == s[i..] && AllWhitespace(s[..i])
    ensures i < |s| ==> !IsWhitespace(s[i])
  {
    if s != [] && IsWhitespace(s[0]) {
      var k := TrimStartMeaning(s[1..]);
      i := k + 1;
      assert s[..i] == [s[0]] + s[1..][..k];
    } else {
      i := 0;
    }
  }

  lemma {:induction false} TrimEndMeaning(s: string) returns (j: nat)
    ensures j <= |s| && TrimEnd(s) == s[..j] && AllWhitespace(s[j..])
    ensures j > 0 ==> !IsWhitespace(s[j - 1])
  {
    if s != [] && IsWhitespace(s[|s| - 1]) {
      j := TrimEndMeaning(s[..|s| - 1]);
      assert s[j..] == s[..|s| - 1][j..] + [s[|s| - 1]];
      assert s[..|s| - 1][..j] == s[..j];
    } else {
      j := |s|;
    }
  }

  lemma {:induction false} TrimStartSnoc(s: string, w: char)
    requires IsWhitespace(w)
    ensures TrimStart(s + [w]) == if TrimStart(s) == "" then "" else TrimStart(s) + [w]
  {
    if s == [] {
      assert [w][1..] == [];
    } else {
      assert (s + [w])[1..] == s[1..] + [w];
      if IsWhitespace(s[0]) {
        TrimStartSnoc(s[1..], w);
      }
    }
  }

  /** Whitespace at the end does not count. */
  lemma TrimSnoc(s: string, w: char)
    requires IsWhitespace(w)
    ensures Trim(s + [w]) == Trim(s)
  {
    TrimStartSnoc(s, w);
    var t := TrimStart(s);
    assert (t + [w])[..|t|] == t;
  }

  lemma PayloadOfLine(line: string)
    requires TrimReturns(line) == line
    ensures Payload(line) == if "data:" <= line then Some(Trim(line[5..])) else None
  {
    if "data: " <= line {
      assert line[5] == ' ' && line[5..][0] == ' ';
      assert line[5..][1..] == line[6..];
      assert "data:" <= line;
    }
  }

  /**
   * The payload is the trimmed value of a "data:" field: neither the optional
   * space after the colon nor the carriage returns at the end of the line, which
   * the code treats first, make a difference.
   */
  lemma {:induction false} PayloadIsFieldValue(rawLine: string)
    ensures Payload(rawLine) == if "data:" <= rawLine then Some(Trim(rawLine[5..])) else None
    decreases |rawLine|
  {
    if rawLine == [] || rawLine[|rawLine| - 1] != '\r' {
      PayloadOfLine(rawLine);
    } else {
      var init := rawLine[..|rawLine| - 1];
      PayloadIsFieldValue(init);
      assert rawLine == init + ['\r'];
      if "data:" <= rawLine {
        assert rawLine[4] == ':';
        assert "data:" <= init;
        assert rawLine[5..] == init[5..] + ['\r'];
        TrimSnoc(init[5..], '\r');
      }
    }
  }

  /** A carriage return before the line feed is ignored. */
  lemma PayloadIgnoresReturn(rawLine: string)
    ensures Payload(rawLine + "\r") == Payload(rawLine)
  {
    assert (rawLine + "\r")[..|rawLine|] == rawLine;
  }

  function Contents(choices: seq<Choice>): string {
    if choices == [] then ""
    else Contents(choices[..|choices| - 1])
         + (match choices[|choices| - 1].content case Some(c) => c case None => "")
  }

  /** The contents of the choices one after another, nothing for one without content. */
  ghost predicate IsConcatenation(text: string, choices: seq<Choice>) {
    exists parts :: text == Flatten(parts) && |parts| == |choices|
      && forall i :: 0 <= i < |parts| ==>
           parts[i] == if choices[i].content.Some? then choices[i].content.value else ""
  }

  lemma {:induction false} ContentsInOrder(choices: seq<Choice>) returns (parts: seq<string>)
    ensures Contents(choices) == Flatten(parts) && |parts| == |choices|
    ensures forall i :: 0 <= i < |parts| ==>
              parts[i] == if choices[i].content.Some? then choices[i].content.value else ""
  {
    if choices == [] {
      parts := [];
    } else {
      var last := choices[|choices| - 1];
      var init := ContentsInOrder(choices[..|choices| - 1]);
      parts := init + [if last.content.Some? then last.content.value else ""];
      FlattenSnoc(init, if last.content.Some? then last.content.value else "");
    }
  }

  /** All choices of a chunk contribute text, and any of them can finish the answer. */
  method DecodeChoices(choices: seq<Choice>) returns (text: string, finished: bool)
    ensures IsConcatenation(text, choices)
    ensures text == Contents(choices)
    ensures finished <==> exists i :: 0 <= i < |choices| && choices[i].finishReason.Some?
  {
    text, finished := "", false;
    var i := 0;
    while i < |choices|
      invariant 0 <= i <= |choices|
      invariant text == Contents(choices[..i])
      invariant finished <==> exists j :: 0 <= j < i && choices[j].finishReason.Some?
    {
      assert choices[..i + 1][..i] == choices[..i];
      if choices[i].content.Some? {
        text := text + choices[i].content.value;
      }
      if choices[i].finishReason.Some? {
        finished := true;
      }
      i := i + 1;
    }
    assert choices[..i] == choices;
    ConcatenationIsContents(choices, text);
  }

  ghost function EventOf(d: Decoder, payload: string): Event {
    match d.format
    case OpenAi => (
      match d.openAi(payload)
      case None => Skip
      case Some(choices) =>
        Delta(if Contents(choices) == "" then None else Some(Contents(choices)),
              exists i :: 0 <= i < |choices| && choices[i].finishReason.Some?))
    case AnthropicMessages => (
      match d.anthropic(payload)
      case None => Skip
      case Some(e) =>
        if e.eventType == Some("content_block_delta") then
          Delta(if e.delta.Some? then e.delta.value.text else None, false)
        else if e.eventType == Some("message_stop") then Delta(None, true)
        else if e.eventType == Some("message_delta") then
          Delta(None, e.delta.Some? && e.delta.value.stopReason.Some?)
        else Skip)
  }

  method DecodeEvent(d: Decoder, payload: string) returns (event: Event)
    ensures event == EventOf(d, payload)
  {
    match d.format {
      case OpenAi =>
        var parsed := d.openAi(payload);
        if parsed.None? {
          return Skip;
        }
        var text, finished := DecodeChoices(parsed.value);
        return Delta(if text == "" then None else Some(text), finished);
      case AnthropicMessages =>
        var parsed := d.anthropic(payload);
        if parsed.None? {
          return Skip;
        }
        var e := parsed.value;
        if e.eventType == Some("content_block_delta") {
          return Delta(if e.delta.Some? then e.delta.value.text else None, false);
        } else if e.eventType == Some("message_stop") {
          return Delta(None, true);
        } else if e.eventType == Some("message_delta") {
          return Delta(None, e.delta.Some? && e.delta.value.stopReason.Some?);
        } else {
          return Skip;
        }
    }
  }

  /** The effect of one line on a reader that is still reading. `sendOk(n)` says whether the n-th send succeeds. */
  ghost function OnLine(d: Decoder, sendOk: nat -> bool, p: Progress, line: string): Progress {
    match Payload(line)
    case None => p
    case Some(payload) =>
      if payload == "[DONE]" then p.(halt := Stopped)
      else if payload == "" then p
      else
        match EventOf(d, payload)
        case Skip => p
        case Delta(text, stop) =>
          var halted := if stop then Stopped else p.halt;
          if text.Some? && text.value != "" then
            Progress(p.sent + [text.value], p.fullText + text.value,
                     if sendOk(|p.sent|) then halted else ClientGone)
          else p.(halt := halted)
  }

  /** The one-shot parse: every line in turn, until something halts it. */
  ghost function OnLines(d: Decoder, sendOk: nat -> bool, p: Progress, lines: seq<string>): Progress
    decreases |lines|
  {
    if lines == [] || p.halt != Reading then p
    else OnLines(d, sendOk, OnLine(d, sendOk, p, lines[0]), lines[1..])
  }

  // ---- The reader ------------------------------------------------------------

  /** A chunk of the response body, or the transport error that ends it. */
  type Chunk = Result<string, string>

  ghost function TextBeforeError(chunks: seq<Chunk>): string {
    if chunks == [] || chunks[0].Err? then "" else chunks[0].value + TextBeforeError(chunks[1..])
  }

  ghost function FirstError(chunks: seq<Chunk>): Option<string> {
    if chunks == [] then None
    else if chunks[0].Err? then Some(chunks[0].error)
    else FirstError(chunks[1..])
  }

  /** Reading the text received before any transport error in one piece. */
  ghost function ReadWhole(d: Decoder, sendOk: nat -> bool, text: string, error: Option<string>): Progress {
    var p := OnLines(d, sendOk, START, Lines(text));
    if p.halt == Reading && error.Some? then p.(halt := Broken(error.value)) else p
  }

  lemma OnLinesCons(d: Decoder, sendOk: nat -> bool, p: Progress, line: string, lines: seq<string>)
    requires p.halt == Reading
    ensures OnLines(d, sendOk, p, [line] + lines) == OnLines(d, sendOk, OnLine(d, sendOk, p, line), lines)
  {
    assert ([line] + lines)[1..] == lines;
  }

  lemma {:induction false} OnLinesAppend(d: Decoder, sendOk: nat -> bool, p: Progress, a: seq<string>, b: seq<string>)
    ensures OnLines(d, sendOk, p, a + b) == OnLines(d, sendOk, OnLines(d, sendOk, p, a), b)
    decreases |a|
  {
    if a == [] {
      assert a + b == b;
    } else if p.halt == Reading {
      assert (a + b)[0] == a[0] && (a + b)[1..] == a[1..] + b;
      OnLinesAppend(d, sendOk, OnLine(d, sendOk, p, a[0]), a[1..], b);
    }
  }

  /** The state of the loops: what is still to come, read from the buffer on, gives the one-shot result. */
  ghost predicate OnTrack(d: Decoder, sendOk: nat -> bool, p: Progress, buf: string, todo: seq<Chunk>,
                          whole: seq<Chunk>)
  {
    var result := OnLines(d, sendOk, p, Lines(buf + TextBeforeError(todo)));
    && OnLines(d, sendOk, START, Lines(TextBeforeError(whole))) == result
    && FirstError(whole) == FirstError(todo)
  }

  lemma OnTrackNextLine(d: Decoder, sendOk: nat -> bool, p: Progress, line: string, tail: string,
                        todo: seq<Chunk>, whole: seq<Chunk>)
    requires '\n' !in line && p.halt == Reading
    requires OnTrack(d, sendOk, p, line + "\n" + tail, todo, whole)
    ensures OnTrack(d, sendOk, OnLine(d, sendOk, p, line), tail, todo, whole)
  {
    var later := TextBeforeError(todo);
    assert line + "\n" + tail + later == line + "\n" + (tail + later);
    FirstLine(line, tail + later);
    OnLinesCons(d, sendOk, p, line, Lines(tail + later));
  }

  lemma OnTrackNextChunk(d: Decoder, sendOk: nat -> bool, p: Progress, buf: string, todo: seq<Chunk>, whole: seq<Chunk>)
    requires todo != [] && todo[0].Ok?
    requires OnTrack(d, sendOk, p, buf, todo, whole)
    ensures OnTrack(d, sendOk, p, buf + todo[0].value, todo[1..], whole)
  {
    var text := todo[0].value;
    assert buf + (text + TextBeforeError(todo[1..])) == buf + text + TextBeforeError(todo[1..]);
  }

  /** Once halted, or out of text, the state holds the result. */
  lemma OnTrackEnd(d: Decoder, sendOk: nat -> bool, p: Progress, buf: string, todo: seq<Chunk>, whole: seq<Chunk>)
    requires OnTrack(d, sendOk, p, buf, todo, whole)
    requires p.halt != Reading || ('\n' !in buf && (todo == [] || todo[0].Err?))
    ensures ReadWhole(d, sendOk, TextBeforeError(whole), FirstError(whole)) ==
              if p.halt == Reading && todo != [] then p.(halt := Broken(todo[0].error)) else p
  {
    if p.halt == Reading {
      assert buf + TextBeforeError(todo) == buf;
      NoLineEnd(buf);
    }
  }

  /** The body of the inner loop, from one drained line to the next. */
  method HandleLine(d: Decoder, sendOk: nat -> bool, p: Progress, line: string) returns (q: Progress)
    requires p.halt == Reading
    ensures q == OnLine(d, sendOk, p, line)
  {
    var payload := Payload(line);
    if payload.None? {
      return p;
    }
    if payload.value == "" || payload.value == "[DONE]" {
      if payload.value == "[DONE]" {
        return p.(halt := Stopped);
      }
      return p;
    }
    var event := DecodeEvent(d, payload.value);
    if event.Skip? {
      return p;
    }
    q := p;
    if event.text.Some? && event.text.value != "" {
      q := q.(fullText := q.fullText + event.text.value, sent := q.sent + [event.text.value]);
      if !sendOk(|p.sent|) {
        return q.(halt := ClientGone);
      }
    }
    if event.stop {
      return q.(halt := Stopped);
    }
  }

  /**
   * The loop of `handle_direct_chat`. However the provider's text is cut into
   * chunks, the deltas sent, the accumulated text and the reason for stopping
   * are those of reading it in one piece, for every behaviour of the client.
   */
  method ReadStream(d: Decoder, sendOk: nat -> bool, chunks: seq<Chunk>) returns (p: Progress)
    ensures p == ReadWhole(d, sendOk, TextBeforeError(chunks), FirstError(chunks))
  {
    p := START;
    var buf := "";
    var next := 0;
    assert chunks[0..] == chunks && "" + TextBeforeError(chunks) == TextBeforeError(chunks);
    while next < |chunks|
      invariant 0 <= next <= |chunks|
      invariant p.halt == Reading && '\n' !in buf
      invariant OnTrack(d, sendOk, p, buf, chunks[next..], chunks)
    {
      ghost var todo := chunks[next..];
      var chunk := chunks[next];
      if chunk.Err? {
        OnTrackEnd(d, sendOk, p, buf, todo, chunks);
        return p.(halt := Broken(chunk.error));
      }
      OnTrackNextChunk(d, sendOk, p, buf, todo, chunks);
      buf := buf + chunk.value;

      while LineEnd(buf) < |buf|
        invariant p.halt == Reading
        invariant OnTrack(d, sendOk, p, buf, todo[1..], chunks)
        decreases |buf|
      {
        CutFirstLine(buf);
        OnTrackNextLine(d, sendOk, p, buf[..LineEnd(buf)], buf[LineEnd(buf) + 1..], todo[1..], chunks);
        p := HandleLine(d, sendOk, p, buf[..LineEnd(buf)]);
        buf := buf[LineEnd(buf) + 1..];
        if p.halt != Reading {
          OnTrackEnd(d, sendOk, p, buf, todo[1..], chunks);
          return;
        }
      }
      assert buf[..|buf|] == buf && todo[1..] == chunks[next + 1..];
      next := next + 1;
    }
    OnTrackEnd(d, sendOk, p, buf, chunks[next..], chunks);
  }

  /**
   * Reading one text twice, cut into chunks in two ways and ended by the same
   * error, if any: nothing the reader does tells the two apart.
   */
  method ReadTwoCuttings(d: Decoder, sendOk: nat -> bool, a: seq<Chunk>, b: seq<Chunk>)
    returns (p: Progress, q: Progress)
    requires TextBeforeError(a) == TextBeforeError(b) && FirstError(a) == FirstError(b)
    ensures p == q
  {
    p := ReadStream(d, sendOk, a);
    q := ReadStream(d, sendOk, b);
  }

  /** The loop sees the chunks up to the first error. */
  lemma {:induction false} ChunksUpToError(chunks: seq<Chunk>) returns (pieces: seq<string>)
    ensures TextBeforeError(chunks) == Flatten(pieces) && |pieces| <= |chunks|
    ensures forall i :: 0 <= i < |pieces| ==> chunks[i] == Ok(pieces[i])
    ensures FirstError(chunks) == None ==> |pieces| == |chunks|
    ensures FirstError(chunks).Some? ==> |pieces| < |chunks| && chunks[|pieces|] == Err(FirstError(chunks).value)
  {
    if chunks == [] || chunks[0].Err? {
      pieces := [];
    } else {
      var rest := ChunksUpToError(chunks[1..]);
      pieces := [chunks[0].value] + rest;
    }
  }

  /** The accumulated text is the concatenation of the deltas handed to the client. */
  lemma {:induction false} TextIsSentDeltas(d: Decoder, sendOk: nat -> bool, p: Progress, lines: seq<string>)
    requires p.fullText == Flatten(p.sent)
    requires forall n :: 0 <= n < |p.sent| ==> sendOk(n) || (n == |p.sent| - 1 && p.halt == ClientGone)
    ensures var q := OnLines(d, sendOk, p, lines);
            && q.fullText == Flatten(q.sent)
            && (forall n :: 0 <= n < |q.sent| ==> sendOk(n) || (n == |q.sent| - 1 && q.halt == ClientGone))
    decreases |lines|
  {
    if lines == [] || p.halt != Reading {
    } else {
      var q := OnLine(d, sendOk, p, lines[0]);
      if q.sent != p.sent {
        FlattenSnoc(p.sent, q.sent[|p.sent|]);
      }
      TextIsSentDeltas(d, sendOk, q, lines[1..]);
    }
  }

  // What the lines of an answer say, without reference to the reader's state.

  /** In Anthropic's format the answer ends with a stop event or a delta that gives a stop reason. */
  ghost predicate AnthropicEnds(e: AnthropicEvent) {
    || e.eventType == Some("message_stop")
    || (e.eventType == Some("message_delta") && e.delta.Some? && e.delta.value.stopReason.Some?)
  }

  /** The text of an Anthropic event: only deltas of a content block have any. */
  ghost predicate AnthropicGives(e: AnthropicEvent, text: string) {
    e.eventType == Some("content_block_delta") && e.delta.Some? && e.delta.value.text == Some(text)
  }

  ghost predicate OpenAiEnds(choices: seq<Choice>) {
    exists i :: 0 <= i < |choices| && choices[i].finishReason.Some?
  }

  /** The line is the end marker or decodes, in the provider's format, to an event that ends the answer. */
  ghost predicate EndsAnswer(d: Decoder, line: string) {
    match Payload(line)
    case None => false
    case Some(p) =>
      || p == "[DONE]"
      || (p != "" && d.format == OpenAi && d.openAi(p).Some? && OpenAiEnds(d.openAi(p).value))
      || (p != "" && d.format == AnthropicMessages && d.anthropic(p).Some? && AnthropicEnds(d.anthropic(p).value))
  }

  /** The line decodes, in the provider's format, to an event with this text, which is not empty. */
  ghost predicate Gives(d: Decoder, line: string, text: string) {
    match Payload(line)
    case None => false
    case Some(p) =>
      && p != "[DONE]" && p != "" && text != ""
      && match d.format
         case OpenAi => d.openAi(p).Some? && IsConcatenation(text, d.openAi(p).value)
         case AnthropicMessages => d.anthropic(p).Some? && AnthropicGives(d.anthropic(p).value, text)
  }

  /** The delta of a line, if it gives any. */
  ghost function TextsOf(d: Decoder, line: string): seq<string> {
    if text :| Gives(d, line, text) then [text] else []
  }

  ghost function AllTexts(d: Decoder, lines: seq<string>): seq<string> {
    if lines == [] then [] else TextsOf(d, lines[0]) + AllTexts(d, lines[1..])
  }

  lemma ConcatenationIsContents(choices: seq<Choice>, text: string)
    ensures IsConcatenation(text, choices) <==> text == Contents(choices)
  {
    var parts := ContentsInOrder(choices);
    forall others: seq<string> | |others| == |choices|
                               && forall i :: 0 <= i < |others| ==>
                                    others[i] == if choices[i].content.Some? then choices[i].content.value else ""
      ensures others == parts
    {
    }
  }

  /** What the decoded event is worth, in terms of the two wire formats. */
  lemma EventMeaning(d: Decoder, payload: string, text: string)
    ensures var e := EventOf(d, payload);
            match d.format
            case OpenAi =>
              && (e.Delta? && e.stop <==> d.openAi(payload).Some? && OpenAiEnds(d.openAi(payload).value))
              && (text != "" ==> (e.Delta? && e.text == Some(text) <==>
                    d.openAi(payload).Some? && IsConcatenation(text, d.openAi(payload).value)))
            case AnthropicMessages =>
              && (e.Delta? && e.stop <==> d.anthropic(payload).Some? && AnthropicEnds(d.anthropic(payload).value))
              && (e.Delta? && e.text == Some(text) <==>
                    d.anthropic(payload).Some? && AnthropicGives(d.anthropic(payload).value, text))
  {
    if d.format == OpenAi && d.openAi(payload).Some? {
      ConcatenationIsContents(d.openAi(payload).value, text);
    }
  }

  /** A line that is read in full: its event, seen from the reader. */
  lemma LineMeaning(d: Decoder, line: string, text: string)
    requires Payload(line).Some? && Payload(line).value != "" && Payload(line).value != "[DONE]"
    ensures var e := EventOf(d, Payload(line).value);
            && (EndsAnswer(d, line) <==> e.Delta? && e.stop)
            && (Gives(d, line, text) <==> e.Delta? && e.text == Some(text) && text != "")
  {
    EventMeaning(d, Payload(line).value, text);
  }

  lemma TextsOfMeaning(d: Decoder, line: string)
    requires Payload(line).Some? && Payload(line).value != "" && Payload(line).value != "[DONE]"
    ensures var e := EventOf(d, Payload(line).value);
            TextsOf(d, line) == if e.Delta? && e.text.Some? && e.text.value != "" then [e.text.value] else []
  {
    var e := EventOf(d, Payload(line).value);
    forall text
      ensures Gives(d, line, text) <==> e.Delta? && e.text == Some(text) && text != ""
    {
      LineMeaning(d, line, text);
    }
  }

  lemma OnLineMeaning(d: Decoder, sendOk: nat -> bool, p: Progress, line: string)
    requires p.halt == Reading
    ensures var q, texts := OnLine(d, sendOk, p, line), TextsOf(d, line);
            && |texts| <= 1
            && q.sent == p.sent + texts
            && q.halt == if texts != [] && !sendOk(|p.sent|) then ClientGone
                         else if EndsAnswer(d, line) then Stopped else Reading
  {
    if Payload(line).Some? && Payload(line).value != "" && Payload(line).value != "[DONE]" {
      LineMeaning(d, line, "");
      TextsOfMeaning(d, line);
    } else {
      assert TextsOf(d, line) == [];
    }
  }

  lemma AllTextsCons(d: Decoder, line: string, lines: seq<string>)
    ensures AllTexts(d, [line] + lines) == TextsOf(d, line) + AllTexts(d, lines)
  {
    assert ([line] + lines)[1..] == lines;
  }

  /** The texts of the lines up to and including line n, the first that ends the answer. */
  ghost function TextsUpTo(d: Decoder, lines: seq<string>, n: nat): seq<string> {
    AllTexts(d, if n < |lines| then lines[..n + 1] else lines)
  }

  lemma TextsUpToCons(d: Decoder, lines: seq<string>, n: nat)
    requires lines != []
    ensures TextsUpTo(d, lines, n) ==
              TextsOf(d, lines[0]) + if n == 0 then [] else TextsUpTo(d, lines[1..], n - 1)
  {
    var line, tail := lines[0], lines[1..];
    var read := if n == 0 then [] else if n - 1 < |tail| then tail[..n] else tail;
    AllTextsCons(d, line, read);
    assert (if n < |lines| then lines[..n + 1] else lines) == [line] + read;
  }

  /** The first c texts can be sent, the one after them, if there is one, cannot. */
  ghost predicate SendsStopAt(sendOk: nat -> bool, sent: nat, texts: seq<string>, c: nat) {
    && c <= |texts|
    && (forall j :: sent <= j < sent + c ==> sendOk(j))
    && (c < |texts| ==> !sendOk(sent + c))
  }

  /** The texts handed over when c of them can be sent: those, and the one whose send fails. */
  function HandedOver(texts: seq<string>, c: nat): seq<string> {
    if c < |texts| then texts[..c + 1] else texts
  }

  /** How reading ends that hands over the texts, after those sent before, until the c-th fails. */
  ghost predicate Ended(sent: seq<string>, r: Progress, texts: seq<string>, c: nat, stopped: bool) {
    && r.sent == sent + HandedOver(texts, c)
    && r.halt == if c < |texts| then ClientGone else if stopped then Stopped else Reading
  }

  lemma SendsShift(sendOk: nat -> bool, sent: seq<string>, own: seq<string>, later: seq<string>, c: nat)
    requires SendsStopAt(sendOk, |sent|, own + later, c) && |own| <= 1
    ensures own != [] && !sendOk(|sent|) <==> c < |own|
    ensures c < |own| ==> HandedOver(own + later, c) == own
    ensures c >= |own| ==> SendsStopAt(sendOk, |sent + own|, later, c - |own|)
  {
    if c < |own| {
      assert (own + later)[..1] == own;
    }
  }

  lemma EndedShift(sent: seq<string>, r: Progress, own: seq<string>, later: seq<string>, c: nat, stopped: bool)
    requires |own| <= c <= |own + later| && Ended(sent + own, r, later, c - |own|, stopped)
    ensures Ended(sent, r, own + later, c, stopped)
  {
    if c < |own + later| {
      assert (own + later)[..c + 1] == own + later[..c - |own| + 1];
      assert sent + own + later[..c - |own| + 1] == sent + (own + later[..c - |own| + 1]);
    } else {
      assert sent + own + later == sent + (own + later);
    }
  }

  /** Line n is the first that ends the answer; none does if n is the number of lines. */
  ghost predicate EndsAt(d: Decoder, lines: seq<string>, n: nat) {
    && n <= |lines|
    && (forall i :: 0 <= i < n ==> !EndsAnswer(d, lines[i]))
    && (n < |lines| ==> EndsAnswer(d, lines[n]))
  }

  lemma EndsAtShift(d: Decoder, lines: seq<string>, n: nat)
    requires lines != [] && EndsAt(d, lines, n)
    ensures n == 0 <==> EndsAnswer(d, lines[0])
    ensures n > 0 ==> EndsAt(d, lines[1..], n - 1)
  {
  }

  /** Reading the lines ends with line n or with the c-th send. */
  ghost predicate StopsWith(d: Decoder, sendOk: nat -> bool, sent: nat, lines: seq<string>, n: nat, c: nat) {
    EndsAt(d, lines, n) && SendsStopAt(sendOk, sent, TextsUpTo(d, lines, n), c)
  }

  /** One line of the induction below: either it ends the reading, or the rest is left to read. */
  lemma SentByFirstLine(d: Decoder, sendOk: nat -> bool, p: Progress, lines: seq<string>, n: nat, c: nat)
    returns (q: Progress, own: seq<string>)
    requires lines != [] && p.halt == Reading && StopsWith(d, sendOk, |p.sent|, lines, n, c)
    ensures OnLines(d, sendOk, p, lines) == OnLines(d, sendOk, q, lines[1..])
    ensures q.halt != Reading ==> Ended(p.sent, q, TextsUpTo(d, lines, n), c, n < |lines|)
    ensures q.halt == Reading ==>
              && n > 0 && c >= |own| && q.sent == p.sent + own
              && TextsUpTo(d, lines, n) == own + TextsUpTo(d, lines[1..], n - 1)
              && StopsWith(d, sendOk, |q.sent|, lines[1..], n - 1, c - |own|)
  {
    q, own := OnLine(d, sendOk, p, lines[0]), TextsOf(d, lines[0]);
    var later := if n == 0 then [] else TextsUpTo(d, lines[1..], n - 1);
    TextsUpToCons(d, lines, n);
    EndsAtShift(d, lines, n);
    OnLineMeaning(d, sendOk, p, lines[0]);
    SendsShift(sendOk, p.sent, own, later, c);
  }

  /**
   * For every client: the deltas are the texts up to the first line that ends the
   * answer (line n) or the first send that fails (the c-th), whichever comes first.
   */
  lemma {:induction false} SentUpToEnd(d: Decoder, sendOk: nat -> bool, p: Progress, lines: seq<string>,
                                       n: nat, c: nat)
    requires p.halt == Reading && StopsWith(d, sendOk, |p.sent|, lines, n, c)
    ensures Ended(p.sent, OnLines(d, sendOk, p, lines), TextsUpTo(d, lines, n), c, n < |lines|)
    decreases |lines|
  {
    if lines == [] {
    } else {
      var q, own := SentByFirstLine(d, sendOk, p, lines, n, c);
      if q.halt == Reading {
        var tail, n', c' := lines[1..], n - 1, c - |own|;
        assert StopsWith(d, sendOk, |q.sent|, tail, n', c');
        SentUpToEnd(d, sendOk, q, tail, n', c');
        EndedShift(p.sent, OnLines(d, sendOk, q, tail), own, TextsUpTo(d, tail, n'), c, n < |lines|);
      }
    }
  }

  lemma {:induction false} FirstEnd(d: Decoder, lines: seq<string>) returns (n: nat)
    ensures EndsAt(d, lines, n)
  {
    if lines == [] || EndsAnswer(d, lines[0]) {
      n := 0;
    } else {
      var k := FirstEnd(d, lines[1..]);
      n := k + 1;
    }
  }

  lemma {:induction false} FirstRefusal(sendOk: nat -> bool, sent: nat, texts: seq<string>) returns (c: nat)
    ensures SendsStopAt(sendOk, sent, texts, c)
    decreases |texts|
  {
    if texts == [] || !sendOk(sent) {
      c := 0;
    } else {
      var k := FirstRefusal(sendOk, sent + 1, texts[1..]);
      c := k + 1;
    }
  }

  /**
   * What the reader has done when it ends, for every received text, transport
   * error and client: with n the first line that ends the answer and c the first
   * send that fails, which of the four endings it is, what has been handed over,
   * and that the accumulated text is the concatenation of that.
   */
  lemma ReadMeaning(d: Decoder, sendOk: nat -> bool, text: string, error: Option<string>) returns (n: nat, c: nat)
    ensures StopsWith(d, sendOk, 0, Lines(text), n, c)
    ensures var p, texts := ReadWhole(d, sendOk, text, error), TextsUpTo(d, Lines(text), n);
            && p.sent == HandedOver(texts, c) && p.fullText == Flatten(p.sent)
            && p.halt == if c < |texts| then ClientGone
                         else if n < |Lines(text)| then Stopped
                         else if error.Some? then Broken(error.value) else Reading
  {
    n := FirstEnd(d, Lines(text));
    c := FirstRefusal(sendOk, 0, TextsUpTo(d, Lines(text), n));
    SentUpToEnd(d, sendOk, START, Lines(text), n, c);
    TextIsSentDeltas(d, sendOk, START, Lines(text));
  }

  /** What has been sent is never taken back: more input only adds deltas, and none once the reader has halted. */
  lemma MoreInputOnlyAdds(d: Decoder, sendOk: nat -> bool, a: string, b: string)
    ensures var p, q := ReadWhole(d, sendOk, a, None), ReadWhole(d, sendOk, a + b, None);
            p.sent <= q.sent && p.fullText <= q.fullText && (p.halt != Reading ==> q == p)
  {
    LinesAppend(a, b);
    OnLinesAppend(d, sendOk, START, Lines(a), Lines(Rest(a) + b));
    SentGrows(d, sendOk, OnLines(d, sendOk, START, Lines(a)), Lines(Rest(a) + b));
  }

  lemma {:induction false} SentGrows(d: Decoder, sendOk: nat -> bool, p: Progress, lines: seq<string>)
    ensures var q := OnLines(d, sendOk, p, lines);
            p.sent <= q.sent && p.fullText <= q.fullText && (p.halt != Reading ==> q == p)
    decreases |lines|
  {
    if lines == [] || p.halt != Reading {
    } else {
      SentGrows(d, sendOk, OnLine(d, sendOk, p, lines[0]), lines[1..]);
    }
  }

  /** A provider that ends its lines with CR LF is read like one that ends them with LF. */
  lemma LineEndingsIrrelevant(d: Decoder, sendOk: nat -> bool, lines: seq<string>)
    requires forall l :: l in lines ==> '\n' !in l
    ensures ReadWhole(d, sendOk, Terminated(lines, "\r\n"), None) == ReadWhole(d, sendOk, Terminated(lines, "\n"), None)
  {
    var marked := WithReturns(lines);
    ReturnsInText(lines);
    ReturnsInLines(d, sendOk, START, lines);
    LinesUnique(lines, "");
    LinesUnique(marked, "");
    assert Terminated(lines, "\n") + "" == Terminated(lines, "\n");
    assert Terminated(marked, "\n") + "" == Terminated(marked, "\n");
  }

  ghost function WithReturns(lines: seq<string>): seq<string> {
    if lines == [] then [] else [lines[0] + "\r"] + WithReturns(lines[1..])
  }

  lemma {:induction false} ReturnsInText(lines: seq<string>)
    ensures Terminated(WithReturns(lines), "\n") == Terminated(lines, "\r\n")
  {
    if lines == [] {
    } else {
      assert WithReturns(lines)[1..] == WithReturns(lines[1..]);
      assert lines[0] + "\r" + "\n" == lines[0] + "\r\n";
      ReturnsInText(lines[1..]);
    }
  }

  lemma {:induction false} ReturnsInLines(d: Decoder, sendOk: nat -> bool, p: Progress, lines: seq<string>)
    requires forall l :: l in lines ==> '\n' !in l
    ensures forall l :: l in WithReturns(lines) ==> '\n' !in l
    ensures OnLines(d, sendOk, p, WithReturns(lines)) == OnLines(d, sendOk, p, lines)
    decreases |lines|
  {
    if lines == [] {
    } else {
      var q := OnLine(d, sendOk, p, lines[0]);
      PayloadIgnoresReturn(lines[0]);
      ReturnsInLines(d, sendOk, q, lines[1..]);
      assert lines == [lines[0]] + lines[1..];
      if p.halt == Reading {
        OnLinesCons(d, sendOk, p, lines[0], lines[1..]);
        OnLinesCons(d, sendOk, p, lines[0] + "\r", WithReturns(lines[1..]));
      }
    }
  }
}
