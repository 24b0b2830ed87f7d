/**
 The text channel to the sidecar process (src/main/services/voice-call-service.ts): reassembling lines
 from chunks of its output, and matching replies to requests.
 */
module SidecarChannel {
  import opened Wrappers
  import opened Sequences
  import Bytes
  import Utf8

  // --- Splitting lines ---

  /** The length of the line end at the start of the text, 0 when there is none. */
  function BreakLength(s: string): nat {
    if s != "" && s[0] == '\n' then 1
    else if |s| > 1 && s[0] == '\r' && s[1] == '\n' then 2
    else 0
  }

  /** `split(/\r?\n/)`: the pieces between line ends; the last piece is what follows the last line end. */
  function Split(s: string): (pieces: seq<string>)
    ensures pieces != []
  {
    if s == "" then [""] else Attach(s, Split(s[Advance(s)..]))
  }

  /** How far splitting gets in one step: over a line end, or over one character. */
  function Advance(s: string): (n: nat)
    requires s != ""
    ensures 0 < n <= |s|
  {
    if BreakLength(s) > 0 then BreakLength(s) else 1
  }

  /** The start of the text, put in front of the pieces of the rest. */
  function Attach(s: string, pieces: seq<string>): (r: seq<string>)
    requires s != "" && pieces != []
    ensures r != []
  {
    if BreakLength(s) > 0 then [""] + pieces else Prepend(s[0], pieces)
  }

  function Prepend(c: char, pieces: seq<string>): seq<string>
    requires pieces != []
  {
    [[c] + pieces[0]] + pieces[1..]
  }

  function Lines(s: string): seq<string> {
    var pieces := Split(s);
    pieces[..|pieces| - 1]
  }

  function Tail(s: string): string {
    var pieces := Split(s);
    pieces[|pieces| - 1]
  }

  /** The text with every CR that stands before an LF left out. */
  function WithoutReturns(s: string): string {
    if s == "" then ""
    else if |s| > 1 && s[0] == '\r' && s[1] == '\n' then WithoutReturns(s[1..])
    else [s[0]] + WithoutReturns(s[1..])
  }

  function Joined(pieces: seq<string>): string
    requires pieces != []
  {
    if |pieces| == 1 then pieces[0] else pieces[0] + ("\n" + Joined(pieces[1..]))
  }

  predicate Unbroken(pieces: seq<string>) {
    forall i, j :: 0 <= i < |pieces| && 0 <= j < |pieces[i]| ==> pieces[i][j] != '\n'
  }

  /** Splitting loses nothing but line ends: the pieces have none, and joined they are the text again. */
  lemma {:induction false} SplitMeans(s: string)
    ensures Unbroken(Split(s)) && Joined(Split(s)) == WithoutReturns(s)
  {
    if s != "" {
      var n := Advance(s);
      SplitMeans(s[n..]);
      AttachJoined(s, Split(s[n..]));
      if n == 2 {
        assert s[1..][1..] == s[2..];
      }
    }
  }

  lemma AttachJoined(s: string, pieces: seq<string>)
    requires s != "" && pieces != []
    ensures Joined(Attach(s, pieces)) == (if BreakLength(s) > 0 then "\n" else [s[0]]) + Joined(pieces)
  {
    var r := Attach(s, pieces);
    if BreakLength(s) > 0 {
      assert r[1..] == pieces && r[0] == "";
    } else if |pieces| > 1 {
      assert r[1..] == pieces[1..] && r[0] == [s[0]] + pieces[0];
    }
  }

  /** That fixes the pieces: no other list without line ends joins to the same text. */
  lemma {:induction false} PiecesAreUnique(a: seq<string>, b: seq<string>)
    requires a != [] && b != [] && Unbroken(a) && Unbroken(b) && Joined(a) == Joined(b)
    ensures a == b
  {
    BreaksBetweenPieces(a);
    BreaksBetweenPieces(b);
    if |a| > 1 {
      var x, y := Joined(a), Joined(b);
      assert FirstBreak(x, |a[0]|) && FirstBreak(y, |b[0]|);
      assert x[..|a[0]|] == a[0] && y[..|b[0]|] == b[0];
      assert x[|a[0]| + 1..] == Joined(a[1..]) && y[|b[0]| + 1..] == Joined(b[1..]);
      PiecesAreUnique(a[1..], b[1..]);
      assert a == [a[0]] + a[1..] && b == [b[0]] + b[1..];
    }
  }

  predicate FirstBreak(s: string, i: nat) {
    i < |s| && s[i] == '\n' && forall k :: 0 <= k < i ==> s[k] != '\n'
  }

  lemma BreaksBetweenPieces(pieces: seq<string>)
    requires pieces != [] && Unbroken(pieces)
    ensures '\n' in Joined(pieces) <==> |pieces| > 1
    ensures |pieces| > 1 ==> FirstBreak(Joined(pieces), |pieces[0]|)
  {
    if |pieces| > 1 {
      var text := Joined(pieces);
      assert forall k :: 0 <= k < |pieces[0]| ==> text[k] == pieces[0][k];
    }
  }

  lemma {:induction false} UnbrokenIsItsOwnPiece(s: string)
    ensures |Split(s)| == 1 ==> Split(s) == [s]
  {
    if s != "" {
      UnbrokenIsItsOwnPiece(s[1..]);
      assert s == [s[0]] + s[1..];
    }
  }

  /** Splitting `a` and going on from its tail gives the pieces of `a` and `b` together. */
  predicate Resumes(a: string, b: string) {
    Split(a + b) == Lines(a) + Split(Tail(a) + b)
  }

  /** Splitting can stop anywhere, also between CR and LF, and go on from the unfinished tail. */
  lemma {:induction false} SplitResumes(a: string, b: string)
    ensures Resumes(a, b)
    decreases |a|
  {
    SingleCharacter(a);
    if |Split(a)| == 1 {
      UnbrokenIsItsOwnPiece(a);
    } else {
      var n := Advance(a);
      assert BreakLength(a + b) == BreakLength(a);
      SplitResumes(a[n..], b);
      assert (a + b)[n..] == a[n..] + b;
      AttachJoins(a, a + b, Split(a[n..]), Split(Tail(a[n..]) + b));
    }
  }

  /** A text with a line end is at least as long as that line end. */
  lemma SingleCharacter(a: string)
    ensures |a| == 1 && a[0] != '\n' ==> |Split(a)| == 1
  {
  }

  lemma AttachJoins(s: string, t: string, pieces: seq<string>, more: seq<string>)
    requires s != "" && t != "" && s[0] == t[0] && BreakLength(s) == BreakLength(t) && pieces != [] && more != []
    requires |Attach(s, pieces)| > 1
    ensures Attach(t, pieces[..|pieces| - 1] + more)
            == Attach(s, pieces)[..|Attach(s, pieces)| - 1] + more
    ensures Attach(s, pieces)[|Attach(s, pieces)| - 1] == pieces[|pieces| - 1]
  {
    if BreakLength(s) > 0 {
      LastPieceOf([""], pieces);
    } else {
      PrependJoins(s[0], pieces, more);
    }
  }

  lemma PrependJoins(c: char, pieces: seq<string>, more: seq<string>)
    requires |pieces| > 1
    ensures Prepend(c, pieces[..|pieces| - 1] + more) == Prepend(c, pieces)[..|pieces| - 1] + more
  {
  }

  lemma LastPieceOf(first: seq<string>, pieces: seq<string>)
    requires pieces != []
    ensures (first + pieces)[..|first + pieces| - 1] == first + pieces[..|pieces| - 1]
    ensures (first + pieces)[|first + pieces| - 1] == pieces[|pieces| - 1]
  {
  }

  /** One more chunk completes the lines of the old tail and the chunk together. */
  lemma LinesGrow(text: string, chunk: string)
    ensures Lines(text + chunk) == Lines(text) + Lines(Tail(text) + chunk)
    ensures Tail(text + chunk) == Tail(Tail(text) + chunk)
  {
    SplitResumes(text, chunk);
    LastPieceOf(Lines(text), Split(Tail(text) + chunk));
  }

  // --- Reassembly ---

  predicate IsSpace(c: char) {
    || '\t' <= c <= '\r' || c == ' '
    || c in {'\U{A0}', '\U{1680}', '\U{2028}', '\U{2029}', '\U{202F}', '\U{205F}', '\U{3000}', '\U{FEFF}'}
    || '\U{2000}' <= c <= '\U{200A}'
  }

  function TrimStart(s: string): string {
    if s != "" && IsSpace(s[0]) then TrimStart(s[1..]) else s
  }

  function TrimEnd(s: string): string {
    if s != "" && IsSpace(s[|s| - 1]) then TrimEnd(s[..|s| - 1]) else s
  }

  function Trim(s: string): string {
    TrimEnd(TrimStart(s))
  }

  predicate Blank(s: string) {
    forall i :: 0 <= i < |s| ==> IsSpace(s[i])
  }

  /** Trimming takes blanks off both ends, all of them and nothing else. */
  lemma TrimMeans(s: string) returns (before: string, after: string)
    ensures s == before + Trim(s) + after && Blank(before) && Blank(after)
    ensures Trim(s) != "" ==> !IsSpace(Trim(s)[0]) && !IsSpace(Trim(s)[|Trim(s)| - 1])
  {
    before := TrimStartMeans(s);
    after := TrimEndMeans(TrimStart(s));
    assert Trim(s) != "" ==> Trim(s)[0] == TrimStart(s)[0];
  }

  lemma {:induction false} TrimStartMeans(s: string) returns (before: string)
    ensures s == before + TrimStart(s) && Blank(before)
    ensures TrimStart(s) != "" ==> !IsSpace(TrimStart(s)[0])
  {
    if s != "" && IsSpace(s[0]) {
      before := TrimStartMeans(s[1..]);
      before := [s[0]] + before;
      assert s == [s[0]] + s[1..];
    } else {
      before := "";
    }
  }

  lemma {:induction false} TrimEndMeans(s: string) returns (after: string)
    ensures s == TrimEnd(s) + after && Blank(after)
    ensures TrimEnd(s) != "" ==> !IsSpace(TrimEnd(s)[|TrimEnd(s)| - 1])
  {
    if s != "" && IsSpace(s[|s| - 1]) {
      after := TrimEndMeans(s[..|s| - 1]);
      after := after + [s[|s| - 1]];
      assert s == s[..|s| - 1] + [s[|s| - 1]];
    } else {
      after := "";
    }
  }

  /** The messages handled for these lines: trimmed, blank ones left out. */
  function Dispatch(lines: seq<string>): seq<string> {
    if lines == [] then [] else
      var last := Trim(lines[|lines| - 1]);
      Dispatch(lines[..|lines| - 1]) + if last != "" then [last] else []
  }

  lemma {:induction false} DispatchConcat(a: seq<string>, b: seq<string>)
    ensures Dispatch(a + b) == Dispatch(a) + Dispatch(b)
  {
    if b == [] {
      assert a + b == a;
    } else {
      DispatchConcat(a, b[..|b| - 1]);
      assert (a + b)[..|a + b| - 1] == a + b[..|b| - 1];
    }
  }

  /** Everything dispatched so far, and what the line buffer holds. */
  datatype Reader = Reader(dispatched: seq<string>, lineBuffer: string)

  /** The reader after the chunks arrived one after another. */
  function Fed(r: Reader, chunks: seq<string>): Reader {
    if chunks == [] then r else
      var before := Fed(r, chunks[..|chunks| - 1]);
      var text := before.lineBuffer + chunks[|chunks| - 1];
      Reader(before.dispatched + Dispatch(Lines(text)), Tail(text))
  }

  /** The reader that handled this text in one piece. */
  function Handled(text: string): Reader {
    Reader(Dispatch(Lines(text)), Tail(text))
  }

  lemma NoChunks(text: string, chunks: seq<string>)
    requires |chunks| == 0
    ensures Fed(Handled(text), chunks) == Handled(text + Flatten(chunks))
  {
    assert text + Flatten(chunks) == text;
  }

  lemma OneMoreChunk(text: string, chunks: seq<string>, chunk: string)
    requires Fed(Handled(text), chunks) == Handled(text + Flatten(chunks))
    ensures Fed(Handled(text), chunks + [chunk]) == Handled(text + Flatten(chunks + [chunk]))
  {
    assert (chunks + [chunk])[..|chunks|] == chunks;
    DispatchGrows(text + Flatten(chunks), chunk);
    assert text + Flatten(chunks) + chunk == text + Flatten(chunks + [chunk]);
  }

  /** However the stream is cut into chunks, what is dispatched is one split of the whole of it. */
  lemma {:induction false} ChunkingIsInvisible(text: string, chunks: seq<string>)
    ensures Fed(Handled(text), chunks) == Handled(text + Flatten(chunks))
  {
    if |chunks| == 0 {
      NoChunks(text, chunks);
    } else {
      var front, chunk := chunks[..|chunks| - 1], chunks[|chunks| - 1];
      assert front + [chunk] == chunks;
      ChunkingIsInvisible(text, front);
      OneMoreChunk(text, front, chunk);
    }
  }

  lemma DispatchGrows(text: string, chunk: string)
    ensures Dispatch(Lines(text + chunk)) == Dispatch(Lines(text)) + Dispatch(Lines(Tail(text) + chunk))
    ensures Tail(text + chunk) == Tail(Tail(text) + chunk)
  {
    LinesGrow(text, chunk);
    DispatchConcat(Lines(text), Lines(Tail(text) + chunk));
  }

  /**
   The chunks are buffers, each decoded on its own. As long as none ends inside a character, what is dispatched
   is one split of the whole decoded stream.
   */
  lemma BuffersAreInvisible(text: string, buffers: seq<seq<Bytes.Byte>>)
    requires forall i :: 0 <= i < |buffers| ==> !Utf8.EndsInside(buffers[i])
    ensures Fed(Handled(text), Map(Utf8.Decode, buffers)) == Handled(text + Utf8.Decode(Flatten(buffers)))
  {
    Utf8.ChunksDecodeTogether(buffers);
    ChunkingIsInvisible(text, Map(Utf8.Decode, buffers));
  }

  lemma NothingHandled(text: string)
    requires |text| == 0
    ensures Handled(text) == Reader([], text)
  {
  }

  class LineReader {
    var lineBuffer: string
    ghost var received: string
    ghost var dispatched: seq<string>

    ghost predicate Valid()
      reads this
    {
      Reader(dispatched, lineBuffer) == Handled(received)
    }

    constructor ()
      ensures Valid() && received == "" && dispatched == []
    {
      lineBuffer, received, dispatched := "", "", [];
      new;
      NothingHandled(received);
    }

    /** The stdout handler: decodes the buffer, dispatches the lines it completes and keeps the rest. */
    method OnData(buffer: seq<Bytes.Byte>) returns (messages: seq<string>)
      requires Valid()
      modifies this
      ensures Valid() && received == old(received) + Utf8.Decode(buffer) && dispatched == old(dispatched) + messages
    {
      var chunk := Utf8.Decode(buffer);
      DispatchGrows(received, chunk);
      received := received + chunk;
      lineBuffer := lineBuffer + chunk;
      var lines := Split(lineBuffer);
      lineBuffer := lines[|lines| - 1];
      lines := lines[..|lines| - 1];
      messages := HandleLines(lines);
      dispatched := dispatched + messages;
    }

    /** Each line is trimmed, and handled unless it is blank. */
    method HandleLines(lines: seq<string>) returns (messages: seq<string>)
      ensures messages == Dispatch(lines)
    {
      messages := [];
      for i := 0 to |lines|
        invariant messages == Dispatch(lines[..i])
      {
        assert lines[..i + 1][..i] == lines[..i];
        if Trim(lines[i]) != "" {
          messages := messages + [Trim(lines[i])];
        }
      }
      assert lines[..|lines|] == lines;
    }
  }

  // --- What the sidecar writes: one message per line ---

  predicate OneLine(s: string) {
    forall i :: 0 <= i < |s| ==> s[i] != '\n' && s[i] != '\r'
  }

  /** The stream after these messages were written to it, one a line. */
  function WrittenAfter(text: string, messages: seq<string>): string {
    if messages == [] then text else
      WrittenAfter(text, messages[..|messages| - 1]) + (messages[|messages| - 1] + "\n")
  }

  lemma {:induction false} LineAndEnd(s: string)
    requires OneLine(s)
    ensures Split(s + "\n") == [s, ""]
  {
    if s == "" {
      assert s + "\n" == "\n" && "\n"[1..] == "";
    } else {
      LineAndEnd(s[1..]);
      assert (s + "\n")[1..] == s[1..] + "\n" && (s + "\n")[0] == s[0];
      assert s == [s[0]] + s[1..];
    }
  }

  lemma OneMoreLine(text: string, line: string)
    requires OneLine(line) && |Tail(text)| == 0
    ensures Lines(text + (line + "\n")) == Lines(text) + [line] && |Tail(text + (line + "\n"))| == 0
  {
    LinesGrow(text, line + "\n");
    LineAndEnd(line);
    assert Tail(text) + (line + "\n") == line + "\n";
  }

  lemma {:induction false} WrittenSplitsBack(text: string, messages: seq<string>)
    requires |Tail(text)| == 0 && forall i :: 0 <= i < |messages| ==> OneLine(messages[i])
    ensures Lines(WrittenAfter(text, messages)) == Lines(text) + messages
    ensures |Tail(WrittenAfter(text, messages))| == 0
  {
    if messages != [] {
      var front, last := messages[..|messages| - 1], messages[|messages| - 1];
      WrittenSplitsBack(text, front);
      OneMoreLine(WrittenAfter(text, front), last);
      assert Lines(text) + front + [last] == Lines(text) + messages;
    }
  }

  /** One line is one message, trimmed, or none when it is blank. */
  lemma DispatchOne(line: string)
    ensures Trim(line) != "" ==> Dispatch([line]) == [Trim(line)]
    ensures Trim(line) == "" ==> Dispatch([line]) == []
  {
    assert [line][..0] == [];
  }

  lemma {:induction false} DispatchPlain(messages: seq<string>)
    requires forall i :: 0 <= i < |messages| ==> messages[i] != "" && Trim(messages[i]) == messages[i]
    ensures Dispatch(messages) == messages
  {
    if messages != [] {
      var front, last := messages[..|messages| - 1], messages[|messages| - 1];
      DispatchPlain(front);
      assert Dispatch(messages) == Dispatch(front) + [last];
      assert messages == front + [last];
    }
  }

  /**
   End to end: after a text of whole lines, the empty one included, the messages written one a line are
   exactly the messages handled next, in order, however the stream is cut.
   */
  lemma MessagesArriveIntact(text: string, messages: seq<string>, chunks: seq<string>)
    requires |Tail(text)| == 0 && text + Flatten(chunks) == WrittenAfter(text, messages)
    requires forall i :: 0 <= i < |messages| ==>
               OneLine(messages[i]) && messages[i] != "" && Trim(messages[i]) == messages[i]
    ensures Fed(Handled(text), chunks).dispatched == Handled(text).dispatched + messages
    ensures |Fed(Handled(text), chunks).lineBuffer| == 0
  {
    ChunkingIsInvisible(text, chunks);
    WrittenSplitsBack(text, messages);
    DispatchConcat(Lines(text), messages);
    DispatchPlain(messages);
  }

  /** The same over bytes: the stream's encoding may be cut into buffers anywhere between characters. */
  lemma MessagesArriveInBuffers(text: string, messages: seq<string>, buffers: seq<seq<Bytes.Byte>>)
    requires |Tail(text)| == 0 && text + Utf8.Decode(Flatten(buffers)) == WrittenAfter(text, messages)
    requires forall i :: 0 <= i < |buffers| ==> !Utf8.EndsInside(buffers[i])
    requires forall i :: 0 <= i < |messages| ==>
               OneLine(messages[i]) && messages[i] != "" && Trim(messages[i]) == messages[i]
    ensures Fed(Handled(text), Map(Utf8.Decode, buffers)).dispatched == Handled(text).dispatched + messages
  {
    Utf8.ChunksDecodeTogether(buffers);
    MessagesArriveIntact(text, messages, Map(Utf8.Decode, buffers));
  }

  // --- Requests and replies ---

  datatype Outcome = Resolved | Rejected | TimedOut | WriteFailed

  datatype Channel = Channel(requestId: nat, pending: set<nat>, settled: map<nat, Outcome>)

  datatype Event =
    | Send(writable: bool, written: bool)
    | Reply(replyTo: Option<nat>, isError: bool)
    | Timeout(id: nat)

  const OPENED := Channel(0, {}, map[])

  function SettleAs(c: Channel, id: nat, outcome: Outcome): Channel {
    c.(pending := c.pending - {id}, settled := c.settled[id := outcome])
  }

  function Step(c: Channel, e: Event): Channel {
    match e
    case Send(writable, written) =>
      if !writable then c else
        var id := c.requestId + 1;
        var issued := c.(requestId := id, pending := c.pending + {id});
        if written then issued else SettleAs(issued, id, WriteFailed)
    case Reply(id, isError) =>
      if id.Some? && id.value != 0 && id.value in c.pending
      then SettleAs(c, id.value, if isError then Rejected else Resolved) else c
    case Timeout(id) => if id in c.pending then SettleAs(c, id, TimedOut) else c
  }

  function Run(c: Channel, events: seq<Event>): Channel
    decreases |events|
  {
    if events == [] then c else Run(Step(c, events[0]), events[1..])
  }

  /** The issued ids are 1 up to the counter, each either pending or settled, never both. */
  ghost predicate Partitioned(c: Channel) {
    && (forall id :: 1 <= id <= c.requestId <==> id in c.pending || id in c.settled)
    && c.pending !! c.settled.Keys
  }

  /** One step settles only pending or just issued ids, and never changes an outcome. */
  lemma StepKeepsPartition(c: Channel, e: Event)
    requires Partitioned(c)
    ensures Partitioned(Step(c, e)) && c.requestId <= Step(c, e).requestId
    ensures forall id :: id in c.settled ==> id in Step(c, e).settled && Step(c, e).settled[id] == c.settled[id]
  {
  }

  /** Over every run of replies, timeouts and failed writes, each issued request is settled at most once. */
  lemma {:induction false} SettledAtMostOnce(c: Channel, events: seq<Event>)
    requires Partitioned(c)
    ensures Partitioned(Run(c, events)) && c.requestId <= Run(c, events).requestId
    ensures forall id :: id in c.settled ==> id in Run(c, events).settled && Run(c, events).settled[id] == c.settled[id]
    decreases |events|
  {
    if events != [] {
      StepKeepsPartition(c, events[0]);
      SettledAtMostOnce(Step(c, events[0]), events[1..]);
    }
  }

  /** A reply settles a request exactly when that request is pending, and no other request. */
  lemma ReplySettlesItsRequest(c: Channel, id: nat, isError: bool)
    requires Partitioned(c)
    ensures var after := Step(c, Reply(Some(id), isError));
            && (id in c.pending <==> after != c)
            && (id in c.pending ==> id in after.settled && after.settled[id] == if isError then Rejected else Resolved)
            && (forall other :: other != id ==> (other in after.pending <==> other in c.pending))
  {
  }

  class Correlator {
    var requestId: nat
    var pendingRequests: set<nat>
    ghost var settled: map<nat, Outcome>

    ghost function View(): Channel
      reads this
    {
      Channel(requestId, pendingRequests, settled)
    }

    constructor ()
      ensures View() == OPENED && Partitioned(View())
    {
      requestId, pendingRequests, settled := 0, {}, map[];
    }

    /** `sendCommand`; `written` says whether the write to the sidecar threw. */
    method SendCommand(writable: bool, written: bool) returns (outcome: Option<Outcome>, id: nat)
      requires Partitioned(View())
      modifies this
      ensures Partitioned(View()) && View() == Step(old(View()), Send(writable, written))
      ensures writable ==> id == old(requestId) + 1 && id !in old(pendingRequests) && id !in old(settled)
      ensures outcome == if !writable then Some(Rejected) else if written then None else Some(WriteFailed)
      ensures !writable ==> View() == old(View())
      ensures writable ==> requestId == id && pendingRequests == old(pendingRequests) + if written then {id} else {}
      ensures writable ==> settled == if written then old(settled) else old(settled)[id := WriteFailed]
    {
      if !writable {
        return Some(Rejected), 0;
      }
      requestId := requestId + 1;
      pendingRequests := pendingRequests + {requestId};
      if !written {
        pendingRequests := pendingRequests - {requestId};
        settled := settled[requestId := WriteFailed];
        return Some(WriteFailed), requestId;
      }
      return None, requestId;
    }

    /** The reply branch of `handleSidecarMessage`; `matched` tells it from an event. */
    method HandleReply(id: Option<nat>, isError: bool) returns (matched: bool)
      requires Partitioned(View())
      modifies this
      ensures Partitioned(View()) && View() == Step(old(View()), Reply(id, isError))
      ensures matched <==> id.Some? && id.value in old(pendingRequests)
      ensures matched ==> pendingRequests == old(pendingRequests) - {id.value}
      ensures matched ==> settled == old(settled)[id.value := if isError then Rejected else Resolved]
      ensures !matched ==> View() == old(View())
      ensures requestId == old(requestId)
    {
      if id.Some? && id.value != 0 && id.value in pendingRequests {
        pendingRequests := pendingRequests - {id.value};
        settled := settled[id.value := if isError then Rejected else Resolved];
        return true;
      }
      return false;
    }

    method OnTimeout(id: nat)
      requires Partitioned(View())
      modifies this
      ensures Partitioned(View()) && View() == Step(old(View()), Timeout(id))
      ensures pendingRequests == old(pendingRequests) - {id} && requestId == old(requestId)
      ensures settled == if id in old(pendingRequests) then old(settled)[id := TimedOut] else old(settled)
    {
      if id in pendingRequests {
        pendingRequests := pendingRequests - {id};
        settled := settled[id := TimedOut];
      }
    }
  }
}
