/** The newline framing of `TCPReceiver::receiveData` in `market-data-system2.h`. */
module Framing {

  const NEWLINE: char := '\n'
  const MAX_BUFFER_SIZE: nat := 65536

  // -- Lines of a stream --------------------------------------------------------------------------

  /** Where the first newline is; the length if there is none. */
  function Find(s: string): (i: nat)
    ensures i <= |s| && NEWLINE !in s[..i]
    ensures i < |s| ==> s[i] == NEWLINE
  {
    if s == [] || s[0] == NEWLINE then 0
    else
      var i := 1 + Find(s[1..]);
      assert s[..i] == [s[0]] + s[1..][..i - 1];
      i
  }

  /** What stands before each newline. */
  function Lines(s: string): seq<string>
    decreases |s|
  {
    var i := Find(s);
    if i == |s| then [] else [s[..i]] + Lines(s[i + 1..])
  }

  /** What stands after the last newline. */
  function Tail(s: string): string
    decreases |s|
  {
    var i := Find(s);
    if i == |s| then s else Tail(s[i + 1..])
  }

  function Join(lines: seq<string>): string {
    if lines == [] then [] else lines[0] + [NEWLINE] + Join(lines[1..])
  }

  lemma JoinCons(line: string, lines: seq<string>)
    ensures Join([line] + lines) == line + [NEWLINE] + Join(lines)
  {
    assert ([line] + lines)[1..] == lines;
  }

  lemma Associative(a: string, b: string, c: string)
    ensures a + b + c == a + (b + c)
  {
  }

  lemma {:induction false} LinesHaveNoNewline(s: string)
    ensures forall l :: l in Lines(s) ==> NEWLINE !in l
    decreases |s|
  {
    var i := Find(s);
    if i < |s| {
      LinesHaveNoNewline(s[i + 1..]);
    }
  }

  lemma CutAt(s: string, i: nat)
    requires i < |s| && s[i] == NEWLINE
    ensures s == s[..i] + [NEWLINE] + s[i + 1..]
  {
  }

  /** Lines and tail are all of the stream, cut at its newlines and nowhere else. */
  lemma {:induction false} LinesReconstruct(s: string)
    ensures s == Join(Lines(s)) + Tail(s)
    ensures NEWLINE !in Tail(s)
    ensures forall l :: l in Lines(s) ==> NEWLINE !in l
    decreases |s|
  {
    LinesHaveNoNewline(s);
    var i := Find(s);
    if i < |s| {
      hide Join, Find;
      var line, rest := s[..i], s[i + 1..];
      assert Lines(s) == [line] + Lines(rest) && Tail(s) == Tail(rest);
      hide Lines, Tail;
      LinesReconstruct(rest);
      calc {
        s;
        { CutAt(s, i); }
        line + [NEWLINE] + rest;
        line + [NEWLINE] + (Join(Lines(rest)) + Tail(rest));
        { Associative(line + [NEWLINE], Join(Lines(rest)), Tail(rest)); }
        line + [NEWLINE] + Join(Lines(rest)) + Tail(rest);
        { JoinCons(line, Lines(rest)); }
        Join(Lines(s)) + Tail(s);
      }
    } else {
      assert Lines(s) == [] && Tail(s) == s == s[..i];
    }
  }

  lemma FindUnique(a: string, b: string)
    requires NEWLINE !in a
    ensures Find(a + [NEWLINE] + b) == |a|
  {
    var s := a + [NEWLINE] + b;
    var i := Find(s);
    assert forall k :: 0 <= k < |a| ==> s[k] == a[k] && a[k] in a;
    assert s[|a|] == NEWLINE;
  }

  /** The only way to cut it so. */
  lemma {:induction false} LinesUnique(lines: seq<string>, tail: string)
    requires NEWLINE !in tail && forall l :: l in lines ==> NEWLINE !in l
    ensures Lines(Join(lines) + tail) == lines && Tail(Join(lines) + tail) == tail
    decreases |lines|
  {
    var s := Join(lines) + tail;
    if lines == [] {
      assert s == tail;
    } else {
      var rest := Join(lines[1..]) + tail;
      assert s == lines[0] + [NEWLINE] + rest;
      FindUnique(lines[0], rest);
      assert s[..|lines[0]|] == lines[0] && s[|lines[0]| + 1..] == rest;
      LinesUnique(lines[1..], tail);
    }
  }

  lemma {:induction false} JoinConcat(a: seq<string>, b: seq<string>)
    ensures Join(a + b) == Join(a) + Join(b)
    decreases |a|
  {
    if a == [] {
      assert a + b == b;
    } else {
      assert (a + b)[1..] == a[1..] + b;
      JoinConcat(a[1..], b);
    }
  }

  /** A stream may be cut anywhere, if the tail of the first part is put before the second. */
  lemma LinesConcat(a: string, b: string)
    ensures Lines(a + b) == Lines(a) + Lines(Tail(a) + b)
    ensures Tail(a + b) == Tail(Tail(a) + b)
  {
    hide Lines, Tail, Join, Find;
    var rest := Tail(a) + b;
    LinesReconstruct(a);
    LinesReconstruct(rest);
    JoinConcat(Lines(a), Lines(rest));
    assert a + b == Join(Lines(a)) + rest;
    assert a + b == Join(Lines(a) + Lines(rest)) + Tail(rest);
    LinesUnique(Lines(a) + Lines(rest), Tail(rest));
  }

  // -- A session ------------------------------------------------------------------------------------

  /** What has been delivered, what is left in the buffer, and how many bytes were dropped. */
  datatype Session = Session(delivered: seq<string>, buffer: string, dropped: nat)

  /** One call: what is complete is delivered, and a buffer that is too long is cleared. */
  function Receive(s: Session, data: string): Session {
    var all := s.buffer + data;
    if |Tail(all)| > MAX_BUFFER_SIZE then Session(s.delivered + Lines(all), [], s.dropped + |Tail(all)|)
    else Session(s.delivered + Lines(all), Tail(all), s.dropped)
  }

  function SessionOf(chunks: seq<string>): Session {
    if chunks == [] then Session([], [], 0)
    else Receive(SessionOf(chunks[..|chunks| - 1]), chunks[|chunks| - 1])
  }

  lemma SessionSnoc(chunks: seq<string>, c: string)
    ensures SessionOf(chunks + [c]) == Receive(SessionOf(chunks), c)
  {
    assert (chunks + [c])[..|chunks|] == chunks;
  }

  function Concat(chunks: seq<string>): string {
    if chunks == [] then [] else Concat(chunks[..|chunks| - 1]) + chunks[|chunks| - 1]
  }

  /** What one `recv` into the receive buffer can return. */
  predicate Chunking(chunks: seq<string>, stream: string) {
    Concat(chunks) == stream && forall c :: c in chunks ==> 1 <= |c| <= MAX_BUFFER_SIZE
  }

  /** Delivered and left over is exactly the stream, split at its newlines. */
  ghost predicate Complete(chunks: seq<string>) {
    var s, stream := SessionOf(chunks), Concat(chunks);
    s.delivered == Lines(stream) && s.buffer == Tail(stream)
  }

  /** What has arrived since the last newline is short enough after every call so far. */
  ghost predicate ShortAtCuts(chunks: seq<string>) {
    forall i :: 0 <= i <= |chunks| ==> |Tail(Concat(chunks[..i]))| <= MAX_BUFFER_SIZE
  }

  /** Whatever happens, each byte is delivered, left over or dropped, and no newline is left over. */
  lemma {:induction false} SessionAccounts(chunks: seq<string>)
    ensures var s := SessionOf(chunks);
            |Join(s.delivered)| + |s.buffer| + s.dropped == |Concat(chunks)| && NEWLINE !in s.buffer
    decreases |chunks|
  {
    hide Lines, Tail;
    if chunks != [] {
      var before, c := SessionOf(chunks[..|chunks| - 1]), chunks[|chunks| - 1];
      SessionAccounts(chunks[..|chunks| - 1]);
      LinesReconstruct(before.buffer + c);
      JoinConcat(before.delivered, Lines(before.buffer + c));
    }
  }

  lemma CutsOfPrefix(chunks: seq<string>)
    requires chunks != []
    ensures ShortAtCuts(chunks) <==>
            ShortAtCuts(chunks[..|chunks| - 1]) && |Tail(Concat(chunks))| <= MAX_BUFFER_SIZE
  {
    hide Tail, Concat;
    var before := chunks[..|chunks| - 1];
    assert forall i :: 0 <= i <= |before| ==> before[..i] == chunks[..i];
    assert chunks[..|chunks|] == chunks;
    if ShortAtCuts(chunks) {
      forall i | 0 <= i <= |before|
        ensures |Tail(Concat(before[..i]))| <= MAX_BUFFER_SIZE
      {
        assert before[..i] == chunks[..i];
      }
    }
    if ShortAtCuts(before) && |Tail(Concat(chunks))| <= MAX_BUFFER_SIZE {
      forall i | 0 <= i <= |chunks|
        ensures |Tail(Concat(chunks[..i]))| <= MAX_BUFFER_SIZE
      {
        if i < |chunks| {
          assert before[..i] == chunks[..i];
        }
      }
    }
  }

  lemma {:induction false} ShortIsComplete(chunks: seq<string>)
    requires ShortAtCuts(chunks)
    ensures Complete(chunks) && SessionOf(chunks).dropped == 0
    decreases |chunks|
  {
    if chunks != [] {
      hide Lines, Tail, ShortAtCuts;
      var before, c := chunks[..|chunks| - 1], chunks[|chunks| - 1];
      CutsOfPrefix(chunks);
      ShortIsComplete(before);
      LinesConcat(Concat(before), c);
    }
  }

  lemma {:induction false} UndroppedIsShort(chunks: seq<string>)
    requires SessionOf(chunks).dropped == 0
    ensures ShortAtCuts(chunks)
    decreases |chunks|
  {
    if chunks != [] {
      hide Lines, Tail, ShortAtCuts;
      var before, c := chunks[..|chunks| - 1], chunks[|chunks| - 1];
      UndroppedIsShort(before);
      ShortIsComplete(before);
      LinesConcat(Concat(before), c);
      CutsOfPrefix(chunks);
    }
  }

  /** A session is complete exactly if nothing was dropped, which is exactly if no call found
      more than `MAX_BUFFER_SIZE` bytes after the last newline. */
  lemma CompleteExactly(chunks: seq<string>)
    ensures Complete(chunks) <==> ShortAtCuts(chunks)
    ensures SessionOf(chunks).dropped == 0 <==> ShortAtCuts(chunks)
  {
    if ShortAtCuts(chunks) {
      ShortIsComplete(chunks);
    } else if Complete(chunks) || SessionOf(chunks).dropped == 0 {
      SessionAccounts(chunks);
      LinesReconstruct(Concat(chunks));
      UndroppedIsShort(chunks);
    }
  }

  // -- What a session with drops delivers ------------------------------------------------------------------

  /** The stream cut after each chunk that leaves more than the limit behind the last newline: the
      segments so ended, and the one that has not ended. */
  datatype Cut = Cut(ended: seq<string>, open: string)

  function Segments(chunks: seq<string>): Cut {
    if chunks == [] then Cut([], "")
    else
      var before := Segments(chunks[..|chunks| - 1]);
      var last := before.open + chunks[|chunks| - 1];
      if |Tail(last)| > MAX_BUFFER_SIZE then Cut(before.ended + [last], "") else Cut(before.ended, last)
  }

  function AllLines(segments: seq<string>): seq<string> {
    if segments == [] then [] else AllLines(segments[..|segments| - 1]) + Lines(segments[|segments| - 1])
  }

  function TailLengths(segments: seq<string>): nat {
    if segments == [] then 0
    else TailLengths(segments[..|segments| - 1]) + |Tail(segments[|segments| - 1])|
  }

  lemma OneMore(segments: seq<string>, s: string)
    ensures AllLines(segments + [s]) == AllLines(segments) + Lines(s)
    ensures TailLengths(segments + [s]) == TailLengths(segments) + |Tail(s)|
    ensures Concat(segments + [s]) == Concat(segments) + s
  {
    hide Lines, Tail;
    assert (segments + [s])[..|segments|] == segments;
  }

  /** The session has delivered the lines of every segment, dropped the tails of those that have
      ended, and keeps the tail of the last. */
  ghost predicate Delivers(s: Session, cut: Cut, stream: string) {
    && Concat(cut.ended) + cut.open == stream
    && (forall x :: x in cut.ended ==> |Tail(x)| > MAX_BUFFER_SIZE)
    && s.delivered == AllLines(cut.ended) + Lines(cut.open)
    && s.dropped == TailLengths(cut.ended)
    && s.buffer == Tail(cut.open) && |s.buffer| <= MAX_BUFFER_SIZE
  }

  lemma Append3<T>(a: seq<T>, b: seq<T>, c: seq<T>)
    ensures a + b + c == a + (b + c)
  {
  }

  lemma DeliversNext(s: Session, cut: Cut, stream: string, c: string)
    requires Delivers(s, cut, stream)
    ensures var last := cut.open + c;
            Delivers(Receive(s, c),
                     if |Tail(last)| > MAX_BUFFER_SIZE then Cut(cut.ended + [last], "") else Cut(cut.ended, last),
                     stream + c)
  {
    var last := cut.open + c;
    assert Lines("") == [] && Tail("") == "";
    LinesConcat(cut.open, c);
    OneMore(cut.ended, last);
    Append3(Concat(cut.ended), cut.open, c);
    Append3(AllLines(cut.ended), Lines(cut.open), Lines(Tail(cut.open) + c));
    hide Lines, Tail, AllLines, TailLengths, Concat;
    assert Concat(cut.ended + [last]) + "" == stream + c;
    assert AllLines(cut.ended + [last]) + [] == AllLines(cut.ended) + Lines(last);
  }

  /** Every session delivers the lines of each segment by itself, with nothing of the segment before:
      an overflow leaves the buffer empty. What it drops are the tails of the segments that have
      ended, each too long, and what is in the buffer is the tail of the last. */
  lemma {:induction false} SessionDelivers(chunks: seq<string>)
    ensures var s, cut := SessionOf(chunks), Segments(chunks);
            && Concat(cut.ended) + cut.open == Concat(chunks)
            && (forall x :: x in cut.ended ==> |Tail(x)| > MAX_BUFFER_SIZE)
            && s.delivered == AllLines(cut.ended) + Lines(cut.open)
            && s.dropped == TailLengths(cut.ended)
            && s.buffer == Tail(cut.open) && |s.buffer| <= MAX_BUFFER_SIZE
    decreases |chunks|
  {
    assert Delivers(SessionOf([]), Segments([]), Concat([])) by {
      assert Lines("") == [] && Tail("") == "";
    }
    hide Lines, Tail, AllLines, TailLengths;
    if chunks != [] {
      var earlier := chunks[..|chunks| - 1];
      SessionDelivers(earlier);
      DeliversNext(SessionOf(earlier), Segments(earlier), Concat(earlier), chunks[|chunks| - 1]);
      hide Receive;
    }
  }

  // -- Independence of the chunks ------------------------------------------------------------------------

  /** No line, and no unfinished last line, is longer than the limit. */
  ghost predicate ShortLines(stream: string) {
    |Tail(stream)| <= MAX_BUFFER_SIZE && forall l :: l in Lines(stream) ==> |l| <= MAX_BUFFER_SIZE
  }

  lemma TailOfPart(a: string, b: string)
    requires ShortLines(a + b)
    ensures |Tail(a)| <= MAX_BUFFER_SIZE
  {
    var t := Tail(a);
    LinesConcat(a, b);
    LinesReconstruct(a);
    var i := Find(t + b);
    assert forall k :: 0 <= k < |t| ==> (t + b)[k] == t[k] && t[k] in t;
    if i < |t + b| {
      assert Lines(t + b)[0] == (t + b)[..i];
      assert (t + b)[..i] in Lines(a + b);
    }
  }

  lemma {:induction false} ConcatSplit(chunks: seq<string>, i: nat)
    requires i <= |chunks|
    ensures Concat(chunks) == Concat(chunks[..i]) + Concat(chunks[i..])
    decreases |chunks| - i
  {
    if i < |chunks| {
      ConcatSplit(chunks, i + 1);
      assert chunks[..i + 1][..i] == chunks[..i];
      ConcatHead(chunks[i..]);
      assert chunks[i..][1..] == chunks[i + 1..];
    } else {
      assert chunks[..i] == chunks;
    }
  }

  lemma {:induction false} ConcatHead(chunks: seq<string>)
    requires chunks != []
    ensures Concat(chunks) == chunks[0] + Concat(chunks[1..])
    decreases |chunks|
  {
    if |chunks| > 1 {
      ConcatHead(chunks[..|chunks| - 1]);
      assert chunks[..|chunks| - 1][1..] == chunks[1..][..|chunks| - 2];
    }
  }

  function Bytes(s: string): seq<string> {
    seq(|s|, i requires 0 <= i < |s| => [s[i]])
  }

  lemma {:induction false} BytesConcat(s: string, i: nat)
    requires i <= |s|
    ensures Concat(Bytes(s)[..i]) == s[..i]
    decreases i
  {
    if i > 0 {
      BytesConcat(s, i - 1);
      assert Bytes(s)[..i][..i - 1] == Bytes(s)[..i - 1];
    }
  }

  /** Up to its newline, every line has been the tail of what had arrived. */
  lemma {:induction false} LineWasTail(s: string, l: string) returns (i: nat)
    requires l in Lines(s)
    ensures i <= |s| && Tail(s[..i]) == l
    decreases |s|
  {
    var n := Find(s);
    if l == s[..n] {
      i := n;
      var p := s[..n];
      assert Find(p) == |p|;
    } else {
      var rest := s[n + 1..];
      assert l in Lines(rest);
      hide Lines, Find, Tail;
      var j := LineWasTail(rest, l);
      i := n + 1 + j;
      TailAfter(s[..n], rest[..j]);
      assert s[n] == NEWLINE;
      PrefixParts(s, n, i);
    }
  }

  lemma PrefixParts(s: string, n: nat, i: nat)
    requires n < i <= |s| && s[n] == NEWLINE
    ensures s[..i] == s[..n] + [NEWLINE] + s[n + 1..][..i - n - 1]
  {
  }

  lemma TailAfter(a: string, b: string)
    requires NEWLINE !in a
    ensures Tail(a + [NEWLINE] + b) == Tail(b)
  {
    FindUnique(a, b);
    hide Find;
    assert (a + [NEWLINE] + b)[|a| + 1..] == b;
  }

  /** Framing does not depend on the chunks exactly for streams of short lines: those are the
      ones that every division into chunks delivers in full. */
  lemma ChunkIndependence(stream: string)
    ensures ShortLines(stream) <==> forall chunks :: Chunking(chunks, stream) ==> Complete(chunks)
  {
    if ShortLines(stream) {
      forall chunks | Chunking(chunks, stream)
        ensures Complete(chunks)
      {
        forall i | 0 <= i <= |chunks|
          ensures |Tail(Concat(chunks[..i]))| <= MAX_BUFFER_SIZE
        {
          ConcatSplit(chunks, i);
          TailOfPart(Concat(chunks[..i]), Concat(chunks[i..]));
        }
        CompleteExactly(chunks);
      }
    } else {
      LongLinesAreLost(stream);
    }
  }

  /** A stream with a long line is not delivered in full if it comes byte by byte. */
  lemma LongLinesAreLost(stream: string)
    requires !ShortLines(stream)
    ensures Chunking(Bytes(stream), stream) && !Complete(Bytes(stream))
  {
    var chunks := Bytes(stream);
    BytesConcat(stream, |stream|);
    assert chunks[..|stream|] == chunks && stream[..|stream|] == stream;
    if Complete(chunks) {
      CompleteExactly(chunks);
      forall l | l in Lines(stream)
        ensures |l| <= MAX_BUFFER_SIZE
      {
        var i := LineWasTail(stream, l);
        BytesConcat(stream, i);
      }
      assert |Tail(Concat(chunks[..|chunks|]))| <= MAX_BUFFER_SIZE;
    }
  }

  lemma AppendAssociative(a: seq<string>, line: string, b: seq<string>)
    ensures a + [line] + b == a + ([line] + b)
  {
  }

  // -- The object -------------------------------------------------------------------------------------------

  /** What `recv` reports: an error, which may only mean that there is nothing yet, the end of the
      connection, or data. */
  datatype Recv = WouldBlock | Failed | Closed | Data(bytes: string)

  datatype Alert = BufferOverflow(bufferSize: nat) | ReceiveFailed | ConnectionClosed

  class TCPReceiver {
    var messageBuffer: string
    var messages: seq<string> // given to the message handler
    var alerts: seq<Alert>
    var bytesReceived: nat
    var packetsReceived: nat
    var incompleteMessages: nat
    ghost var chunks: seq<string> // all data so far
    ghost var dropped: nat

    ghost predicate Valid()
      reads this
    {
      SessionOf(chunks) == Session(messages, messageBuffer, dropped)
    }

    constructor ()
      ensures Valid() && chunks == [] && messageBuffer == [] && messages == [] && alerts == []
      ensures bytesReceived == packetsReceived == incompleteMessages == 0
    {
      messageBuffer, messages, alerts := [], [], [];
      bytesReceived, packetsReceived, incompleteMessages := 0, 0, 0;
      chunks, dropped := [], 0;
    }

    /** Whether to go on receiving. Only data changes the buffer and the messages. */
    method ReceiveData(received: Recv) returns (ok: bool)
      requires Valid()
      requires received.Data? ==> 1 <= |received.bytes| <= MAX_BUFFER_SIZE
      modifies this
      ensures Valid() && NEWLINE !in messageBuffer
      ensures ok <==> received.WouldBlock? || received.Data?
      ensures chunks == if received.Data? then old(chunks) + [received.bytes] else old(chunks)
      ensures received.Data? ==>
                var before := Session(old(messages), old(messageBuffer), old(dropped));
                Session(messages, messageBuffer, dropped) == Receive(before, received.bytes)
      ensures received.Data? ==>
                var all := old(messageBuffer) + received.bytes;
                && messages == old(messages) + Lines(all)
                && (if |Tail(all)| > MAX_BUFFER_SIZE then messageBuffer == [] && dropped == old(dropped) + |Tail(all)|
                    else messageBuffer == Tail(all) && dropped == old(dropped))
      ensures received.Data? ==>
                bytesReceived == old(bytesReceived) + |received.bytes| && packetsReceived == old(packetsReceived) + 1
      ensures !received.Data? ==>
                && messageBuffer == old(messageBuffer)
                && bytesReceived == old(bytesReceived) && packetsReceived == old(packetsReceived)
      ensures incompleteMessages == old(incompleteMessages) + if dropped > old(dropped) then 1 else 0
      ensures alerts == old(alerts) + match received
                                      case WouldBlock => []
                                      case Failed => [ReceiveFailed]
                                      case Closed => [ConnectionClosed]
                                      case Data(_) =>
                                        if dropped > old(dropped) then [BufferOverflow(dropped - old(dropped))]
                                        else []
    {
      SessionAccounts(chunks);
      hide Lines, Tail, Join, Find, Concat, SessionOf;
      match received {
        case WouldBlock =>
          return true;
        case Failed =>
          alerts := alerts + [ReceiveFailed];
          return false;
        case Closed =>
          alerts := alerts + [ConnectionClosed];
          return false;
        case Data(bytes) =>
          bytesReceived := bytesReceived + |bytes|;
          packetsReceived := packetsReceived + 1;
          messageBuffer := messageBuffer + bytes;
          ghost var all := messageBuffer;
          DeliverLines();
          LinesReconstruct(all);
          if |messageBuffer| > MAX_BUFFER_SIZE {
            incompleteMessages := incompleteMessages + 1;
            alerts := alerts + [BufferOverflow(|messageBuffer|)];
            dropped := dropped + |messageBuffer|;
            messageBuffer := [];
          }
          SessionSnoc(chunks, bytes);
          chunks := chunks + [bytes];
          return true;
      }
    }

    /** The loop that finds, hands over and erases one message after another. */
    method DeliverLines()
      modifies this`messages, this`messageBuffer
      ensures messages == old(messages) + Lines(old(messageBuffer))
      ensures messageBuffer == Tail(old(messageBuffer))
    {
      var pos := Find(messageBuffer);
      while pos < |messageBuffer|
        invariant pos == Find(messageBuffer)
        invariant messages + Lines(messageBuffer) == old(messages) + Lines(old(messageBuffer))
        invariant Tail(messageBuffer) == Tail(old(messageBuffer))
        decreases |messageBuffer|
      {
        var message := messageBuffer[..pos];
        ghost var before, rest := messages, messageBuffer[pos + 1..];
        assert Lines(messageBuffer) == [message] + Lines(rest) && Tail(messageBuffer) == Tail(rest);
        hide Lines, Tail, Find;
        messages := messages + [message];
        messageBuffer := messageBuffer[pos + 1..];
        pos := Find(messageBuffer);
        AppendAssociative(before, message, Lines(rest));
      }
    }

    /** A connection's data, in the chunks in which it comes. */
    method ReceiveAll(incoming: seq<string>)
      requires Valid() && chunks == []
      requires forall c :: c in incoming ==> 1 <= |c| <= MAX_BUFFER_SIZE
      modifies this
      ensures Valid() && chunks == incoming
      ensures ShortLines(Concat(incoming)) ==>
                messages == Lines(Concat(incoming)) && messageBuffer == Tail(Concat(incoming))
    {
      for i := 0 to |incoming|
        invariant Valid() && chunks == incoming[..i]
      {
        var ok := ReceiveData(Data(incoming[i]));
        assert incoming[..i + 1] == incoming[..i] + [incoming[i]];
      }
      assert incoming[..|incoming|] == incoming;
      ChunkIndependence(Concat(incoming));
      assert Chunking(incoming, Concat(incoming));
    }
  }
}
