/** The TLS bridge: the plaintext HTTP request written once the TLS
    connection is up, the forwarding of ciphertext to the WebSocket send
    queue, the forwarding of WebSocket messages to the TLS engine, and the
    hand-off of decrypted chunks to the pull loop that feeds the line
    reassembler. The TLS engine itself is outside the model: its callbacks
    (`connected`, `tlsDataReady`, `dataReady`, `closed`, `error`) become
    methods called with the values the engine would pass. */
module TlsBridge {
  import opened Common
  import opened Text
  import opened LineStream
  import opened WebSocket
  import HttpResponse

  // ---------------------------------------------------------------------
  // The request payload (the `connected` callback)
  // ---------------------------------------------------------------------

  /** The request options used by the bridge. `headers` lists the header
      object's entries in key order. */
  datatype Request = Request(verb: string, url: string, headers: seq<(string, string)>, body: string)

  const CONTENT_TYPE_LINE := "Content-Type: application/javascript"

  function RequestLine(req: Request): string
  {
    req.verb + " " + req.url + " HTTP/1.1"
  }

  /** One `key: value` line per header entry, in order. */
  function HeaderLines(headers: seq<(string, string)>): (lines: seq<string>)
    ensures |lines| == |headers|
    ensures forall k :: 0 <= k < |headers| ==> lines[k] == headers[k].0 + ": " + headers[k].1
  {
    seq(|headers|, k requires 0 <= k < |headers| => headers[k].0 + ": " + headers[k].1)
  }

  /** The `Content-Length` line: the body's length in decimal. */
  function ContentLengthLine(body: string): string
  {
    "Content-Length: " + NatToDigits(|body|, 10)
  }

  /** The header section: the request line, the caller's headers, the host
      (taken from the URL by the caller), the fixed content type and the
      content length. */
  function HeaderSection(req: Request, host: string): (lines: seq<string>)
    ensures |lines| == |req.headers| + 4
  {
    [RequestLine(req)] + HeaderLines(req.headers)
    + ["Host: " + host, CONTENT_TYPE_LINE, ContentLengthLine(req.body)]
  }

  /** The request lines: the header section, an empty line, the body, and
      two empty lines. */
  function RequestLines(req: Request, host: string): seq<string>
  {
    HeaderSection(req, host) + ["", req.body, "", ""]
  }

  /** The payload handed to the TLS engine: the request lines joined with
      CRLF. */
  function RequestPayload(req: Request, host: string): string
  {
    Join(RequestLines(req, host), CRLF)
  }

  /** The payload starts with the request line and a CRLF. */
  lemma PayloadStart(req: Request, host: string)
    ensures RequestPayload(req, host) == RequestLine(req) + CRLF + Join(RequestLines(req, host)[1..], CRLF)
    ensures |RequestPayload(req, host)| >= |RequestLine(req)| + 2
    ensures RequestPayload(req, host)[..|RequestLine(req)| + 2] == RequestLine(req) + CRLF
  {
    var lines := RequestLines(req, host);
    assert |lines| >= 2 && lines[0] == RequestLine(req);
    var p := RequestLine(req) + CRLF;
    assert (p + Join(lines[1..], CRLF))[..|p|] == p;
  }

  /** The header section is followed by an empty line, the body and two
      empty lines, so the payload ends with CRLF CRLF, the body, CRLF CRLF. */
  lemma PayloadEnd(req: Request, host: string)
    ensures RequestPayload(req, host)
            == Join(HeaderSection(req, host), CRLF) + CRLF + CRLF + req.body + CRLF + CRLF
    ensures |RequestPayload(req, host)| >= |req.body| + 8
    ensures RequestPayload(req, host)[|RequestPayload(req, host)| - (|req.body| + 8)..]
            == CRLF + CRLF + req.body + CRLF + CRLF
  {
    JoinAppend(HeaderSection(req, host), ["", req.body, "", ""], CRLF);
    JoinEnding(req.body);
    EndsWith(Join(HeaderSection(req, host), CRLF), CRLF + CRLF + req.body + CRLF + CRLF);
  }

  /** The closing lines joined: an empty line, the body, two empty lines. */
  lemma JoinEnding(body: string)
    ensures Join(["", body, "", ""], CRLF) == CRLF + body + CRLF + CRLF
  {
    var tail := ["", body, "", ""];
    assert tail[1..] == [body, "", ""];
    assert tail[1..][1..] == ["", ""];
    assert tail[1..][1..][1..] == [""];
    assert Join(["", ""], CRLF) == CRLF;
  }

  /** A suffix is recovered by slicing off the prefix. */
  lemma EndsWith(a: string, b: string)
    ensures (a + b)[|a + b| - |b|..] == b
  {
  }

  /** The `Content-Length` line read back as a header field gives the
      body's length. */
  lemma ContentLengthParses(body: string)
    ensures HttpResponse.HeaderField(ContentLengthLine(body)).Some?
    ensures HttpResponse.HeaderField(ContentLengthLine(body)).value.0 == "Content-Length"
    ensures ParseInt(HttpResponse.HeaderField(ContentLengthLine(body)).value.1, 0) == Some(|body|)
  {
    var digits := NatToDigits(|body|, 10);
    var parts := ["Content-Length", " " + digits];
    assert ':' !in " " + digits by {
      forall k | 0 <= k < |digits| ensures digits[k] != ':' {
        assert IsDigit(digits[k], 10);
      }
    }
    assert Join(parts, ":") == ContentLengthLine(body);
    HttpResponse.HeaderFieldOf(parts);
    assert [' '] + digits == " " + digits;
    TrimLeadingWhite(' ', digits);
    NotWhiteDigit(digits[0], 10);
    NotWhiteDigit(digits[|digits| - 1], 10);
    TrimUnchanged(digits);
    ParseIntOfDecimal(|body|);
  }

  /** No carriage return in any piece of the request. */
  predicate FreeOfCarriageReturn(req: Request, host: string)
  {
    '\r' !in req.verb && '\r' !in req.url && '\r' !in host && '\r' !in req.body
    && forall k :: 0 <= k < |req.headers| ==> '\r' !in req.headers[k].0 && '\r' !in req.headers[k].1
  }

  /** When no piece holds a carriage return, the line reassembler recovers
      exactly the request lines from the payload. */
  lemma PayloadLines(req: Request, host: string)
    requires FreeOfCarriageReturn(req, host)
    ensures Lines([RequestPayload(req, host)]) == RequestLines(req, host)
  {
    var lines := RequestLines(req, host);
    RequestLinesFreeOfCr(req, host);
    forall line | line in lines ensures Free(line, CRLF) {
      FreeOfCr(line);
    }
    LinesOfJoined(lines);
  }

  /** No request line holds a carriage return when no piece does; the
      content length is written in decimal digits. */
  lemma RequestLinesFreeOfCr(req: Request, host: string)
    requires FreeOfCarriageReturn(req, host)
    ensures forall line :: line in RequestLines(req, host) ==> '\r' !in line
  {
    RequestLineFreeOfCr(req);
    HeaderLinesFreeOfCr(req.headers);
    FixedLinesFreeOfCr(host, req.body);
    var closing := ["Host: " + host, CONTENT_TYPE_LINE, ContentLengthLine(req.body), "", req.body, "", ""];
    assert RequestLines(req, host) == [RequestLine(req)] + HeaderLines(req.headers) + closing;
  }

  /** The request line holds no carriage return when the verb and URL hold
      none. */
  lemma RequestLineFreeOfCr(req: Request)
    requires '\r' !in req.verb && '\r' !in req.url
    ensures '\r' !in RequestLine(req)
  {
    NoCrJoined(req.verb, " ", req.url + " HTTP/1.1");
  }

  /** The host, content-type and content-length lines hold no carriage
      return when the host holds none; the length is written in decimal
      digits. */
  lemma FixedLinesFreeOfCr(host: string, body: string)
    requires '\r' !in host
    ensures '\r' !in "Host: " + host && '\r' !in CONTENT_TYPE_LINE && '\r' !in ContentLengthLine(body)
  {
    var digits := NatToDigits(|body|, 10);
    assert '\r' !in digits by {
      forall k | 0 <= k < |digits| ensures digits[k] != '\r' {
        assert IsDigit(digits[k], 10);
      }
    }
    NoCrJoined("Host: ", "", host);
    NoCrJoined("Content-Length: ", "", digits);
  }

  /** No header line holds a carriage return when no key or value does. */
  lemma HeaderLinesFreeOfCr(headers: seq<(string, string)>)
    requires forall k :: 0 <= k < |headers| ==> '\r' !in headers[k].0 && '\r' !in headers[k].1
    ensures forall line :: line in HeaderLines(headers) ==> '\r' !in line
  {
    var lines := HeaderLines(headers);
    forall k | 0 <= k < |lines| ensures '\r' !in lines[k] {
      NoCrJoined(headers[k].0, ": ", headers[k].1);
    }
  }

  /** Concatenation brings in no carriage return. */
  lemma NoCrJoined(a: string, b: string, c: string)
    requires '\r' !in a && '\r' !in b && '\r' !in c
    ensures '\r' !in a + b + c
  {
  }

  // ---------------------------------------------------------------------
  // Ciphertext forwarding (the `tlsDataReady` callback)
  // ---------------------------------------------------------------------

  /** The byte array built from the engine's binary string, one byte per
      character code. */
  method ByteBuffer(data: string) returns (bytes: seq<Byte>)
    ensures bytes == BytesOfChars(data)
  {
    var buffer := new Byte[|data|](_ => 0);
    for i := 0 to |data|
      invariant forall k :: 0 <= k < i ==> buffer[k] == data[k] as int % 0x100
    {
      buffer[i] := data[i] as int % 0x100;
    }
    bytes := buffer[..];
  }

  // ---------------------------------------------------------------------
  // The plaintext hand-off
  // ---------------------------------------------------------------------

  /** Where the pull loop stands: ready to be pulled, suspended on the
      promise its watcher resolves, or returned. */
  datatype Consumer = Ready | Waiting | Finished

  /** The hand-off state: the chunk stack, whether the watch slot is filled,
      the pull loop, whether the client is still set, and every chunk the
      pull loop has handed out so far. */
  datatype PullState = PullState(
    buffer: seq<string>, watchSet: bool, consumer: Consumer, active: bool, yielded: seq<string>)

  /** What one pull gives: a chunk, a suspension, or the end of the loop. */
  datatype Pulled = Chunk(chunk: string) | Suspended | Ended

  /** A watch is set only by a pull that found the stack empty, and it is
      cleared before anything is pushed past it; the loop only returns once
      the client is gone. */
  predicate Inv(st: PullState)
  {
    (st.watchSet ==> st.consumer == Waiting && st.buffer == [])
    && (st.consumer == Finished ==> !st.active)
  }

  /** Suspended with no watch left to wake the pull loop. */
  predicate Hung(st: PullState)
  {
    st.consumer == Waiting && !st.watchSet
  }

  /** The watcher: it empties the watch slot, then resolves the pending pull
      with the top of the stack, if there is one. */
  function WatchStep(st: PullState): PullState
    requires st.watchSet
  {
    var cleared := st.(watchSet := false);
    if st.buffer == [] then cleared
    else
      cleared.(buffer := st.buffer[..|st.buffer| - 1], consumer := Ready,
               yielded := st.yielded + [st.buffer[|st.buffer| - 1]])
  }

  /** `onData`: push the chunk if there is one, then run the watcher if one
      is set. */
  function OnDataStep(st: PullState, msg: Option<string>): PullState
  {
    var pushed := if msg.Some? then st.(buffer := st.buffer + [msg.value]) else st;
    if pushed.watchSet then WatchStep(pushed) else pushed
  }

  /** `closed`: the client is dropped, then `onData` runs with nothing. */
  function ClosedStep(st: PullState): PullState
  {
    OnDataStep(st.(active := false), None)
  }

  /** `error`: `onData` runs with nothing; the client stays set. */
  function ErrorStep(st: PullState): PullState
  {
    OnDataStep(st, None)
  }

  /** One turn of the pull loop: return once the client is gone, pop the
      top of the stack if there is one, otherwise set the watch and wait. */
  function PullStep(st: PullState): PullState
    requires st.consumer == Ready
  {
    if !st.active then st.(consumer := Finished)
    else if st.buffer != [] then
      st.(buffer := st.buffer[..|st.buffer| - 1], yielded := st.yielded + [st.buffer[|st.buffer| - 1]])
    else st.(watchSet := true, consumer := Waiting)
  }

  /** `n` pulls in a row, stopping early when the loop suspends or returns. */
  function Drain(st: PullState, n: nat): PullState
    decreases n
  {
    if n == 0 || st.consumer != Ready then st else Drain(PullStep(st), n - 1)
  }

  function Reverse(s: seq<string>): (r: seq<string>)
    ensures |r| == |s|
  {
    if s == [] then [] else [s[|s| - 1]] + Reverse(s[..|s| - 1])
  }

  /** Every event keeps the invariant; after any event the watch slot is
      empty, so at most one notifier is ever pending; only `closed` changes
      whether the client is set. */
  lemma StepsKeepInv(st: PullState, msg: Option<string>)
    requires Inv(st)
    ensures Inv(OnDataStep(st, msg)) && Inv(ClosedStep(st)) && Inv(ErrorStep(st))
    ensures st.consumer == Ready ==> Inv(PullStep(st))
    ensures !OnDataStep(st, msg).watchSet && !ClosedStep(st).watchSet && !ErrorStep(st).watchSet
    ensures OnDataStep(st, msg).active == st.active && !ClosedStep(st).active
    ensures st.consumer == Ready ==> PullStep(st).active == st.active
  {
  }

  /** With no watch set, `onData` appends a chunk to the end of the stack
      and leaves everything unchanged for nothing. */
  lemma OnDataWithoutWatch(st: PullState, msg: Option<string>)
    requires !st.watchSet
    ensures msg.Some? ==> OnDataStep(st, msg) == st.(buffer := st.buffer + [msg.value])
    ensures msg.None? ==> OnDataStep(st, msg) == st
  {
  }

  /** A suspended pull is resumed by the next chunk, which it receives at
      once; a notification with nothing pushed leaves the pull loop
      suspended for good. */
  lemma WatchResolves(st: PullState, msg: Option<string>)
    requires Inv(st) && st.watchSet
    ensures msg.Some? ==>
      OnDataStep(st, msg)
      == st.(watchSet := false, consumer := Ready, yielded := st.yielded + [msg.value])
    ensures msg.None? ==> Hung(OnDataStep(st, msg)) && OnDataStep(st, msg).yielded == st.yielded
  {
    if msg.Some? {
      assert (st.buffer + [msg.value])[..|st.buffer|] == st.buffer;
    }
  }

  /** A pull loop with no watch to wake it never receives another chunk,
      whatever the engine does: data is stacked but not delivered. */
  lemma HungStaysHung(st: PullState, msg: Option<string>)
    requires Hung(st)
    ensures Hung(OnDataStep(st, msg)) && OnDataStep(st, msg).yielded == st.yielded
    ensures Hung(ClosedStep(st)) && ClosedStep(st).yielded == st.yielded
    ensures Hung(ErrorStep(st)) && ErrorStep(st).yielded == st.yielded
  {
  }

  /** The connection closing while the pull loop waits leaves it suspended
      for good: the loop never gets back to its test of the client. */
  lemma CloseWhileWaiting(st: PullState)
    requires Inv(st) && st.watchSet
    ensures Hung(ClosedStep(st)) && ClosedStep(st).yielded == st.yielded
  {
    WatchResolves(st.(active := false), None);
  }

  /** A pull after `closed` ends the loop, and chunks still on the stack are
      never handed out. */
  lemma CloseEndsLoop(st: PullState)
    requires Inv(st) && st.consumer == Ready
    ensures PullStep(ClosedStep(st)).consumer == Finished
    ensures PullStep(ClosedStep(st)).yielded == st.yielded
    ensures PullStep(ClosedStep(st)).buffer == st.buffer
  {
  }

  /** Delivery is last in, first out: draining a stack of chunks hands them
      out in reverse order of arrival and leaves the stack empty. */
  lemma {:induction false} LifoDrain(st: PullState)
    requires st.consumer == Ready && st.active
    ensures Drain(st, |st.buffer|) == st.(buffer := [], yielded := st.yielded + Reverse(st.buffer))
    decreases |st.buffer|
  {
    if st.buffer != [] {
      var last := st.buffer[|st.buffer| - 1];
      var next := PullStep(st);
      assert next == st.(buffer := st.buffer[..|st.buffer| - 1], yielded := st.yielded + [last]);
      LifoDrain(next);
      assert st.yielded + [last] + Reverse(next.buffer) == st.yielded + Reverse(st.buffer);
    }
  }

  /** Two chunks that arrive while nobody is pulling come out in reverse
      order. */
  lemma ArrivalOrderReversed(st: PullState, a: string, b: string)
    requires Inv(st) && st.consumer == Ready && st.active && st.buffer == []
    ensures Drain(OnDataStep(OnDataStep(st, Some(a)), Some(b)), 2).yielded == st.yielded + [b, a]
  {
    var pushed := OnDataStep(OnDataStep(st, Some(a)), Some(b));
    assert pushed == st.(buffer := [a, b]);
    LifoDrain(pushed);
    assert Reverse([a, b]) == [b, a] by {
      assert [a, b][..1] == [a];
      assert [a][..0] == [];
    }
  }

  /** The bridge object: the WebSocket it tunnels through and the hand-off
      state, with the pull loop's position and output as fields. */
  class TlsStream {
    var webSocket: WebSock
    var buffer: seq<string>
    var watchSet: bool
    var consumer: Consumer
    var active: bool
    var yielded: seq<string>

    function State(): PullState
      reads this
    {
      PullState(buffer, watchSet, consumer, active, yielded)
    }

    ghost predicate Valid()
      reads this, webSocket
    {
      webSocket.Valid() && Inv(State())
    }

    /** `setupTlsStream` and the socket's `init`: a fresh queue object, an
        empty stack, no watch, the client set. */
    constructor()
      ensures Valid() && fresh(webSocket) && fresh(webSocket.receiveQueue) && fresh(webSocket.sendQueue)
      ensures State() == PullState([], false, Ready, true, [])
      ensures webSocket.Unread() == [] && webSocket.Pending() == [] && webSocket.transmitted == []
    {
      var ws := new WebSock();
      ws.Init();
      webSocket := ws;
      buffer := [];
      watchSet := false;
      consumer := Ready;
      active := true;
      yielded := [];
    }

    /** The watch callback. */
    method Watch()
      requires watchSet
      modifies this
      ensures webSocket == old(webSocket) && State() == WatchStep(old(State()))
    {
      watchSet := false;
      if |buffer| > 0 {
        var chunk := buffer[|buffer| - 1];
        buffer := buffer[..|buffer| - 1];
        consumer := Ready;
        yielded := yielded + [chunk];
      }
    }

    /** `onData`, reached from `dataReady` with the decrypted chunk. */
    method OnData(msg: Option<string>)
      requires Valid()
      modifies this
      ensures Valid() && webSocket == old(webSocket)
      ensures State() == OnDataStep(old(State()), msg)
    {
      StepsKeepInv(State(), msg);
      if msg.Some? {
        buffer := buffer + [msg.value];
      }
      if watchSet {
        Watch();
      }
    }

    /** `closed`. */
    method Closed()
      requires Valid()
      modifies this
      ensures Valid() && webSocket == old(webSocket)
      ensures State() == ClosedStep(old(State()))
    {
      StepsKeepInv(State(), None);
      active := false;
      if watchSet {
        Watch();
      }
    }

    /** `error`: logged (not modelled), then `onData` with nothing. */
    method Errored()
      requires Valid()
      modifies this
      ensures Valid() && webSocket == old(webSocket)
      ensures State() == ErrorStep(old(State()))
    {
      OnData(None);
    }

    /** One turn of the `openTlsStream` loop. */
    method Pull() returns (r: Pulled)
      requires Valid() && consumer == Ready
      modifies this
      ensures Valid() && webSocket == old(webSocket)
      ensures State() == PullStep(old(State()))
      ensures r == Ended <==> !old(active)
      ensures r == Suspended <==> old(active) && old(buffer) == []
      ensures r.Chunk? ==> old(buffer) != [] && r.chunk == old(buffer)[|old(buffer)| - 1]
                           && buffer == old(buffer)[..|old(buffer)| - 1] && yielded == old(yielded) + [r.chunk]
    {
      if !active {
        consumer := Finished;
        return Ended;
      }
      if |buffer| > 0 {
        var chunk := buffer[|buffer| - 1];
        buffer := buffer[..|buffer| - 1];
        yielded := yielded + [chunk];
        return Chunk(chunk);
      }
      watchSet := true;
      consumer := Waiting;
      r := Suspended;
    }

    /** `tlsDataReady`: nothing for an empty string, otherwise the bytes of
        the string go through the send queue. */
    method TlsDataReady(data: string) returns (outcome: Outcome)
      requires Valid()
      modifies webSocket, webSocket.sendQueue
      ensures Valid() && webSocket.Unread() == old(webSocket.Unread())
      ensures data == [] ==> outcome.Done? && webSocket.transmitted == old(webSocket.transmitted)
                             && webSocket.Pending() == old(webSocket.Pending())
      ensures outcome.Failed? <==> old(webSocket.sQlen) + |data| > webSocket.sQbufferSize
      ensures outcome.Done? ==>
        Flatten(webSocket.transmitted) + webSocket.Pending()
        == Flatten(old(webSocket.transmitted)) + old(webSocket.Pending()) + BytesOfChars(data)
    {
      if |data| == 0 {
        return Done;
      }
      var bytes := ByteBuffer(data);
      outcome := webSocket.Send(bytes);
    }

    /** The socket's `message` handler: every unread byte is taken off the
        receive queue as a string for the TLS engine. Once `closed` has
        dropped the client, the call into it throws, after the bytes have
        left the queue. */
    method OnSocketMessage() returns (msg: string, outcome: Outcome)
      requires Valid()
      modifies webSocket
      ensures Valid() && State() == old(State())
      ensures msg == CharsOfBytes(old(webSocket.Unread())) && webSocket.Unread() == []
      ensures outcome.Done? <==> active
      ensures outcome.Failed? ==> outcome.error == HandlerError
    {
      msg := webSocket.ReceiveQueueShift(None);
      outcome := if active then Done else Failed(HandlerError);
    }

    /** A WebSocket message arriving: it is appended to the receive queue,
        whose handler (`OnSocketMessage`) takes every unread byte and throws
        when the client is gone, which leaves the queue uncompacted. */
    method SocketMessage(data: seq<Byte>) returns (outcome: Outcome)
      requires Valid()
      modifies webSocket, webSocket.receiveQueue
      ensures Valid() && State() == old(State())
      ensures webSocket.Pending() == old(webSocket.Pending())
      ensures outcome.Failed? && outcome.error != HandlerError <==>
        (|data| > old(webSocket.rQbufferSize - webSocket.rQlen)
         && old(|webSocket.Unread()|) + |data| > MAX_RQ_GROW_SIZE)
        || (|data| <= old(webSocket.rQbufferSize - webSocket.rQlen)
            && old(webSocket.rQlen) + |data| > old(webSocket.receiveQueue.Length))
      ensures outcome.Done? ==> webSocket.Unread() == [] && (active || old(|webSocket.Unread()|) + |data| == 0)
      ensures outcome.Done? && old(|webSocket.Unread()|) + |data| > 0 ==> webSocket.rQi == 0 && webSocket.rQlen == 0
      ensures outcome == Failed(HandlerError) ==> !active && webSocket.Unread() == []
      ensures outcome == Failed(HandlerError) && |data| <= old(webSocket.rQbufferSize - webSocket.rQlen) ==>
        webSocket.rQi == webSocket.rQlen == old(webSocket.rQlen) + |data|
    {
      var all := webSocket.rQlen - webSocket.rQi + |data|;
      outcome := webSocket.RecvMessage(data, all, !active);
    }
  }
}
