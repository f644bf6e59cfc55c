/** The HTTP/1.1 response decoder (`handleResponse`): a status line, header
    lines up to the first empty line, then a body that must use the chunked
    transfer coding of section 7.1 of RFC 9112, in the simplified form where
    every chunk size line is followed by exactly one payload line. */
module HttpResponse {
  import opened Common
  import opened Text

  /** The conditions under which the decoder throws. Those raised in or
      after the body also record how many times the TLS client had already
      been asked to close. */
  datatype DecodeError =
    | HeaderWithoutValue(line: string)          // `value.trim()` on an undefined value
    | UnsupportedEncoding(encoding: Option<string>, closes: nat)
    | ChunkWithoutPayload(closes: nat)
    | StatusCodeMissing(closes: nat)            // `statusCode.trim()` on an undefined token

  datatype Result<T> = Ok(value: T) | Err(error: DecodeError)

  /** The response handed to the caller. `status` is `None` where
      `parseInt` yields `NaN`; `statusText` is `None` where the status line
      has no third token. */
  datatype Response = Response(
    status: Option<int>,
    statusText: Option<string>,
    headers: map<string, string>,
    body: string)

  /** What one decoding run produces: the response, or none for an empty
      stream, and how many times it asked the TLS client to close. */
  datatype Decoded = Decoded(response: Option<Response>, closeCalls: nat)

  datatype Mode = Headers | Body

  const TRANSFER_ENCODING: string := "Transfer-Encoding"
  const CHUNKED: string := "chunked"

  /** The first empty line at or after `i`, or the end of the lines. */
  function HeaderEnd(lines: seq<string>, i: nat): (h: nat)
    requires i <= |lines|
    ensures i <= h <= |lines|
    ensures h < |lines| ==> lines[h] == ""
    decreases |lines| - i
  {
    if i == |lines| || lines[i] == "" then i else HeaderEnd(lines, i + 1)
  }

  /** No line before the end of the header section is empty. */
  lemma {:induction false} HeaderEndIsFirst(lines: seq<string>, i: nat, k: nat)
    requires i <= k < |lines| && k < HeaderEnd(lines, i)
    ensures lines[k] != ""
    decreases |lines| - i
  {
    if i < k {
      HeaderEndIsFirst(lines, i + 1, k);
    }
  }

  /** The name and trimmed value of a header line: the text before its first
      colon and the text between its first and second colon. */
  function HeaderField(line: string): Option<(string, string)>
  {
    var parts := Split(line, ":");
    if |parts| < 2 then None else Some((parts[0], Trim(parts[1])))
  }

  /** The header map after storing the header lines `ls` into `acc`, one
      assignment per line, or the first line that has no value. */
  function ParseHeaders(ls: seq<string>, acc: map<string, string>): Result<map<string, string>>
  {
    if ls == [] then Ok(acc)
    else match HeaderField(ls[0])
      case None => Err(HeaderWithoutValue(ls[0]))
      case Some((name, value)) => ParseHeaders(ls[1..], acc[name := value])
  }

  function EncodingOf(headers: map<string, string>): Option<string>
  {
    if TRANSFER_ENCODING in headers then Some(headers[TRANSFER_ENCODING]) else None
  }

  /** A chunk size line announcing the end of the body: `parseInt(line, 16)`
      compares equal to 0. */
  predicate IsLastChunk(line: string)
  {
    ParseInt(line, 16) == Some(0)
  }

  /** The hexadecimal digits at the head of `v`, up to the first character
      that is not one, are all `0`. */
  predicate ZeroRun(v: string)
    decreases |v|
  {
    v == [] || !IsDigit(v[0], 16) || (v[0] == '0' && ZeroRun(v[1..]))
  }

  /** What follows the sign of a size line of zero: an optional `0x` prefix,
      then at least one `0` and no other hexadecimal digit before the first
      character that is not one. */
  predicate ZeroDigits(u: string)
  {
    var v := if |u| >= 2 && u[0] == '0' && (u[1] == 'x' || u[1] == 'X') then u[2..] else u;
    v != [] && v[0] == '0' && ZeroRun(v)
  }

  /** The last-chunk test read character by character: white space, an
      optional sign, then `ZeroDigits`. `ZeroSizeLineParses` shows it is
      `IsLastChunk`. */
  predicate ZeroSizeLine(line: string)
    decreases |line|
  {
    line != []
    && if IsWhite(line[0]) then ZeroSizeLine(line[1..])
       else ZeroDigits(if line[0] == '-' || line[0] == '+' then line[1..] else line)
  }

  lemma {:induction false} ZeroRunAll(v: string)
    ensures ZeroRun(v) <==> forall k :: 0 <= k < DigitRun(v, 16) ==> v[k] == '0'
    decreases |v|
  {
    if v != [] && IsDigit(v[0], 16) {
      ZeroRunAll(v[1..]);
      assert forall k :: 1 <= k < DigitRun(v, 16) ==> v[k] == v[1..][k - 1];
    }
  }

  lemma ZeroRunParses(v: string)
    ensures LeadingDigits(v, 16) == Some(0) <==> v != [] && v[0] == '0' && ZeroRun(v)
  {
    var n := DigitRun(v, 16);
    ZeroRunAll(v);
    DigitRunDigits(v, 16);
    DigitsValueZero(v[..n], 16);
  }

  lemma ZeroDigitsParse(u: string)
    ensures ZeroDigits(u) <==> ParseUnsigned(u, 16) == Some(0)
  {
    var v := if |u| >= 2 && u[0] == '0' && (u[1] == 'x' || u[1] == 'X') then u[2..] else u;
    ZeroRunParses(v);
  }

  /** The character-by-character test agrees with `parseInt(line, 16) == 0`. */
  lemma {:induction false} ZeroSizeLineParses(line: string)
    ensures ZeroSizeLine(line) <==> IsLastChunk(line)
    decreases |line|
  {
    if line == [] {
      assert TrimStart(line) == line;
    } else if IsWhite(line[0]) {
      ZeroSizeLineParses(line[1..]);
      ParseIntSkipsWhite(line, 16);
    } else {
      ZeroSizeLineAfterWhite(line);
    }
  }

  lemma ZeroSizeLineAfterWhite(line: string)
    requires line != [] && !IsWhite(line[0])
    ensures ZeroSizeLine(line) <==> IsLastChunk(line)
  {
    assert TrimStart(line) == line;
    ZeroDigitsParse(if line[0] == '-' || line[0] == '+' then line[1..] else line);
  }

  /** The body lines `ls` decoded onto the body `body` read so far, with
      `closes` close requests made so far. Empty lines are skipped; a size
      line of 0 requests a close and decoding goes on with the next line; any
      other size line takes the line after it as its payload. */
  function ChunkedBody(ls: seq<string>, encoding: Option<string>, body: string, closes: nat)
    : Result<(string, nat)>
    decreases |ls|
  {
    if ls == [] then Ok((body, closes))
    else if ls[0] == "" then ChunkedBody(ls[1..], encoding, body, closes)
    else if encoding != Some(CHUNKED) then Err(UnsupportedEncoding(encoding, closes))
    else if ZeroSizeLine(ls[0]) then ChunkedBody(ls[1..], encoding, body, closes + 1)
    else if |ls| == 1 then Err(ChunkWithoutPayload(closes))
    else ChunkedBody(ls[2..], encoding, body + ls[1], closes)
  }

  /** The body decoded from the lines after the header section ending at
      `h`; there is none when no empty line ends the headers. */
  function BodyAfter(lines: seq<string>, h: nat, headers: map<string, string>): Result<(string, nat)>
    requires h <= |lines|
  {
    if h == |lines| then Ok(("", 0)) else ChunkedBody(lines[h + 1..], EncodingOf(headers), "", 0)
  }

  /** The response built once the whole stream is read: the status code is
      the second space-separated token of the status line, the status text
      the third (and only the third). */
  function Assemble(statusLine: string, headers: map<string, string>, body: string, closes: nat)
    : Result<Decoded>
  {
    var tokens := Split(statusLine, " ");
    if |tokens| < 2 then Err(StatusCodeMissing(closes))
    else
      var statusText := if |tokens| >= 3 then Some(tokens[2]) else None;
      Ok(Decoded(Some(Response(ParseInt(Trim(tokens[1]), 0), statusText, headers, body)), closes))
  }

  /** What the decoding loop gathers after the status line. */
  datatype Sections = Sections(headers: map<string, string>, body: string, closes: nat)

  /** The header section ending at the first empty line after the status
      line, and the body decoded from the lines after it. */
  function SectionsOf(lines: seq<string>): Result<Sections>
    requires lines != []
  {
    var h := HeaderEnd(lines, 1);
    match ParseHeaders(lines[1..h], map[])
    case Err(e) => Err(e)
    case Ok(headers) =>
      match BodyAfter(lines, h, headers)
      case Err(e) => Err(e)
      case Ok((text, closes)) => Ok(Sections(headers, text, closes))
  }

  /** The outcome of decoding the whole line sequence: nothing for an empty
      stream, otherwise the response assembled from the status line and the
      sections after it. */
  function DecodeResponse(lines: seq<string>): (r: Result<Decoded>)
    ensures r.Ok? && r.value.response.None? <==> lines == []
  {
    if lines == [] then Ok(Decoded(None, 0))
    else
      match SectionsOf(lines)
      case Err(e) => Err(e)
      case Ok(sections) => Assemble(lines[0], sections.headers, sections.body, sections.closes)
  }

  lemma SectionsHeaderError(lines: seq<string>, e: DecodeError)
    requires lines != [] && ParseHeaders(lines[1..HeaderEnd(lines, 1)], map[]) == Err(e)
    ensures SectionsOf(lines) == Err(e)
  {
  }

  lemma SectionsBodyError(lines: seq<string>, headers: map<string, string>, e: DecodeError)
    requires lines != [] && ParseHeaders(lines[1..HeaderEnd(lines, 1)], map[]) == Ok(headers)
    requires BodyAfter(lines, HeaderEnd(lines, 1), headers) == Err(e)
    ensures SectionsOf(lines) == Err(e)
  {
  }

  lemma SectionsComplete(lines: seq<string>, headers: map<string, string>, body: string, closes: nat)
    requires lines != [] && ParseHeaders(lines[1..HeaderEnd(lines, 1)], map[]) == Ok(headers)
    requires BodyAfter(lines, HeaderEnd(lines, 1), headers) == Ok((body, closes))
    ensures SectionsOf(lines) == Ok(Sections(headers, body, closes))
  {
  }

  lemma DecodeSections(lines: seq<string>, sections: Sections)
    requires lines != [] && SectionsOf(lines) == Ok(sections)
    ensures DecodeResponse(lines) == Assemble(lines[0], sections.headers, sections.body, sections.closes)
  {
  }

  /** One header line read from position `i` of the header section. */
  lemma HeaderStep(lines: seq<string>, i: nat, h: nat, headers: map<string, string>)
    requires i < h <= |lines|
    ensures ParseHeaders(lines[i..h], headers)
            == match HeaderField(lines[i])
               case None => Err(HeaderWithoutValue(lines[i]))
               case Some((key, value)) => ParseHeaders(lines[i + 1..h], headers[key := value])
  {
    assert lines[i..h][0] == lines[i] && lines[i..h][1..] == lines[i + 1..h];
  }

  /** An empty body line is skipped. */
  lemma EmptyLineStep(lines: seq<string>, i: nat, encoding: Option<string>, body: string, closes: nat)
    requires i < |lines| && lines[i] == ""
    ensures ChunkedBody(lines[i..], encoding, body, closes) == ChunkedBody(lines[i + 1..], encoding, body, closes)
  {
    assert lines[i..][0] == lines[i] && lines[i..][1..] == lines[i + 1..];
  }

  /** One non-empty body line read from position `i`. */
  lemma ChunkedStep(lines: seq<string>, i: nat, encoding: Option<string>, body: string, closes: nat)
    requires i < |lines| && lines[i] != ""
    ensures encoding != Some(CHUNKED) ==>
      ChunkedBody(lines[i..], encoding, body, closes) == Err(UnsupportedEncoding(encoding, closes))
    ensures encoding == Some(CHUNKED) && ZeroSizeLine(lines[i]) ==>
      ChunkedBody(lines[i..], encoding, body, closes) == ChunkedBody(lines[i + 1..], encoding, body, closes + 1)
    ensures encoding == Some(CHUNKED) && !ZeroSizeLine(lines[i]) && i + 1 == |lines| ==>
      ChunkedBody(lines[i..], encoding, body, closes) == Err(ChunkWithoutPayload(closes))
    ensures encoding == Some(CHUNKED) && !ZeroSizeLine(lines[i]) && i + 1 < |lines| ==>
      ChunkedBody(lines[i..], encoding, body, closes)
      == ChunkedBody(lines[i + 2..], encoding, body + lines[i + 1], closes)
  {
    assert lines[i..][0] == lines[i] && lines[i..][1..] == lines[i + 1..];
    if i + 1 < |lines| {
      assert lines[i..][1] == lines[i + 1] && lines[i..][2..] == lines[i + 2..];
    }
  }

  /** Whether a value pulled from the line stream is absent: the stream has
      ended. */
  predicate IsVoid(input: Option<string>)
  {
    input == None
  }

  /** The empty line that ends the header section starts the body. */
  lemma HeadersEnd(lines: seq<string>, i: nat, headers: map<string, string>)
    requires 1 <= i < |lines| && i <= HeaderEnd(lines, 1) && lines[i] == ""
    requires ParseHeaders(lines[i..HeaderEnd(lines, 1)], headers) == ParseHeaders(lines[1..HeaderEnd(lines, 1)], map[])
    ensures i == HeaderEnd(lines, 1)
    ensures ParseHeaders(lines[1..i], map[]) == Ok(headers)
    ensures BodyAfter(lines, i, headers) == ChunkedBody(lines[i + 1..], EncodingOf(headers), "", 0)
  {
    if i < HeaderEnd(lines, 1) {
      HeaderEndIsFirst(lines, 1, i);
    }
    assert lines[i..i] == [];
  }

  /** Lines that end inside the header section leave no body. */
  lemma HeadersExhausted(lines: seq<string>, headers: map<string, string>)
    requires 1 <= |lines| <= HeaderEnd(lines, 1)
    requires ParseHeaders(lines[|lines|..HeaderEnd(lines, 1)], headers) == ParseHeaders(lines[1..HeaderEnd(lines, 1)], map[])
    ensures ParseHeaders(lines[1..HeaderEnd(lines, 1)], map[]) == Ok(headers)
    ensures BodyAfter(lines, HeaderEnd(lines, 1), headers) == Ok(("", 0))
  {
    assert lines[|lines|..|lines|] == [];
  }

  /** The `header` case of the decoding loop for the line at `i`: its name
      and value are stored, or the line has no value. */
  method ReadHeaderLine(lines: seq<string>, i: nat, ghost h: nat, headers: map<string, string>)
    returns (r: Result<map<string, string>>)
    requires i < h <= |lines|
    ensures r.Err? ==> ParseHeaders(lines[i..h], headers) == Err(r.error)
    ensures r.Ok? ==> ParseHeaders(lines[i..h], headers) == ParseHeaders(lines[i + 1..h], r.value)
  {
    HeaderStep(lines, i, h, headers);
    var field := HeaderField(lines[i]);
    if field.None? {
      return Err(HeaderWithoutValue(lines[i]));
    }
    var (key, value) := field.value;
    r := Ok(headers[key := value]);
  }

  /** The `body` case of the decoding loop for the non-empty line at `i`:
      with the chunked coding, a size line of 0 requests a close, any other
      size line pulls the next line as payload; without it, an error. Gives
      the new body, close count and position. */
  method ReadBodyLine(lines: seq<string>, i: nat, encoding: Option<string>, body: string, closes: nat)
    returns (r: Result<(string, nat)>, next: nat)
    requires i < |lines| && lines[i] != ""
    ensures r.Err? ==> ChunkedBody(lines[i..], encoding, body, closes) == Err(r.error)
    ensures r.Ok? ==> i < next <= |lines|
    ensures r.Ok? ==>
      ChunkedBody(lines[i..], encoding, body, closes)
      == ChunkedBody(lines[next..], encoding, r.value.0, r.value.1)
  {
    ChunkedStep(lines, i, encoding, body, closes);
    if encoding == Some(CHUNKED) {
      if ZeroSizeLine(lines[i]) {
        return Ok((body, closes + 1)), i + 1;
      }
      if i + 1 == |lines| {
        return Err(ChunkWithoutPayload(closes)), i;
      }
      return Ok((body + lines[i + 1], closes)), i + 2;
    } else {
      return Err(UnsupportedEncoding(encoding, closes)), i;
    }
  }

  /** Where the decoding loop stands before line `i`: inside the header
      section, the headers stored so far lead to the same outcome as the
      whole section; in the body, the section parsed to `headers`, and
      decoding the remaining lines onto `body` and `closes` gives the body of
      the whole stream. */
  ghost predicate Reading(lines: seq<string>, i: nat, mode: Mode, headers: map<string, string>, body: string, closes: nat)
  {
    1 <= i <= |lines|
    && var h := HeaderEnd(lines, 1);
    match mode
    case Headers =>
      body == "" && closes == 0 && i <= h
      && ParseHeaders(lines[i..h], headers) == ParseHeaders(lines[1..h], map[])
    case Body =>
      h < i && ParseHeaders(lines[1..h], map[]) == Ok(headers)
      && ChunkedBody(lines[i..], EncodingOf(headers), body, closes) == BodyAfter(lines, h, headers)
  }

  /** An empty line ends the header section or is skipped in the body. */
  lemma EmptyLineKeeps(lines: seq<string>, i: nat, mode: Mode, headers: map<string, string>, body: string, closes: nat)
    requires Reading(lines, i, mode, headers, body, closes) && i < |lines| && lines[i] == ""
    ensures Reading(lines, i + 1, Body, headers, body, closes)
  {
    if mode == Headers {
      HeadersEnd(lines, i, headers);
    } else {
      EmptyLineStep(lines, i, EncodingOf(headers), body, closes);
    }
  }

  /** A non-empty line read in header mode lies inside the header section. */
  lemma InsideHeaders(lines: seq<string>, i: nat)
    requires 1 <= i < |lines| && i <= HeaderEnd(lines, 1) && lines[i] != ""
    ensures i < HeaderEnd(lines, 1)
  {
  }

  /** A header line read keeps the loop on course, or its error is the
      decoder's. */
  lemma HeaderLineKeeps(lines: seq<string>, i: nat, headers: map<string, string>, r: Result<map<string, string>>)
    requires Reading(lines, i, Headers, headers, "", 0) && i < HeaderEnd(lines, 1)
    requires r.Err? ==> ParseHeaders(lines[i..HeaderEnd(lines, 1)], headers) == Err(r.error)
    requires r.Ok? ==>
      ParseHeaders(lines[i..HeaderEnd(lines, 1)], headers) == ParseHeaders(lines[i + 1..HeaderEnd(lines, 1)], r.value)
    ensures r.Err? ==> SectionsOf(lines) == Err(r.error)
    ensures r.Ok? ==> Reading(lines, i + 1, Headers, r.value, "", 0)
  {
    if r.Err? {
      SectionsHeaderError(lines, r.error);
    }
  }

  /** A body line read keeps the loop on course, or its error is the
      decoder's. */
  lemma BodyLineKeeps(lines: seq<string>, i: nat, headers: map<string, string>, body: string, closes: nat,
                      r: Result<(string, nat)>, next: nat)
    requires Reading(lines, i, Body, headers, body, closes) && i < |lines|
    requires r.Err? ==> ChunkedBody(lines[i..], EncodingOf(headers), body, closes) == Err(r.error)
    requires r.Ok? ==> i < next <= |lines|
    requires r.Ok? ==>
      ChunkedBody(lines[i..], EncodingOf(headers), body, closes)
      == ChunkedBody(lines[next..], EncodingOf(headers), r.value.0, r.value.1)
    ensures r.Err? ==> SectionsOf(lines) == Err(r.error)
    ensures r.Ok? ==> Reading(lines, next, Body, headers, r.value.0, r.value.1)
  {
    if r.Err? {
      SectionsBodyError(lines, headers, r.error);
    }
  }

  /** Once every line is read, the gathered sections are the decoder's. */
  lemma ReadingDone(lines: seq<string>, mode: Mode, headers: map<string, string>, body: string, closes: nat)
    requires Reading(lines, |lines|, mode, headers, body, closes)
    ensures SectionsOf(lines) == Ok(Sections(headers, body, closes))
  {
    if mode == Headers {
      HeadersExhausted(lines, headers);
    } else {
      assert lines[|lines|..] == [];
    }
    SectionsComplete(lines, headers, body, closes);
  }

  /** The decoding loop over the lines after the status line: one pass,
      switching to body mode at the first empty line, pulling a payload line
      after each non-zero chunk size line. */
  method ReadSections(lines: seq<string>) returns (r: Result<Sections>)
    requires lines != []
    ensures r == SectionsOf(lines)
  {
    var headers: map<string, string> := map[];
    var body := "";
    var closes: nat := 0;
    var mode := Headers;
    var i := 1;
    while i < |lines|
      invariant Reading(lines, i, mode, headers, body, closes)
      decreases |lines| - i
    {
      var line := lines[i];
      if line == "" {
        EmptyLineKeeps(lines, i, mode, headers, body, closes);
        mode := Body;
        i := i + 1;
        continue;
      }
      match mode
      case Headers =>
        InsideHeaders(lines, i);
        var res := ReadHeaderLine(lines, i, HeaderEnd(lines, 1), headers);
        HeaderLineKeeps(lines, i, headers, res);
        if res.Err? {
          return Err(res.error);
        }
        headers := res.value;
        i := i + 1;
      case Body =>
        var res, next := ReadBodyLine(lines, i, EncodingOf(headers), body, closes);
        BodyLineKeeps(lines, i, headers, body, closes, res, next);
        if res.Err? {
          return Err(res.error);
        }
        body, closes, i := res.value.0, res.value.1, next;
    }
    ReadingDone(lines, mode, headers, body, closes);
    r := Ok(Sections(headers, body, closes));
  }

  /** `handleResponse`: nothing when the stream yields no first line;
      otherwise the decoding loop, then the response built from the status
      line split on spaces. */
  method HandleResponse(lines: seq<string>) returns (r: Result<Decoded>)
    ensures r == DecodeResponse(lines)
  {
    var header: Option<string> := if |lines| == 0 then None else Some(lines[0]);
    if IsVoid(header) {
      return Ok(Decoded(None, 0));
    }
    var statusLine := header.value;
    var sections := ReadSections(lines);
    if sections.Err? {
      return Err(sections.error);
    }
    r := Assemble(statusLine, sections.value.headers, sections.value.body, sections.value.closes);
  }

  // ---------------------------------------------------------------------
  // Properties of the decoder

  /** Every payload is non-empty; an empty one would be announced by a
      zero size line, which ends the body instead. */
  predicate NonEmpty(payloads: seq<string>)
  {
    forall k :: 0 <= k < |payloads| ==> payloads[k] != ""
  }

  /** The concatenation of payloads, in order. */
  function Concat(payloads: seq<string>): string
  {
    if payloads == [] then "" else payloads[0] + Concat(payloads[1..])
  }

  /** A chunk size line that does not end the body: non-empty, and not
      `0` in hexadecimal. */
  predicate IsSizeLine(line: string)
  {
    line != "" && !ZeroSizeLine(line)
  }

  /** Size lines for the payloads, one each. */
  predicate SizeLines(sizes: seq<string>, payloads: seq<string>)
  {
    |sizes| == |payloads| && forall k :: 0 <= k < |sizes| ==> IsSizeLine(sizes[k])
  }

  /** A chunked body in the line form the decoder reads: per payload its
      size line and the payload line, then a `0` line and the empty line
      that ends the body. */
  function EncodeChunked(sizes: seq<string>, payloads: seq<string>): (ls: seq<string>)
    requires |sizes| == |payloads|
    ensures |ls| == 2 * |payloads| + 2
  {
    if payloads == [] then ["0", ""]
    else [sizes[0], payloads[0]] + EncodeChunked(sizes[1..], payloads[1..])
  }

  /** The size lines HTTP/1.1 prescribes: each payload's length in
      hexadecimal. */
  function HexSizes(payloads: seq<string>): (sizes: seq<string>)
    ensures |sizes| == |payloads|
  {
    seq(|payloads|, k requires 0 <= k < |payloads| => NatToDigits(|payloads[k]|, 16))
  }

  lemma SizeLineOf(payload: string)
    requires payload != ""
    ensures IsSizeLine(NatToDigits(|payload|, 16))
  {
    ParseIntOfDigits(|payload|, 16);
    ZeroSizeLineParses(NatToDigits(|payload|, 16));
  }

  /** The hexadecimal length of a non-empty payload is a size line; that of
      an empty payload would be `0`, which ends the body instead. */
  lemma HexSizeLines(payloads: seq<string>)
    requires NonEmpty(payloads)
    ensures SizeLines(HexSizes(payloads), payloads)
  {
    forall k | 0 <= k < |payloads| ensures IsSizeLine(HexSizes(payloads)[k]) {
      SizeLineOf(payloads[k]);
    }
  }

  /** A size line takes the line after it as payload. */
  lemma SizeLineStep(size: string, p: string, rest: seq<string>, body: string, closes: nat)
    requires IsSizeLine(size)
    ensures ChunkedBody([size, p] + rest, Some(CHUNKED), body, closes)
            == ChunkedBody(rest, Some(CHUNKED), body + p, closes)
  {
    var ls := [size, p] + rest;
    assert ls[0] == size && ls[1] == p && ls[2..] == rest;
    ChunkedStep(ls, 0, Some(CHUNKED), body, closes);
  }

  /** A size line with nothing after it is an error. */
  lemma SizeLineAlone(size: string, body: string, closes: nat)
    requires IsSizeLine(size)
    ensures ChunkedBody([size], Some(CHUNKED), body, closes) == Err(ChunkWithoutPayload(closes))
  {
    ChunkedStep([size], 0, Some(CHUNKED), body, closes);
  }

  /** A last-chunk line and the empty line after it request one close. */
  lemma LastChunkStep(zero: string, rest: seq<string>, body: string, closes: nat)
    requires ZeroSizeLine(zero)
    ensures ChunkedBody([zero, ""] + rest, Some(CHUNKED), body, closes)
            == ChunkedBody(rest, Some(CHUNKED), body, closes + 1)
  {
    var ls := [zero, ""] + rest;
    assert ls[0] == zero && ls[1] == "" && ls[2..] == rest;
    ChunkedStep(ls, 0, Some(CHUNKED), body, closes);
    EmptyLineStep(ls, 1, Some(CHUNKED), body, closes + 1);
  }

  /** Decoding the chunked form: the first payload moves onto the body. */
  lemma RoundTripStep(sizes: seq<string>, payloads: seq<string>, rest: seq<string>, body: string, closes: nat)
    requires |sizes| == |payloads| > 0 && IsSizeLine(sizes[0])
    ensures ChunkedBody(EncodeChunked(sizes, payloads) + rest, Some(CHUNKED), body, closes)
            == ChunkedBody(EncodeChunked(sizes[1..], payloads[1..]) + rest, Some(CHUNKED), body + payloads[0], closes)
  {
    var tail := EncodeChunked(sizes[1..], payloads[1..]) + rest;
    assert EncodeChunked(sizes, payloads) + rest == [sizes[0], payloads[0]] + tail;
    SizeLineStep(sizes[0], payloads[0], tail, body, closes);
  }

  /** Decoding the chunked form of no payloads: one close. */
  lemma RoundTripLast(rest: seq<string>, body: string, closes: nat)
    ensures ChunkedBody(EncodeChunked([], []) + rest, Some(CHUNKED), body, closes)
            == ChunkedBody(rest, Some(CHUNKED), body, closes + 1)
  {
    LastChunkStep("0", rest, body, closes);
  }

  /** Decoding the chunked form of payloads followed by `rest`: their
      concatenation goes onto the body, one close is requested, and decoding
      goes on with `rest`. */
  lemma {:induction false} ChunkedPrefix(
    sizes: seq<string>, payloads: seq<string>, rest: seq<string>, body: string, closes: nat)
    requires SizeLines(sizes, payloads)
    ensures ChunkedBody(EncodeChunked(sizes, payloads) + rest, Some(CHUNKED), body, closes)
            == ChunkedBody(rest, Some(CHUNKED), body + Concat(payloads), closes + 1)
    decreases |payloads|
  {
    if payloads == [] {
      RoundTripLast(rest, body, closes);
      assert body + Concat(payloads) == body;
    } else {
      RoundTripStep(sizes, payloads, rest, body, closes);
      ChunkedPrefix(sizes[1..], payloads[1..], rest, body + payloads[0], closes);
      assert body + payloads[0] + Concat(payloads[1..]) == body + Concat(payloads);
    }
  }

  /** Decoding the chunked form appends the concatenation of the payloads to
      the body and asks for exactly one close. The size lines are never
      compared with the payloads: any size line that is not `0` takes the
      next line whole. */
  lemma ChunkedRoundTrip(sizes: seq<string>, payloads: seq<string>, body: string, closes: nat)
    requires SizeLines(sizes, payloads)
    ensures ChunkedBody(EncodeChunked(sizes, payloads), Some(CHUNKED), body, closes)
            == Ok((body + Concat(payloads), closes + 1))
  {
    ChunkedPrefix(sizes, payloads, [], body, closes);
    assert EncodeChunked(sizes, payloads) + [] == EncodeChunked(sizes, payloads);
  }

  /** With hexadecimal sizes, the chunked form of non-empty payloads decodes
      to their concatenation. */
  lemma HexChunkedRoundTrip(payloads: seq<string>)
    requires NonEmpty(payloads)
    ensures ChunkedBody(EncodeChunked(HexSizes(payloads), payloads), Some(CHUNKED), "", 0)
            == Ok((Concat(payloads), 1))
  {
    HexSizeLines(payloads);
    ChunkedRoundTrip(HexSizes(payloads), payloads, "", 0);
    assert "" + Concat(payloads) == Concat(payloads);
  }

  /** A zero size line does not end decoding: lines after it are still read,
      so a second chunked body after the first is decoded too and two closes
      are requested. */
  lemma ChunkedContinuesAfterLastChunk(
    firstSizes: seq<string>, first: seq<string>, secondSizes: seq<string>, second: seq<string>,
    body: string, closes: nat)
    requires SizeLines(firstSizes, first)
    requires SizeLines(secondSizes, second)
    ensures ChunkedBody(EncodeChunked(firstSizes, first) + EncodeChunked(secondSizes, second),
                        Some(CHUNKED), body, closes)
            == Ok((body + Concat(first) + Concat(second), closes + 2))
  {
    ChunkedPrefix(firstSizes, first, EncodeChunked(secondSizes, second), body, closes);
    ChunkedRoundTrip(secondSizes, second, body + Concat(first), closes + 1);
  }

  /** The chunked form cut short just after the first size line. */
  lemma MissingFirstPayload(sizes: seq<string>, payloads: seq<string>, body: string, closes: nat)
    requires |sizes| == |payloads| > 0 && IsSizeLine(sizes[0])
    ensures ChunkedBody(EncodeChunked(sizes, payloads)[..1], Some(CHUNKED), body, closes)
            == Err(ChunkWithoutPayload(closes))
  {
    assert EncodeChunked(sizes, payloads)[..1] == [sizes[0]];
    SizeLineAlone(sizes[0], body, closes);
  }

  /** The chunked form cut short after a later size line: the first payload
      moves onto the body. */
  lemma MissingPayloadStep(sizes: seq<string>, payloads: seq<string>, k: nat, body: string, closes: nat)
    requires |sizes| == |payloads| && 0 < k < |payloads| && IsSizeLine(sizes[0])
    ensures ChunkedBody(EncodeChunked(sizes, payloads)[..2 * k + 1], Some(CHUNKED), body, closes)
            == ChunkedBody(EncodeChunked(sizes[1..], payloads[1..])[..2 * (k - 1) + 1], Some(CHUNKED),
                           body + payloads[0], closes)
  {
    var rest := EncodeChunked(sizes[1..], payloads[1..])[..2 * (k - 1) + 1];
    assert EncodeChunked(sizes, payloads)[..2 * k + 1] == [sizes[0], payloads[0]] + rest;
    SizeLineStep(sizes[0], payloads[0], rest, body, closes);
  }

  /** A chunk size line with no line after it is an error, wherever the
      chunked form is cut short just after a size line. */
  lemma {:induction false} MissingPayload(sizes: seq<string>, payloads: seq<string>, k: nat, body: string, closes: nat)
    requires SizeLines(sizes, payloads)
    requires k < |payloads|
    ensures ChunkedBody(EncodeChunked(sizes, payloads)[..2 * k + 1], Some(CHUNKED), body, closes)
            == Err(ChunkWithoutPayload(closes))
    decreases k
  {
    if k == 0 {
      MissingFirstPayload(sizes, payloads, body, closes);
    } else {
      MissingPayloadStep(sizes, payloads, k, body, closes);
      MissingPayload(sizes[1..], payloads[1..], k - 1, body + payloads[0], closes);
    }
  }

  /** A close requested before the error is kept in it: a last-chunk line
      followed by a size line with nothing after it. */
  lemma CloseBeforeMissingPayload(zero: string, size: string, body: string, closes: nat)
    requires ZeroSizeLine(zero) && IsSizeLine(size)
    ensures ChunkedBody([zero, size], Some(CHUNKED), body, closes) == Err(ChunkWithoutPayload(closes + 1))
  {
    var ls := [zero, size];
    assert ls[1..] == [size];
    ChunkedStep(ls, 0, Some(CHUNKED), body, closes);
    SizeLineAlone(size, body, closes + 1);
  }

  /** The body lines `0` and `5`: one close, then the missing payload. */
  lemma ZeroThenFive()
    ensures ChunkedBody(["0", "5"], Some(CHUNKED), "", 0) == Err(ChunkWithoutPayload(1))
  {
    CloseBeforeMissingPayload("0", "5", "", 0);
  }

  /** Without `Transfer-Encoding: chunked` the body lines decode only if all
      of them are empty; any other line is an unsupported-encoding error. */
  lemma {:induction false} UnchunkedBody(ls: seq<string>, encoding: Option<string>, body: string, closes: nat)
    requires encoding != Some(CHUNKED)
    ensures ChunkedBody(ls, encoding, body, closes)
            == if forall k :: 0 <= k < |ls| ==> ls[k] == "" then Ok((body, closes))
               else Err(UnsupportedEncoding(encoding, closes))
    decreases |ls|
  {
    if ls != [] {
      UnchunkedBody(ls[1..], encoding, body, closes);
      if ls[0] == "" {
        assert forall k :: 0 <= k < |ls| - 1 ==> ls[1..][k] == ls[k + 1];
      }
    }
  }

  /** A decoded response whose `Transfer-Encoding` is not `chunked` has an
      empty body and requested no close: any body content is refused. */
  lemma NonChunkedResponseHasNoBody(lines: seq<string>)
    requires DecodeResponse(lines).Ok? && DecodeResponse(lines).value.response.Some?
    requires EncodingOf(DecodeResponse(lines).value.response.value.headers) != Some(CHUNKED)
    ensures DecodeResponse(lines).value.response.value.body == ""
    ensures DecodeResponse(lines).value.closeCalls == 0
  {
    var h := HeaderEnd(lines, 1);
    var headers := DecodeResponse(lines).value.response.value.headers;
    if h < |lines| {
      UnchunkedBody(lines[h + 1..], EncodingOf(headers), "", 0);
    }
  }

  /** The header map grows by one assignment per header line: a line
      appended to the header section overwrites any earlier value of its
      name. */
  lemma {:induction false} ParseHeadersSnoc(ls: seq<string>, acc: map<string, string>, line: string)
    ensures ParseHeaders(ls + [line], acc)
            == match ParseHeaders(ls, acc)
               case Err(e) => Err(e)
               case Ok(m) =>
                 match HeaderField(line)
                 case None => Err(HeaderWithoutValue(line))
                 case Some((name, value)) => Ok(m[name := value])
    decreases |ls|
  {
    if ls == [] {
      assert ls + [line] == [line] && [line][1..] == [];
    } else {
      assert (ls + [line])[1..] == ls[1..] + [line];
      match HeaderField(ls[0])
      case None =>
      case Some((name, value)) => ParseHeadersSnoc(ls[1..], acc[name := value], line);
    }
  }

  /** A header line's name is the text before its first colon and its value
      the trimmed text between the first and second colon; any further
      colon-separated text is dropped. */
  lemma HeaderFieldOf(parts: seq<string>)
    requires |parts| >= 2
    requires forall p :: p in parts ==> ':' !in p
    ensures HeaderField(Join(parts, ":")) == Some((parts[0], Trim(parts[1])))
  {
    SplitJoinChar(parts, ':');
  }

  /** Last write wins: whatever came before, the value stored under a name is
      that of the last header line with that name. */
  lemma LastHeaderWins(ls: seq<string>, name: string, value: string)
    requires ':' !in name && ':' !in value
    requires ParseHeaders(ls, map[]).Ok?
    ensures ParseHeaders(ls + [name + ":" + value], map[]) == Ok(ParseHeaders(ls, map[]).value[name := Trim(value)])
  {
    HeaderFieldOf([name, value]);
    assert Join([name, value], ":") == name + ":" + value;
    ParseHeadersSnoc(ls, map[], name + ":" + value);
  }

  /** A status line without a space has no status code token: the decoder
      never produces a response for it. */
  lemma StatusLineWithoutSpace(lines: seq<string>)
    requires lines != [] && ' ' !in lines[0]
    ensures DecodeResponse(lines).Err?
  {
    FreeOfChar(lines[0], ' ');
  }

  lemma ChunkedHeaderParts()
    ensures HeaderField(Join(["Transfer-Encoding", " chunked"], ":"))
            == Some(("Transfer-Encoding", Trim(" chunked")))
  {
    var parts := ["Transfer-Encoding", " chunked"];
    assert ':' !in parts[0] && ':' !in parts[1];
    HeaderFieldOf(parts);
  }

  lemma TrimChunked()
    ensures Trim(" chunked") == CHUNKED
  {
    var s := CHUNKED;
    assert " chunked" == [' '] + s;
    assert !IsWhite(s[0]) && !IsWhite(s[|s| - 1]);
    TrimLeadingWhite(' ', s);
    TrimUnchanged(s);
  }

  lemma ChunkedHeaderLine()
    ensures Join(["Transfer-Encoding", " chunked"], ":") == "Transfer-Encoding: chunked"
  {
  }

  lemma ChunkedHeader()
    ensures HeaderField("Transfer-Encoding: chunked") == Some((TRANSFER_ENCODING, CHUNKED))
  {
    ChunkedHeaderParts();
    TrimChunked();
    ChunkedHeaderLine();
  }

  /** A response with `Transfer-Encoding: chunked` as its only header and a
      chunked body decodes to the concatenation of the payloads, with one
      close requested. */
  lemma ChunkedResponse(statusLine: string, headerLine: string, sizes: seq<string>, payloads: seq<string>)
    requires SizeLines(sizes, payloads)
    requires headerLine != "" && HeaderField(headerLine) == Some((TRANSFER_ENCODING, CHUNKED))
    ensures DecodeResponse([statusLine, headerLine, ""] + EncodeChunked(sizes, payloads))
            == Assemble(statusLine, map[TRANSFER_ENCODING := CHUNKED], Concat(payloads), 1)
  {
    var lines := [statusLine, headerLine, ""] + EncodeChunked(sizes, payloads);
    assert lines[0] == statusLine && lines[1] == headerLine && lines[2] == "";
    assert lines[3..] == EncodeChunked(sizes, payloads);
    ChunkedLines(lines, sizes, payloads);
  }

  lemma ChunkedLines(lines: seq<string>, sizes: seq<string>, payloads: seq<string>)
    requires SizeLines(sizes, payloads)
    requires |lines| >= 3 && lines[1] != "" && lines[2] == ""
    requires HeaderField(lines[1]) == Some((TRANSFER_ENCODING, CHUNKED))
    requires lines[3..] == EncodeChunked(sizes, payloads)
    ensures DecodeResponse(lines) == Assemble(lines[0], map[TRANSFER_ENCODING := CHUNKED], Concat(payloads), 1)
  {
    var sections := Sections(map[TRANSFER_ENCODING := CHUNKED], Concat(payloads), 1);
    ChunkedSections(lines, sizes, payloads);
    DecodeSections(lines, sections);
  }

  lemma ChunkedSections(lines: seq<string>, sizes: seq<string>, payloads: seq<string>)
    requires SizeLines(sizes, payloads)
    requires |lines| >= 3 && lines[1] != "" && lines[2] == ""
    requires HeaderField(lines[1]) == Some((TRANSFER_ENCODING, CHUNKED))
    requires lines[3..] == EncodeChunked(sizes, payloads)
    ensures SectionsOf(lines) == Ok(Sections(map[TRANSFER_ENCODING := CHUNKED], Concat(payloads), 1))
  {
    var headers := map[TRANSFER_ENCODING := CHUNKED];
    HeaderSectionOfOne(lines);
    OneHeader(lines, TRANSFER_ENCODING, CHUNKED);
    ChunkedBodyAfter(lines, sizes, payloads, headers);
    SectionsComplete(lines, headers, Concat(payloads), 1);
  }

  /** The header section ends at the empty line after the status line and
      one header line. */
  lemma HeaderSectionOfOne(lines: seq<string>)
    requires |lines| >= 3 && lines[1] != "" && lines[2] == ""
    ensures HeaderEnd(lines, 1) == 2
  {
    assert HeaderEnd(lines, 2) == 2;
  }

  /** A header section of one line. */
  lemma OneHeader(lines: seq<string>, name: string, value: string)
    requires |lines| >= 2 && HeaderField(lines[1]) == Some((name, value))
    ensures ParseHeaders(lines[1..2], map[]) == Ok(map[name := value])
  {
    HeaderStep(lines, 1, 2, map[]);
    assert lines[2..2] == [];
  }

  lemma ChunkedBodyAfter(lines: seq<string>, sizes: seq<string>, payloads: seq<string>, headers: map<string, string>)
    requires SizeLines(sizes, payloads)
    requires |lines| >= 3 && EncodingOf(headers) == Some(CHUNKED)
    requires lines[3..] == EncodeChunked(sizes, payloads)
    ensures BodyAfter(lines, 2, headers) == Ok((Concat(payloads), 1))
  {
    var ls := lines[3..];
    assert BodyAfter(lines, 2, headers) == ChunkedBody(ls, Some(CHUNKED), "", 0);
    ChunkedRoundTrip(sizes, payloads, "", 0);
    assert "" + Concat(payloads) == Concat(payloads);
  }

  /** The tokens of a status line whose tokens contain no space. */
  lemma StatusTokens(tokens: seq<string>)
    requires |tokens| >= 1
    requires forall t :: t in tokens ==> ' ' !in t
    ensures Split(Join(tokens, " "), " ") == tokens
  {
    SplitJoinChar(tokens, ' ');
  }

  lemma DecimalToken(n: nat, token: string)
    requires token == NatToDigits(n, 10)
    ensures ParseInt(Trim(token), 0) == Some(n)
  {
    assert TrimStart(token) == token by {
      assert IsDigit(token[0], 10);
      NotWhiteDigit(token[0], 10);
    }
    assert TrimEnd(token) == token by {
      assert IsDigit(token[|token| - 1], 10);
      NotWhiteDigit(token[|token| - 1], 10);
    }
    ParseIntOfDecimal(n);
  }

  lemma Status200Line()
    ensures Join(["HTTP/1.1", "200", "OK"], " ") == "HTTP/1.1 200 OK"
    ensures NatToDigits(200, 10) == "200"
  {
  }

  /** The status line `HTTP/1.1 200 OK` gives status 200 and text `OK`. */
  lemma StatusOk(headers: map<string, string>, body: string, closes: nat)
    ensures Assemble("HTTP/1.1 200 OK", headers, body, closes)
            == Ok(Decoded(Some(Response(Some(200), Some("OK"), headers, body)), closes))
  {
    var tokens := ["HTTP/1.1", "200", "OK"];
    assert ' ' !in tokens[0] && ' ' !in tokens[1] && ' ' !in tokens[2];
    StatusTokens(tokens);
    Status200Line();
    DecimalToken(200, "200");
  }

  const NOT_FOUND: seq<string> := ["HTTP/1.1 404 Not Found"]

  /** The body lines of the chunked "Wikipedia" example: two chunks with
      their hexadecimal sizes, then the last chunk. */
  lemma WikipediaLines()
    ensures EncodeChunked(["4", "5"], ["Wiki", "pedia"]) == ["4", "Wiki", "5", "pedia", "0", ""]
    ensures HexSizes(["Wiki", "pedia"]) == ["4", "5"]
  {
    assert NatToDigits(4, 16) == "4" && NatToDigits(5, 16) == "5";
  }

  /** The example, after a 200 status line and one chunked header, decodes to
      status 200, text `OK`, that header and the body `Wikipedia`, with one
      close requested. */
  lemma WikipediaExample()
    ensures DecodeResponse(["HTTP/1.1 200 OK", "Transfer-Encoding: chunked", ""]
                           + EncodeChunked(["4", "5"], ["Wiki", "pedia"]))
            == Ok(Decoded(Some(Response(Some(200), Some("OK"),
                                        map[TRANSFER_ENCODING := CHUNKED], "Wikipedia")), 1))
  {
    assert SizeLines(["4", "5"], ["Wiki", "pedia"]);
    assert Concat(["Wiki", "pedia"]) == "Wikipedia";
    ChunkedHeader();
    ChunkedResponse("HTTP/1.1 200 OK", "Transfer-Encoding: chunked", ["4", "5"], ["Wiki", "pedia"]);
    StatusOk(map[TRANSFER_ENCODING := CHUNKED], "Wikipedia", 1);
  }

  lemma Status404Line()
    ensures Join(["HTTP/1.1", "404", "Not", "Found"], " ") == "HTTP/1.1 404 Not Found"
    ensures NatToDigits(404, 10) == "404"
  {
  }

  lemma Status404(headers: map<string, string>, body: string, closes: nat)
    ensures Assemble("HTTP/1.1 404 Not Found", headers, body, closes)
            == Ok(Decoded(Some(Response(Some(404), Some("Not"), headers, body)), closes))
  {
    var tokens := ["HTTP/1.1", "404", "Not", "Found"];
    assert ' ' !in tokens[0] && ' ' !in tokens[1] && ' ' !in tokens[2] && ' ' !in tokens[3];
    StatusTokens(tokens);
    Status404Line();
    DecimalToken(404, "404");
  }

  /** Only the third space-separated token is the status text: `Not Found`
      comes out as `Not`. */
  lemma StatusTextIsThirdToken()
    ensures DecodeResponse(NOT_FOUND)
            == Ok(Decoded(Some(Response(Some(404), Some("Not"), map[], "")), 0))
  {
    assert HeaderEnd(NOT_FOUND, 1) == 1 && NOT_FOUND[1..1] == [];
    SectionsComplete(NOT_FOUND, map[], "", 0);
    DecodeSections(NOT_FOUND, Sections(map[], "", 0));
    Status404(map[], "", 0);
  }
}
