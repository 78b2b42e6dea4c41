/** `Request::try_from` and `ParseError` (http_server/src/http/request.rs).

    The conversion decodes the buffer as UTF-8, takes three words off the
    front with the tokenizer (method, path, protocol) and insists that the
    protocol is exactly `HTTP/1.1`, which is the request line of section 3 of
    RFC 9112: method SP request-target SP HTTP-version CRLF.  The source stops
    there with `unimplemented!()`, so success here means reaching that point
    with the three words in hand; method and query-string parsing are not
    part of this model. */
module Request {
  import opened Utf8Text
  import opened Tokenizer

  datatype ParseError = InvalidRequest | InvalidEncoding | InvalidProtocol | InvalidMethod

  /** `ParseError::message`, the text `Display` and `Debug` print; every
      message names the kind of invalidity after the word `Invalid`. */
  function Message(e: ParseError): (m: string)
    ensures |m| > 7 && m[..7] == "Invalid"
  {
    match e
    case InvalidRequest => "Invalid Request"
    case InvalidEncoding => "InvalidEncoding"
    case InvalidProtocol => "Invalid Protocol"
    case InvalidMethod => "Invalid Method"
  }

  /** `From<Utf8Error>`: the `?` on `str::from_utf8` turns any decoding error
      into `InvalidEncoding`, whatever position the error reports. */
  function FromUtf8Error(e: Utf8Error): (r: ParseError)
    ensures r == InvalidEncoding
  {
    InvalidEncoding
  }

  /** Where `try_from` ends: at the `unimplemented!()` with the three words,
      at one of its early `Err` returns, or in a panic of the tokenizer. */
  datatype Outcome =
    | ChecksPassed(methodToken: string, path: string, protocol: string)
    | Failed(error: ParseError)
    | Panicked

  /** Lines 27-34 with the corrected tokenizer: three words, then the
      protocol check.  They never give `InvalidEncoding` or `InvalidMethod`;
      a pass carries the protocol `HTTP/1.1` and, as method, exactly the
      characters before the first delimiter. */
  function CheckRequestLine(text: string): (r: Outcome)
    ensures r != Failed(InvalidEncoding) && r != Failed(InvalidMethod)
    ensures r.ChecksPassed? ==> r.protocol == "HTTP/1.1" && r.methodToken == text[..FirstDelimiter(text)]
  {
    match NextWord(text)
    case Absent => Failed(InvalidRequest)
    case SlicePanic => Panicked
    case Found(methodToken, afterMethod) =>
      match NextWord(afterMethod)
      case Absent => Failed(InvalidRequest)
      case SlicePanic => Panicked
      case Found(path, afterPath) =>
        match NextWord(afterPath)
        case Absent => Failed(InvalidRequest)
        case SlicePanic => Panicked
        case Found(protocol, _) =>
          if protocol != "HTTP/1.1" then Failed(InvalidProtocol)
          else ChecksPassed(methodToken, path, protocol)
  }

  /** Lines 27-34 as written, with the tokenizer as written.  The same
      outcomes are excluded; a pass carries `HTTP/1.1` and a method no longer
      than the characters before the first delimiter. */
  function CheckRequestLineAsWritten(text: string): (r: Outcome)
    ensures r != Failed(InvalidEncoding) && r != Failed(InvalidMethod)
    ensures r.ChecksPassed? ==> r.protocol == "HTTP/1.1" && |r.methodToken| <= FirstDelimiter(text)
  {
    match NextWordAsWritten(text)
    case Absent => Failed(InvalidRequest)
    case SlicePanic => Panicked
    case Found(methodToken, afterMethod) =>
      match NextWordAsWritten(afterMethod)
      case Absent => Failed(InvalidRequest)
      case SlicePanic => Panicked
      case Found(path, afterPath) =>
        match NextWordAsWritten(afterPath)
        case Absent => Failed(InvalidRequest)
        case SlicePanic => Panicked
        case Found(protocol, _) =>
          if protocol != "HTTP/1.1" then Failed(InvalidProtocol)
          else ChecksPassed(methodToken, path, protocol)
  }

  /** `Request::try_from(buffer)` with the corrected tokenizer.  `decoded` is
      what `str::from_utf8(buffer)` returns; the decoder is not modelled, only
      the relation `DecodesTo` between its input and its result.  The first
      call to the tokenizer (lines 20-23) only probes: its words are dropped
      and the next call starts again from the whole text.  It never gives
      `InvalidMethod`, and a pass carries the protocol `HTTP/1.1`. */
  function TryFrom(buffer: seq<byte>, decoded: Result<string, Utf8Error>): (r: Outcome)
    requires DecodesTo(buffer, decoded)
    ensures r != Failed(InvalidMethod)
    ensures r.ChecksPassed? ==> r.protocol == "HTTP/1.1"
  {
    match decoded
    case Failure(e) => Failed(FromUtf8Error(e))
    case Success(text) =>
      match NextWord(text)
      case Absent => Failed(InvalidRequest)
      case SlicePanic => Panicked
      case Found(_, _) => CheckRequestLine(text)
  }

  /** `Request::try_from(buffer)` as written, every call to the tokenizer
      being `get_next_word` as it stands. */
  function TryFromAsWritten(buffer: seq<byte>, decoded: Result<string, Utf8Error>): (r: Outcome)
    requires DecodesTo(buffer, decoded)
    ensures r != Failed(InvalidMethod)
    ensures r.ChecksPassed? ==> r.protocol == "HTTP/1.1"
  {
    match decoded
    case Failure(e) => Failed(FromUtf8Error(e))
    case Success(text) =>
      match NextWordAsWritten(text)
      case Absent => Failed(InvalidRequest)
      case SlicePanic => Panicked
      case Found(_, _) => CheckRequestLineAsWritten(text)
  }

  /** On text of one-byte characters, in particular on every ASCII request,
      the request line as written gives exactly what the corrected one gives:
      every result below about `CheckRequestLine` holds for the code as it
      stands on such text. */
  lemma AsWrittenAgreesOnOneByteRequest(text: string)
    requires OneByteChars(text)
    ensures CheckRequestLineAsWritten(text) == CheckRequestLine(text)
  {
    AsWrittenAgreesOnOneByteText(text);
    if NextWord(text).Found? {
      var r1 := NextWord(text).rest;
      AsWrittenAgreesOnOneByteText(r1);
      if NextWord(r1).Found? {
        AsWrittenAgreesOnOneByteText(NextWord(r1).rest);
      }
    }
  }

  /** `try_from` as written and corrected agree on every all-ASCII buffer,
      and on every buffer that decodes to one-byte text. */
  lemma AsWrittenAgreesOnAscii(buffer: seq<byte>, decoded: Result<string, Utf8Error>)
    requires DecodesTo(buffer, decoded)
    ensures AllAscii(buffer) ==> TryFromAsWritten(buffer, decoded) == TryFrom(buffer, decoded)
    ensures decoded.Success? && OneByteChars(decoded.value) ==>
      TryFromAsWritten(buffer, decoded) == TryFrom(buffer, decoded)
  {
    if AllAscii(buffer) {
      AsciiDecodes(buffer, decoded);
      var text := AsciiText(buffer);
      forall k | 0 <= k < |text| ensures Utf8Len(text[k]) == 1 {
        assert text[k] as int == buffer[k] as int;
      }
    }
    if decoded.Success? && OneByteChars(decoded.value) {
      AsWrittenAgreesOnOneByteText(decoded.value);
      AsWrittenAgreesOnOneByteRequest(decoded.value);
    }
  }

  /** The text of each message. */
  lemma MessageTable()
    ensures Message(InvalidRequest) == "Invalid Request"
    ensures Message(InvalidEncoding) == "InvalidEncoding"
    ensures Message(InvalidProtocol) == "Invalid Protocol"
    ensures Message(InvalidMethod) == "Invalid Method"
  {
  }

  /** The four messages are pairwise distinct. */
  lemma MessagesDistinct(e1: ParseError, e2: ParseError)
    ensures Message(e1) == Message(e2) <==> e1 == e2
  {
  }

  /** A decoding failure, wherever it is, gives `InvalidEncoding` before any
      tokenizing, and nothing else gives it, as written and corrected; a
      buffer that is the encoding of no text gives `InvalidEncoding`; an
      all-ASCII buffer always decodes, to the text it spells. */
  lemma TryFromEncoding(buffer: seq<byte>, decoded: Result<string, Utf8Error>)
    requires DecodesTo(buffer, decoded)
    ensures TryFrom(buffer, decoded) == Failed(InvalidEncoding) <==> decoded.Failure?
    ensures TryFromAsWritten(buffer, decoded) == Failed(InvalidEncoding) <==> decoded.Failure?
    ensures (forall s :: Encode(s) != buffer) ==> TryFrom(buffer, decoded) == Failed(InvalidEncoding)
    ensures (forall s :: Encode(s) != buffer) ==> TryFromAsWritten(buffer, decoded) == Failed(InvalidEncoding)
    ensures AllAscii(buffer) ==> decoded == Success(AsciiText(buffer))
  {
    if AllAscii(buffer) {
      AsciiDecodes(buffer, decoded);
    }
    if decoded.Success? {
      assert CheckRequestLine(decoded.value) != Failed(InvalidEncoding);
    }
  }

  /** The probe at lines 20-23 never changes the outcome: it is the outcome
      of lines 27-34 alone. */
  lemma ProbeIsRedundant(buffer: seq<byte>, text: string)
    requires DecodesTo(buffer, Success(text))
    ensures TryFrom(buffer, Success(text)) == CheckRequestLine(text)
    ensures TryFromAsWritten(buffer, Success(text)) == CheckRequestLineAsWritten(text)
  {
  }

  /** The text starts with three separated words `m`, `p` and `pr`. */
  ghost predicate RequestLine(text: string, m: string, p: string, pr: string)
  {
    exists r1, r2, r3 :: Separated(text, m, r1) && Separated(r1, p, r2) && Separated(r2, pr, r3)
  }

  /** The text does not start with three separated words: it has no
      delimiter, or one word and then none, or two words and then none. */
  ghost predicate FewerThanThreeWords(text: string)
  {
    DelimiterFree(text) ||
    exists m, r1 :: Separated(text, m, r1) &&
      (DelimiterFree(r1) || exists p, r2 :: Separated(r1, p, r2) && DelimiterFree(r2))
  }

  /** Three separated words reach the protocol check: the request passes it
      when the third word is exactly `HTTP/1.1` and fails with
      `InvalidProtocol` otherwise.  The code as written does the same when
      the three words are made of one-byte characters, whatever follows
      them. */
  lemma ThreeWordsReachProtocolCheck(text: string, m: string, p: string, pr: string)
    requires RequestLine(text, m, p, pr)
    ensures CheckRequestLine(text) ==
      if pr == "HTTP/1.1" then ChecksPassed(m, p, pr) else Failed(InvalidProtocol)
    ensures OneByteChars(m) && OneByteChars(p) && OneByteChars(pr) ==>
      CheckRequestLineAsWritten(text) == CheckRequestLine(text)
  {
    var r1, r2, r3 :| Separated(text, m, r1) && Separated(r1, p, r2) && Separated(r2, pr, r3);
    NextWordFound(text, m, r1);
    NextWordFound(r1, p, r2);
    NextWordFound(r2, pr, r3);
    if OneByteChars(m) && OneByteChars(p) && OneByteChars(pr) {
      AsWrittenFindsOneByteWord(text, m, r1);
      AsWrittenFindsOneByteWord(r1, p, r2);
      AsWrittenFindsOneByteWord(r2, pr, r3);
    }
  }

  /** Conversely, passing the checks or failing the protocol check means the
      text starts with three separated words, the third `HTTP/1.1` or not;
      on one-byte text, as written too. */
  lemma ProtocolCheckNeedsThreeWords(text: string)
    ensures CheckRequestLine(text).ChecksPassed? ==>
      var o := CheckRequestLine(text);
      o.protocol == "HTTP/1.1" && RequestLine(text, o.methodToken, o.path, o.protocol)
    ensures CheckRequestLine(text) == Failed(InvalidProtocol) ==>
      exists m, p, pr :: RequestLine(text, m, p, pr) && pr != "HTTP/1.1"
    ensures OneByteChars(text) && CheckRequestLineAsWritten(text).ChecksPassed? ==>
      var o := CheckRequestLineAsWritten(text);
      RequestLine(text, o.methodToken, o.path, o.protocol)
    ensures OneByteChars(text) && CheckRequestLineAsWritten(text) == Failed(InvalidProtocol) ==>
      exists m, p, pr :: RequestLine(text, m, p, pr) && pr != "HTTP/1.1"
  {
    if OneByteChars(text) {
      AsWrittenAgreesOnOneByteRequest(text);
    }
    var o := CheckRequestLine(text);
    if o.ChecksPassed? || o == Failed(InvalidProtocol) {
      var s1 := NextWord(text);
      FoundIsSeparated(text);
      var s2 := NextWord(s1.rest);
      FoundIsSeparated(s1.rest);
      var s3 := NextWord(s2.rest);
      FoundIsSeparated(s2.rest);
      assert RequestLine(text, s1.word, s2.word, s3.word);
    }
  }

  /** Fewer than three words end in `InvalidRequest`. */
  lemma FewerThanThreeWordsIsInvalid(text: string)
    requires FewerThanThreeWords(text)
    ensures CheckRequestLine(text) == Failed(InvalidRequest)
  {
    NextWordAbsent(text);
    if !DelimiterFree(text) {
      var m, r1 :| Separated(text, m, r1) &&
        (DelimiterFree(r1) || exists p, r2 :: Separated(r1, p, r2) && DelimiterFree(r2));
      SeparatedIsFound(text, m, r1);
      NextWordAbsent(r1);
      if !DelimiterFree(r1) {
        var p, r2 :| Separated(r1, p, r2) && DelimiterFree(r2);
        SeparatedIsFound(r1, p, r2);
        NextWordAbsent(r2);
      }
    }
  }

  /** `InvalidRequest` only when fewer than three words can be taken. */
  lemma InvalidMeansFewerThanThreeWords(text: string)
    requires CheckRequestLine(text) == Failed(InvalidRequest)
    ensures FewerThanThreeWords(text)
  {
    var s1 := NextWord(text);
    if s1.Found? {
      var m, r1 := s1.word, s1.rest;
      assert NextWord(text) == Found(m, r1);
      FoundIsSeparated(text);
      OneWordThenFewerThanTwo(r1);
      assert Separated(text, m, r1) &&
        (DelimiterFree(r1) || exists p, r2 :: Separated(r1, p, r2) && DelimiterFree(r2));
    }
  }

  /** After the method word, `InvalidRequest` means at most one more word. */
  lemma OneWordThenFewerThanTwo(r1: string)
    requires
      match NextWord(r1)
      case Absent => true
      case SlicePanic => false
      case Found(_, r2) => NextWord(r2) == Absent
    ensures DelimiterFree(r1) || exists p, r2 :: Separated(r1, p, r2) && DelimiterFree(r2)
  {
    NextWordAbsent(r1);
    var s2 := NextWord(r1);
    if s2.Found? {
      FoundIsSeparated(r1);
      NextWordAbsent(s2.rest);
    }
  }

  /** `InvalidRequest` exactly when fewer than three words can be taken; on
      one-byte text, as written too. */
  lemma InvalidRequestIffFewerThanThreeWords(text: string)
    ensures CheckRequestLine(text) == Failed(InvalidRequest) <==> FewerThanThreeWords(text)
    ensures OneByteChars(text) ==>
      (CheckRequestLineAsWritten(text) == Failed(InvalidRequest) <==> FewerThanThreeWords(text))
  {
    if OneByteChars(text) {
      AsWrittenAgreesOnOneByteRequest(text);
    }
    if FewerThanThreeWords(text) {
      FewerThanThreeWordsIsInvalid(text);
    }
    if CheckRequestLine(text) == Failed(InvalidRequest) {
      InvalidMeansFewerThanThreeWords(text);
    }
  }

  /** A request whose every `\r` is followed by `\n` never makes the
      corrected tokenizer panic, nor the code as written when the text is
      made of one-byte characters. */
  lemma CrlfRequestNeverPanics(text: string)
    requires CrFollowedByLf(text)
    ensures CheckRequestLine(text) != Panicked
    ensures OneByteChars(text) ==> CheckRequestLineAsWritten(text) != Panicked
  {
    if OneByteChars(text) {
      AsWrittenAgreesOnOneByteRequest(text);
    }
    NextWordOnCrlf(text);
    if NextWord(text).Found? {
      var r1 := NextWord(text).rest;
      NextWordOnCrlf(r1);
      if NextWord(r1).Found? {
        NextWordOnCrlf(NextWord(r1).rest);
      }
    }
  }

  /** A request line of section 3 of RFC 9112, whatever follows its CRLF,
      reaches the protocol check with its method and request target as the
      first two words: it passes with protocol HTTP/1.1 and fails with
      `InvalidProtocol` with any other.  The code as written does the same
      when the three words are made of one-byte characters. */
  lemma WellFormedRequestLine(m: string, p: string, pr: string, tail: string)
    requires DelimiterFree(m) && DelimiterFree(p) && DelimiterFree(pr)
    ensures CheckRequestLine(m + " " + p + " " + pr + "\r\n" + tail) ==
      if pr == "HTTP/1.1" then ChecksPassed(m, p, pr) else Failed(InvalidProtocol)
    ensures OneByteChars(m) && OneByteChars(p) && OneByteChars(pr) ==>
      CheckRequestLineAsWritten(m + " " + p + " " + pr + "\r\n" + tail) ==
        if pr == "HTTP/1.1" then ChecksPassed(m, p, pr) else Failed(InvalidProtocol)
  {
    var r2 := pr + "\r\n" + tail;
    var r1 := p + " " + r2;
    assert m + " " + p + " " + pr + "\r\n" + tail == m + " " + r1;
    SeparatedBySpaceOrCrlf(m, r1);
    SeparatedBySpaceOrCrlf(p, r2);
    SeparatedBySpaceOrCrlf(pr, tail);
    assert RequestLine(m + " " + r1, m, p, pr);
    ThreeWordsReachProtocolCheck(m + " " + r1, m, p, pr);
  }

  /** Two words and a third with no delimiter after it are too few; as
      written too, when the first two words are made of one-byte characters. */
  lemma TwoWordsAreTooFew(m: string, p: string, last: string)
    requires DelimiterFree(m) && DelimiterFree(p) && DelimiterFree(last)
    ensures CheckRequestLine(m + " " + p + " " + last) == Failed(InvalidRequest)
    ensures OneByteChars(m) && OneByteChars(p) ==>
      CheckRequestLineAsWritten(m + " " + p + " " + last) == Failed(InvalidRequest)
  {
    var r1 := p + " " + last;
    assert m + " " + p + " " + last == m + " " + r1;
    SeparatedBySpaceOrCrlf(m, r1);
    SeparatedBySpaceOrCrlf(p, last);
    FewerThanThreeWordsIsInvalid(m + " " + r1);
    if OneByteChars(m) && OneByteChars(p) {
      AsWrittenFindsOneByteWord(m + " " + r1, m, r1);
      AsWrittenFindsOneByteWord(r1, p, last);
    }
  }

  /** The request line in the comment above `try_from`, with its blank line. */
  lemma ExampleSearchRequest(text: string)
    requires text == "GET /search?name=abc&sort=1 HTTP/1.1\r\n\r\n"
    ensures TryFrom(Encode(text), Success(text)) ==
      ChecksPassed("GET", "/search?name=abc&sort=1", "HTTP/1.1")
    ensures TryFromAsWritten(Encode(text), Success(text)) ==
      ChecksPassed("GET", "/search?name=abc&sort=1", "HTTP/1.1")
  {
    SearchRequestWords(text);
    SearchTargetIsAscii("/search?name=abc&sort=1");
    ProtocolWordsAreAscii();
    WellFormedRequestLine("GET", "/search?name=abc&sort=1", "HTTP/1.1", "\r\n");
    ProbeIsRedundant(Encode(text), text);
  }

  /** The method, target and protocol words the examples use are ASCII. */
  lemma ProtocolWordsAreAscii()
    ensures OneByteChars("GET") && OneByteChars("/")
    ensures OneByteChars("HTTP/1.1") && OneByteChars("HTTP/1.0")
  {
  }

  lemma SearchTargetIsAscii(p: string)
    requires p == "/search?name=abc&sort=1"
    ensures OneByteChars(p)
  {
  }

  lemma SearchRequestWords(text: string)
    requires text == "GET /search?name=abc&sort=1 HTTP/1.1\r\n\r\n"
    ensures text == "GET" + " " + "/search?name=abc&sort=1" + " " + "HTTP/1.1" + "\r\n" + "\r\n"
  {
  }

  /** An HTTP/1.0 request line fails the protocol check. */
  lemma ExampleHttp10(text: string)
    requires text == "GET / HTTP/1.0\r\n"
    ensures TryFrom(Encode(text), Success(text)) == Failed(InvalidProtocol)
    ensures TryFromAsWritten(Encode(text), Success(text)) == Failed(InvalidProtocol)
  {
    Http10Words(text);
    ProtocolWordsAreAscii();
    WellFormedRequestLine("GET", "/", "HTTP/1.0", "");
    ProbeIsRedundant(Encode(text), text);
  }

  lemma Http10Words(text: string)
    requires text == "GET / HTTP/1.0\r\n"
    ensures text == "GET" + " " + "/" + " " + "HTTP/1.0" + "\r\n" + ""
  {
  }

  /** The protocol word must itself be followed by a delimiter: a request
      line without its line end has only two words. */
  lemma ExampleMissingLineEnd(text: string)
    requires text == "GET / HTTP/1.1"
    ensures TryFrom(Encode(text), Success(text)) == Failed(InvalidRequest)
    ensures TryFromAsWritten(Encode(text), Success(text)) == Failed(InvalidRequest)
  {
    MissingLineEndWords(text);
    ProtocolWordsAreAscii();
    TwoWordsAreTooFew("GET", "/", "HTTP/1.1");
    ProbeIsRedundant(Encode(text), text);
  }

  lemma MissingLineEndWords(text: string)
    requires text == "GET / HTTP/1.1"
    ensures text == "GET" + " " + "/" + " " + "HTTP/1.1"
  {
  }

  /** A `\r` that ends the buffer is sliced past its end: a panic, not an
      error. */
  lemma ExampleBareCr(text: string)
    requires text == "GET\r"
    ensures TryFrom(Encode(text), Success(text)) == Panicked
    ensures TryFromAsWritten(Encode(text), Success(text)) == Panicked
  {
    FirstDelimiterUnique(text, 3);
    NextWordCases(text, 3);
    AsWrittenAgreesOnOneByteText(text);
  }

  /** A CRLF request line whose target holds a two-byte character: the
      corrected parser passes it, but as written the second call to the
      tokenizer slices at byte 2 of `/\U{E9} HTTP/1.1\r\n`, inside the
      `\U{E9}`, and panics, although every `\r` is followed by `\n`. */
  lemma AsWrittenPanicsOnCrlfRequest(text: string)
    requires text == "GET /\U{E9} HTTP/1.1\r\n"
    ensures CheckRequestLine(text) == ChecksPassed("GET", "/\U{E9}", "HTTP/1.1")
    ensures CrFollowedByLf(text) && CheckRequestLineAsWritten(text) == Panicked
    ensures TryFromAsWritten(Encode(text), Success(text)) == Panicked
  {
    var r1, r2 := MultiByteTargetWords(text);
    MultiByteTargetPanics(r1);
    PassesButPanicsAsWritten(text, "GET", "/\U{E9}", "HTTP/1.1", r1, r2);
    ProbeIsRedundant(Encode(text), text);
  }

  /** The words of the request line above, and the text after the method. */
  lemma MultiByteTargetWords(text: string) returns (r1: string, r2: string)
    requires text == "GET /\U{E9} HTTP/1.1\r\n"
    ensures r1 == "/\U{E9} HTTP/1.1\r\n" && r1 == "/\U{E9}" + " " + r2 && r2 == "HTTP/1.1" + "\r\n" + []
    ensures text == "GET" + " " + r1
    ensures CrFollowedByLf(text)
    ensures DelimiterFree("GET") && OneByteChars("GET") && DelimiterFree("/\U{E9}") && DelimiterFree("HTTP/1.1")
  {
    r1, r2 := "/\U{E9} HTTP/1.1\r\n", "HTTP/1.1\r\n";
  }

  /** A well-formed HTTP/1.1 request line with a one-byte method passes the
      corrected checks, yet panics as written when the tokenizer as written
      panics on the text after the method. */
  lemma PassesButPanicsAsWritten(text: string, m: string, p: string, pr: string, r1: string, r2: string)
    requires DelimiterFree(m) && OneByteChars(m) && DelimiterFree(p) && DelimiterFree(pr)
    requires pr == "HTTP/1.1" && text == m + " " + r1 && r1 == p + " " + r2 && r2 == pr + "\r\n" + []
    requires NextWordAsWritten(r1) == SlicePanic
    ensures CheckRequestLine(text) == ChecksPassed(m, p, pr)
    ensures CheckRequestLineAsWritten(text) == Panicked
  {
    SeparatedBySpaceOrCrlf(m, r1);
    SeparatedBySpaceOrCrlf(p, r2);
    SeparatedBySpaceOrCrlf(pr, []);
    assert Separated(r2, pr, []);
    assert RequestLine(text, m, p, pr);
    ThreeWordsReachProtocolCheck(text, m, p, pr);
    AsWrittenPanicsOnSecondWord(text, m, r1);
  }

  /** As written, a one-byte first word followed by a rest on which the
      tokenizer panics makes the whole request panic. */
  lemma AsWrittenPanicsOnSecondWord(text: string, m: string, r1: string)
    requires DelimiterFree(m) && OneByteChars(m) && text == m + " " + r1
    requires NextWordAsWritten(r1) == SlicePanic
    ensures CheckRequestLineAsWritten(text) == Panicked
  {
    SeparatedBySpaceOrCrlf(m, r1);
    AsWrittenFindsOneByteWord(text, m, r1);
  }

  /** The tokenizer as written finds the space of `/\U{E9} HTTP/1.1\r\n` at
      character 2, which is byte 2, inside the `\U{E9}` at bytes 1 and 2. */
  lemma MultiByteTargetPanics(r1: string)
    requires r1 == "/\U{E9} HTTP/1.1\r\n"
    ensures NextWordAsWritten(r1) == SlicePanic
  {
    assert r1[..2] == "/\U{E9}";
    FirstDelimiterAfterWord(r1, "/\U{E9}");
    assert ByteOffset(r1, 0) == 0 by { assert r1[..0] == []; }
    ByteOffsetStep(r1, 0);
    SliceInsideChar(r1, 1, 2);
  }
}
