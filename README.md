# http_server request line and status codes, in Dafny

This project models two pieces of the `http_server` crate of a small Rust
HTTP/1.1 server.

1. The request-line tokenizer `get_next_word` and the front half of
   `Request::try_from`. The conversion takes the bytes the server read from a
   connection and decodes them as UTF-8. It then takes three words off the
   front: the method, the path and the protocol. A word ends at a space or at
   a carriage return. The protocol word must be exactly `HTTP/1.1`. This is
   the request line of section 3 of RFC 9112: method SP request-target SP
   HTTP-version CRLF. The source stops after these checks with
   `unimplemented!()`. Here, success means reaching that point with the three
   words (`Request.ChecksPassed`). `ParseError` and its messages are
   modelled too.
2. The `StatusCode` table. It maps each status to its number (section 15 of
   RFC 9110) and to its reason phrase. `Display` prints the number in
   decimal.

Files:

- `utf8_text.dfy`, module `Utf8Text`: the parts of Rust's `str` that the
  parser relies on. A string is a sequence of Unicode scalar values stored as
  UTF-8. `chars()` walks the scalar values. Slicing takes byte offsets and
  panics past the end or inside a character. A panicking slice is `None`
  here. `DecodesTo` relates a buffer to what `str::from_utf8` may return.
- `tokenizer.dfy`, module `Tokenizer`: `get_next_word`. The function
  `NextWordAsWritten` and the loop `GetNextWordAsWritten` follow the code
  exactly. `NextWord` and `GetNextWord` are the corrected tokenizer (see
  Findings). Both return `Absent` (no delimiter), `Found(word, rest)` or
  `SlicePanic`.
- `request.dfy`, module `Request`: `ParseError`, `message`,
  `From<Utf8Error>` and `try_from` up to `unimplemented!()`.
  `TryFromAsWritten` and `CheckRequestLineAsWritten` call the tokenizer as
  written. `TryFrom` and `CheckRequestLine` call the corrected one. The two
  are proved equal on one-byte text, which includes every ASCII request.
- `status_code.dfy`, module `StatusCodes`: the status code table and its
  decimal rendering.

How the code's edge cases are modelled:

- A `\r` is skipped together with the byte after it, with no check that this
  byte is `\n`. The skip may land past the end of the text, as in
  `GET\r`, or inside a multi-byte character. Rust panics in both cases, and
  the model returns the explicit outcome `SlicePanic`, or `Panicked` for the
  whole request. There is no precondition excluding these inputs.
  `CrlfRequestNeverPanics` shows the panic cannot happen when every `\r` is
  followed by `\n`, for the corrected parser on any text and for the code
  as written on one-byte text. As written, a multi-byte character in the
  method or path can still cause a panic on a CRLF request line:
  `AsWrittenPanicsOnCrlfRequest` shows one.
- The protocol word must itself end at a delimiter (request.rs:29), so
  `GET / HTTP/1.1` with no line end fails with `InvalidRequest`.
- Words may be empty, because two delimiters in a row give an empty word.
  Nothing checks that the path starts with `/`.
- `try_from` never returns `InvalidMethod`, because method parsing lies
  beyond `unimplemented!()`.
- The first call to the tokenizer (request.rs:20-23) binds its words only
  inside a match arm. Line 27 therefore tokenizes the whole text again.
  `ProbeIsRedundant` shows that the probe changes nothing.

## Model

| member | source | states |
|---|---|---|
| `Utf8Text.SliceTo` | http_server/src/http/request.rs:46 | `&s[..b]` either panics or gives a prefix of `s` |
| `Utf8Text.SliceFrom` | http_server/src/http/request.rs:46 | `&s[b..]` either panics or gives a suffix of `s` |
| `Utf8Text.CharIndexAtOffset` | http_server/src/http/request.rs:46 | a slice offset accepted as a character boundary is the byte length of the characters before it |
| `Utf8Text.SliceAtOffset` | http_server/src/http/request.rs:46 | slicing `&s[..b]` / `&s[b..]` at the byte offset of character `m` gives `s[..m]` / `s[m..]` |
| `Utf8Text.SliceInsideChar` | http_server/src/http/request.rs:50 | a byte offset strictly inside a character's encoding makes both slices panic |
| `Utf8Text.SlicePastEnd` | http_server/src/http/request.rs:50 | a byte offset past the end of the string makes both slices panic |
| `Utf8Text.SlicesAreByteRanges` | http_server/src/http/request.rs:46 | a slice that succeeds holds exactly the bytes of the string before, or from, the offset |
| `Utf8Text.CharIndexAtIff` | http_server/src/http/request.rs:46 | a byte offset is a character boundary at index `m` exactly when it is the byte length of the first `m` characters |
| `Utf8Text.AsciiDecodes` | http_server/src/http/request.rs:18 | an all-ASCII buffer always decodes, to the text it spells byte for byte |
| `Tokenizer.NextWordAsWritten` | http_server/src/http/request.rs:38-55 | as written, `None` exactly when there is no space and no `\r`, and a word found is never longer than the characters before the first delimiter |
| `Tokenizer.NextWord` | http_server/src/http/request.rs:38-55 | corrected, `None` exactly when there is no space and no `\r`, and a word found is exactly the characters before the first delimiter |
| `Tokenizer.FirstDelimiter` | http_server/src/http/request.rs:41-52 | the scan stops at the first space or `\r`: no delimiter before it, and a delimiter at it unless it is the end |
| `Tokenizer.GetNextWordAsWritten` | http_server/src/http/request.rs:38-55 | the loop as written returns what `NextWordAsWritten` specifies: slices at character index `i` taken as byte offsets `i`, `i + 1` and `i + 2` |
| `Tokenizer.GetNextWord` | http_server/src/http/request.rs:38-55 | the corrected loop, which tracks the byte offset of character `i`, returns what `NextWord` specifies |
| `Tokenizer.NextWordCases` | http_server/src/http/request.rs:41-54 | with the first delimiter at `i`: no delimiter gives `None`; a space gives `s[..i]` and `s[i+1..]`; a `\r` gives `s[..i]` and `s[i+2..]` when a one-byte character follows it, and a panic otherwise |
| `Tokenizer.NextWordAbsent` | http_server/src/http/request.rs:38-55 | `None` exactly when the input has neither a space nor a `\r`, for the code as written and for the corrected tokenizer |
| `Tokenizer.NextWordFound` | http_server/src/http/request.rs:45-51 | `Some((w, r))` exactly when the input is `w + " " + r`, or `w + "\r" + c + r` for a one-byte character `c`, with no delimiter in `w` |
| `Tokenizer.SeparatedBySpaceOrCrlf` | http_server/src/http/request.rs:45-51 | a delimiter-free word followed by a space or by CRLF is split off from what follows |
| `Tokenizer.NextWordShrinks` | http_server/src/http/request.rs:45-51 | a found word and its rest are both strictly shorter than the input, in the corrected tokenizer and as written, so repeated tokenizing terminates |
| `Tokenizer.NextWordOnCrlf` | http_server/src/http/request.rs:49-51 | if every `\r` is followed by `\n`, the tokenizer does not panic and the rest keeps that property |
| `Tokenizer.AsWrittenAgreesOnOneByteWords` | http_server/src/http/request.rs:41-51 | when every character before the delimiter is one byte, the code as written and the corrected tokenizer agree |
| `Tokenizer.AsWrittenAgreesOnOneByteText` | http_server/src/http/request.rs:41-51 | on text of one-byte characters, the code as written and the corrected tokenizer agree, and the rest is again one-byte text |
| `Tokenizer.AsWrittenFindsOneByteWord` | http_server/src/http/request.rs:41-51 | as written, a one-byte word followed by a space or by `\r` and a one-byte character is split off correctly, whatever follows it |
| `Tokenizer.AsWrittenBreaksMultiByteWord` | http_server/src/http/request.rs:41-51 | as written, a word holding a multi-byte character and followed by a space or by CRLF is never returned intact |
| `Tokenizer.AsWrittenPanicsOnMultiByteWord` | http_server/src/http/request.rs:45-46 | as written, `/café HTTP/1.1\r\n` panics; the corrected tokenizer splits off `/café` |
| `Tokenizer.AsWrittenMisplacesSplit` | http_server/src/http/request.rs:45-46 | as written, `éab c` splits into `éa` and ` c` instead of `éab` and `c` |
| `Request.Message` | http_server/src/http/request.rs:76-85 | every message starts with `Invalid` and names the kind of error after it |
| `Request.FromUtf8Error` | http_server/src/http/request.rs:89-93 | every UTF-8 error, whatever position it reports, becomes `InvalidEncoding` |
| `Request.CheckRequestLine` | http_server/src/http/request.rs:27-34 | with the corrected tokenizer, the checks never give `InvalidEncoding` or `InvalidMethod`, and a pass has protocol `HTTP/1.1` and, as method, the characters before the first delimiter |
| `Request.CheckRequestLineAsWritten` | http_server/src/http/request.rs:27-34 | as written, the checks never give `InvalidEncoding` or `InvalidMethod`, and a pass has protocol `HTTP/1.1` and a method no longer than the characters before the first delimiter |
| `Request.TryFrom` | http_server/src/http/request.rs:17-35 | `try_from` with the corrected tokenizer never gives `InvalidMethod`, and a pass has protocol `HTTP/1.1` |
| `Request.TryFromAsWritten` | http_server/src/http/request.rs:17-35 | `try_from` as written never gives `InvalidMethod`, and a pass has protocol `HTTP/1.1` |
| `Request.AsWrittenAgreesOnOneByteRequest` | http_server/src/http/request.rs:27-34 | on text of one-byte characters, the checks as written give exactly what the corrected checks give |
| `Request.AsWrittenAgreesOnAscii` | http_server/src/http/request.rs:17-35 | `try_from` as written and corrected agree on every all-ASCII buffer, and on every buffer that decodes to one-byte text |
| `Request.MessageTable` | http_server/src/http/request.rs:76-85 | the messages are exactly `Invalid Request`, `InvalidEncoding`, `Invalid Protocol` and `Invalid Method` |
| `Request.MessagesDistinct` | http_server/src/http/request.rs:76-85 | `message` maps the four errors to pairwise distinct strings |
| `Request.TryFromEncoding` | http_server/src/http/request.rs:18 | `InvalidEncoding` exactly when decoding fails, whatever the error position, as written and corrected, before any tokenizing; a buffer that encodes no text gives `InvalidEncoding`, as written and corrected; an all-ASCII buffer never fails to decode |
| `Request.ProbeIsRedundant` | http_server/src/http/request.rs:20-27 | the discarded first tokenizer call never changes the outcome of the checks at lines 27-34, as written and corrected |
| `Request.ThreeWordsReachProtocolCheck` | http_server/src/http/request.rs:27-34 | three separated words pass when the third is exactly `HTTP/1.1`, keeping the first two as method and path, and fail with `InvalidProtocol` otherwise; the code as written does the same when the three words are one-byte text |
| `Request.ProtocolCheckNeedsThreeWords` | http_server/src/http/request.rs:27-34 | passing, or failing with `InvalidProtocol`, happens only after three separated words were found; as written too, on one-byte text |
| `Request.InvalidRequestIffFewerThanThreeWords` | http_server/src/http/request.rs:27-29 | `InvalidRequest` exactly when fewer than three delimiter-terminated words can be taken; as written too, on one-byte text |
| `Request.CrlfRequestNeverPanics` | http_server/src/http/request.rs:27-29 | a text whose every `\r` is followed by `\n` never makes the corrected checks panic, nor the checks as written on one-byte text |
| `Request.WellFormedRequestLine` | http_server/src/http/request.rs:27-34 | `method SP target SP protocol CRLF` followed by anything passes all implemented checks with that method and target when the protocol is `HTTP/1.1`, and fails with `InvalidProtocol` otherwise; as written too, when the three words are one-byte text |
| `Request.TwoWordsAreTooFew` | http_server/src/http/request.rs:27-29 | two words and a third not followed by a delimiter fail with `InvalidRequest`; as written too, when the first two words are one-byte text |
| `Request.AsWrittenPanicsOnCrlfRequest` | http_server/src/http/request.rs:17-28 | as written, the CRLF request line `GET /é HTTP/1.1` panics in the second call to the tokenizer, both in the checks and in `try_from` as a whole; the corrected parser passes it with path `/é` |
| `Request.ExampleSearchRequest` | http_server/src/http/request.rs:16-34 | the request in the source comment passes with method `GET` and path `/search?name=abc&sort=1`, as written and corrected |
| `Request.ExampleHttp10` | http_server/src/http/request.rs:31-33 | an `HTTP/1.0` request line fails with `InvalidProtocol`, as written and corrected |
| `Request.ExampleMissingLineEnd` | http_server/src/http/request.rs:29 | `GET / HTTP/1.1` with no line end fails with `InvalidRequest`, as written and corrected |
| `Request.ExampleBareCr` | http_server/src/http/request.rs:50 | `GET\r` panics, as written and corrected, because the slice two bytes past the `\r` is out of range |
| `StatusCodes.Code` | http_server/src/http/status_code.rs:3-7 | each status code is a three-digit number between 100 and 599 |
| `StatusCodes.CodeTable` | http_server/src/http/status_code.rs:3-7 | OK = 200, BAD_REQUEST = 400, NOT_FOUND = 404, printed as `200`, `400`, `404` |
| `StatusCodes.StatusCodeInjective` | http_server/src/http/status_code.rs:3-16 | distinct status codes have distinct numbers, distinct printed forms and distinct reason phrases |
| `StatusCodes.ReasonPhrase` | http_server/src/http/status_code.rs:10-16 | every reason phrase is non-empty and contains no CR or LF |
| `StatusCodes.ReasonPhraseTable` | http_server/src/http/status_code.rs:10-16 | the phrases are exactly `Ok`, `Bad Request` and `Not Found` |
| `StatusCodes.DecimalString` | http_server/src/http/status_code.rs:21 | `{}` prints decimal digits with no leading zero, and they read back as the number |
| `StatusCodes.DecimalStringOfParse` | http_server/src/http/status_code.rs:21 | printing the number a canonical digit string denotes gives back that string, so printing and reading are inverse |
| `StatusCodes.DecimalStringLength` | http_server/src/http/status_code.rs:21 | a number prints as three digits exactly when it is between 100 and 999 |
| `StatusCodes.Display` | http_server/src/http/status_code.rs:19-23 | `Display` prints exactly three decimal digits, and they read back as the status code |

## Left out

- `str::from_utf8` is not modelled as a decoder. `Request.TryFrom` takes its
  result as a parameter. The precondition `DecodesTo` says two things: a
  success is text whose UTF-8 encoding is the buffer, and a failure points
  at a non-ASCII byte. So an invalid buffer always fails. It does not say
  that every valid buffer succeeds: a valid buffer holding a non-ASCII byte
  may still be paired with a failure, and then `TryFrom` gives
  `InvalidEncoding`. Only all-ASCII buffers are proved to decode.
- Request.TryFrom: the `Request` value (method, path, query string) is
  never built, because the source stops at `unimplemented!()`. The
  `method.rs` and `query_string.rs` files are not part of this model. The
  panic of `unimplemented!()` itself is the `ChecksPassed` outcome.
- ThreeWordsReachProtocolCheck: for the code as written, this holds only
  when the three words are one-byte text. With a wider character in a word,
  the code as written panics or splits in the wrong place (see Findings).
- WellFormedRequestLine: for the code as written, this holds only when the
  three words are one-byte text, for the same reason.
- ProtocolCheckNeedsThreeWords: for the code as written, this holds only on
  one-byte text. As written, `éa b c` fails with `InvalidProtocol` although
  it has fewer than three words.
- InvalidRequestIffFewerThanThreeWords: for the code as written, this holds
  only on one-byte text, as `éa b c` shows.
- CrlfRequestNeverPanics: for the code as written, this holds only on
  one-byte text. `AsWrittenPanicsOnCrlfRequest` shows a CRLF request that
  panics as written.
- TwoWordsAreTooFew: for the code as written, this holds only when the
  first two words are one-byte text. As written, `é b c` panics.
- `Display`, `Debug` and `Error` for `ParseError` are formatter plumbing
  around `message`. Only `message` is modelled.
- `server.rs` is not modelled: socket binding, the accept loop (including
  its double `accept()`), the 1024-byte read buffer and logging are network
  I/O.
- `website_handler.rs` is not modelled. It relies on filesystem calls
  (`canonicalize`, `read_to_string`) and on `Response` and `Handler`, which
  are not part of this model.
- `main.rs` and `http/mod.rs` only wire modules together. The `mars_calc`
  crate is unrelated to the server.

## Findings

| source | as written | input that shows it | evidently intended | confidence | as-written member | corrected member |
|---|---|---|---|---|---|---|
| http_server/src/http/request.rs:41-50 | the index `i` from `chars().enumerate()` counts characters, but `&request[..i]` and `&request[i + 1..]` use it as a byte offset | the request line `GET /café HTTP/1.1\r\n`: in the text after `GET `, the space after `/café` is character 5 but byte 6, and slicing at byte 5 (inside `é`) panics; `éab c` does not panic but splits into `éa` and ` c` | slice at the byte offset of the delimiter (as `char_indices()` gives it), returning `/café` and `HTTP/1.1\r\n` | not executed; high, since the comment at request.rs:42-44 reasons about the width of the delimiter only | `Tokenizer.AsWrittenPanicsOnMultiByteWord` | `Tokenizer.GetNextWord` |

`Request.TryFromAsWritten` models `try_from` with the tokenizer as
written. `Request.TryFrom` uses the corrected tokenizer `Tokenizer.NextWord`.
`Request.AsWrittenAgreesOnAscii` proves the two give the same outcome on
every all-ASCII buffer, and on every buffer that decodes to one-byte text.
At the request level, `Request.AsWrittenPanicsOnCrlfRequest` shows the
as-written parser panicking on `GET /é HTTP/1.1` followed by CRLF.
