# AirFloat web response, in Dafny

AirFloat's RTSP/HTTP layer keeps each response message in a `web_response_t`
(`AirFloat/webresponse.c`). It holds a 16-bit status code, an owned status
text, an owned header collection, an owned body with its length and a
keep-alive flag. Two operations do the real work:

- `web_response_parse` reads a response from a byte buffer that may not have
  all arrived yet. It returns 0 ("need more bytes") or -1 (malformed status
  line) and leaves the response untouched in both cases. Otherwise it commits
  status, text, headers and body together and returns the number of bytes
  consumed.
- `web_response_write` serialises the response. It returns the same size
  whether or not a buffer is given, and it writes each part only where it
  fits.

This project models that record and its operations. It proves what they
promise:

- the parser commits all fields or none;
- the status line splits on its first two spaces;
- the setters keep the body and its `Content-Length` header in step;
- the serialised form of a response, followed by its body, parses back to
  the same status, text, headers and body. The bytes the C code writes are
  that serialised form for status codes 100 to 999. For a two-digit code they
  are not: the headers land one byte late, after a NUL, and the NUL joins the
  first header's name, so that header is lost on reading back. When
  Content-Length is the first header (for example the only one), the body is
  lost. With no headers at all, the blank line is broken and the reply never
  completes. The model proves the case where Content-Length is the only
  header (see Findings);
- the parser is incremental: once an outcome is complete or malformed, later
  bytes do not change it.

Files:

- `wrappers.dfy`: `Option`.
- `libc.dfy` (`LibC`): the C library pieces the code relies on. It covers the
  first occurrence of a character, C strings ending at NUL, `atoi`, and the
  decimal text `"%d"` prints.
- `webtools.dfy` (`WebTools`): stand-ins for `web_tools_get_content_start` and
  `web_tools_convert_new_lines`. Their C sources are not part of this model, so
  each definition is an assumption. The lemmas about blocks of CRLF-ended lines
  support the write/parse round trip.
- `webheaders.dfy` (`WebHeaders`): a stand-in for the `web_headers_*`
  collection. It is an ordered list of name/value entries. Lookup returns the
  value set last, setting None removes the name, and the written form ends
  with a blank line. It also proves that written entries parse back.
- `webresponse.dfy` (`WebResponse`): the response record as a class
  `Response`, and the parser as two steps. `ReadMessage` computes an outcome
  without touching the object, and `Commit` applies it. Both are proved to
  give the outcome the function `ParseSpec` defines. The file also holds the
  serialiser and the round-trip lemmas.

Octets are modelled as `char`, and buffers as `seq<char>` or `array<char>`. An
absent (NULL) C string or body is `None` or the empty sequence.

The status fields are checked only where the code checks them.
`web_response_set_status` asserts `0 < code < 1000` and a non-NULL text
(`AirFloat/webresponse.c:185`), and nothing more: an empty text is accepted.
`web_response_parse` checks neither. It stores `atoi(code) % 65536` and
accepts an empty message token (`AirFloat/webresponse.c:151-153`).

## Model

| member | source | states |
|---|---|---|
| WebResponse.Response.constructor | AirFloat/webresponse.c:56-65 | A fresh response has status 500 and text "Internal Server Error". It has no headers, no body and keep-alive off, and it satisfies the body/Content-Length invariant. |
| WebResponse.Response.GetHeaders | AirFloat/webresponse.c:177-181 | Returns the collection. Its names are distinct, and its Content-Length entry is exactly the one the body length calls for. |
| WebResponse.Response.SetStatus | AirFloat/webresponse.c:183-194 | Under the caller's obligation `0 < code < 1000` and a C-string message, code and text become exactly the arguments. Nothing else changes. |
| WebResponse.Response.GetStatus | AirFloat/webresponse.c:196-200 | The stored code fits a `uint16_t`. |
| WebResponse.Response.GetStatusMessage | AirFloat/webresponse.c:202-206 | The stored text is a C string, with no NUL inside. |
| WebResponse.Response.SetContent | AirFloat/webresponse.c:208-231 | With a buffer and a positive size, the body becomes a copy of the first `size` bytes and Content-Length becomes their decimal count. Otherwise the body is empty, the length is 0 and Content-Length is removed, not set to "0". Other headers, status and flag are unchanged, and the invariant is re-established. |
| WebResponse.Response.GetContent | AirFloat/webresponse.c:233-240 | Always returns the body length. Given a destination, it copies exactly the first min(size, length) body bytes and leaves the rest of the destination alone. |
| WebResponse.Response.SetKeepAlive | AirFloat/webresponse.c:242-252 | The flag becomes the argument, which `get_keep_alive` then returns. Nothing else changes. |
| WebResponse.Response.Write | AirFloat/webresponse.c:254-275 | Returns the length of status line plus header block, with or without a buffer. The whole serialised text is written when it fits. Only the status line is written when that alone fits. Nothing is written otherwise. The bytes past what was written are unchanged. |
| WebResponse.FillInTwoParts | AirFloat/webresponse.c:258-273 | The write sequence copies each part at the running position only if it fits, and the position always advances. So the result equals the total length, and the buffer holds exactly the parts that fit. |
| WebResponse.CopyInto | AirFloat/webresponse.c:264 | The copied range holds the string, and the rest of the buffer is unchanged. |
| WebResponse.Response.Parse | AirFloat/webresponse.c:93-175 | The result and new state are those `ParseSpec(data)` prescribes. Incomplete gives 0 and Malformed gives -1, each with every field unchanged. Complete returns boundary offset plus declared length, at most `|data|`. It commits code, text, the new headers with Content-Length re-set by `set_content`, and the body bytes after the boundary; keep-alive is unchanged. The invariant is preserved. |
| WebResponse.Response.Commit | AirFloat/webresponse.c:145-167 | For any outcome, nothing changes unless it is complete. A complete outcome replaces code, text and headers and installs the body through SetContent. |
| WebResponse.ReadMessage | AirFloat/webresponse.c:93-146 | The imperative pass (copy, boundary, conversion, status line, header parse, length check) computes exactly `ParseSpec(data)`. A complete outcome has a 16-bit code, a C-string text, distinct header names and a body inside `data`. |
| WebResponse.ReadHeaderBlock | AirFloat/webresponse.c:110-138 | The status-line loop followed by a fresh header parse yields `ParseHeaderBlock` of the converted header. |
| WebResponse.ReadStatusLine | AirFloat/webresponse.c:113-132 | On its scratch array copy, the loop finds the first '\n'. Its code and message pointers, read back as C strings, are `SplitStatusLine` of the first line. |
| WebResponse.TerminateStatusLine | AirFloat/webresponse.c:113-127 | The loop stops at the first '\n'. The code and message marks are one past the first and second spaces of the line. Exactly those two spaces and the '\n' become NUL, and every other byte is unchanged. |
| WebResponse.SpacesSplit | AirFloat/webresponse.c:115-125 | Marks one past the first two spaces delimit the split of the status line. None when either space is missing. |
| WebResponse.MarkedTokens | AirFloat/webresponse.c:118-127 | Reading the code and message as C strings from the marked buffer gives the original text between the marks. |
| WebResponse.SplitStatusLineFails | AirFloat/webresponse.c:129-132 | The status-line split fails exactly when the line holds fewer than two spaces. |
| WebResponse.SplitStatusLineFields | AirFloat/webresponse.c:115-125 | The text before the first space is dropped. The code is the text between the first two spaces, and the message is everything after the second, spaces included. |
| WebResponse.ParseHeaderBlock | AirFloat/webresponse.c:113-138 | A parsed header block carries a NUL-free message and a collection with distinct names. |
| WebResponse.ParseSpec | AirFloat/webresponse.c:93-175 | Without a blank line the outcome is Incomplete. A complete outcome starts its body at the boundary the helper finds, and the body lies within `data`. Its code fits 16 bits, its text is a C string and its header names are distinct. |
| WebResponse.ParseSpecMalformed | AirFloat/webresponse.c:100-132 | -1 is returned exactly when a blank line has arrived and the first line of the converted header holds fewer than two spaces. The body plays no part. |
| WebResponse.ParseSpecExtends | AirFloat/webresponse.c:93-175 | Once a buffer parses as complete or malformed, appending bytes changes neither the outcome nor the count consumed. |
| WebResponse.ParseSpecShort | AirFloat/webresponse.c:145-167 | A readable header block whose declared length exceeds the bytes after the boundary gives Incomplete. |
| WebResponse.ParseSpecComplete | AirFloat/webresponse.c:145-162 | A readable header block whose declared length fits gives Complete with `atoi(code) % 65536`, the message, the parsed headers, the boundary and the declared length. |
| WebResponse.DeclaredLength | AirFloat/webresponse.c:140-143 | Without a Content-Length header, the declared length is 0. |
| WebResponse.DeclaredLengthMatches | AirFloat/webresponse.c:140-143 | A Content-Length header as `set_content` writes it declares exactly the body length. |
| WebResponse.ContentLengthHeader | AirFloat/webresponse.c:215-228 | The header is absent exactly when the body is empty. |
| WebResponse.ToSize | AirFloat/webresponse.c:143 | `atoi` stored in `size_t` keeps values below 2^64 and wraps negative ones to `v + 2^64`. |
| WebResponse.ParseSerialized | AirFloat/webresponse.c:93-175 | Parsing the serialised form of a response followed by its body gives back the code, the text, the headers and the body length. It consumes exactly the serialised bytes plus the body. This holds whenever Content-Length matches the body and the body length fits a `size_t`, the code fits 16 bits, the protocol has no space or line break, the text has no line break or NUL, header names are distinct, and every header is wire-safe (no ':' or line break in a name, no line break in a value, no leading space in a value). These are the bytes the corrected `Write` produces, and the bytes the C code produces for codes 100 to 999 (`AsWrittenSizeExact`). |
| WebResponse.ParseWrittenHeaderBlock | AirFloat/webresponse.c:113-138 | The converted header block of a written response reads back as the `"%d"` code text, the message and the same header collection. |
| WebResponse.WrittenBoundary | AirFloat/webresponse.c:100-111 | In written bytes followed by a body, the boundary lies just past the written bytes. Converting the header turns every CRLF into LF. |
| WebResponse.ParseTruncatedBody | AirFloat/webresponse.c:140-167 | The written bytes followed by any proper prefix of the body parse as Incomplete. |
| WebResponse.ParseCompleteReply | AirFloat/webresponse.c:93-175 | `"RTSP/1.0 200 OK\r\nContent-Length: 5\r\n\r\nHELLO"` parses as status 200 "OK", one Content-Length header, body at offset 38 of length 5. |
| WebResponse.AsWrittenSizeExact | AirFloat/webresponse.c:263-273 | The size the C code reports equals the bytes it prints exactly for codes 100 to 999. |
| WebResponse.AsWrittenSizeMiscountsTwoDigitCode | AirFloat/webresponse.c:263-273 | For status 42 "OK", an accepted `set_status`, the reported size is one byte more than the bytes printed. |
| WebResponse.TwoDigitWrittenBytes | AirFloat/webresponse.c:263-273 | For a two-digit code and a response whose only header is Content-Length, the C code's bytes (status line, the NUL after it, then the headers at offset `protocol + message + 7`) are as long as the size it reports. They equal the serialised form of a response whose Content-Length name starts with that NUL. |
| WebResponse.WrittenTwoDigitCodeLosesBody | AirFloat/webresponse.c:93-175 | For a two-digit code and a response whose only header is Content-Length, the C code's bytes followed by the body parse as Complete with the code and text but a body length of 0. The NUL joins the header name, so Content-Length is not found. |
| WebResponse.ParseSerializedWithoutLength | AirFloat/webresponse.c:140-162 | A serialised response with no Content-Length header, followed by any bytes, parses as Complete with a body length of 0. |
| WebTools.ContentStart | AirFloat/webresponse.c:100 | Stand-in. It is None exactly when no "\r\n\r\n" or "\n\n" has arrived. Otherwise it is an offset of at least 2 and at most the buffer size, just past a '\n'. |
| WebTools.ContentStartExtends | AirFloat/webresponse.c:100 | Stand-in. Bytes appended after a found boundary do not move it. |
| WebTools.ConvertNewLines | AirFloat/webresponse.c:111 | Stand-in. The converted header is no longer than the original and still ends in '\n'. |
| WebTools.ConvertCRLFLines | AirFloat/webresponse.c:111 | Stand-in. Converting a block of CRLF-ended plain lines gives the same lines ended by LF. |
| WebHeaders.Value | AirFloat/webresponse.c:141 | Stand-in. The lookup is None exactly when no entry has the name. Otherwise it returns the value of an entry with that name. |
| WebHeaders.SetValue | AirFloat/webresponse.c:221 | Stand-in. Afterwards the name holds the given value, or none. Every other name keeps its value, and distinct names stay distinct. |
| WebHeaders.Parse | AirFloat/webresponse.c:138 | Stand-in. Parsing keeps the names distinct. |
| WebHeaders.ParseEntryLines | AirFloat/webresponse.c:138 | Stand-in. Written header lines, once converted, parse back to the same entries in order. |
| WebHeaders.Text | AirFloat/webresponse.c:268 | Stand-in. The written header block ends with the blank line "\r\n". |
| LibC.AtoiDecimal | AirFloat/webresponse.c:151 | `atoi` reads back what `"%d"` prints. |
| LibC.DecimalHasThreeDigits | AirFloat/webresponse.c:263 | `"%d"` prints three characters exactly for 100 to 999. |
| LibC.CString | AirFloat/webresponse.c:152-153 | A C string is a NUL-free prefix of its buffer that ends at a NUL or at the end. |
| LibC.CStringStopsAt | AirFloat/webresponse.c:121 | A NUL written at position k ends the C string there, whatever follows. |

## Left out

- `AirFloat/mutex_posix.c`: a wrapper over a pthread mutex whose purpose is concurrency. It is not part of this model.
- Reference counting and destruction (`obj_create`, `obj_retain`, `obj_release`, `_web_response_destroy`, `web_response_retain`, `web_response_release`) only manage memory. `obj_create` is taken to zero the new record, as `set_status` relies on when it frees the old text.
- `malloc`, `free`, the stack-allocated header copy and the scratch `buffer`: buffers are sequences and arrays, and allocation cannot fail.
- WebResponse.Response.GetHeaders: returns the collection as a value. The C function hands out the object's own collection, so a caller can change it in place (aliasing). That is not captured.
- WebResponse.Response.Write: the size counts the status line as printed. The C code counts protocol, message and 7, as the Findings table shows; `AsWrittenSize` models that count. The NUL byte `sprintf` writes after the status line is not modelled. With a three-digit code and a buffer exactly as large as the status line, that NUL lands one byte past `data_size`.
- Write prints the status code with `"%d"`, which is signed `int`. Sizes are `size_t`, and `ret` is returned as `ssize_t`. Neither wrap-around is modelled, because values that large do not fit a real buffer.
- WebResponse.Response.SetContent: prints the `size_t` size with `"%d"` (`AirFloat/webresponse.c:221`). The model's `Decimal(size)` matches that only for sizes below 2^31; larger bodies are not modelled.
- LibC.Atoi: `atoi` on text whose value exceeds `int` is undefined in C. The model returns the exact value, which `ToSize` and the `% 65536` of the status code then reduce.
- `web_tools_get_content_start`, `web_tools_convert_new_lines`, `web_headers_parse`, `web_headers_value`, `web_headers_set_value` and `web_headers_write`: their C sources are not part of this model. WebTools and WebHeaders define stand-ins for them. The facts about the parser state on its own (`ParseSpec`'s contract, `ParseSpecMalformed`, `ParseSpecShort`, `ParseSpecComplete`, `ReadMessage`, `Parse`) use only the stand-ins' contracts. The round-trip and incremental lemmas (`ParseSpecExtends`, `ParseSerialized`, `ParseTruncatedBody`, `WrittenBoundary`, `WrittenTwoDigitCodeLosesBody`, `ParseCompleteReply`) also depend on the stand-ins' definitions. Those definitions are assumptions: the boundary is the first "\r\n\r\n" or "\n\n"; conversion rewrites each CRLF to LF; headers are written as `Name: value` lines ended by CRLF and a blank line; and the parser skips a line with no ':' and trims the leading spaces of a value.
- Logging (`debug`, `debug_data`) has no effect on the state.

## Findings

| source | as written | input that shows it | evidently intended | confidence | as-written member | corrected member |
|---|---|---|---|---|---|---|
| AirFloat/webresponse.c:263-273 | The status line is counted as `strlen(protocol) + strlen(message) + 7`, which assumes the code prints as three digits. `set_status` accepts 1–999, and `parse` stores any 16-bit value. | `set_status(wr, 42, "OK")`, then `write(wr, "RTSP/1.0", NULL, 0)`. It reports 17 bytes for the status line, but `"RTSP/1.0 42 OK\r\n"` is 16 bytes (`AsWrittenSizeMiscountsTwoDigitCode`). With a buffer, the headers then start one byte late, after the NUL `sprintf` left. The NUL joins the first header's name. When Content-Length is the only header, the bytes parsed back with a five-byte body give a Complete outcome with a body length of 0 (`WrittenTwoDigitCodeLosesBody`). A parsed code of 1000 or more gives a count one or two bytes short, so the headers overwrite the end of the status line. | The reported size and the header position follow the printed status line, whatever the code. | not executed | WebResponse.WrittenTwoDigitCodeLosesBody | WebResponse.Response.Write |
