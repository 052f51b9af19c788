# ezcfg core, modelled in Dafny

ezcfg is the configuration daemon of the ezbox router firmware. This project models
the parts of it that carry the logic:

- **HTTP message engine** (`Http`). An `HttpMessage` holds:
  - the method and known-header tables;
  - the parsed request line and an ordered header list;
  - the message body.

  Its parser works in place on a character buffer. It writes NUL over the CR of the
  request line, and over each header line's CR and `:`. Its writers format into a
  caller's buffer with `snprintf` semantics.
- **Worker** (`Worker`). A worker serves one connection:
  - it buffers a request from the socket until the blank line that ends the headers;
  - it rejects malformed input (400) and wrong HTTP versions (505);
  - it hands the message body to the protocol handler;
  - it shifts any pipelined bytes to the front of the buffer.

  It also covers the per-protocol set-up and release of the message object, and the
  framing of error responses.
- **IGRS messages** (`Igrs`). The message-type table, the CreateSessionRequest
  builder and its writer.
- **NVRAM over SOAP/HTTP** (`SoapNvram`, `SoapNvramProps`, `SoapTree`, `Nvram`):
  - the URI dispatch of `ezcfg_soap_http_handle_nvram_request`;
  - reading the request's SOAP tree;
  - the nine response builders (get, set, unset, setMulti, list, commit, info,
    insertSocket, removeSocket);
  - what a client reads back from each response.
- **String utilities** (`Util`). The log-priority parser, trailing-character trimming
  and leading-character skipping.
- **Kernel-module installer** (`KernelModule`). The static dependency table, and the
  recursive install and remove walks that cut comma lists in place and run `insmod` and
  `rmmod`.
- **Config-to-NVRAM sync** (`SyncNvram`). Lines of `keyword=value` are filtered by an
  optional (possibly negated) prefix and set one by one.
- **Classful netmask lookup** (`Lookup`), from the bootp tool.

`CString` holds the C library behaviour the code relies on, for example:
- `strchr`, `strrchr`, `strstr` and `strcasecmp`;
- `strtol` and `sscanf("%hd.%hd")`;
- `snprintf("%s")` into a bounded buffer;
- C strings inside a character buffer.

`Wrappers` holds `Option`.

Collaborators the core calls but does not define are modelled as parameters or as small
classes with explicit state:

- **The NVRAM store** is a `Store`. It has an `entries` map and a `script` of booleans:
  the outcome of each fallible call, in order.
- **The SOAP element tree** is an arena of elements with a fixed capacity. The XML
  writer that serialises it is a function parameter.
- **The client socket** is a queue of chunks, each delivered by one read.
- **Worker output** is a trace of the responses it prints.
- **`system()`** appends each command to a trace.
- **The kernel version** is an optional constant of the host.
- **The configuration file** is an optional sequence of lines (None when it cannot be
  opened).

The C code's integer widths are modelled where they are observable:
- the unsigned short status code and version numbers;
- the 16-bit `%hd` conversion;
- the 32-bit addresses of the netmask lookup;
- the pointer-sized buffer of the getNvram Content-Length.

## Model

| member | source | states |
|---|---|---|
| Http.MethodIndex | sub-projects/ezcfg/libezcfg/libezcfg-http.c:259-274 | The method slot found is at most the table size. It is 0 exactly when no slot in 1..n holds the verb. Otherwise it holds the verb and no higher slot does. |
| Http.KnownHeaderSlot | sub-projects/ezcfg/libezcfg/libezcfg-http.c:188-204 | The known-header slot found is within the table. |
| Http.HttpMessage.FindMethodIndex | sub-projects/ezcfg/libezcfg/libezcfg-http.c:259-274 | The descending search loop returns the slot `MethodIndex` specifies. |
| Http.KnownHeaderSlotMeaning | sub-projects/ezcfg/libezcfg/libezcfg-http.c:188-204 | The slot `find_known_header_name` stops at matches the name ignoring case, and no higher slot does. It is 0 exactly when no entry matches. |
| Http.HttpMessage.FindKnownHeaderName | sub-projects/ezcfg/libezcfg/libezcfg-http.c:188-204 | Returns the table's own spelling of the matching entry, or NULL when none matches. |
| Http.MakeHeaderMeaning | sub-projects/ezcfg/libezcfg/libezcfg-http.c:668-723 | An added header is known exactly when some table entry matches its name ignoring case. A known header takes the table's spelling; an unknown one keeps its name. The value is NULL exactly when it is empty, and is kept otherwise. |
| Http.MakeHeaders | sub-projects/ezcfg/libezcfg/libezcfg-http.c:246-251 | Parsing adds exactly one header per field. |
| Http.MakeHeadersAt | sub-projects/ezcfg/libezcfg/libezcfg-http.c:246-251 | Header i of the list is the header made from field i. |
| Http.SplitText | sub-projects/ezcfg/libezcfg/libezcfg-http.c:226-244 | A line found by `strstr` ends inside the text. The `:` found by `strchr` comes before that line's CRLF. |
| Http.SplitLine | sub-projects/ezcfg/libezcfg/libezcfg-http.c:224-244 | A header line split at `off` lies inside the C string that starts there. |
| Http.ScanRequestLine | sub-projects/ezcfg/libezcfg/libezcfg-http.c:373-386 | The method index stored is within the method table. |
| Http.ScanUriVersion | sub-projects/ezcfg/libezcfg/libezcfg-http.c:389-415 | Parsing the URI and version keeps the method slot already stored. |
| Http.Stamp | sub-projects/ezcfg/libezcfg/libezcfg-http.c:231-240 | Writing NULs into the buffer never changes its length. |
| Http.HttpMessage.constructor | sub-projects/ezcfg/libezcfg/libezcfg-http.c:302-324 | A new message has the default method and header tables. Every other field is zero, empty or NULL. |
| Http.HttpMessage.ClearHeaders | sub-projects/ezcfg/libezcfg/libezcfg-http.c:167-186 | Popping the head until none is left empties the header list. |
| Http.HttpMessage.ResetAttributes | sub-projects/ezcfg/libezcfg/libezcfg-http.c:326-347 | Headers, URI and body are dropped. The body length becomes 0 only when a body was present. Method, version and status stay as they were. |
| Http.HttpMessage.AddHeader | sub-projects/ezcfg/libezcfg/libezcfg-http.c:668-723 | Exactly one header is appended at the tail, built by `MakeHeader`. |
| Http.HttpMessage.GetHeader | sub-projects/ezcfg/libezcfg/libezcfg-http.c:480-497 | NULL exactly when no header name matches ignoring case. Otherwise the result is the stored NAME (not the value) of the first match. |
| Http.HttpMessage.SetMethodStrings | sub-projects/ezcfg/libezcfg/libezcfg-http.c:523-536 | Installs the given method table and its size. |
| Http.HttpMessage.SetRequestMethod | sub-projects/ezcfg/libezcfg/libezcfg-http.c:538-559 | Returns the table size. Stores the last slot when the table is not empty. Sets the extension flag for an `M-` method. |
| Http.HttpMessage.SetRequestUri | sub-projects/ezcfg/libezcfg/libezcfg-http.c:561-582 | The URI becomes a copy of the argument. |
| Http.HttpMessage.SetVersionMajor | sub-projects/ezcfg/libezcfg/libezcfg-http.c:443-454 | Stores the major version. |
| Http.HttpMessage.SetVersionMinor | sub-projects/ezcfg/libezcfg/libezcfg-http.c:456-467 | Stores the minor version. |
| Http.HttpMessage.SetStatusCode | sub-projects/ezcfg/libezcfg/libezcfg-http.c:469-478 | The int is stored modulo 2^16, as in an unsigned short. |
| Http.HttpMessage.SetStateResponse | sub-projects/ezcfg/libezcfg/src/soap/soap_http_nvram.c:132 | Marks the message as a response. |
| Http.HttpMessage.SetMessageBody | sub-projects/ezcfg/libezcfg/libezcfg-http.c:584-607 | Succeeds exactly for a non-negative length, and then stores an exact copy of that many bytes. On failure the old body is kept. |
| Http.HttpMessage.WriteRequestLine | sub-projects/ezcfg/libezcfg/libezcfg-http.c:609-634 | Returns -1 without a method and leaves the buffer untouched. Otherwise returns the full length of `"%s %s HTTP/%d.%d\r\n"`, and the buffer holds what `snprintf` writes of it. |
| Http.HttpMessage.WriteHeaders | sub-projects/ezcfg/libezcfg/libezcfg-http.c:636-666 | Returns -1 without a method. Otherwise returns the total length of all header lines, each written behind the previous one in list order. |
| Http.HttpMessage.ParseHeaders | sub-projects/ezcfg/libezcfg/libezcfg-http.c:210-257 | Result, headers appended and NULs written all equal the `ScanHeaders` specification of the original buffer. |
| Http.HttpMessage.ParseLines | sub-projects/ezcfg/libezcfg/libezcfg-http.c:224-254 | The line-by-line loop reaches the outcome of the trace of the original buffer. |
| Http.SplitHeaderLine | sub-projects/ezcfg/libezcfg/libezcfg-http.c:226-244 | One pass of the header loop writes its NULs and computes the `SplitLine` of the line. |
| Http.NextLine | sub-projects/ezcfg/libezcfg/libezcfg-http.c:224-254 | The parsing loop at one line of the trace splits exactly the line the trace records and writes that line's NULs behind the earlier ones. |
| Http.SkipWhiteSpace | sub-projects/ezcfg/libezcfg/libezcfg-http.c:243-244 | The LWS loop stops at the first character that is neither SP nor TAB, skipping only SP and TAB. |
| Http.Trace | sub-projects/ezcfg/libezcfg/libezcfg-http.c:224-254 | The lines the header loop visits start with the line at the start offset. |
| Http.HttpMessage.ParseRequestLine | sub-projects/ezcfg/libezcfg/libezcfg-http.c:371-416 | The fields stored and the result are those of `ScanRequestLine`. Fields it does not reach keep their old values. |
| Http.HttpMessage.ParseUriVersion | sub-projects/ezcfg/libezcfg/libezcfg-http.c:389-416 | URI, version and result are those of `ScanUriVersion`. |
| Http.HttpMessage.ParseRequest | sub-projects/ezcfg/libezcfg/libezcfg-http.c:349-419 | The request line, the headers appended, the result and the NULs left in the buffer all equal the `ScanRequest` specification. |
| Http.MethodThenRest | sub-projects/ezcfg/libezcfg/libezcfg-http.c:373-386 | A method without SP followed by SP: the rest of the line is read with that method's slot. |
| Http.UriThenVersion | sub-projects/ezcfg/libezcfg/libezcfg-http.c:389-415 | Behind a URI starting with `/` or `*` comes `HTTP/`, and the version text is read by `%hd.%hd`. |
| Http.UriVersionRoundTrip | sub-projects/ezcfg/libezcfg/libezcfg-http.c:389-415 | `uri HTTP/major.minor` as printed is read back whole. |
| Http.RequestLineRoundTrip | sub-projects/ezcfg/libezcfg/libezcfg-http.c:625-633 | Parsing back the request line the writer formats recovers the method slot, the URI and both version numbers. |
| CString.IndexOfJoin | sub-projects/ezcfg/libezcfg/libezcfg-http.c:373-375 | `strchr` on `a`, then `c`, then `b`, where `a` has no `c`, finds the `c` right behind `a`. This is how the SP after the method is found. |
| Http.HeaderLineSplit | sub-projects/ezcfg/libezcfg/libezcfg-http.c:226-244 | A `name:value` CRLF line splits into that name and value. |
| Http.HeaderLineScan | sub-projects/ezcfg/libezcfg/libezcfg-http.c:224-254 | A named header line adds its field and NULs its CR and `:`. Parsing continues behind its CRLF. |
| Http.BlankLineFails | sub-projects/ezcfg/libezcfg/libezcfg-http.c:235-239 | The blank line that ends a header block has no `:`, so the parser returns false after writing NUL over its CR. |
| Http.EmptyNameEnds | sub-projects/ezcfg/libezcfg/libezcfg-http.c:246-254 | A line with an empty name ends the block with true and adds nothing. |
| Http.ScanHeadersNulsFrom | sub-projects/ezcfg/libezcfg/libezcfg-http.c:224-254 | The header parser writes nothing before its start. |
| Http.ScanRequestNuls | sub-projects/ezcfg/libezcfg/libezcfg-http.c:362-369 | The request line's CR is overwritten with NUL. Every other NUL lies behind its CRLF. |
| Http.HeaderLines | sub-projects/ezcfg/libezcfg/libezcfg-http.c:224-254 | The loop's trace of the header block starts at the offset, and each step continues at the next CRLF. Only the last line ends the block, and the trace's outcome is `ScanHeaders`. |
| Http.WriteBehind | sub-projects/ezcfg/libezcfg/libezcfg-http.c:653-665 | One `snprintf` of a header line behind the earlier ones. |
| Worker.RequestLenMeaning | sub-projects/ezcfg/libezcfg/libezcfg-worker.c:115-134 | The request length is -1, 0, or a length in [2, n]. A positive length ends in LF LF or LF CR LF and is the first such ending. -1 exactly when a forbidden byte precedes the last byte and no ending was found. |
| Worker.RequestLenStable | sub-projects/ezcfg/libezcfg/libezcfg-worker.c:115-134 | Once a request is complete, more bytes read behind it do not change its length. |
| Worker.FirstTerminatorMeaning | sub-projects/ezcfg/libezcfg/libezcfg-worker.c:120-131 | The terminator found is the first one. None means there is no terminator. |
| Worker.FirstTerminator | sub-projects/ezcfg/libezcfg/libezcfg-worker.c:120-131 | A terminator found lies within the bytes read, at or after the start. |
| Worker.FirstTerminatorAt | sub-projects/ezcfg/libezcfg/libezcfg-worker.c:120-131 | A terminator with none before it is the first one. |
| Worker.TerminatorAt | sub-projects/ezcfg/libezcfg/libezcfg-worker.c:124-129 | A terminator at `i` gives `i + 2` (LF LF) or `i + 3` (LF CR LF), within the bytes read. |
| Worker.GetRequestLen | sub-projects/ezcfg/libezcfg/libezcfg-worker.c:115-134 | The scan over the buffer returns `RequestLen` of the bytes read. |
| Worker.Socket.constructor | sub-projects/ezcfg/libezcfg/libezcfg-worker.c:805-821 | An accepted socket reports its protocol and holds its pending stream. |
| Worker.Socket.Read | sub-projects/ezcfg/libezcfg/libezcfg-worker.c:153-161 | A read delivers at most `room` bytes, which are the next bytes of the stream. It returns 0 only when nothing is pending or room is 0. Bytes outside the target range are untouched. |
| Worker.Socket.Close | sub-projects/ezcfg/libezcfg/libezcfg-worker.c:77-86 | Closing marks the socket closed. |
| Worker.ReadRequest | sub-projects/ezcfg/libezcfg/libezcfg-worker.c:142-164 | Bytes are appended behind the earlier ones in stream order, and the stream keeps the rest. The result is `RequestLen` of the buffer. A zero result means the buffer is full or the socket delivered nothing. |
| Worker.FillRequest | sub-projects/ezcfg/libezcfg/libezcfg-worker.c:142-164 | The loop keeps the buffer equal to its snapshot with the first bytes of the stream written behind the earlier ones. It stops once a full request is found, the buffer is full, or a read delivers nothing. |
| Worker.ReadMore | sub-projects/ezcfg/libezcfg/libezcfg-worker.c:153-157 | One read appends the next bytes of the stream at the fill mark. |
| Worker.ReadAppends | sub-projects/ezcfg/libezcfg/libezcfg-worker.c:153-157 | Appending the next n stream bytes at the fill mark keeps the buffer filled in stream order, and the stream keeps the rest. |
| Worker.ConcatDrop | sub-projects/ezcfg/libezcfg/libezcfg-worker.c:153-157 | Taking bytes from the first chunk leaves the rest of the stream. |
| Worker.BodyLen | sub-projects/ezcfg/libezcfg/libezcfg-worker.c:477-496 | The body skipped never exceeds the bytes read behind the request. It is non-negative unless the Content-Length is below -1. |
| Worker.ShiftToNext | sub-projects/ezcfg/libezcfg/libezcfg-worker.c:477-496 | The pipelined bytes behind the request and its body move to the front in place, and the rest of the buffer is unchanged. Returns the new fill mark. |
| Worker.ContentLength | sub-projects/ezcfg/libezcfg/libezcfg-worker.c:91-107 | -1 when the header is absent, otherwise its `strtol` value, saturated to the 32-bit `long` range. |
| Worker.ContentLengthOfDecimal | sub-projects/ezcfg/libezcfg/libezcfg-worker.c:91-107 | A Content-Length written in decimal is read back as that number, or as LONG_MAX when it is larger. |
| Worker.ErrorBody | sub-projects/ezcfg/libezcfg/libezcfg-worker.c:199-207 | The error body is empty exactly for 1xx, 204 and 304. |
| Worker.ErrorResponseFraming | sub-projects/ezcfg/libezcfg/libezcfg-worker.c:184-215 | An error response ends with its body. Its Content-Length reads back as the body's length (LONG_MAX for a longer body), which is 0 exactly for the statuses without a body. |
| Worker.RejectedLineQuoted | sub-projects/ezcfg/libezcfg/libezcfg-worker.c:541-544 | The 400 response to a rejected request quotes exactly the request line, because the parser's NUL over its CR ends the C string. |
| Worker.StampedCStr | sub-projects/ezcfg/libezcfg/libezcfg-worker.c:541-544 | A NUL written at `p`, with none before it, ends the C string at `p`. |
| Worker.Shifted | sub-projects/ezcfg/libezcfg/libezcfg-worker.c:477-496 | Shifting keeps the buffer's size. |
| Worker.Zeros | sub-projects/ezcfg/libezcfg/libezcfg-worker.c:510-514 | A calloc'ed buffer is all NUL. |
| Worker.Worker.constructor | sub-projects/ezcfg/libezcfg/libezcfg-worker.c:776-803 | A new worker has no protocol, no protocol data and nothing sent. |
| Worker.Worker.ResetConnectionAttributes | sub-projects/ezcfg/libezcfg/libezcfg-worker.c:53-75 | No bytes counted as sent. The protocol message is reset for HTTP, SOAP/HTTP and IGRS, and untouched otherwise. |
| Worker.Worker.SendError | sub-projects/ezcfg/libezcfg/libezcfg-worker.c:184-281 | Prints the framed error response. Only the HTTP variant stores the status. The byte count becomes the body length when there is a body. |
| Worker.Worker.HandleRequest | sub-projects/ezcfg/libezcfg/libezcfg-worker.c:450-475 | Runs the protocol's handler. |
| Worker.Worker.ProcessRequest | sub-projects/ezcfg/libezcfg/libezcfg-worker.c:526-544 | After parsing, the responses are `Reply` of the stamped buffer: 400, 505 or the handler. A dispatched request takes the bytes behind it as its body, and the buffer is shifted to the next request. |
| Worker.Worker.Respond | sub-projects/ezcfg/libezcfg/libezcfg-worker.c:526-544 | The answer ladder: 400 when the request did not parse; 505 for a version other than 1.1 (1.0 for IGRS); otherwise set the body, run the handler and shift the buffer. |
| Worker.Worker.Dispatch | sub-projects/ezcfg/libezcfg/libezcfg-worker.c:534-539 | A supported request takes the bytes read behind it as its body and gets the handler's responses. The buffer is shifted to the next request when the body length leaves room. |
| Worker.Worker.AnswerRequest | sub-projects/ezcfg/libezcfg/libezcfg-worker.c:526-544 | A complete request in the zero-padded buffer is parsed and answered with `Answer`: 400, 505 or the handler's response. |
| Worker.Worker.ProcessProtocol | sub-projects/ezcfg/libezcfg/libezcfg-worker.c:498-661 | Reads a prefix of the stream, no longer than the request buffer. Nothing is sent and the message is untouched unless the request is complete. Otherwise the responses are the `Answer` to it. |
| Worker.Worker.InitProtocolData | sub-projects/ezcfg/libezcfg/libezcfg-worker.c:663-693 | HTTP, SOAP/HTTP and IGRS get a fresh message, unless the allocation fails. IGRS gets the `M-POST` method table. ISDP and unknown protocols get none. |
| Worker.Worker.ProcessNewConnection | sub-projects/ezcfg/libezcfg/libezcfg-worker.c:695-724 | Resets the connection, then serves it with the protocol's processor. ISDP and unknown protocols read and send nothing. |
| Worker.Worker.ReleaseProtocolData | sub-projects/ezcfg/libezcfg/libezcfg-worker.c:726-755 | HTTP, SOAP/HTTP and IGRS drop their message object. Other protocols keep what they have. |
| Worker.Worker.ServeConnection | sub-projects/ezcfg/libezcfg/libezcfg-worker.c:821-837 | One pass of the worker loop: the socket is always closed and the protocol data released. A message exists exactly when the protocol has one and allocation succeeds. Without a message nothing is read or sent. |
| Igrs.Plain | sub-projects/ezcfg/libezcfg/libezcfg-igrs.c:82-157 | A table entry without builder or writer. |
| Igrs.DefaultOp | sub-projects/ezcfg/libezcfg/libezcfg-igrs.c:82-157 | Only the CreateSessionRequest entry has a builder and a writer. |
| Igrs.FindMessageType | sub-projects/ezcfg/libezcfg/libezcfg-igrs.c:326-336 | The slot found is within the table. |
| Igrs.FindMessageTypeMeaning | sub-projects/ezcfg/libezcfg/libezcfg-igrs.c:326-336 | The slot found is the highest slot that can build the type. It is 0 exactly when none can. |
| Igrs.OnlyCreateSessionBuilds | sub-projects/ezcfg/libezcfg/libezcfg-igrs.c:82-157 | With the default table a build finds slot 49 for CreateSessionRequest and nothing for any other type. |
| Igrs.IgrsMessage.constructor | sub-projects/ezcfg/libezcfg/libezcfg-igrs.c:268-270 | A zeroed object owning its HTTP message. |
| Igrs.IgrsMessage.SetMessageTypeOps | sub-projects/ezcfg/libezcfg/libezcfg-igrs.c:299-312 | Installs the message-type table and its size. |
| Igrs.IgrsMessage.BuildCreateSessionRequest | sub-projects/ezcfg/libezcfg/libezcfg-igrs.c:162-196 | Sets the request line `M-POST /IGRS HTTP/1.1` and appends the eleven CreateSessionRequest headers in order. |
| Igrs.IgrsMessage.SetSessionLine | sub-projects/ezcfg/libezcfg/libezcfg-igrs.c:177-180 | Method slot 1 (M-POST, an extension), URI `/IGRS`, version 1.1. |
| Igrs.IgrsMessage.AddSessionHeaders | sub-projects/ezcfg/libezcfg/libezcfg-igrs.c:183-188 | Appends the IGRS session headers. |
| Igrs.IgrsMessage.AddSoapHeaders | sub-projects/ezcfg/libezcfg/libezcfg-igrs.c:189-193 | Appends the SOAP headers. |
| Igrs.CreateSessionHeadersOfFields | sub-projects/ezcfg/libezcfg/libezcfg-igrs.c:183-193 | The builder adds exactly the headers that adding the CreateSessionRequest fields one by one adds. |
| Igrs.IgrsMessage.BuildMessage | sub-projects/ezcfg/libezcfg/libezcfg-igrs.c:314-337 | Without a slot that can build the type, returns false and changes nothing. Otherwise that slot becomes current and the CreateSessionRequest is built. |
| Igrs.IgrsMessage.WriteCreateSessionRequest | sub-projects/ezcfg/libezcfg/libezcfg-igrs.c:198-228 | -1 without a method. Otherwise the buffer holds request line plus headers as one `snprintf` would write them, and the result is the header text's length only. |
| Igrs.IgrsMessage.WriteMessage | sub-projects/ezcfg/libezcfg/libezcfg-igrs.c:339-362 | -1 without a current type or writer. Otherwise the writer lays the whole message out at the start of the buffer. |
| Igrs.NewIgrs | sub-projects/ezcfg/libezcfg/libezcfg-igrs.c:257-287 | NULL exactly when one of the three allocations fails. Otherwise the object has the IGRS method table, the default type table and no current type. |
| Igrs.WholeMessage | sub-projects/ezcfg/libezcfg/libezcfg-igrs.c:219-227 | Writing the line and then the headers behind it equals one `snprintf` of both. |
| Igrs.CreateSessionLineRoundTrip | sub-projects/ezcfg/libezcfg/libezcfg-igrs.c:177-180 | The CreateSessionRequest line parses back, with the IGRS table, to M-POST, `/IGRS` and 1.1. |
| Util.LogPriority | sub-projects/ezcfg/libezcfg/libezcfg-util.c:21-36 | When `strtol` stops at the end or at white space, the result is its value, saturated to the 32-bit `long` range. Any result other than 0 and the three named priorities is a number that was converted. |
| Util.LogPriorityOfNumber | sub-projects/ezcfg/libezcfg/libezcfg-util.c:26-28 | Every decimal number reads back as itself, or as LONG_MAX when it is larger. |
| Util.PriorityByName | sub-projects/ezcfg/libezcfg/libezcfg-util.c:29-35 | A name starting with a letter: `err`, `info` and `debug` prefixes give LOG_ERR, LOG_INFO and LOG_DEBUG, anything else 0. |
| Util.TrimTrailing | sub-projects/ezcfg/libezcfg/libezcfg-util.c:38-58 | The trimmed string is the longest prefix whose last character is not in the list. Everything cut is in the list. |
| Util.TrimTrailingUnique | sub-projects/ezcfg/libezcfg/libezcfg-util.c:38-58 | These three properties determine the trimmed string. |
| Util.TrimTrailingIdempotent | sub-projects/ezcfg/libezcfg/libezcfg-util.c:38-58 | Trimming twice trims no more than once. |
| Util.Blank | sub-projects/ezcfg/libezcfg/libezcfg-util.c:45-46 | Blanking keeps the buffer's size. |
| Util.RemoveTrailingChar | sub-projects/ezcfg/libezcfg/libezcfg-util.c:38-47 | The trailing run of `c` is overwritten with NUL, and the C string left is the trimmed one. NULL is left alone. |
| Util.RemoveTrailingCharlist | sub-projects/ezcfg/libezcfg/libezcfg-util.c:49-58 | The trailing run of list characters is overwritten with NUL. Nothing changes when the list is NULL. |
| Util.TrimmedCStr | sub-projects/ezcfg/libezcfg/libezcfg-util.c:45-46 | Where the trimming loop stops, the C string left is the trimmed one. |
| Util.LeadingRun | sub-projects/ezcfg/libezcfg/libezcfg-util.c:60-78 | The leading run lies within the string. |
| Util.LeadingRunMeaning | sub-projects/ezcfg/libezcfg/libezcfg-util.c:60-78 | The leading run consists of list characters and stops at one outside the list. |
| Util.SkipLeadingChar | sub-projects/ezcfg/libezcfg/libezcfg-util.c:60-68 | NULL for NULL. The string itself for NUL `c`. Otherwise advanced past its leading run of `c`. |
| Util.SkipLeadingCharlist | sub-projects/ezcfg/libezcfg/libezcfg-util.c:70-78 | NULL for NULL. The string itself for a NULL list. Otherwise advanced past its leading list characters, never past the terminator. |
| Util.SkippedRun | sub-projects/ezcfg/libezcfg/libezcfg-util.c:76 | A run that stops at the first character outside the list is the leading run. |
| Lookup.LookupNetmask | sub-projects/porting/hg522c/tools/bootp/lookup.c:98-121 | Class A, B and C addresses (in host order) get the 255.0.0.0, 255.255.0.0 and 255.255.255.0 masks in network order. The lookup fails exactly when the top three bits are 111. |
| Lookup.MaskInHostOrder | sub-projects/porting/hg522c/tools/bootp/lookup.c:105-120 | A returned mask, read back in host order, is one of the three classful masks. |
| SoapTree.FindFrom | sub-projects/ezcfg/libezcfg/src/soap/soap_http_nvram.c:1810 | The element found from index k is the first matching child from there, or -1 when none matches. |
| SoapTree.FindChild | sub-projects/ezcfg/libezcfg/src/soap/soap_http_nvram.c:1772-1782 | The element found is the first matching child of the parent after `after`, or -1 when none matches. |
| SoapTree.Content | sub-projects/ezcfg/libezcfg/src/soap/soap_http_nvram.c:1779 | Returns the text of an existing element, or NULL. |
| SoapTree.BodyIndex | sub-projects/ezcfg/libezcfg/src/soap/soap_http_nvram.c:1771 | The body index is 1 once the body exists, otherwise -1. |
| SoapTree.WithAttribute | sub-projects/ezcfg/libezcfg/src/soap/soap_http_nvram.c:90 | Adds one attribute to element `i` only. |
| SoapTree.Tree.constructor | sub-projects/ezcfg/libezcfg/src/soap/soap_http_nvram.c:82 | An empty tree with its capacity and writer. |
| SoapTree.Tree.Reset | sub-projects/ezcfg/libezcfg/src/soap/soap_http_nvram.c:82 | The tree becomes empty. |
| SoapTree.Tree.SetVersion | sub-projects/ezcfg/libezcfg/src/soap/soap_http_nvram.c:85-86 | Stores the SOAP version. |
| SoapTree.Tree.SetEnvelope | sub-projects/ezcfg/libezcfg/src/soap/soap_http_nvram.c:89 | The envelope is element 0, the root. |
| SoapTree.Tree.SetBody | sub-projects/ezcfg/libezcfg/src/soap/soap_http_nvram.c:93 | The body is element 1, under the root. |
| SoapTree.Tree.AddAttribute | sub-projects/ezcfg/libezcfg/src/soap/soap_http_nvram.c:97 | Adds the attribute to the named element. |
| SoapTree.Tree.AddBodyChild | sub-projects/ezcfg/libezcfg/src/soap/soap_http_nvram.c:834-848 | Appends a child and returns its index. Returns -1 and adds nothing when the arena is full or the parent does not exist. |
| Nvram.Store.constructor | sub-projects/ezcfg/libezcfg/src/soap/soap_http_nvram.c:1736 | A store holding the given entries, call outcomes and figures. |
| Nvram.Store.Attempt | sub-projects/ezcfg/libezcfg/src/soap/soap_http_nvram.c:1002 | Each fallible call consumes one outcome. |
| Nvram.Rest | sub-projects/ezcfg/libezcfg/src/soap/soap_http_nvram.c:1002 | One outcome is consumed per call. |
| Nvram.Store.GetEntryValue | sub-projects/ezcfg/libezcfg/src/soap/soap_http_nvram.c:77 | On success, the value of a held name. NULL on failure and for an unknown name. |
| Nvram.Store.SetEntry | sub-projects/ezcfg/libezcfg/src/soap/soap_http_nvram.c:266 | On success the entry takes the value. On failure the entries are unchanged. |
| Nvram.Store.UnsetEntry | sub-projects/ezcfg/libezcfg/src/soap/soap_http_nvram.c:447 | On success the entry is removed. On failure the entries are unchanged. |
| Nvram.Store.Commit | sub-projects/ezcfg/libezcfg/src/soap/soap_http_nvram.c:1002 | Reports the next outcome. |
| Nvram.Store.GetAllEntriesList | sub-projects/ezcfg/libezcfg/src/soap/soap_http_nvram.c:810 | On success the list holds every entry exactly once. On failure it is empty. |
| Nvram.Store.InsertSocket | sub-projects/ezcfg/libezcfg/src/soap/soap_http_nvram.c:1403 | Reports the next outcome. |
| Nvram.Store.RemoveSocket | sub-projects/ezcfg/libezcfg/src/soap/soap_http_nvram.c:1579 | Reports the next outcome. |
| Nvram.SetRunAllSucceed | sub-projects/ezcfg/libezcfg/src/soap/soap_http_nvram.c:626-637 | When no set fails, the loop applies every pair in order and succeeds. |
| Nvram.SetRunStopsAtFailure | sub-projects/ezcfg/libezcfg/src/soap/soap_http_nvram.c:626-637 | When set k fails first, the pairs before it stay applied, the rest are never tried and the run fails. The loop is not transactional. |
| Nvram.SetRunOk | sub-projects/ezcfg/libezcfg/src/soap/soap_http_nvram.c:626-637 | The run succeeds exactly when none of its sets fails. |
| Nvram.AppliedCons | sub-projects/ezcfg/libezcfg/src/soap/soap_http_nvram.c:626-637 | Applying the first pair and then the rest equals applying all of them. |
| Nvram.AppliedLastWins | sub-projects/ezcfg/libezcfg/src/soap/soap_http_nvram.c:626-637 | A name takes the value of its last pair. |
| Nvram.AppliedElsewhere | sub-projects/ezcfg/libezcfg/src/soap/soap_http_nvram.c:626-637 | A name no pair mentions keeps its entry, or its absence. |
| SoapNvram.Rows | sub-projects/ezcfg/libezcfg/src/soap/soap_http_nvram.c:832-850 | Three elements per pair. |
| SoapNvram.RowsTree | sub-projects/ezcfg/libezcfg/src/soap/soap_http_nvram.c:813-850 | A rows response has 3 + 3n elements. |
| SoapNvram.StorageRows | sub-projects/ezcfg/libezcfg/src/soap/soap_http_nvram.c:1270-1327 | Three rows per storage slot. |
| SoapNvram.SoapHttp.constructor | sub-projects/ezcfg/libezcfg/src/soap/soap_http_nvram.c:1736-1754 | Pairs the connection's HTTP message and SOAP tree. |
| SoapNvram.SoapHttp.Respond | sub-projects/ezcfg/libezcfg/src/soap/soap_http_nvram.c:106-147 | When the buffer is allocated: status 200 even for a Fault, the serialised body, then Content-Type and Content-Length, and 0. Otherwise -1 with the HTTP message untouched. |
| SoapNvram.SoapHttp.SetResponseBody | sub-projects/ezcfg/libezcfg/src/soap/soap_http_nvram.c:128-138 | A reset message turned into a 200 response that carries exactly the body. |
| SoapNvram.SoapHttp.AddSoapHeaders | sub-projects/ezcfg/libezcfg/src/soap/soap_http_nvram.c:140-144 | Content-Type, then the body length printed into the room it is given. |
| SoapNvram.SoapHttp.BeginEnvelope | sub-projects/ezcfg/libezcfg/src/soap/soap_http_nvram.c:81-93 | Reset, SOAP 1.2, the envelope with its namespace, then the body. |
| SoapNvram.SoapHttp.BuildFault | sub-projects/ezcfg/libezcfg/src/soap/soap_http_nvram.c:161-188 | The tree is exactly the SOAP 1.2 Fault with the given reason. |
| SoapNvram.SoapHttp.BuildOpened | sub-projects/ezcfg/libezcfg/src/soap/soap_http_nvram.c:81-97 | The prelude and the response element at index 2. |
| SoapNvram.SoapHttp.BuildResult | sub-projects/ezcfg/libezcfg/src/soap/soap_http_nvram.c:265-300 | A response carrying one Result. |
| SoapNvram.SoapHttp.AppendRow | sub-projects/ezcfg/libezcfg/src/soap/soap_http_nvram.c:834-848 | Adds row i, or on a full tree reports false with the tree holding the prefix of the whole response that fits. |
| SoapNvram.SoapHttp.BuildGetResponse | sub-projects/ezcfg/libezcfg/src/soap/soap_http_nvram.c:53-241 | The tree is `GetReply`: name and value when the get succeeds for a held name, otherwise an "invalid name" Fault. Its Content-Length is printed pointer-sized only in the success path. |
| SoapNvram.SoapHttp.BuildSetResponse | sub-projects/ezcfg/libezcfg/src/soap/soap_http_nvram.c:243-417 | With name and value, the store sets the entry and the verdict is returned. Without them, an "invalid value" Fault and the store is untouched. |
| SoapNvram.SoapHttp.BuildUnsetResponse | sub-projects/ezcfg/libezcfg/src/soap/soap_http_nvram.c:419-600 | The unset runs only when the get found the name. The answer is OK whatever the unset reports. |
| SoapNvram.SoapHttp.BuildSetMultiResponse | sub-projects/ezcfg/libezcfg/src/soap/soap_http_nvram.c:602-783 | Without a list: a Fault and nothing set. With one: the store ends as `SetRun` of the list and the verdict is the run's. |
| SoapNvram.SoapHttp.BuildListResponse | sub-projects/ezcfg/libezcfg/src/soap/soap_http_nvram.c:785-980 | On success, one row per entry, listing every entry once. A failed listing gives a Fault. A full tree abandons the response and still returns 0. |
| SoapNvram.SoapHttp.BuildRows | sub-projects/ezcfg/libezcfg/src/soap/soap_http_nvram.c:828-850 | The rows of the list, or false with the prefix that fits. |
| SoapNvram.SoapHttp.BuildCommitResponse | sub-projects/ezcfg/libezcfg/src/soap/soap_http_nvram.c:982-1145 | OK when the commit succeeds, an "operation fail" Fault otherwise. |
| SoapNvram.SoapHttp.BuildInfoResponse | sub-projects/ezcfg/libezcfg/src/soap/soap_http_nvram.c:1147-1378 | The version row, the three space rows, then three rows per storage slot. A full tree abandons the response with 0. |
| SoapNvram.SoapHttp.BuildInfoRows | sub-projects/ezcfg/libezcfg/src/soap/soap_http_nvram.c:1189-1327 | The info rows in order, or false with the prefix that fits. |
| SoapNvram.SoapHttp.AppendSpaceRows | sub-projects/ezcfg/libezcfg/src/soap/soap_http_nvram.c:1189-1265 | Adds the version and space rows. |
| SoapNvram.SoapHttp.AppendSlotRows | sub-projects/ezcfg/libezcfg/src/soap/soap_http_nvram.c:1270-1327 | Adds the backend, coding and path rows of slot n. |
| SoapNvram.SoapHttp.BuildInsertSocketResponse | sub-projects/ezcfg/libezcfg/src/soap/soap_http_nvram.c:1380-1554 | The store's verdict on the collected list, or an "invalid value" Fault without one. Only a collected list consumes an outcome. |
| SoapNvram.SoapHttp.BuildRemoveSocketResponse | sub-projects/ezcfg/libezcfg/src/soap/soap_http_nvram.c:1556-1730 | The store's verdict on the collected list, or an "invalid value" Fault without one. |
| SoapNvram.SoapHttp.CollectList | sub-projects/ezcfg/libezcfg/src/soap/soap_http_nvram.c:1810-1839 | The list-building loop returns `Collected`: a pair per nvram node. It gives none once a node lacks a name or a value, or the list refuses an insertion: a NULL text, or the `listCap`-th pair. |
| SoapNvram.SoapHttp.HandleNvramRequest | sub-projects/ezcfg/libezcfg/src/soap/soap_http_nvram.c:1736-1961 | Routes on the URI in source order and relays each branch's outcome: the builder's tree, store entries and consumed outcomes, the return value, that a well-formed answer was recorded when the response buffer exists, and the untouched HTTP message when it does not. Any other URI gives -1 and changes nothing. |
| SoapNvram.SoapHttp.HandleEntryRequest | sub-projects/ezcfg/libezcfg/src/soap/soap_http_nvram.c:1758-1793 | The get, set, unset and commit branches: the reply tree, the set or unset effect on the store, the outcomes consumed, 0 or -1 by the buffer, and the answer recorded. |
| SoapNvram.SoapHttp.HandleListRequest | sub-projects/ezcfg/libezcfg/src/soap/soap_http_nvram.c:1800-1958 | The setMulti, insertSocket and removeSocket branches collect their list, then answer: the Fault without a list, otherwise the store's verdict and the pairs setMulti applied. |
| SoapNvram.SoapHttp.HandleNamedRequest | sub-projects/ezcfg/libezcfg/src/soap/soap_http_nvram.c:1758-1794 | The getNvram and unsetNvram branches: the reply tree for the name in the URI, the removal when the entry exists, the outcomes consumed, 0 or -1 by the buffer, and the answer recorded. |
| SoapNvram.SoapHttp.HandleStoreRequest | sub-projects/ezcfg/libezcfg/src/soap/soap_http_nvram.c:1766-1789 | The setNvram and commitNvram branches: the reply tree, the pair set when the request carries both fields, the outcomes consumed, 0 or -1 by the buffer, and the answer recorded. |
| SoapNvram.SoapHttp.HandleSetMultiRequest | sub-projects/ezcfg/libezcfg/src/soap/soap_http_nvram.c:1795-1845 | The Fault without a collected list; otherwise the pairs are applied in order up to the first failure, and the verdict reports it. |
| SoapNvram.SoapHttp.HandleInsertSocketRequest | sub-projects/ezcfg/libezcfg/src/soap/soap_http_nvram.c:1858-1908 | The store's verdict on the collected list, or the Fault without one. The entries stay as they were. |
| SoapNvram.SoapHttp.HandleRemoveSocketRequest | sub-projects/ezcfg/libezcfg/src/soap/soap_http_nvram.c:1909-1958 | The store's verdict on the collected list, or the Fault without one. The entries stay as they were. |
| SoapNvram.SoapHttp.HandleReportRequest | sub-projects/ezcfg/libezcfg/src/soap/soap_http_nvram.c:1846-1857 | The listNvram and infoNvram branches: the list of every entry or the info rows, the store entries unchanged, and the capacity cut-off with its return value of 0. |
| SoapNvram.InfoSlotRows | sub-projects/ezcfg/libezcfg/src/soap/soap_http_nvram.c:1270-1327 | Slot n's rows follow the four fixed rows and the rows of the slots before it. |
| SoapNvram.StorageRowsAt | sub-projects/ezcfg/libezcfg/src/soap/soap_http_nvram.c:1270-1327 | Rows 3n..3n+2 of the storage rows are slot n's. |
| SoapNvram.RowsTreeSnoc | sub-projects/ezcfg/libezcfg/src/soap/soap_http_nvram.c:832-850 | Appending a pair appends its row. |
| SoapNvram.RowsPrefix | sub-projects/ezcfg/libezcfg/src/soap/soap_http_nvram.c:832-850 | The rows of a prefix of the pairs are a prefix of the rows. |
| SoapNvram.RowsTreePrefix | sub-projects/ezcfg/libezcfg/src/soap/soap_http_nvram.c:832-850 | A rows response for a prefix of the pairs is a prefix of the full response. |
| SoapNvramProps.ResultTreeReads | sub-projects/ezcfg/libezcfg/src/soap/soap_http_nvram.c:265-300 | A result response reads back its result and no Fault. |
| SoapNvramProps.FaultTreeReads | sub-projects/ezcfg/libezcfg/src/soap/soap_http_nvram.c:161-188 | A Fault reads back its reason and no response element. |
| SoapNvramProps.GetAnswer | sub-projects/ezcfg/libezcfg/src/soap/soap_http_nvram.c:77-188 | A client reads the stored value and the name exactly when the store holds the name and the get succeeds. Otherwise it reads the "invalid name" Fault. |
| SoapNvramProps.SetAnswer | sub-projects/ezcfg/libezcfg/src/soap/soap_http_nvram.c:1766-1788 | With a name and a value a client reads the store's verdict. Otherwise it reads the "invalid value" Fault. |
| SoapNvramProps.UnsetAnswer | sub-projects/ezcfg/libezcfg/src/soap/soap_http_nvram.c:444-554 | OK exactly when the store held the name, whatever the unset reported. |
| SoapNvramProps.CommitAnswer | sub-projects/ezcfg/libezcfg/src/soap/soap_http_nvram.c:1002-1099 | OK exactly when the commit succeeds, otherwise the "operation fail" Fault. |
| SoapNvramProps.ListVerdictAnswer | sub-projects/ezcfg/libezcfg/src/soap/soap_http_nvram.c:1400-1554 | The verdict when a list was collected, the "invalid value" Fault otherwise. |
| SoapNvramProps.RowsAt | sub-projects/ezcfg/libezcfg/src/soap/soap_http_nvram.c:832-850 | Row k sits at 3k in the rows. |
| SoapNvramProps.RowsParents | sub-projects/ezcfg/libezcfg/src/soap/soap_http_nvram.c:832-850 | Every row element hangs below the response element and before itself. |
| SoapNvramProps.RowsTreeParents | sub-projects/ezcfg/libezcfg/src/soap/soap_http_nvram.c:813-850 | In a rows response every element's parent comes before it. |
| SoapNvramProps.RowsTreeShape | sub-projects/ezcfg/libezcfg/src/soap/soap_http_nvram.c:813-850 | A rows response is the prelude, the response element, and per pair a node with its name and value children. |
| SoapNvramProps.RowPair | sub-projects/ezcfg/libezcfg/src/soap/soap_http_nvram.c:1813-1829 | Reading node k gives pair k. |
| SoapNvramProps.RowNext | sub-projects/ezcfg/libezcfg/src/soap/soap_http_nvram.c:1901 | The next node after node k is node k+1, or none after the last. |
| SoapNvramProps.RowOp | sub-projects/ezcfg/libezcfg/src/soap/soap_http_nvram.c:1870 | The response element is the body's only element with its tag. |
| SoapNvramProps.RowFirst | sub-projects/ezcfg/libezcfg/src/soap/soap_http_nvram.c:1873 | The first node is node 0, or none without pairs. |
| SoapNvramProps.GatherRows | sub-projects/ezcfg/libezcfg/src/soap/soap_http_nvram.c:1873-1902 | Collecting rows that all fit gives back every pair in order. |
| SoapNvramProps.GatherRowsOverflow | sub-projects/ezcfg/libezcfg/src/soap/soap_http_nvram.c:1894-1899 | With more rows than the list takes, the insertion fails and nothing is collected. |
| SoapNvramProps.ChainOverflow | sub-projects/ezcfg/libezcfg/src/soap/soap_http_nvram.c:1894-1899 | When each node from k up to cap carries its pair and leads to the next, the loop collects pairs k to cap - 1 and then finds the list full. |
| SoapNvramProps.RowsReadBack | sub-projects/ezcfg/libezcfg/src/soap/soap_http_nvram.c:1870-1902 | Reading a rows response the way the dispatch reads a request gives back every pair in order when they fit, and nothing otherwise. |
| SoapNvramProps.ToMap | sub-projects/ezcfg/libezcfg/src/soap/soap_http_nvram.c:832-850 | The map a list describes has exactly the listed names as keys. |
| SoapNvramProps.ToMapAt | sub-projects/ezcfg/libezcfg/src/soap/soap_http_nvram.c:832-850 | With distinct names, each listed name maps to its listed value. |
| SoapNvramProps.ListsToMap | sub-projects/ezcfg/libezcfg/src/soap/soap_http_nvram.c:810 | A listing of the store describes exactly the store's map. |
| SoapNvramProps.RowsTreeNoFault | sub-projects/ezcfg/libezcfg/src/soap/soap_http_nvram.c:813-850 | A rows response carries no Fault. |
| SoapNvramProps.ListAnswer | sub-projects/ezcfg/libezcfg/src/soap/soap_http_nvram.c:785-980 | A client collects every listed row and rebuilds exactly the store's map. A failed listing reads as the "operation fail" Fault. |
| SoapNvramProps.InfoAnswer | sub-projects/ezcfg/libezcfg/src/soap/soap_http_nvram.c:1189-1327 | The info response carries 4 + 3n rows, each slot's three in place, and a client collects them all in order. |
| SoapNvramProps.InfoSlots | sub-projects/ezcfg/libezcfg/src/soap/soap_http_nvram.c:1189-1327 | Behind the four figures, slot n's three rows sit at 4 + 3n to 6 + 3n. |
| SoapNvramProps.RescanGather | sub-projects/ezcfg/libezcfg/src/soap/soap_http_nvram.c:1838 | Searching the next node from the start re-reads the first node until the list refuses an insertion. |
| SoapNvramProps.SetMultiNeverCollects | sub-projects/ezcfg/libezcfg/src/soap/soap_http_nvram.c:1807-1839 | setMultiNvram collects a list only from a request without any node. Any request with a node ends with no list, so the answer is the Fault. |
| SoapNvramProps.SetRequestReads | sub-projects/ezcfg/libezcfg/src/soap/soap_http_nvram.c:1766-1785 | The set branch reads back the name and value a request carries. |
| SoapNvramProps.SetRequestWithoutValue | sub-projects/ezcfg/libezcfg/src/soap/soap_http_nvram.c:1782-1788 | A set request without a value is answered with the "invalid value" Fault. |
| SoapNvramProps.Pow10 | sub-projects/ezcfg/libezcfg/src/soap/soap_http_nvram.c:143 | Powers of ten are positive. |
| SoapNvramProps.DecimalNoLonger | sub-projects/ezcfg/libezcfg/src/soap/soap_http_nvram.c:143 | A positive number has no more digits than its value. |
| SoapNvramProps.DecimalWidth | sub-projects/ezcfg/libezcfg/src/soap/soap_http_nvram.c:143 | n prints in at most k digits exactly when n < 10^k. |
| SoapNvramProps.DigitsBelow | sub-projects/ezcfg/libezcfg/src/soap/soap_http_nvram.c:143 | A run of k digits is worth less than 10^k. |
| SoapNvramProps.ScanDigits | sub-projects/ezcfg/libezcfg/libezcfg-worker.c:106 | `strtol` reads a whole run of digits, saturating at LONG_MAX. |
| SoapNvramProps.ContentLengthExact | sub-projects/ezcfg/libezcfg/src/soap/soap_http_nvram.c:227-228 | Every response except a found getNvram carries the full body length, and the worker reads it back exactly up to LONG_MAX. |
| SoapNvramProps.GetContentLength | sub-projects/ezcfg/libezcfg/src/soap/soap_http_nvram.c:143-144 | A found getNvram prints its length into `sizeof(char *)` characters. The header is right exactly for bodies under 1000 characters; a longer body is announced with its first three digits. |
| SoapNvramProps.RouteEntryUris | sub-projects/ezcfg/libezcfg/src/soap/soap_http_nvram.c:1765-1853 | The set, setMulti and commit URIs select their own branches. |
| SoapNvramProps.RouteListUris | sub-projects/ezcfg/libezcfg/src/soap/soap_http_nvram.c:1847-1916 | The list, info, insertSocket and removeSocket URIs select their own branches. |
| SoapNvramProps.RouteGet | sub-projects/ezcfg/libezcfg/src/soap/soap_http_nvram.c:1758-1765 | getNvram takes the name after `?name=`. |
| SoapNvramProps.RouteGetWithoutQuery | sub-projects/ezcfg/libezcfg/src/soap/soap_http_nvram.c:1758-1765 | A getNvram URI without `?name=` is not handled. |
| SoapNvramProps.RouteUnset | sub-projects/ezcfg/libezcfg/src/soap/soap_http_nvram.c:1790-1793 | unsetNvram skips six characters after its prefix without looking at them, and the rest is the name. |
| SoapNvramProps.RouteForeign | sub-projects/ezcfg/libezcfg/src/soap/soap_http_nvram.c:1758-1960 | A URI outside the NVRAM directory is not handled. |
| KernelModule.Split | sub-projects/ezcfg/ezcd/src/utils/utils_handle_kernel_module.c:84-97 | The install walk cuts a list into at least one piece. |
| KernelModule.SplitLast | sub-projects/ezcfg/ezcd/src/utils/utils_handle_kernel_module.c:155-171 | Cutting at the last comma splits off the last piece. |
| KernelModule.SplitAtLast | sub-projects/ezcfg/ezcd/src/utils/utils_handle_kernel_module.c:155-171 | The `strrchr` cut: the pieces before the last comma, then the piece after it. |
| KernelModule.SplitCommaList | sub-projects/ezcfg/ezcd/src/utils/utils_handle_kernel_module.c:48-63 | A table list is cut back into exactly the names it was written from. |
| KernelModule.TableAcyclic | sub-projects/ezcfg/ezcd/src/utils/utils_handle_kernel_module.c:48-63 | Every dependency in the table ranks below its module, so following dependencies stops. |
| KernelModule.TablePlain | sub-projects/ezcfg/ezcd/src/utils/utils_handle_kernel_module.c:48-63 | Every list in the table is a non-empty comma list. |
| KernelModule.TableNamesDistinct | sub-projects/ezcfg/ezcd/src/utils/utils_handle_kernel_module.c:48-63 | No two table entries name the same module. |
| KernelModule.InsmodAll | sub-projects/ezcfg/ezcd/src/utils/utils_handle_kernel_module.c:103-122 | One insmod per module loaded, none when the kernel version is unknown. |
| KernelModule.InsmodAllAppend | sub-projects/ezcfg/ezcd/src/utils/utils_handle_kernel_module.c:103-122 | The commands for two stretches follow each other. |
| KernelModule.RmmodAll | sub-projects/ezcfg/ezcd/src/utils/utils_handle_kernel_module.c:139-147 | One rmmod per module removed. |
| KernelModule.RmmodAllAppend | sub-projects/ezcfg/ezcd/src/utils/utils_handle_kernel_module.c:139-147 | The commands for two stretches follow each other. |
| KernelModule.InstallTraceOfDependency | sub-projects/ezcfg/ezcd/src/utils/utils_handle_kernel_module.c:92-94 | A dependency is installed without arguments. |
| KernelModule.InstalledStep | sub-projects/ezcfg/ezcd/src/utils/utils_handle_kernel_module.c:79-101 | One more entry in the install loop adds the commands of its list when it names the module. |
| KernelModule.RemovedStep | sub-projects/ezcfg/ezcd/src/utils/utils_handle_kernel_module.c:150-175 | One more entry in the remove loop adds the commands of its list when it names the module. |
| KernelModule.InstallListStep | sub-projects/ezcfg/ezcd/src/utils/utils_handle_kernel_module.c:84-97 | One more piece of the install walk adds that module's install. |
| KernelModule.RemoveListStep | sub-projects/ezcfg/ezcd/src/utils/utils_handle_kernel_module.c:155-171 | One more piece of the remove walk adds that module's removal. |
| KernelModule.System.constructor | sub-projects/ezcfg/ezcd/src/utils/utils_handle_kernel_module.c:103-106 | A host with its kernel version and no commands run yet. |
| KernelModule.System.Run | sub-projects/ezcfg/ezcd/src/utils/utils_handle_kernel_module.c:121 | `system()` runs exactly the command given, after the earlier ones. |
| KernelModule.Install | sub-projects/ezcfg/ezcd/src/utils/utils_handle_kernel_module.c:65-125 | NULL fails with nothing run. Otherwise the commands are `InstallTrace` over the static table, and the result says whether the kernel version was known. |
| KernelModule.Remove | sub-projects/ezcfg/ezcd/src/utils/utils_handle_kernel_module.c:127-180 | NULL fails with nothing run. Otherwise an rmmod for each module of `RemoveOrder`, and success. |
| KernelModule.InstallWith | sub-projects/ezcfg/ezcd/src/utils/utils_handle_kernel_module.c:65-125 | The recursive installer over any acyclic table runs exactly `InstallTrace`: the lists of every matching entry, then the module with its arguments. |
| KernelModule.InstallWalk | sub-projects/ezcfg/ezcd/src/utils/utils_handle_kernel_module.c:82-99 | The `strchr` walk installs each piece of the list in order. |
| KernelModule.RemoveWith | sub-projects/ezcfg/ezcd/src/utils/utils_handle_kernel_module.c:127-180 | The recursive remover over any acyclic table unloads the module first, then the lists of every matching entry. |
| KernelModule.RemoveWalk | sub-projects/ezcfg/ezcd/src/utils/utils_handle_kernel_module.c:153-173 | The `strrchr` walk removes the pieces of a list last to first. |
| KernelModule.Reverse | sub-projects/ezcfg/ezcd/src/utils/utils_handle_kernel_module.c:150-175 | Reversal keeps the length. |
| KernelModule.ReverseAppend | sub-projects/ezcfg/ezcd/src/utils/utils_handle_kernel_module.c:150-175 | The reverse of a concatenation is the concatenation of the reverses, swapped. |
| KernelModule.NothingFirst | sub-projects/ezcfg/ezcd/src/utils/utils_handle_kernel_module.c:79-101 | Entries not naming the module pull nothing in. |
| KernelModule.Unlisted | sub-projects/ezcfg/ezcd/src/utils/utils_handle_kernel_module.c:65-180 | A module the table does not list is loaded, or unloaded, on its own. |
| KernelModule.OnlyEntry | sub-projects/ezcfg/ezcd/src/utils/utils_handle_kernel_module.c:79-101 | The only entry naming a module contributes its list once the loop passes it. |
| KernelModule.Listed | sub-projects/ezcfg/ezcd/src/utils/utils_handle_kernel_module.c:65-180 | Installing a listed module loads its list first to last, then the module. Removing it unloads the module, then its list last to first. |
| KernelModule.RemoveListSnoc | sub-projects/ezcfg/ezcd/src/utils/utils_handle_kernel_module.c:155-171 | The first piece of a list is removed last. |
| KernelModule.RemoveReversesInstall | sub-projects/ezcfg/ezcd/src/utils/utils_handle_kernel_module.c:65-180 | Over any acyclic table with distinct names, removal unloads exactly the modules installation loads, in reverse order. |
| KernelModule.FirstReversed | sub-projects/ezcfg/ezcd/src/utils/utils_handle_kernel_module.c:79-175 | The remove loop's part is the reverse of the install loop's. |
| KernelModule.EntryReversed | sub-projects/ezcfg/ezcd/src/utils/utils_handle_kernel_module.c:79-175 | For the entry that names the module, the remove walk over its list is the reverse of the install walk. |
| KernelModule.ListReversed | sub-projects/ezcfg/ezcd/src/utils/utils_handle_kernel_module.c:84-171 | The remove walk over a list is the reverse of the install walk. |
| KernelModule.InsmodAllAt | sub-projects/ezcfg/ezcd/src/utils/utils_handle_kernel_module.c:115-121 | The k-th dependency command loads the k-th module. |
| KernelModule.RmmodAllAt | sub-projects/ezcfg/ezcd/src/utils/utils_handle_kernel_module.c:139-147 | The k-th rmmod command unloads the k-th module. |
| KernelModule.InstallCommands | sub-projects/ezcfg/ezcd/src/utils/utils_handle_kernel_module.c:103-122 | With a known kernel version there is one insmod per module of `InstallOrder`, in order; the last carries the arguments. Without one there are none. |
| KernelModule.RemoveCommands | sub-projects/ezcfg/ezcd/src/utils/utils_handle_kernel_module.c:139-147 | One rmmod per module of `RemoveOrder`, starting with the module itself. |
| KernelModule.RemoveUndoesInstall | sub-projects/ezcfg/ezcd/src/utils/utils_handle_kernel_module.c:42-180 | Over the static table, removal unloads what installation loads, in reverse order. |
| KernelModule.NlsBaseAlone | sub-projects/ezcfg/ezcd/src/utils/utils_handle_kernel_module.c:48-63 | `nls_base` has no entry, so it loads on its own. |
| KernelModule.CodePageOrder | sub-projects/ezcfg/ezcd/src/utils/utils_handle_kernel_module.c:48-63 | A code page loads `nls_base` first. |
| KernelModule.FatLoadsNlsBaseTwice | sub-projects/ezcfg/ezcd/src/utils/utils_handle_kernel_module.c:48-101 | Nothing is de-duplicated: installing `fat` loads `nls_base` once for each of its two code pages. |
| SyncNvram.PatternRoundTrip | sub-projects/ezcfg/ezcd/src/utils/utils_sync_nvram_with_cfg.c:59-65 | A pattern spells back the filter it gives. The exception is a positive prefix starting with `!`, which no pattern can express. |
| SyncNvram.Cut | sub-projects/ezcfg/ezcd/src/utils/utils_sync_nvram_with_cfg.c:72-76 | None exactly for a line without `=`. Otherwise the keyword before the first `=` and the value after it. |
| SyncNvram.CutJoin | sub-projects/ezcfg/ezcd/src/utils/utils_sync_nvram_with_cfg.c:72-76 | Cutting a joined line gives back its keyword and value, even when the value holds `=`. |
| SyncNvram.Settings | sub-projects/ezcfg/ezcd/src/utils/utils_sync_nvram_with_cfg.c:71-106 | At most one set per line, each of a selected keyword without `=`. |
| SyncNvram.SettingsAppend | sub-projects/ezcfg/ezcd/src/utils/utils_sync_nvram_with_cfg.c:71-106 | The sets of two stretches of a file follow each other. |
| SyncNvram.IgnoredLine | sub-projects/ezcfg/ezcd/src/utils/utils_sync_nvram_with_cfg.c:73 | A line without `=` calls for nothing. |
| SyncNvram.SettingsMeaning | sub-projects/ezcfg/ezcd/src/utils/utils_sync_nvram_with_cfg.c:71-100 | A set is made exactly when some line cuts into it and its keyword is selected. |
| SyncNvram.PatternSelects | sub-projects/ezcfg/ezcd/src/utils/utils_sync_nvram_with_cfg.c:59-100 | In the pattern's own terms: no pattern, an empty one or a lone `!` selects all keywords. `!p` selects those not starting with p, and `p` those starting with it. |
| SyncNvram.FiltersPartition | sub-projects/ezcfg/ezcd/src/utils/utils_sync_nvram_with_cfg.c:77-100 | A prefix and its negation split an unfiltered sync between them. |
| SyncNvram.LineStep | sub-projects/ezcfg/ezcd/src/utils/utils_sync_nvram_with_cfg.c:71-106 | One line of the loop: its set, if any, then the sets of the lines after it. A failed set ends the run. |
| SyncNvram.ApiSet | sub-projects/ezcfg/ezcd/src/utils/utils_sync_nvram_with_cfg.c:81 | Non-negative exactly when the set succeeds, and then the entry holds the value. |
| SyncNvram.Sync | sub-projects/ezcfg/ezcd/src/utils/utils_sync_nvram_with_cfg.c:45-110 | A NULL path or an unopenable file fails with nothing set. Otherwise every selected `keyword=value` line is set in order. The first failed set ends the sync with failure, and the earlier sets stay applied. |
| CString.ToLower | sub-projects/ezcfg/libezcfg/libezcfg-http.c:199 | `tolower` changes only ASCII capitals, by 32. |
| CString.Truncated | sub-projects/ezcfg/libezcfg/src/soap/soap_http_nvram.c:143 | `snprintf` keeps a prefix shorter than the room, and the whole text when it fits. |
| CString.Snprintf | sub-projects/ezcfg/libezcfg/libezcfg-http.c:625-633 | Formatting into a buffer keeps its size. |
| CString.PutString | sub-projects/ezcfg/libezcfg/libezcfg-http.c:625-633 | Copying into the buffer writes what `Snprintf` specifies. |
| CString.SnprintfThen | sub-projects/ezcfg/libezcfg/libezcfg-http.c:653-665 | Two `snprintf` calls, the second right behind the first, write what one call with both texts writes. |
| CString.CStrSlice | sub-projects/ezcfg/libezcfg/libezcfg-http.c:226 | A C string is the NUL-free slice of its buffer up to the first NUL. |
| CString.CStrUpTo | sub-projects/ezcfg/libezcfg/libezcfg-http.c:231 | A NUL with none before it ends the C string. |
| CString.CStrFrom | sub-projects/ezcfg/libezcfg/libezcfg-http.c:253 | A C string depends only on the buffer from its start on. |
| CString.IndexOfMeaning | sub-projects/ezcfg/libezcfg/libezcfg-http.c:235 | `strchr` fails exactly when the character is absent, and otherwise finds its first occurrence. |
| CString.IndexOfTests | sub-projects/ezcfg/libezcfg/libezcfg-util.c:56 | `strchr(l, c)` tests membership. |
| CString.IndexOf | sub-projects/ezcfg/libezcfg/libezcfg-http.c:235 | An index `strchr` finds lies within the string. |
| CString.LastIndexOf | sub-projects/ezcfg/ezcd/src/utils/utils_handle_kernel_module.c:155 | `strrchr` fails exactly when the character is absent, and otherwise finds its last occurrence. |
| CString.FindMeaning | sub-projects/ezcfg/libezcfg/libezcfg-http.c:226 | `strstr` fails only when the pattern occurs nowhere, and otherwise finds its first occurrence. |
| CString.FindFirst | sub-projects/ezcfg/libezcfg/libezcfg-http.c:226 | An occurrence with none before it is the one `strstr` finds. |
| CString.Find | sub-projects/ezcfg/libezcfg/libezcfg-http.c:226 | A match `strstr` finds lies within the string. |
| CString.OccursShift | sub-projects/ezcfg/libezcfg/libezcfg-http.c:226 | An occurrence at k is one at k-1 of the tail. |
| CString.Decimal | sub-projects/ezcfg/libezcfg/libezcfg-http.c:625-633 | `%d` prints at least one digit and only digits. |
| CString.DecimalRoundTrip | sub-projects/ezcfg/libezcfg/libezcfg-http.c:625-633 | Reading back a printed number gives the number. |
| CString.SpaceRun | sub-projects/ezcfg/libezcfg/libezcfg-util.c:26 | The leading white space of a number is a maximal run. |
| CString.DigitRun | sub-projects/ezcfg/libezcfg/libezcfg-util.c:26 | The digits of a number form a maximal run. |
| CString.ScanNumber | sub-projects/ezcfg/libezcfg/libezcfg-http.c:412-415 | A conversion ends right after its last digit, at a non-digit or the end. |
| CString.Strtol | sub-projects/ezcfg/libezcfg/libezcfg-util.c:26 | `strtol` stops within the string, and its value lies between LONG_MIN and LONG_MAX of a 32-bit `long`. With no digits converted it returns 0 at the start. |
| CString.StrtolOfDecimal | sub-projects/ezcfg/libezcfg/libezcfg-util.c:26 | A decimal number followed by a non-digit converts to itself, or to LONG_MAX when larger, ending after its digits. |
| CString.Short | sub-projects/ezcfg/libezcfg/libezcfg-http.c:412-415 | `%hd` stores a 16-bit pattern. |
| CString.ScanShortPair | sub-projects/ezcfg/libezcfg/libezcfg-http.c:412-415 | `sscanf` returns 2 exactly when both numbers are stored, the second only after the first, each below 2^16. |
| CString.DigitRunOfDecimal | sub-projects/ezcfg/libezcfg/libezcfg-worker.c:106 | The digit run of a printed number followed by a non-digit is the number. |
| CString.ScanDecimal | sub-projects/ezcfg/libezcfg/libezcfg-http.c:412-415 | `%d` reads back what `%d` printed. |
| CString.ScanPrintedPair | sub-projects/ezcfg/libezcfg/libezcfg-http.c:412-415 | `%hd.%hd` reads back two numbers printed as `%d.%d`. |

## Left out

- Http.HttpMessage.SetRequestMethod: requires the method to be in the last slot of the table. The C search loop starts at the last slot and counts upwards (`i++` at libezcfg-http.c:548), so any other method is looked for past the end of the table.
- Http.HttpMessage.WriteHeaders: requires every header line to start inside the buffer. Once the count passes `len`, the C code passes `len - count` to `snprintf` as a huge unsigned size and writes past the buffer.
- Igrs.IgrsMessage.WriteCreateSessionRequest: requires the same of its request line and headers, for the same reason.
- Http.HttpMessage.AddHeader: allocation failures are not modelled. The check of `h->name` where the copied value was meant (libezcfg-http.c:702) therefore has no effect in the model.
- Http.HttpMessage.ClearHeaders: the header nodes the C loop unlinks without freeing (a leak) are not observable in a value model.
- SoapNvram.SoapHttp.HandleNvramRequest: requires the URI to extend six characters past the unsetNvram prefix. The C code skips six characters there without looking, so a shorter URI is read past its terminator.
- SoapNvram.SoapHttp.HandleListRequest: the setMultiNvram loop searches for the next node from the start (soap_http_nvram.c:1838). It is modelled as written, and `SoapNvramProps.SetMultiNeverCollects` states the consequence. With a node present, the C loop ends only when `ezcfg_link_list_insert` refuses an insertion: an allocation failure, or a duplicate name that the unmodelled link list rejects. `listCap` stands for that first refused insertion. Without any refusal the C loop does not terminate, which the model does not capture.
- SoapNvram.SoapHttp.CollectList: a `name` or `value` element without text has NULL content (soap_http_nvram.c:1819, 1828), and the C loop passes that NULL to `ezcfg_link_list_insert` (:1831). The link list is not part of this model, so it is assumed to refuse a NULL name or value. The model then ends the collection with no list, so the answer is the "invalid value" Fault (`SoapNvram.NodePair`).
- Worker.Worker.Dispatch: a Content-Length below minus the request length makes `shift_to_next` (libezcfg-worker.c:477-496) call `memmove` with a source before the buffer, which is undefined behaviour. The model leaves the buffer unchanged in that case, as it does whenever the body length leaves no room.
- CString.Strtol: `long` is taken as 32 bits, the targets the daemon is built for. `errno` is not modelled.
- The SOAP/HTTP message is the plain `Http.HttpMessage`: `ezcfg_soap_http_new` (libezcfg-worker.c:682), `ezcfg_soap_http_reset_attributes` (:65) and `ezcfg_soap_http_parse_request` with its version getters (:582-585) are not part of the modelled files.
- `sizeof(msg)` in the getNvram success path is modelled as a 4-byte pointer, the 32-bit targets the daemon is built for. `SoapNvramProps.GetContentLength` states the consequence.
- Element tags, namespaces, URIs and fault strings come from headers that are not part of this model, so stand-in constants with the documented spelling are used. `CMD_INSMOD` and `CMD_RMMOD` are likewise stand-ins (`insmod`, `rmmod`).
- The SOAP tree engine, its XML writer (`ezcfg_soap_write_message`, a function parameter of the tree), the link list and the NVRAM store backends are not part of the modelled sources. They are specified by the behaviour the handler relies on, with the tree capacity at least `SoapTree.MinCapacity`. The version and storage-backend strings of the info response pass through a 256-byte buffer (soap_http_nvram.c:1152, 1202, 1281). The model takes them as whatever that bounded getter returns.
- The effect of insertSocket and removeSocket on the socket table, and the persistence a commit performs, are not modelled. Only their reported outcomes are.
- Allocation failures are modelled only for:
  - the response buffer of the SOAP builders (`msgOk`);
  - `init_protocol_data`;
  - `ezcfg_igrs_new`.

  Elsewhere, for example the kernel-module code's `strdup`/`malloc`, allocations are assumed to succeed. The link list's refusals are modelled through `listCap` and through the NULL text described under `SoapNvram.SoapHttp.CollectList`.
- The worker thread loop, the master, thread creation, `birth_time`, debug dumps and logging are left out. `Worker.Worker.ServeConnection` models one pass of the loop.
- The SOAP/HTTP request handler called from `handle_request` is not modelled. The worker sends nothing for it (`Worker.Handled`).
- The IGRS parse and reset functions are not in the modelled files. The IGRS protocol therefore uses its HTTP message for parsing.
- Output truncation by `worker_printf` (to the request size) and of error texts (to `EZCFG_BUFFER_SIZE`) is not modelled: responses are traced whole.
- `get_content_length` calls a protocol-specific header getter. All three are modelled as one lookup of the first header whose name matches ignoring case (`Worker.HeaderValue`).
- Worker.ReadRequest: counts are unbounded integers, so the `int` overflow of `nread` cannot occur in the model.
- KernelModule.InstallWith: the kernel version is a constant of the host, read afresh by each recursive call in the C code and assumed stable.
- `utils_file_get_line` (comment stripping, trimming and `FILE_LINE_BUFFER_SIZE`) is not modelled. The sync receives the lines it returns.
- `ezcfg_api_nvram_set` reaches the daemon over a control socket. The model applies it directly to the store (`SyncNvram.ApiSet`).
- `lookup_hwa`, `lookup_ipa` and the rest of the bootp tool, the rc layer, the ezctp API and `ezcfg.c` are outside the modelled core.
- Lookup.LookupNetmask: `ntohl` and `htonl` are modelled as the byte swap of a little-endian host.
