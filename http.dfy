/**
 * The HTTP message engine of libezcfg (libezcfg-http.c): request-line and header
 * parsing after sections 5.1 and 4.2 of RFC 2616, the `M-` extension methods of
 * RFC 2774, the header list, and the request-line and header writers.
 *
 * Method and header names are looked up in tables whose slot 0 is a NULL sentinel
 * (modelled as the empty string).  The header list, a tail-appended linked list in
 * C, is the sequence field `headers`.  Parsing works on the caller's character
 * buffer and leaves NULs in it exactly where the C code writes them.
 */
module Http {
  import opened Wrappers
  import opened CString
  import Util

  /** The request methods of RFC 2616 and RFC 2774, after the sentinel slot. */
  const DefaultMethodStrings: seq<string> := [
    "",
    "OPTIONS", "GET", "HEAD", "POST", "PUT", "DELETE", "TRACE", "CONNECT",
    "M-OPTIONS", "M-GET", "M-HEAD", "M-POST", "M-PUT", "M-DELETE", "M-TRACE", "M-CONNECT"
  ]

  /** The header names of RFC 2616 and RFC 2774 in their canonical spelling. */
  const DefaultHeaderStrings: seq<string> := [
    "",
    "Cache-Control", "Connection", "Date", "Pragma", "Trailer", "Transfer-Encoding",
    "Upgrade", "Via", "Warning",
    "Accept", "Accept-Charset", "Accept-Encoding", "Accept-Language", "Authorization",
    "Expect", "From", "Host", "If-Match", "If-Modified-Since", "If-None-Match", "If-Range",
    "If-Unmodified-Since", "Max-Forwards", "Proxy-Authorization", "Range", "Referer", "TE",
    "User-Agent",
    "Accept-Ranges", "Age", "ETag", "Location", "Proxy-Authenticate", "Retry-After",
    "Server", "Vary", "WWW-Authenticate",
    "Allow", "Content-Encoding", "Content-Language", "Content-Length", "Content-Location",
    "Content-MD5", "Content-Range", "Content-Type", "Expires", "Last-Modified",
    "Man", "Opt", "C-Man", "C-Opt",
    "Ext", "C-Ext"
  ]

  /** One entry of the header list.  A known header shares the table's spelling of
      its name; an empty value is stored as NULL. */
  datatype Header = Header(name: string, value: Option<string>, isKnown: bool)

  /** A header line as the parser splits it, before it is added to the list. */
  datatype Field = Field(name: string, value: string)

  /** `find_method_index`: the highest slot in n..1 holding exactly `method`, 0 for none. */
  function MethodIndex(strings: seq<string>, n: nat, verb: string): (r: nat)
    requires n < |strings|
    ensures r <= n
    ensures r == 0 <==> forall i :: 1 <= i <= n ==> strings[i] != verb
    ensures r > 0 ==> strings[r] == verb && forall i :: r < i <= n ==> strings[i] != verb
  {
    if n == 0 then 0
    else if strings[n] == verb then n
    else MethodIndex(strings, n - 1, verb)
  }

  /** The slot `find_known_header_name` stops at: a descending search of n..1 for an
      entry equal to `name` ignoring case, 0 for none. */
  function KnownHeaderSlot(strings: seq<string>, n: nat, name: string): (r: nat)
    requires n < |strings|
    ensures r <= n
  {
    if n == 0 then 0
    else if EqualsIgnoreCase(strings[n], name) then n
    else KnownHeaderSlot(strings, n - 1, name)
  }

  /** The slot found is the highest matching one, and 0 exactly when none matches. */
  lemma {:induction false} KnownHeaderSlotMeaning(strings: seq<string>, n: nat, name: string)
    requires n < |strings|
    ensures var r := KnownHeaderSlot(strings, n, name);
      (r == 0 <==> forall i :: 1 <= i <= n ==> !EqualsIgnoreCase(strings[i], name))
      && (r > 0 ==> EqualsIgnoreCase(strings[r], name))
      && (r > 0 ==> forall i :: r < i <= n ==> !EqualsIgnoreCase(strings[i], name))
  {
    if n > 0 && !EqualsIgnoreCase(strings[n], name) {
      KnownHeaderSlotMeaning(strings, n - 1, name);
    }
  }

  /** The header `ezcfg_http_add_header(name, value)` appends: the table's spelling of
      a known name, the name itself otherwise, and no value for an empty one. */
  function MakeHeader(strings: seq<string>, n: nat, f: Field): (h: Header)
    requires n < |strings|
  {
    var slot := KnownHeaderSlot(strings, n, f.name);
    var value := if f.value == "" then None else Some(f.value);
    if slot == 0 then Header(f.name, value, false) else Header(strings[slot], value, true)
  }

  /** A header is known exactly when some table entry matches its name ignoring case;
      a known header carries that entry's spelling, an unknown one the name as given;
      the value is kept unless it is empty. */
  lemma MakeHeaderMeaning(strings: seq<string>, n: nat, f: Field)
    requires n < |strings|
    ensures var h := MakeHeader(strings, n, f);
      (h.isKnown <==> exists i :: 1 <= i <= n && EqualsIgnoreCase(strings[i], f.name))
      && (h.isKnown ==> EqualsIgnoreCase(h.name, f.name) && h.name in strings[1..n + 1])
      && (!h.isKnown ==> h.name == f.name)
      && (h.value.None? <==> f.value == "")
      && (h.value.Some? ==> h.value.value == f.value)
  {
    KnownHeaderSlotMeaning(strings, n, f.name);
    var slot := KnownHeaderSlot(strings, n, f.name);
    if slot > 0 {
      assert strings[slot] == strings[1..n + 1][slot - 1];
    }
  }

  /** The headers added for a sequence of parsed fields, in order. */
  function MakeHeaders(strings: seq<string>, n: nat, fs: seq<Field>): (hs: seq<Header>)
    requires n < |strings|
    ensures |hs| == |fs|
  {
    if fs == [] then []
    else MakeHeaders(strings, n, fs[..|fs| - 1]) + [MakeHeader(strings, n, fs[|fs| - 1])]
  }

  /** Each field gives the header in the same position. */
  lemma {:induction false} MakeHeadersAt(strings: seq<string>, n: nat, fs: seq<Field>, i: nat)
    requires n < |strings| && i < |fs|
    ensures MakeHeaders(strings, n, fs)[i] == MakeHeader(strings, n, fs[i])
  {
    if i < |fs| - 1 {
      MakeHeadersAt(strings, n, fs[..|fs| - 1], i);
    }
  }

  /** The outcome of `parse_http_headers` on a buffer: its result, the fields it adds
      and the buffer indexes where it writes a NUL. */
  datatype HeaderScan = HeaderScan(ok: bool, fields: seq<Field>, nuls: set<nat>)

  /** The fields and NUL writes of earlier lines, put before the outcome of the rest. */
  function After(fs: seq<Field>, ns: set<nat>, r: HeaderScan): HeaderScan {
    HeaderScan(r.ok, fs + r.fields, ns + r.nuls)
  }

  /** One header line of the C string at `off`: no CRLF, no ':' before the CRLF at
      `crlf`, or split at its first ':' with the white space before the value skipped. */
  datatype LineSplit =
    | Unterminated
    | NoColon(crlf: nat)
    | Split(crlf: nat, colon: nat, name: string, value: string)

  function SplitText(t: string): (r: LineSplit)
    ensures !r.Unterminated? ==> r.crlf + 2 <= |t|
    ensures r.Split? ==> r.colon < r.crlf
  {
    match Find(t, "\r\n")
    case None => Unterminated
    case Some(e) =>
      var line := t[..e];
      match IndexOf(line, ':')
      case None => NoColon(e)
      case Some(c) =>
        var rest := line[c + 1..];
        Split(e, c, line[..c], rest[Util.LeadingRun(rest, " \t")..])
  }

  /** The header line of the C string at `off` in `b`. */
  function SplitLine(b: seq<char>, off: nat): (r: LineSplit)
    ensures !r.Unterminated? ==> r.crlf + 2 <= |CStr(b, off)|
  {
    SplitText(CStr(b, off))
  }

  /** `parse_http_headers(b + off)`: line by line, a line with an empty name ends the
      block successfully, a line without CRLF or without ':' is an error.  The CRLF's
      CR and the ':' of each line are overwritten with NUL. */
  function ScanHeaders(b: seq<char>, off: nat): (r: HeaderScan)
    decreases |b| - off
  {
    match SplitLine(b, off)
    case Unterminated => HeaderScan(false, [], {})
    case NoColon(e) => HeaderScan(false, [], {off + e})
    case Split(e, c, name, value) =>
      if c == 0 then HeaderScan(true, [], {off + e, off})
      else
        CStrSlice(b, off);
        After([Field(name, value)], {off + e, off + c}, ScanHeaders(b, off + e + 2))
  }

  /** The outcome of the request-line part of `ezcfg_http_parse_request`: whether
      the line is accepted and the values it stores (None where it stores none). */
  datatype LineScan = LineScan(
    ok: bool,
    methodIndex: Option<nat>,
    uri: Option<string>,
    major: Option<nat>,
    minor: Option<nat>)

  /** The request line `Method SP Request-URI SP HTTP/major.minor`, without its CRLF.
      The method index is stored as soon as the method is delimited (0 when it is
      unknown), the URI once it is delimited, and each version number once `sscanf`
      has converted it. */
  function ScanRequestLine(line: string, methods: seq<string>, n: nat): (r: LineScan)
    requires n < |methods|
    ensures r.methodIndex.Some? ==> r.methodIndex.value <= n
  {
    match IndexOf(line, ' ')
    case None => LineScan(false, None, None, None, None)
    case Some(sp) => ScanUriVersion(line[sp + 1..], MethodIndex(methods, n, line[..sp]))
  }

  /** The request line behind the method's SP, once the method slot `mi` is stored:
      the URI up to the next SP, then `HTTP/major.minor`. */
  function ScanUriVersion(rest: string, mi: nat): (r: LineScan)
    ensures r.methodIndex == Some(mi)
  {
    if mi == 0 || |rest| == 0 || (rest[0] != '/' && rest[0] != '*') then
      LineScan(false, Some(mi), None, None, None)
    else
      match IndexOf(rest, ' ')
      case None => LineScan(false, Some(mi), None, None, None)
      case Some(sp2) =>
        var version := rest[sp2 + 1..];
        if !IsPrefix("HTTP/", version) then
          LineScan(false, Some(mi), Some(rest[..sp2]), None, None)
        else
          var v := ScanShortPair(version[5..]);
          LineScan(v.count == 2, Some(mi), Some(rest[..sp2]), v.first, v.second)
  }

  /** The outcome of `ezcfg_http_parse_request` on a buffer: the outcome of its
      request line, the fields its header block adds and the NULs it leaves behind. */
  datatype RequestScan = RequestScan(line: LineScan, ok: bool, fields: seq<Field>, nuls: set<nat>)

  /** `ezcfg_http_parse_request(b)`: the request line up to the first CRLF, whose CR
      stays overwritten with NUL, then the header block behind it, parsed in the
      buffer where that CR already is NUL. */
  function ScanRequest(b: seq<char>, methods: seq<string>, n: nat): RequestScan
    requires n < |methods|
  {
    CStrSlice(b, 0);
    var s := CStr(b, 0);
    match Find(s, "\r\n")
    case None => RequestScan(LineScan(false, None, None, None, None), false, [], {})
    case Some(p) =>
      var l := ScanRequestLine(s[..p], methods, n);
      if !l.ok then RequestScan(l, false, [], {p})
      else
        var h := ScanHeaders(b[p := NUL], p + 2);
        RequestScan(l, h.ok, h.fields, {p} + h.nuls)
  }

  /** `b` with a NUL written at each index in `ns`. */
  function Stamp(b: seq<char>, ns: set<nat>): (r: seq<char>)
    ensures |r| == |b|
  {
    seq(|b|, j requires 0 <= j < |b| => if j in ns then NUL else b[j])
  }

  /** `"%s:%s\r\n"` for one header, with "" for a NULL value. */
  function HeaderLine(h: Header): string {
    h.name + ":" + h.value.GetOr("") + "\r\n"
  }

  /** All header lines in list order. */
  function HeadersText(hs: seq<Header>, i: nat): string
    requires i <= |hs|
  {
    if i == 0 then "" else HeadersText(hs, i - 1) + HeaderLine(hs[i - 1])
  }

  class HttpMessage {
    var numMethods: nat
    var methodStrings: seq<string>
    var methodIndex: nat
    var requestUri: Option<string>
    var versionMajor: nat
    var versionMinor: nat
    var statusCode: nat
    var numKnownHeaders: nat
    var knownHeaderStrings: seq<string>
    var headers: seq<Header>
    var messageBodyLen: int
    var messageBody: Option<seq<char>>
    var isExtension: bool
    /** The response state set by `ezcfg_http_set_state_response`. */
    var isResponse: bool

    ghost predicate Valid()
      reads this
    {
      numMethods < |methodStrings| && methodIndex <= numMethods
      && numKnownHeaders < |knownHeaderStrings|
      && versionMajor < 0x1_0000 && versionMinor < 0x1_0000 && statusCode < 0x1_0000
    }

    /** `ezcfg_http_new`: the default tables, everything else zero, empty or NULL. */
    constructor ()
      ensures Valid()
      ensures methodStrings == DefaultMethodStrings && numMethods == |DefaultMethodStrings| - 1
      ensures knownHeaderStrings == DefaultHeaderStrings && numKnownHeaders == |DefaultHeaderStrings| - 1
      ensures methodIndex == 0 && requestUri.None? && versionMajor == 0 && versionMinor == 0
      ensures statusCode == 0 && headers == [] && messageBody.None? && messageBodyLen == 0
      ensures !isExtension && !isResponse
    {
      methodStrings := DefaultMethodStrings;
      numMethods := |DefaultMethodStrings| - 1;
      knownHeaderStrings := DefaultHeaderStrings;
      numKnownHeaders := |DefaultHeaderStrings| - 1;
      methodIndex := 0;
      requestUri := None;
      versionMajor := 0;
      versionMinor := 0;
      statusCode := 0;
      headers := [];
      messageBodyLen := 0;
      messageBody := None;
      isExtension := false;
      isResponse := false;
    }

    /** `clear_http_headers`: pop the head until the list is empty. */
    method ClearHeaders()
      modifies this`headers
      ensures headers == []
    {
      while |headers| > 0
        decreases |headers|
      {
        headers := headers[1..];
      }
    }

    /** `ezcfg_http_reset_attributes`: no headers, no URI, no body; method, version
        and status are kept. */
    method ResetAttributes()
      modifies this`headers, this`requestUri, this`messageBody, this`messageBodyLen
      ensures headers == [] && requestUri.None? && messageBody.None?
      ensures messageBodyLen == if old(messageBody).Some? then 0 else old(messageBodyLen)
    {
      ClearHeaders();
      if requestUri.Some? {
        requestUri := None;
      }
      if messageBody.Some? {
        messageBody := None;
        messageBodyLen := 0;
      }
    }

    /** `find_method_index`: a descending search of the method table. */
    method FindMethodIndex(verb: string) returns (r: nat)
      requires Valid()
      ensures r == MethodIndex(methodStrings, numMethods, verb)
    {
      var i: nat := numMethods;
      while i > 0
        invariant i <= numMethods
        invariant MethodIndex(methodStrings, numMethods, verb) == MethodIndex(methodStrings, i, verb)
      {
        if methodStrings[i] == verb {
          return i;
        }
        i := i - 1;
      }
      return 0;
    }

    /** `find_known_header_name`: the canonical table entry matching `name` ignoring
        case, or NULL. */
    method FindKnownHeaderName(name: string) returns (r: Option<string>)
      requires Valid()
      ensures var slot := KnownHeaderSlot(knownHeaderStrings, numKnownHeaders, name);
        r == if slot == 0 then None else Some(knownHeaderStrings[slot])
    {
      var i: nat := numKnownHeaders;
      while i > 0
        invariant i <= numKnownHeaders
        invariant KnownHeaderSlot(knownHeaderStrings, numKnownHeaders, name)
          == KnownHeaderSlot(knownHeaderStrings, i, name)
      {
        if EqualsIgnoreCase(knownHeaderStrings[i], name) {
          return Some(knownHeaderStrings[i]);
        }
        i := i - 1;
      }
      return None;
    }

    /** `ezcfg_http_add_header`: append one header at the tail of the list. */
    method AddHeader(name: string, value: string)
      requires Valid()
      modifies this`headers
      ensures headers == old(headers) + [MakeHeader(knownHeaderStrings, numKnownHeaders, Field(name, value))]
    {
      var known := FindKnownHeaderName(name);
      var h: Header;
      if known.Some? {
        h := Header(known.value, None, true);
      } else {
        h := Header(name, None, false);
      }
      if |value| > 0 {
        h := h.(value := Some(value));
      }
      headers := headers + [h];
    }

    /** `ezcfg_http_get_header`: the stored NAME of the first header whose name
        matches `name` ignoring case, or NULL. */
    method GetHeader(name: string) returns (r: Option<string>)
      ensures r.None? <==> forall i :: 0 <= i < |headers| ==> !EqualsIgnoreCase(name, headers[i].name)
      ensures r.Some? ==>
        exists i :: 0 <= i < |headers| && r.value == headers[i].name
          && EqualsIgnoreCase(name, headers[i].name)
          && (forall j :: 0 <= j < i ==> !EqualsIgnoreCase(name, headers[j].name))
    {
      var i := 0;
      while i < |headers|
        invariant i <= |headers|
        invariant forall j :: 0 <= j < i ==> !EqualsIgnoreCase(name, headers[j].name)
      {
        if EqualsIgnoreCase(name, headers[i].name) {
          return Some(headers[i].name);
        }
        i := i + 1;
      }
      return None;
    }

    /** `ezcfg_http_set_method_strings`: install another method table. */
    method SetMethodStrings(strings: seq<string>, n: nat)
      requires Valid() && n < |strings| && methodIndex <= n
      modifies this`methodStrings, this`numMethods
      ensures Valid() && methodStrings == strings && numMethods == n
    {
      numMethods := n;
      methodStrings := strings;
    }

    /** `ezcfg_http_set_request_method`.  Its search loop starts at the last slot
        and counts upwards, so only a method in the last slot is found without
        reading past the table; that is the precondition here. */
    method SetRequestMethod(verb: string) returns (r: nat)
      requires Valid()
      requires numMethods > 0 ==> methodStrings[numMethods] == verb
      modifies this`methodIndex, this`isExtension
      ensures Valid()
      ensures r == numMethods && methodIndex == if numMethods > 0 then numMethods else old(methodIndex)
      ensures isExtension == (old(isExtension) || (numMethods > 0 && IsPrefix("M-", verb)))
    {
      if numMethods > 0 {
        methodIndex := numMethods;
        if |verb| >= 2 && verb[0] == 'M' && verb[1] == '-' {
          isExtension := true;
        }
        return numMethods;
      }
      return 0;
    }

    /** `ezcfg_http_set_request_uri`: replace the URI with a copy of `uri`. */
    method SetRequestUri(uri: string)
      modifies this`requestUri
      ensures requestUri == Some(uri)
    {
      requestUri := Some(uri);
    }

    method SetVersionMajor(major: nat)
      requires Valid() && major < 0x1_0000
      modifies this`versionMajor
      ensures Valid() && versionMajor == major
    {
      versionMajor := major;
    }

    method SetVersionMinor(minor: nat)
      requires Valid() && minor < 0x1_0000
      modifies this`versionMinor
      ensures Valid() && versionMinor == minor
    {
      versionMinor := minor;
    }

    /** `ezcfg_http_set_status_code`: the int is stored in an unsigned short. */
    method SetStatusCode(status: int)
      requires Valid()
      modifies this`statusCode
      ensures Valid() && statusCode == status % 0x1_0000
    {
      statusCode := status % 0x1_0000;
    }

    method SetStateResponse()
      modifies this`isResponse
      ensures isResponse
    {
      isResponse := true;
    }

    /** `ezcfg_http_set_message_body`: a copy of exactly `len` bytes of `body`; a
        negative length is an allocation that fails. */
    method SetMessageBody(body: seq<char>, len: int) returns (ok: bool)
      requires len <= |body|
      modifies this`messageBody, this`messageBodyLen
      ensures ok <==> len >= 0
      ensures ok ==> messageBody == Some(body[..len]) && messageBodyLen == len
      ensures !ok ==> messageBody == old(messageBody) && messageBodyLen == old(messageBodyLen)
    {
      if len < 0 {
        return false;
      }
      messageBody := Some(body[..len]);
      messageBodyLen := len;
      return true;
    }

    /** The text of `"%s %s HTTP/%d.%d\r\n"`; a NULL URI prints as "(null)". */
    function RequestLine(): string
      reads this
      requires Valid()
    {
      methodStrings[methodIndex] + " " + requestUri.GetOr("(null)") + " HTTP/"
        + Decimal(versionMajor) + "." + Decimal(versionMinor) + "\r\n"
    }

    /** `ezcfg_http_write_request_line`: -1 without a method, otherwise the length of
        the formatted line, of which at most `len - 1` characters reach `buf`. */
    method WriteRequestLine(buf: array<char>, len: nat) returns (n: int)
      requires Valid() && 0 < len <= buf.Length
      modifies buf
      ensures methodIndex == 0 ==> n == -1 && buf[..] == old(buf[..])
      ensures methodIndex != 0 ==> n == |RequestLine()| && buf[..] == Snprintf(old(buf[..]), 0, len, RequestLine())
    {
      if methodIndex == 0 {
        return -1;
      }
      var line := RequestLine();
      PutString(buf, 0, len, line);
      return |line|;
    }

    /** `ezcfg_http_write_headers`: -1 without a method, otherwise every header line
        in list order, each written behind the previous one, and their total length.
        Every line must start inside the buffer: the C code passes `len - count` to
        `snprintf` as an unsigned size once `count` passes `len`. */
    method WriteHeaders(buf: array<char>, at: nat, len: nat) returns (n: int)
      requires Valid() && 0 < len && at + len <= buf.Length
      requires |headers| > 0 ==> |HeadersText(headers, |headers| - 1)| <= len
      modifies buf
      ensures methodIndex == 0 ==> n == -1 && buf[..] == old(buf[..])
      ensures methodIndex != 0 ==> n == |HeadersText(headers, |headers|)|
      ensures methodIndex != 0 ==> buf[..] == Written(old(buf[..]), at, len, HeadersText(headers, |headers|))
    {
      if methodIndex == 0 {
        return -1;
      }
      var count := 0;
      var i := 0;
      ghost var done := "";
      while i < |headers|
        invariant i <= |headers|
        invariant done == HeadersText(headers, i) && count == |done|
        invariant i < |headers| ==> count <= len
        invariant buf[..] == Written(old(buf[..]), at, len, done)
      {
        var line := HeaderLine(headers[i]);
        WriteBehind(buf, at, len, count, line, old(buf[..]), done);
        count := count + |line|;
        done := done + line;
        i := i + 1;
        if i < |headers| {
          HeadersTextGrows(headers, i, |headers| - 1);
        }
      }
      return count;
    }

    /** `parse_http_headers(buf + at)`: the header lines are split in place and
        each one with a name is appended to the list. */
    method ParseHeaders(buf: array<char>, at: nat) returns (ok: bool)
      requires Valid() && at <= buf.Length
      modifies this`headers, buf
      ensures var r := ScanHeaders(old(buf[..]), at);
        ok == r.ok
        && headers == old(headers) + MakeHeaders(knownHeaderStrings, numKnownHeaders, r.fields)
        && buf[..] == Stamp(old(buf[..]), r.nuls)
    {
      ghost var lines := HeaderLines(buf[..], at);
      ok := ParseLines(buf, at, buf[..], lines);
    }

    /** The loop of `parse_http_headers`, line by line along the trace `lines` of the
        buffer's original contents `b0`. */
    method ParseLines(buf: array<char>, at: nat, ghost b0: seq<char>, ghost lines: seq<Line>) returns (ok: bool)
      requires Valid() && at <= buf.Length && buf[..] == b0
      requires |lines| > 0 && lines[0].off == at
      requires forall i {:trigger Entry(lines, i)} :: 0 <= i < |lines| ==> Entry(lines, i) == SplitLine(b0, lines[i].off)
      requires forall i :: 0 <= i < |lines| - 1 ==>
        Continues(lines[i].split) && lines[i + 1].off == lines[i].off + lines[i].split.crlf + 2
      requires !Continues(lines[|lines| - 1].split)
      modifies this`headers, buf
      ensures var r := Rest(lines, 0);
        ok == r.ok
        && headers == old(headers) + MakeHeaders(knownHeaderStrings, numKnownHeaders, r.fields)
        && buf[..] == Stamp(b0, r.nuls)
    {
      ghost var k := 0;
      ghost var fieldsDone: seq<Field> := [];
      ghost var nulsDone: set<nat> := {};
      var cur := at;
      AfterNothing(Rest(lines, 0));
      while true
        invariant at <= cur <= buf.Length
        invariant k < |lines| && lines[k].off == cur
        invariant headers == old(headers) + MakeHeaders(knownHeaderStrings, numKnownHeaders, fieldsDone)
        invariant buf[..] == Stamp(b0, nulsDone)
        invariant forall j :: j in nulsDone ==> j < cur
        invariant Rest(lines, 0) == After(fieldsDone, nulsDone, Rest(lines, k))
        decreases buf.Length - cur
      {
        var split := NextLine(buf, cur, b0, nulsDone, lines, k);
        if !split.Split? || split.colon == 0 {
          Finish(lines, k, fieldsDone, nulsDone);
          return split.Split?;
        }
        AddHeader(split.name, split.value);
        MakeHeadersSnoc(knownHeaderStrings, numKnownHeaders, fieldsDone, Field(split.name, split.value));
        Advance(lines, k, fieldsDone, nulsDone);
        fieldsDone := fieldsDone + [Field(split.name, split.value)];
        nulsDone := nulsDone + LineNuls(cur, split);
        cur := cur + split.crlf + 2;
        k := k + 1;
      }
    }

    /** The request-line part of `ezcfg_http_parse_request`, on the line without its
        CRLF.  The NUL it writes at each SP is written back to SP before it returns. */
    method ParseRequestLine(line: string) returns (ok: bool)
      requires Valid()
      modifies this`methodIndex, this`requestUri, this`versionMajor, this`versionMinor
      ensures Valid()
      ensures var r := ScanRequestLine(line, methodStrings, numMethods);
        ok == r.ok
        && methodIndex == r.methodIndex.GetOr(old(methodIndex))
        && requestUri == (if r.uri.Some? then r.uri else old(requestUri))
        && versionMajor == r.major.GetOr(old(versionMajor))
        && versionMinor == r.minor.GetOr(old(versionMinor))
    {
      var sp := IndexOf(line, ' ');
      if sp.None? {
        return false;
      }
      var mi := FindMethodIndex(line[..sp.value]);
      assert ScanRequestLine(line, methodStrings, numMethods) == ScanUriVersion(line[sp.value + 1..], mi);
      methodIndex := mi;
      ok := ParseUriVersion(line[sp.value + 1..]);
    }

    /** The rest of the request line behind the method's SP, with `methodIndex`
        already stored. */
    method ParseUriVersion(rest: string) returns (ok: bool)
      requires Valid()
      modifies this`requestUri, this`versionMajor, this`versionMinor
      ensures Valid()
      ensures var r := ScanUriVersion(rest, methodIndex);
        ok == r.ok
        && requestUri == (if r.uri.Some? then r.uri else old(requestUri))
        && versionMajor == r.major.GetOr(old(versionMajor))
        && versionMinor == r.minor.GetOr(old(versionMinor))
    {
      ghost var r := ScanUriVersion(rest, methodIndex);
      if methodIndex == 0 {
        return false;
      }
      if |rest| == 0 || (rest[0] != '/' && rest[0] != '*') {
        return false;
      }
      var sp2 := IndexOf(rest, ' ');
      if sp2.None? {
        return false;
      }
      var uri := rest[..sp2.value];
      var version := rest[sp2.value + 1..];
      requestUri := Some(uri);
      if !IsPrefix("HTTP/", version) {
        assert r == LineScan(false, Some(methodIndex), Some(uri), None, None);
        return false;
      }
      var v := ScanShortPair(version[5..]);
      assert r == LineScan(v.count == 2, Some(methodIndex), Some(uri), v.first, v.second);
      if v.first.Some? {
        versionMajor := v.first.value;
      }
      if v.second.Some? {
        versionMinor := v.second.value;
      }
      return v.count == 2;
    }

    /** `ezcfg_http_parse_request(buf)`: split off the request line at its CRLF,
        parse it, then parse the header block behind it. */
    method ParseRequest(buf: array<char>) returns (ok: bool)
      requires Valid()
      modifies this`methodIndex, this`requestUri, this`versionMajor, this`versionMinor, this`headers, buf
      ensures Valid()
      ensures var r := ScanRequest(old(buf[..]), methodStrings, numMethods);
        ok == r.ok
        && methodIndex == r.line.methodIndex.GetOr(old(methodIndex))
        && requestUri == (if r.line.uri.Some? then r.line.uri else old(requestUri))
        && versionMajor == r.line.major.GetOr(old(versionMajor))
        && versionMinor == r.line.minor.GetOr(old(versionMinor))
        && headers == old(headers) + MakeHeaders(knownHeaderStrings, numKnownHeaders, r.fields)
        && buf[..] == Stamp(old(buf[..]), r.nuls)
    {
      ghost var b0 := buf[..];
      var s := CStr(buf[..], 0);
      var found := Find(s, "\r\n");
      if found.None? {
        StampedNothing(b0, 0);
        return false;
      }
      var p := found.value;
      CStrSlice(b0, 0);
      buf[p] := NUL;
      StampedOne(buf[..], b0, p);
      ok := ParseRequestLine(s[..p]);
      if !ok {
        assert headers == old(headers) + MakeHeaders(knownHeaderStrings, numKnownHeaders, []);
        return;
      }
      assert buf[..] == b0[p := NUL];
      ok := ParseHeaders(buf, p + 2);
      StampTwice(b0, {p}, ScanHeaders(b0[p := NUL], p + 2).nuls);
    }
  }

  /** The method slot found for the spelling of slot `i`, when no later slot shares
      it, is `i`. */
  lemma MethodIndexOfSlot(methods: seq<string>, n: nat, i: nat)
    requires n < |methods| && 1 <= i <= n
    requires forall j :: i < j <= n ==> methods[j] != methods[i]
    ensures MethodIndex(methods, n, methods[i]) == i
  {
  }

  /** A method without SP, then SP: the rest of the line is read with that method's
      slot. */
  lemma MethodThenRest(methods: seq<string>, n: nat, m: string, rest: string)
    requires n < |methods| && ' ' !in m
    ensures ScanRequestLine(m + " " + rest, methods, n) == ScanUriVersion(rest, MethodIndex(methods, n, m))
  {
    var line := m + " " + rest;
    assert line == m + [' '] + rest;
    IndexOfJoin(m, ' ', rest);
    assert line[..|m|] == m;
    assert line[|m| + 1..] == rest;
  }

  /** Behind a URI without SP comes `HTTP/` and the version text, which is read
      as a pair of numbers. */
  lemma UriThenVersion(uri: string, ver: string, mi: nat)
    requires mi > 0 && ' ' !in uri && |uri| > 0 && (uri[0] == '/' || uri[0] == '*')
    ensures var v := ScanShortPair(ver);
      ScanUriVersion(uri + " HTTP/" + ver, mi) == LineScan(v.count == 2, Some(mi), Some(uri), v.first, v.second)
  {
    var version := "HTTP/" + ver;
    var rest := uri + " HTTP/" + ver;
    assert rest == uri + [' '] + version;
    assert rest[0] == uri[0];
    IndexOfJoin(uri, ' ', version);
    assert rest[..|uri|] == uri;
    assert rest[|uri| + 1..] == version;
    assert version[..5] == "HTTP/";
    assert version[5..] == ver;
  }

  /** `uri SP HTTP/major.minor` as `"%s HTTP/%d.%d"` prints it is read back whole. */
  lemma UriVersionRoundTrip(uri: string, major: nat, minor: nat, mi: nat)
    requires mi > 0 && ' ' !in uri && |uri| > 0 && (uri[0] == '/' || uri[0] == '*')
    requires major < 0x1_0000 && minor < 0x1_0000
    ensures ScanUriVersion(uri + " HTTP/" + Decimal(major) + "." + Decimal(minor), mi)
      == LineScan(true, Some(mi), Some(uri), Some(major), Some(minor))
  {
    var ver := Decimal(major) + "." + Decimal(minor);
    assert uri + " HTTP/" + Decimal(major) + "." + Decimal(minor) == uri + " HTTP/" + ver;
    UriThenVersion(uri, ver, mi);
    ScanPrintedPair(major, minor);
    var v := ScanShortPair(ver);
    assert v == PairScan(2, Some(Short(major)), Some(Short(minor)));
    ShortOfSmall(major);
    ShortOfSmall(minor);
  }

  /** Parsing back the line `"%s %s HTTP/%d.%d"` that `ezcfg_http_write_request_line`
      formats recovers the method slot, the URI and both version numbers, provided the
      method and the URI hold no SP, the URI starts with '/' or '*', and the method's
      spelling is in no later slot of the table. */
  lemma RequestLineRoundTrip(methods: seq<string>, n: nat, i: nat, uri: string, major: nat, minor: nat)
    requires n < |methods| && 1 <= i <= n
    requires ' ' !in methods[i] && forall j :: i < j <= n ==> methods[j] != methods[i]
    requires ' ' !in uri && |uri| > 0 && (uri[0] == '/' || uri[0] == '*')
    requires major < 0x1_0000 && minor < 0x1_0000
    ensures ScanRequestLine(methods[i] + " " + uri + " HTTP/" + Decimal(major) + "." + Decimal(minor), methods, n)
      == LineScan(true, Some(i), Some(uri), Some(major), Some(minor))
  {
    var rest := uri + " HTTP/" + Decimal(major) + "." + Decimal(minor);
    assert methods[i] + " " + uri + " HTTP/" + Decimal(major) + "." + Decimal(minor) == methods[i] + " " + rest;
    MethodThenRest(methods, n, methods[i], rest);
    MethodIndexOfSlot(methods, n, i);
    UriVersionRoundTrip(uri, major, minor, i);
  }

  /** A line `name:value` CRLF, whose name holds no ':' and neither part a CR, splits
      into that name and value when the value does not start with white space. */
  lemma HeaderLineSplit(name: string, value: string, rest: string)
    requires ':' !in name && '\r' !in name && '\r' !in value
    requires |value| > 0 ==> value[0] != ' ' && value[0] != '\t'
    ensures SplitText(name + ":" + value + "\r\n" + rest)
      == Split(|name| + 1 + |value|, |name|, name, value)
  {
    var line := name + ":" + value;
    var t := name + ":" + value + "\r\n" + rest;
    var e := |line|;
    assert t == line + "\r\n" + rest;
    assert line == name + [':'] + value;
    assert '\r' !in line;
    assert t[e..e + 2] == "\r\n";
    forall k | 0 <= k < e ensures !OccursAt(t, "\r\n", k) {
      assert t[k] == line[k];
    }
    FindFirst(t, "\r\n", e);
    assert t[..e] == line;
    IndexOfJoin(name, ':', value);
    assert line[..|name|] == name;
    assert line[|name| + 1..] == value;
  }

  /** A header line with a name is added as a field, its CR and ':' become NUL, and
      parsing goes on behind its CRLF. */
  lemma HeaderLineScan(b: seq<char>, off: nat, name: string, value: string, rest: string)
    requires CStr(b, off) == name + ":" + value + "\r\n" + rest
    requires |name| > 0 && ':' !in name && '\r' !in name && '\r' !in value
    requires |value| > 0 ==> value[0] != ' ' && value[0] != '\t'
    ensures var e := |name| + 1 + |value|;
      ScanHeaders(b, off)
      == After([Field(name, value)], {off + e, off + |name|}, ScanHeaders(b, off + e + 2))
  {
    HeaderLineSplit(name, value, rest);
  }

  /** The blank line that ends a header block holds no ':', so the parser stops there
      with false after writing NUL over its CR. */
  lemma BlankLineFails(b: seq<char>, off: nat)
    requires |CStr(b, off)| >= 2 && CStr(b, off)[..2] == "\r\n"
    ensures ScanHeaders(b, off) == HeaderScan(false, [], {off})
  {
    var t := CStr(b, off);
    assert OccursAt(t, "\r\n", 0);
    assert t[..0] == [];
  }

  /** A line with an empty name, such as `:` CRLF, ends the block with true and adds
      nothing; its CR and ':' become NUL. */
  lemma EmptyNameEnds(b: seq<char>, off: nat, value: string, rest: string)
    requires CStr(b, off) == ":" + value + "\r\n" + rest
    requires '\r' !in value
    ensures ScanHeaders(b, off) == HeaderScan(true, [], {off + 1 + |value|, off})
  {
    var t := CStr(b, off);
    var line := ":" + value;
    var e := |line|;
    assert t == line + "\r\n" + rest;
    assert '\r' !in line;
    assert t[e..e + 2] == "\r\n";
    forall k | 0 <= k < e ensures !OccursAt(t, "\r\n", k) {
      assert t[k] == line[k];
    }
    FindFirst(t, "\r\n", e);
    assert t[..e] == line;
    assert line[0] == ':';
  }

  /** The header parser writes nothing before the offset it starts at. */
  lemma {:induction false} ScanHeadersNulsFrom(b: seq<char>, off: nat)
    ensures forall k :: k in ScanHeaders(b, off).nuls ==> k >= off
    decreases |b| - off
  {
    var s := SplitLine(b, off);
    if Continues(s) {
      CStrSlice(b, off);
      var next := off + s.crlf + 2;
      ScanHeadersNulsFrom(b, next);
      assert ScanHeaders(b, off).nuls == LineNuls(off, s) + ScanHeaders(b, next).nuls;
    } else {
      assert ScanHeaders(b, off).nuls == LineNuls(off, s);
    }
  }

  /** Once the request line's CRLF is found at `p`, its CR is overwritten and every
      other NUL lies in the header block behind the CRLF. */
  lemma ScanRequestNuls(b: seq<char>, methods: seq<string>, n: nat, p: nat)
    requires n < |methods| && Find(CStr(b, 0), "\r\n") == Some(p)
    ensures p in ScanRequest(b, methods, n).nuls
    ensures forall k :: k in ScanRequest(b, methods, n).nuls ==> k == p || k >= p + 2
  {
    CStrSlice(b, 0);
    ScanHeadersNulsFrom(b[p := NUL], p + 2);
  }

  lemma AfterNothing(r: HeaderScan)
    ensures After([], {}, r) == r
  {
    assert [] + r.fields == r.fields;
  }

  lemma AfterLast(fs: seq<Field>, ns: set<nat>, ms: set<nat>, ok: bool)
    ensures After(fs, ns, HeaderScan(ok, [], ms)) == HeaderScan(ok, fs, ns + ms)
  {
    assert fs + [] == fs;
  }

  lemma AfterAfter(fs: seq<Field>, ns: set<nat>, gs: seq<Field>, ms: set<nat>, r: HeaderScan)
    ensures After(fs, ns, After(gs, ms, r)) == After(fs + gs, ns + ms, r)
  {
    assert fs + (gs + r.fields) == fs + gs + r.fields;
  }

  /** A header line found by the scan: where it starts and how it splits. */
  datatype Line = Line(off: nat, split: LineSplit)

  /** A line that does not end the header block. */
  predicate Continues(s: LineSplit) {
    s.Split? && s.colon > 0
  }

  /** The lines `ScanHeaders` visits from `off`, up to the one that ends the block. */
  ghost function Trace(b: seq<char>, off: nat): (ls: seq<Line>)
    ensures |ls| > 0 && ls[0] == Line(off, SplitLine(b, off))
    decreases |b| - off
  {
    var s := SplitLine(b, off);
    if Continues(s) then
      CStrSlice(b, off);
      [Line(off, s)] + Trace(b, off + s.crlf + 2)
    else [Line(off, s)]
  }

  /** The split recorded for line `i`. */
  ghost function Entry(ls: seq<Line>, i: nat): LineSplit
    requires i < |ls|
  {
    ls[i].split
  }

  /** The outcome of the scan from line `i` of a trace on. */
  ghost function Rest(ls: seq<Line>, i: nat): HeaderScan
    requires i < |ls|
    decreases |ls| - i
  {
    var s := ls[i].split;
    var ns := LineNuls(ls[i].off, s);
    if Continues(s) && i + 1 < |ls| then After([Field(s.name, s.value)], ns, Rest(ls, i + 1))
    else HeaderScan(s.Split?, [], ns)
  }

  /** The trace of the header block at `off`, with what the parsing loop needs of it:
      each recorded split is `SplitLine` at its offset, every line but the last
      continues the block at the next offset, the last one ends it, and the
      outcome of the trace is `ScanHeaders`. */
  lemma HeaderLines(b: seq<char>, off: nat) returns (ls: seq<Line>)
    ensures |ls| > 0 && ls[0].off == off
    ensures forall i {:trigger Entry(ls, i)} :: 0 <= i < |ls| ==> Entry(ls, i) == SplitLine(b, ls[i].off)
    ensures forall i :: 0 <= i < |ls| - 1 ==>
      Continues(ls[i].split) && ls[i + 1].off == ls[i].off + ls[i].split.crlf + 2
    ensures !Continues(ls[|ls| - 1].split)
    ensures Rest(ls, 0) == ScanHeaders(b, off)
  {
    ls := Trace(b, off);
    TraceSplits(b, off);
    TraceLinks(b, off);
    TraceOutcome(b, off);
  }

  lemma {:induction false} TraceSplits(b: seq<char>, off: nat)
    ensures var ls := Trace(b, off);
      forall i :: 0 <= i < |ls| ==> ls[i].split == SplitLine(b, ls[i].off)
    decreases |b| - off
  {
    var ls := Trace(b, off);
    var s := ls[0].split;
    if Continues(s) {
      CStrSlice(b, off);
      TraceSplits(b, off + s.crlf + 2);
      assert ls == [Line(off, s)] + Trace(b, off + s.crlf + 2);
    }
  }

  lemma {:induction false} TraceLinks(b: seq<char>, off: nat)
    ensures var ls := Trace(b, off);
      (forall i :: 0 <= i < |ls| - 1 ==>
        Continues(ls[i].split) && ls[i + 1].off == ls[i].off + ls[i].split.crlf + 2)
      && !Continues(ls[|ls| - 1].split)
    decreases |b| - off
  {
    var ls := Trace(b, off);
    var s := ls[0].split;
    if Continues(s) {
      CStrSlice(b, off);
      var next := off + s.crlf + 2;
      TraceLinks(b, next);
      assert ls == [Line(off, s)] + Trace(b, next);
    }
  }

  lemma {:induction false} TraceOutcome(b: seq<char>, off: nat)
    ensures Rest(Trace(b, off), 0) == ScanHeaders(b, off)
    decreases |b| - off
  {
    var s := SplitLine(b, off);
    if Continues(s) {
      CStrSlice(b, off);
      var next := off + s.crlf + 2;
      TraceOutcome(b, next);
      var ls := Trace(b, off);
      var tail := Trace(b, next);
      assert ls == [Line(off, s)] + tail;
      RestShiftAt(ls, tail, 1);
    }
  }

  /** The parsing loop at a line that ends the block: the outcome is complete. */
  lemma Finish(ls: seq<Line>, k: nat, fs: seq<Field>, ns: set<nat>)
    requires k < |ls| && !Continues(ls[k].split)
    requires Rest(ls, 0) == After(fs, ns, Rest(ls, k))
    ensures Rest(ls, 0) == HeaderScan(ls[k].split.Split?, fs, ns + LineNuls(ls[k].off, ls[k].split))
  {
    AfterLast(fs, ns, LineNuls(ls[k].off, ls[k].split), ls[k].split.Split?);
  }

  /** The parsing loop at a line that continues the block: its field and NULs join
      those of the earlier lines. */
  lemma Advance(ls: seq<Line>, k: nat, fs: seq<Field>, ns: set<nat>)
    requires k + 1 < |ls| && Continues(ls[k].split)
    requires Rest(ls, 0) == After(fs, ns, Rest(ls, k))
    ensures var s := ls[k].split;
      Rest(ls, 0) == After(fs + [Field(s.name, s.value)], ns + LineNuls(ls[k].off, s), Rest(ls, k + 1))
  {
    var s := ls[k].split;
    AfterAfter(fs, ns, [Field(s.name, s.value)], LineNuls(ls[k].off, s), Rest(ls, k + 1));
  }

  /** Dropping the first line of a trace shifts the outcome by one line. */
  lemma {:induction false} RestShiftAt(ls: seq<Line>, tail: seq<Line>, i: nat)
    requires |ls| > 1 && tail == ls[1..] && 1 <= i < |ls|
    ensures Rest(ls, i) == Rest(tail, i - 1)
    decreases |ls| - i
  {
    if i + 1 < |ls| {
      RestShiftAt(ls, tail, i + 1);
    }
  }

  /** The NULs written while splitting the line at `off`: the CR of its CRLF and its
      first ':'. */
  function LineNuls(off: nat, split: LineSplit): set<nat> {
    match split
    case Unterminated => {}
    case NoColon(e) => {off + e}
    case Split(e, c, _, _) => {off + e, off + c}
  }

  /** The NULs of a line lie between its start and its CR. */
  lemma LineNulsWithin(off: nat, split: LineSplit)
    requires !split.Unterminated? && (split.Split? ==> split.colon < split.crlf)
    ensures forall j :: j in LineNuls(off, split) ==> off <= j <= off + split.crlf
  {
    match split
    case NoColon(e) =>
      assert LineNuls(off, split) == {off + e};
    case Split(e, c, _, _) =>
      assert LineNuls(off, split) == {off + e, off + c};
  }

  /** The parsing loop at line `k` of the trace `ls` of `b0`, with the NULs `ns`
      of the earlier lines already written: split the line, which is the one the
      trace records, and write its NULs. */
  method NextLine(buf: array<char>, cur: nat, ghost b0: seq<char>, ghost ns: set<nat>, ghost ls: seq<Line>, ghost k: nat)
      returns (split: LineSplit)
    requires cur <= buf.Length && buf[..] == Stamp(b0, ns)
    requires forall j :: j in ns ==> j < cur
    requires k < |ls| && ls[k].off == cur
    requires forall i {:trigger Entry(ls, i)} :: 0 <= i < |ls| ==> Entry(ls, i) == SplitLine(b0, ls[i].off)
    modifies buf
    ensures split == ls[k].split
    ensures buf[..] == Stamp(b0, ns + LineNuls(cur, split))
    ensures !split.Unterminated? ==> cur + split.crlf + 2 <= buf.Length
    ensures !split.Unterminated? ==> forall j :: j in LineNuls(cur, split) ==> j < cur + split.crlf + 2
  {
    StampBefore(b0, ns, cur);
    split := SplitHeaderLine(buf, cur);
    assert Entry(ls, k) == SplitLine(b0, cur);
    StampTwice(b0, ns, LineNuls(cur, split));
    if !split.Unterminated? {
      LineNulsWithin(cur, split);
    }
  }

  /** One step of `parse_http_headers`: find the CRLF of the line at `cur` and the
      first ':' before it, NUL both, and skip the white space before the value. */
  method SplitHeaderLine(buf: array<char>, cur: nat) returns (split: LineSplit)
    requires cur <= buf.Length
    modifies buf
    ensures split == SplitLine(old(buf[..]), cur)
    ensures !split.Unterminated? ==> cur + split.crlf + 2 <= buf.Length
    ensures buf[..] == Stamp(old(buf[..]), LineNuls(cur, split))
  {
    ghost var b0 := buf[..];
    CStrSlice(b0, cur);
    var t := CStr(buf[..], cur);
    var found := Find(t, "\r\n");
    if found.None? {
      split := Unterminated;
      StampedNothing(b0, cur);
      return;
    }
    var e := found.value;
    FindMeaning(t, "\r\n");
    assert t[e] == t[e..e + 2][0] == '\r';
    buf[cur + e] := NUL;
    var colonAt := IndexOf(t[..e], ':');
    if colonAt.None? {
      split := NoColon(e);
      StampedOnce(buf[..], b0, cur, split);
      return;
    }
    var c := colonAt.value;
    buf[cur + c] := NUL;
    var v := SkipWhiteSpace(t, c + 1, e);
    split := Split(e, c, t[..c], t[v..e]);
    StampedTwice(buf[..], b0, cur, split);
    SplitAt(t, e, c, v);
  }

  lemma StampedOne(b: seq<char>, b0: seq<char>, x: nat)
    requires x < |b0| && b == b0[x := NUL]
    ensures b == Stamp(b0, {x})
  {
  }

  lemma StampedNothing(b: seq<char>, off: nat)
    ensures b == Stamp(b, LineNuls(off, Unterminated))
  {
  }

  lemma StampedOnce(b: seq<char>, b0: seq<char>, off: nat, split: LineSplit)
    requires split.NoColon? && off + split.crlf < |b0| && b == b0[off + split.crlf := NUL]
    ensures b == Stamp(b0, LineNuls(off, split))
  {
  }

  lemma StampedTwice(b: seq<char>, b0: seq<char>, off: nat, split: LineSplit)
    requires split.Split? && off + split.crlf < |b0| && off + split.colon < |b0|
    requires b == b0[off + split.crlf := NUL][off + split.colon := NUL]
    ensures b == Stamp(b0, LineNuls(off, split))
  {
  }

  /** The white-space skipping loop of `parse_http_headers`: from `from`, past every
      SP and HT, stopping at the latest at `limit`, which holds neither. */
  method SkipWhiteSpace(t: string, from: nat, limit: nat) returns (v: nat)
    requires from <= limit < |t| && t[limit] !in " \t"
    ensures from <= v <= limit
    ensures forall j :: from <= j < v ==> (t[j] in " \t")
    ensures t[v] !in " \t"
  {
    v := from;
    while t[v] == ' ' || t[v] == '\t'
      invariant from <= v <= limit
      invariant forall j :: from <= j < v ==> (t[j] in " \t")
      decreases limit - v
    {
      v := v + 1;
    }
  }

  /** Stamping in two rounds is stamping once with both lists. */
  lemma StampTwice(b: seq<char>, ns: set<nat>, ms: set<nat>)
    ensures Stamp(Stamp(b, ns), ms) == Stamp(b, ns + ms)
  {
  }

  /** One more field appends one more header. */
  lemma MakeHeadersSnoc(strings: seq<string>, n: nat, fs: seq<Field>, f: Field)
    requires n < |strings|
    ensures MakeHeaders(strings, n, fs + [f]) == MakeHeaders(strings, n, fs) + [MakeHeader(strings, n, f)]
  {
    assert (fs + [f])[..|fs|] == fs;
  }

  /** The line the parser splits by hand is the one `SplitText` describes. */
  lemma SplitAt(t: string, e: nat, c: nat, v: nat)
    requires Find(t, "\r\n") == Some(e) && e <= |t|
    requires IndexOf(t[..e], ':') == Some(c) && c < v <= e
    requires forall j :: c < j < v ==> t[j] in " \t"
    requires v < e ==> t[v] !in " \t"
    ensures SplitText(t) == Split(e, c, t[..c], t[v..e])
  {
    var line := t[..e];
    var rest := line[c + 1..];
    ValueStart(t, e, c, v);
    NamePart(t, e, c);
    assert line[..c] == t[..c];
    assert rest[Util.LeadingRun(rest, " \t")..] == t[v..e];
  }

  lemma NamePart(t: string, e: nat, c: nat)
    requires c <= e <= |t|
    ensures t[..e][..c] == t[..c]
  {
  }

  /** The white space skipped before a value is the leading run of SP and HT behind
      the ':'. */
  lemma ValueStart(t: string, e: nat, c: nat, v: nat)
    requires e <= |t| && c < v <= e
    requires forall j :: c < j < v ==> t[j] in " \t"
    requires v < e ==> t[v] !in " \t"
    ensures var rest := t[..e][c + 1..];
      rest[Util.LeadingRun(rest, " \t")..] == t[v..e]
  {
    var rest := t[..e][c + 1..];
    var k := v - (c + 1);
    forall j | 0 <= j < k ensures rest[j] in " \t" {
      assert rest[j] == t[c + 1 + j];
    }
    if k < |rest| {
      assert rest[k] == t[v];
    }
    Util.SkippedRun(rest, " \t", k);
    assert rest[k..] == t[v..e];
  }

  /** NULs written before `off` leave the C string at `off` as it was. */
  lemma StampBefore(b: seq<char>, ns: set<nat>, off: nat)
    requires forall j :: j in ns ==> j < off
    ensures CStr(Stamp(b, ns), off) == CStr(b, off)
  {
    CStrFrom(Stamp(b, ns), b, off);
  }

  /** A buffer that holds NUL exactly at the recorded indexes is the stamped one. */
  lemma StampedBy(b: seq<char>, b0: seq<char>, ns: set<nat>)
    requires |b| == |b0|
    requires forall j :: 0 <= j < |b| ==> b[j] == if j in ns then NUL else b0[j]
    ensures b == Stamp(b0, ns)
  {
  }

  /** A buffer of `len` bytes after `text` was written to it piece by piece with
      `snprintf`: untouched while nothing was written, and otherwise as if `text`
      had been written in one call. */
  function Written(b: seq<char>, at: nat, len: nat, text: string): seq<char>
    requires at + len <= |b|
  {
    if text == "" then b else Snprintf(b, at, len, text)
  }

  /** `snprintf(buf + at + count, len - count, "%s", line)` behind the `count`
      characters written so far. */
  method WriteBehind(buf: array<char>, at: nat, len: nat, count: nat, line: string, ghost b0: seq<char>, ghost done: string)
    requires 0 < len && at + len <= buf.Length == |b0| && count == |done| <= len && line != ""
    requires buf[..] == Written(b0, at, len, done)
    modifies buf
    ensures buf[..] == Written(b0, at, len, done + line)
  {
    if count == 0 {
      PutString(buf, at, len, line);
      assert done + line == line;
    } else {
      SnprintfThen(b0, at, len, done, line);
      PutString(buf, at + count, len - count, line);
    }
  }

  /** A longer prefix of a header list writes a longer text. */
  lemma {:induction false} HeadersTextGrows(hs: seq<Header>, i: nat, k: nat)
    requires i <= k <= |hs|
    ensures |HeadersText(hs, i)| <= |HeadersText(hs, k)|
    decreases k - i
  {
    if i < k {
      HeadersTextGrows(hs, i, k - 1);
    }
  }
}
