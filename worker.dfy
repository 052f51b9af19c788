/**
 * The buffering core of the libezcfg worker (libezcfg-worker.c), for one
 * connection handled sequentially: finding the end of a request's header block,
 * reading the request from the socket, shifting a pipelined request to the front
 * of the buffer, the error responses and the per-connection decision ladder.
 *
 * The socket is a queue of chunks as `ezcfg_socket_read` would deliver them, and
 * everything `worker_printf` sends is appended to an output trace.
 */
module Worker {
  import opened Wrappers
  import opened CString
  import Http
  import Igrs

  /** A byte `get_request_len` rejects: below 128, not printable, not CR or LF. */
  predicate Forbidden(c: char) {
    (c as int) < 128 && !(0x20 <= c as int <= 0x7e) && c != '\r' && c != '\n'
  }

  /** The request length a terminator starting at `i` gives: `i + 2` for LF LF, and
      `i + 3` for LF CR LF when the CR is not the last byte. */
  function TerminatorAt(b: seq<char>, i: nat): (r: Option<nat>)
    requires i + 1 < |b|
    ensures r.Some? ==> r.value == i + 2 || r.value == i + 3
    ensures r.Some? ==> r.value <= |b|
  {
    if b[i] == '\n' && b[i + 1] == '\n' then Some(i + 2)
    else if b[i] == '\n' && i + 2 < |b| && b[i + 1] == '\r' && b[i + 2] == '\n' then Some(i + 3)
    else None
  }

  /** The first position from `i` on, short of the last byte, where a terminator starts. */
  function FirstTerminator(b: seq<char>, i: nat): (r: Option<nat>)
    ensures r.Some? ==> i <= r.value && r.value + 1 < |b| && TerminatorAt(b, r.value).Some?
    decreases |b| - i
  {
    if i + 1 >= |b| then None
    else if TerminatorAt(b, i).Some? then Some(i)
    else FirstTerminator(b, i + 1)
  }

  /** `get_request_len(buf, buflen)` on the bytes `b`: the length up to and including
      the first blank line; otherwise -1 when a forbidden byte was seen (the last byte
      is never examined), and 0 when the request is not complete yet. */
  function RequestLen(b: seq<char>): int {
    match FirstTerminator(b, 0)
    case Some(i) => TerminatorAt(b, i).value
    case None => if exists j :: 0 <= j < |b| - 1 && Forbidden(b[j]) then -1 else 0
  }

  /** The first terminator found is one, and there is none before it. */
  lemma {:induction false} FirstTerminatorMeaning(b: seq<char>, i: nat)
    ensures var r := FirstTerminator(b, i);
      (r.Some? ==> forall j :: i <= j < r.value ==> TerminatorAt(b, j).None?)
      && (r.None? ==> forall j :: i <= j && j + 1 < |b| ==> TerminatorAt(b, j).None?)
    decreases |b| - i
  {
    if i + 1 < |b| && TerminatorAt(b, i).None? {
      FirstTerminatorMeaning(b, i + 1);
    }
  }

  /** The three outcomes: -1, 0, or a length in [2, |b|] that ends in LF LF or in
      LF CR LF, the first such ending in `b`. */
  lemma RequestLenMeaning(b: seq<char>)
    ensures var r := RequestLen(b);
      (r == -1 || r == 0 || 2 <= r <= |b|)
      && (r > 0 ==> b[r - 2..r] == "\n\n" || (r >= 3 && b[r - 3..r] == "\n\r\n"))
      && (r > 0 ==> forall j :: 0 <= j < r - 3 ==> TerminatorAt(b, j).None?)
      && (r <= 0 ==> forall j :: 0 <= j && j + 1 < |b| ==> TerminatorAt(b, j).None?)
      && (r == -1 <==> r <= 0 && exists j :: 0 <= j < |b| - 1 && Forbidden(b[j]))
  {
    FirstTerminatorMeaning(b, 0);
    var r := RequestLen(b);
    if r > 0 {
      var i := FirstTerminator(b, 0).value;
      if r == i + 2 {
        assert b[r - 2..r] == [b[i], b[i + 1]];
      } else {
        assert b[r - 3..r] == [b[i], b[i + 1], b[i + 2]];
      }
    }
  }

  /** Once the end of the header block is in the buffer, more bytes behind it do not
      change the request length. */
  lemma RequestLenStable(b: seq<char>, more: seq<char>)
    requires RequestLen(b) > 0
    ensures RequestLen(b + more) == RequestLen(b)
  {
    FirstTerminatorMeaning(b, 0);
    FirstTerminatorMeaning(b + more, 0);
    var i := FirstTerminator(b, 0).value;
    var bm := b + more;
    forall j | 0 <= j < i ensures TerminatorAt(bm, j).None? {
      assert TerminatorAt(b, j).None?;
      assert bm[j] == b[j] && bm[j + 1] == b[j + 1] && bm[j + 2] == b[j + 2];
    }
    assert bm[i] == b[i] && bm[i + 1] == b[i + 1];
    if i + 2 < |b| {
      assert bm[i + 2] == b[i + 2];
    }
    assert TerminatorAt(bm, i) == TerminatorAt(b, i);
    FirstTerminatorAt(bm, i);
  }

  /** A terminator at `i` with none before it is the first one. */
  lemma {:induction false} FirstTerminatorAt(b: seq<char>, i: nat)
    requires i + 1 < |b| && TerminatorAt(b, i).Some?
    requires forall j :: 0 <= j < i ==> TerminatorAt(b, j).None?
    ensures FirstTerminator(b, 0) == Some(i)
  {
    FirstTerminatorMeaning(b, 0);
    var r := FirstTerminator(b, 0);
  }

  /** `get_request_len`: the scan over `buf[0..buflen)`.  It keeps going while the
      length found is not positive, so a forbidden byte followed by a terminator
      still gives a positive length. */
  method GetRequestLen(buf: array<char>, buflen: nat) returns (len: int)
    requires buflen <= buf.Length
    ensures len == RequestLen(buf[..buflen])
  {
    ghost var b := buf[..buflen];
    FirstTerminatorMeaning(b, 0);
    len := 0;
    var s := 0;
    while len <= 0 && s + 1 < buflen
      invariant s == 0 || s + 1 <= buflen
      invariant len <= 0 ==> forall j :: 0 <= j < s ==> TerminatorAt(b, j).None?
      invariant len <= 0 ==> (len == -1 <==> exists j :: 0 <= j < s && Forbidden(b[j]))
      invariant len <= 0 ==> len == 0 || len == -1
      invariant len > 0 ==> 0 < s && FirstTerminator(b, 0) == Some(s - 1) && len == TerminatorAt(b, s - 1).value
      decreases buflen - s
    {
      if Forbidden(buf[s]) {
        assert b[s] == buf[s];
        len := -1;
      } else if buf[s] == '\n' && buf[s + 1] == '\n' {
        len := s + 2;
      } else if buf[s] == '\n' && s + 2 < buflen && buf[s + 1] == '\r' && buf[s + 2] == '\n' {
        len := s + 3;
      }
      if len > 0 {
        FirstTerminatorAt(b, s);
      }
      s := s + 1;
    }
  }

  /** All the bytes a sequence of chunks holds, in order. */
  function Concat(cs: seq<string>): (r: string)
    ensures cs != [] ==> |cs[0]| <= |r| && r[..|cs[0]|] == cs[0]
  {
    if cs == [] then [] else cs[0] + Concat(cs[1..])
  }

  /** The client socket of a connection: the chunks `ezcfg_socket_read` will deliver,
      an empty chunk standing for a read that returns 0 or an error, and whether the
      socket has been closed. */
  class Socket {
    /** The protocol `ezcfg_socket_get_proto` reports. */
    const proto: Proto
    var chunks: seq<string>
    var closed: bool

    constructor (proto: Proto, chunks: seq<string>)
      ensures this.proto == proto && this.chunks == chunks && !closed
    {
      this.proto := proto;
      this.chunks := chunks;
      closed := false;
    }

    /** `ezcfg_socket_read(client, buf + at, room, 0)`: at most `room` bytes of the
        next chunk; what does not fit stays queued. */
    method Read(buf: array<char>, at: nat, room: nat) returns (n: nat)
      requires at + room <= buf.Length
      modifies this`chunks, buf
      ensures n <= room
      ensures old(chunks) == [] || old(chunks)[0] == [] ==> n == 0 && chunks == old(chunks)
      ensures n > 0 ==> old(chunks) != [] && n <= |old(chunks)[0]|
      ensures old(chunks) != [] && old(chunks)[0] != [] && room > 0 ==> n > 0
      ensures Concat(old(chunks)) == old(Concat(chunks))
      ensures n <= |Concat(old(chunks))| && Concat(chunks) == Concat(old(chunks))[n..]
      ensures buf[..at] == old(buf[..at]) && buf[at + n..] == old(buf[at + n..])
      ensures buf[at..at + n] == Concat(old(chunks))[..n]
    {
      if chunks == [] || chunks[0] == [] {
        return 0;
      }
      var c := chunks[0];
      n := if |c| < room then |c| else room;
      forall j | at <= j < at + n {
        buf[j] := c[j - at];
      }
      assert buf[at..at + n] == c[..n];
      assert Concat(chunks)[..n] == Concat(chunks)[..|c|][..n];
      ConcatDrop(chunks, n);
      chunks := if n < |c| then [c[n..]] + chunks[1..] else chunks[1..];
    }

    /** `ezcfg_socket_close_sock`. */
    method Close()
      modifies this`closed
      ensures closed
    {
      closed := true;
    }
  }

  /** Taking `n` bytes of the first chunk leaves the rest of the stream. */
  lemma ConcatDrop(cs: seq<string>, n: nat)
    requires cs != [] && n <= |cs[0]|
    ensures Concat((if n < |cs[0]| then [cs[0][n..]] else []) + cs[1..]) == Concat(cs)[n..]
  {
    var rest := (if n < |cs[0]| then [cs[0][n..]] else []) + cs[1..];
    if n < |cs[0]| {
      assert rest[1..] == cs[1..];
    } else {
      assert rest == cs[1..];
    }
  }

  /** `read_request(worker, buf, bufsiz, nread)`: read until the buffer is full, a
      read delivers nothing, or a complete (or malformed) request is buffered.  The
      bytes read land behind the `nread0` already there, in stream order. */
  method ReadRequest(sock: Socket, buf: array<char>, nread0: nat) returns (requestLen: int, nread: nat)
    requires nread0 <= buf.Length
    modifies sock`chunks, buf
    ensures nread0 <= nread <= buf.Length
    ensures nread - nread0 <= |old(Concat(sock.chunks))|
    ensures buf[..nread0] == old(buf[..nread0]) && buf[nread..] == old(buf[nread..])
    ensures buf[nread0..nread] == old(Concat(sock.chunks))[..nread - nread0]
    ensures Concat(sock.chunks) == old(Concat(sock.chunks))[nread - nread0..]
    ensures requestLen == if nread == nread0 then 0 else RequestLen(buf[..nread])
    ensures requestLen == 0 ==> nread == buf.Length || sock.chunks == [] || sock.chunks[0] == []
  {
    ghost var s0 := Concat(sock.chunks);
    ghost var b0 := buf[..];
    requestLen, nread := FillRequest(sock, buf, nread0, b0, s0);
  }

  /** The reading loop of `ReadRequest`, stated on the snapshots `b0` of the buffer
      and `s0` of the stream taken before it. */
  method FillRequest(sock: Socket, buf: array<char>, nread0: nat, ghost b0: seq<char>, ghost s0: string)
      returns (requestLen: int, nread: nat)
    requires nread0 <= buf.Length && buf[..] == b0 && Concat(sock.chunks) == s0
    modifies sock`chunks, buf
    ensures Filled(buf[..], b0, s0, nread0, nread)
    ensures Concat(sock.chunks) == s0[nread - nread0..]
    ensures requestLen == if nread == nread0 then 0 else RequestLen(buf[..nread])
    ensures requestLen == 0 ==> nread == buf.Length || sock.chunks == [] || sock.chunks[0] == []
  {
    requestLen := 0;
    nread := nread0;
    while nread < buf.Length && requestLen == 0
      invariant Filled(buf[..], b0, s0, nread0, nread)
      invariant Concat(sock.chunks) == s0[nread - nread0..]
      invariant requestLen == if nread == nread0 then 0 else RequestLen(buf[..nread])
      decreases buf.Length - nread, requestLen == 0
    {
      var n := ReadMore(sock, buf, nread, b0, s0, nread0);
      if n == 0 {
        break;
      }
      nread := nread + n;
      requestLen := GetRequestLen(buf, nread);
    }
  }

  /** One `ezcfg_socket_read` into the free room of the buffer. */
  method ReadMore(sock: Socket, buf: array<char>, nread: nat, ghost b0: seq<char>, ghost s0: string, ghost nread0: nat)
      returns (n: nat)
    requires Filled(buf[..], b0, s0, nread0, nread) && nread < buf.Length
    requires Concat(sock.chunks) == s0[nread - nread0..]
    modifies sock`chunks, buf
    ensures nread + n <= buf.Length
    ensures Filled(buf[..], b0, s0, nread0, nread + n)
    ensures Concat(sock.chunks) == s0[nread + n - nread0..]
    ensures n == 0 ==> buf[..] == old(buf[..]) && (sock.chunks == [] || sock.chunks[0] == [])
  {
    ghost var before := buf[..];
    ghost var sBefore := Concat(sock.chunks);
    n := sock.Read(buf, nread, buf.Length - nread);
    ReadAppends(b0, s0, nread0, nread, n, before, buf[..], sBefore);
  }

  /** `b` is `b0` with the first `nread - nread0` bytes of the stream `s0` written
      at `nread0`. */
  ghost predicate Filled(b: seq<char>, b0: seq<char>, s0: string, nread0: nat, nread: nat) {
    |b| == |b0| && nread0 <= nread <= |b| && nread - nread0 <= |s0|
    && b[..nread0] == b0[..nread0] && b[nread..] == b0[nread..]
    && b[nread0..nread] == s0[..nread - nread0]
  }

  /** One read appends the next `n` bytes of the stream behind `nread`. */
  lemma ReadAppends(b0: seq<char>, s0: string, nread0: nat, nread: nat, n: nat,
                    before: seq<char>, after: seq<char>, sBefore: string)
    requires Filled(before, b0, s0, nread0, nread) && |after| == |b0| && nread + n <= |b0|
    requires sBefore == s0[nread - nread0..] && n <= |sBefore|
    requires after[..nread] == before[..nread] && after[nread + n..] == before[nread + n..]
    requires after[nread..nread + n] == sBefore[..n]
    ensures Filled(after, b0, s0, nread0, nread + n)
    ensures sBefore[n..] == s0[nread + n - nread0..]
  {
    assert after[..nread0] == before[..nread][..nread0];
    assert before[..nread0] == before[..nread][..nread0];
    assert after[nread + n..] == before[nread..][n..];
    assert after[nread0..nread + n] == after[nread0..nread] + after[nread..nread + n];
    assert after[nread0..nread] == before[..nread][nread0..];
    assert before[nread0..nread] == before[..nread][nread0..];
    assert s0[..nread + n - nread0] == s0[..nread - nread0] + s0[nread - nread0..][..n];
  }

  /** The body length `shift_to_next` skips: nothing without Content-Length (-1),
      otherwise Content-Length capped at the bytes read behind the request.  A
      Content-Length below -1 is used as it is. */
  function BodyLen(cl: int, over: nat): (r: int)
    ensures r <= over
    ensures cl >= -1 ==> 0 <= r
  {
    if cl == -1 then 0 else if cl < over then cl else over
  }

  /** `shift_to_next`: drop the request and its body from the front of the buffer
      and move the pipelined bytes behind them to the front, in place.  The source
      of the `memmove` must not start before the buffer. */
  method ShiftToNext(buf: array<char>, reqLen: nat, nread: nat, cl: int) returns (next: nat)
    requires reqLen <= nread <= buf.Length
    requires reqLen + BodyLen(cl, nread - reqLen) >= 0
    modifies buf
    ensures var d := reqLen + BodyLen(cl, nread - reqLen);
      next == nread - d && buf[..next] == old(buf[d..nread]) && buf[next..] == old(buf[next..])
    ensures buf[..] == Shifted(old(buf[..]), reqLen, nread, cl)
  {
    ghost var b0 := buf[..];
    var d: nat := reqLen + BodyLen(cl, nread - reqLen);
    next := nread - d;
    var i := 0;
    while i < next
      invariant i <= next
      invariant forall j :: 0 <= j < i ==> buf[j] == b0[d + j]
      invariant forall j :: i <= j < buf.Length ==> buf[j] == b0[j]
    {
      buf[i] := buf[i + d];
      i := i + 1;
    }
    assert buf[..next] == b0[d..nread];
    assert buf[next..] == b0[next..];
    assert buf[..] == buf[..next] + buf[next..];
  }

  /** The header value `ezcfg_http_get_header_value` returns, taken here as the
      value of the first header whose name matches ignoring case. */
  function HeaderValue(hs: seq<Http.Header>, name: string): Option<string> {
    if hs == [] then None
    else if EqualsIgnoreCase(hs[0].name, name) then hs[0].value
    else HeaderValue(hs[1..], name)
  }

  /** `get_content_length`: -1 when the header is absent, otherwise `strtol` of it. */
  function ContentLength(v: Option<string>): (r: int)
    ensures v.None? ==> r == -1
  {
    match v
    case None => -1
    case Some(s) => Strtol(s).value
  }

  /** A Content-Length written in decimal is read back as that number, or as
      LONG_MAX when it does not fit in a `long`. */
  lemma ContentLengthOfDecimal(n: nat)
    ensures ContentLength(Some(Decimal(n))) == if n <= LongMax then n else LongMax
  {
    StrtolOfDecimal(n, []);
    assert Decimal(n) + [] == Decimal(n);
  }

  /** Responses to statuses 1xx, 204 and 304 carry no body. */
  predicate HasBody(status: nat) {
    status > 199 && status != 204 && status != 304
  }

  /** The body of an error response: `"Error %d: %s\n"` and the detail, or nothing. */
  function ErrorBody(status: nat, reason: string, detail: string): (r: string)
    ensures r == "" <==> !HasBody(status)
  {
    if HasBody(status) then "Error " + Decimal(status) + ": " + reason + "\n" + detail else ""
  }

  /** The status line and the header lines of an error response, up to the blank line. */
  function ErrorHead(status: nat, reason: string, bodyLen: nat): string {
    "HTTP/1.1 " + Decimal(status) + " " + reason + "\r\n"
      + "Content-Type: text/plain\r\n"
      + "Content-Length: " + Decimal(bodyLen) + "\r\n"
      + "Connection: close\r\n"
      + "\r\n"
  }

  /** What `send_*_error` prints: the head, whose Content-Length is the body's
      length, then the body. */
  function ErrorResponse(status: nat, reason: string, detail: string): string {
    var body := ErrorBody(status, reason, detail);
    ErrorHead(status, reason, |body|) + body
  }

  /** An error response ends with its body, and its Content-Length reads back as the
      number of body bytes, which is 0 exactly for the statuses without a body. */
  lemma ErrorResponseFraming(status: nat, reason: string, detail: string)
    ensures var body := ErrorBody(status, reason, detail);
      var resp := ErrorResponse(status, reason, detail);
      |body| <= |resp| && resp[|resp| - |body|..] == body
      && ContentLength(Some(Decimal(|body|))) == (if |body| <= LongMax then |body| else LongMax)
      && (|body| == 0 <==> !HasBody(status))
  {
    var body := ErrorBody(status, reason, detail);
    var head := ErrorHead(status, reason, |body|);
    assert (head + body)[|head|..] == body;
    ContentLengthOfDecimal(|body|);
  }

  /** The line the request-handling stubs send. */
  const OkResponse: string := "HTTP/1.1 200 OK\r\n\r\n"

  /** The protocol of a connection's socket. */
  datatype Proto = ProtoUnknown | ProtoHttp | ProtoSoapHttp | ProtoIgrs | ProtoIsdp

  /** The protocols that get protocol data and are processed. */
  predicate HasProtoData(p: Proto) {
    p == ProtoHttp || p == ProtoSoapHttp || p == ProtoIgrs
  }

  /** The minor version a request must carry: HTTP/1.1, or 1.0 for IGRS. */
  function WantedMinor(p: Proto): nat {
    if p == ProtoIgrs then 0 else 1
  }

  /** The reason and detail of the 505 response. */
  function VersionReason(p: Proto): string {
    match p
    case ProtoSoapHttp => "SOAP/HTTP binding version not supported"
    case ProtoIgrs => "IGRS version not supported"
    case _ => "HTTP version not supported"
  }

  function VersionDetail(p: Proto): string {
    if p == ProtoIgrs then "Weird IGRS version" else "Weird HTTP version"
  }

  /** What `handle_request` sends: the stub 200 line, except for SOAP/HTTP whose
      handler is not part of this model. */
  function Handled(p: Proto): seq<string> {
    if p == ProtoHttp || p == ProtoIgrs || p == ProtoIsdp then [OkResponse] else []
  }

  /** The responses to a complete request, read into `b` and parsed with outcome
      `parsed` and version `major.minor`: 400 with the buffer as a C string when it
      does not parse, 505 for a version other than the wanted one, otherwise the
      handler's reply. */
  function Reply(p: Proto, parsed: bool, major: nat, minor: nat, b: seq<char>, nread: nat): seq<string>
    requires nread <= |b|
  {
    if !parsed then [ErrorResponse(400, "Bad Request", "Can not parse request: " + CStr(b[..nread], 0))]
    else if major != 1 || minor != WantedMinor(p) then [ErrorResponse(505, VersionReason(p), VersionDetail(p))]
    else Handled(p)
  }

  /** A NUL written at `p`, and none before, ends the C string at `p`. */
  lemma StampedCStr(b0: seq<char>, ns: set<nat>, nread: nat, p: nat)
    requires p < nread <= |b0| && p in ns
    requires forall k :: k in ns ==> k >= p
    requires forall j :: 0 <= j < p ==> b0[j] != NUL
    ensures CStr(Http.Stamp(b0, ns)[..nread], 0) == b0[..p]
  {
    var b1 := Http.Stamp(b0, ns)[..nread];
    forall j | 0 <= j < p ensures b1[j] != NUL {
      assert j !in ns;
    }
    CStrUpTo(b1, 0, p);
    assert b1[0..p] == b0[..p];
  }

  /** The request is handed to the protocol's handler: it parsed and carries the
      wanted version. */
  predicate Dispatched(p: Proto, parsed: bool, major: nat, minor: nat) {
    parsed && major == 1 && minor == WantedMinor(p)
  }

  /** After a request line that was cut off at its CRLF but then rejected, the 400
      response quotes exactly the request line: the parser's NUL over its CR ends
      the C string. */
  lemma RejectedLineQuoted(b0: seq<char>, methods: seq<string>, n: nat, nread: nat, p: nat)
    requires n < |methods| && nread <= |b0|
    requires Find(CStr(b0, 0), "\r\n") == Some(p) && p < nread
    ensures var r := Http.ScanRequest(b0, methods, n);
      CStr(Http.Stamp(b0, r.nuls)[..nread], 0) == CStr(b0, 0)[..p]
  {
    var r := Http.ScanRequest(b0, methods, n);
    var s := CStr(b0, 0);
    CStrSlice(b0, 0);
    Http.ScanRequestNuls(b0, methods, n, p);
    forall j | 0 <= j < p ensures b0[j] != NUL {
      assert b0[j] == s[j];
    }
    StampedCStr(b0, r.nuls, nread, p);
    assert s[..p] == b0[..p];
  }

  /** The buffer after `shift_to_next`: the bytes behind the request and its body
      moved to the front, the rest as it was. */
  function Shifted(b: seq<char>, reqLen: nat, nread: nat, cl: int): (r: seq<char>)
    requires reqLen <= nread <= |b| && reqLen + BodyLen(cl, nread - reqLen) >= 0
    ensures |r| == |b|
  {
    var d := reqLen + BodyLen(cl, nread - reqLen);
    b[d..nread] + b[nread - d..]
  }

  /** A fresh buffer from `calloc`. */
  function Zeros(n: nat): (r: seq<char>)
    ensures |r| == n && forall i :: 0 <= i < n ==> r[i] == NUL
  {
    seq(n, _ => NUL)
  }

  /** A worker serving one connection at a time. */
  class Worker {
    const client: Socket
    /** `EZCFG_*_MAX_REQUEST_SIZE`, the size of the request buffer. */
    const requestSize: nat
    var proto: Proto
    /** The protocol object of the connection; for every protocol the part modelled
        is its HTTP message. */
    var protoData: Option<Http.HttpMessage>
    var numBytesSent: int
    /** Everything sent to the client, one `worker_printf` per entry. */
    var out: seq<string>

    ghost predicate Ready()
      reads this, if protoData.Some? then {protoData.value} else {}
    {
      protoData.Some? && protoData.value.Valid()
    }

    /** `ezcfg_worker_new`: no protocol yet and no protocol data. */
    constructor (client: Socket, requestSize: nat)
      ensures this.client == client && this.requestSize == requestSize
      ensures proto == ProtoUnknown && protoData.None? && numBytesSent == 0 && out == []
    {
      this.client := client;
      this.requestSize := requestSize;
      proto := ProtoUnknown;
      protoData := None;
      numBytesSent := 0;
      out := [];
    }

    /** `reset_connection_attributes`: reset the message and count no bytes sent. */
    method ResetConnectionAttributes()
      requires Ready()
      modifies this`numBytesSent, protoData.value`headers, protoData.value`requestUri
      modifies protoData.value`messageBody, protoData.value`messageBodyLen
      ensures Ready() && numBytesSent == 0
      ensures var m := protoData.value;
        HasProtoData(proto) ==>
          (m.headers == [] && m.requestUri.None? && m.messageBody.None?
           && m.messageBodyLen == if old(m.messageBody).Some? then 0 else old(m.messageBodyLen))
      ensures !HasProtoData(proto) ==> unchanged(protoData.value)
    {
      if HasProtoData(proto) {
        protoData.value.ResetAttributes();
      }
      numBytesSent := 0;
    }

    /** `send_http_error`, `send_soap_http_error` and `send_igrs_error`: only the
        HTTP variant records the status in the message; the byte count becomes the
        body length when there is a body. */
    method SendError(status: nat, reason: string, detail: string)
      requires Ready()
      modifies this`out, this`numBytesSent, protoData.value`statusCode
      ensures Ready()
      ensures out == old(out) + [ErrorResponse(status, reason, detail)]
      ensures numBytesSent == if HasBody(status) then |ErrorBody(status, reason, detail)| else old(numBytesSent)
      ensures protoData.value.statusCode
        == if proto == ProtoHttp then status % 0x1_0000 else old(protoData.value.statusCode)
    {
      if proto == ProtoHttp {
        protoData.value.SetStatusCode(status);
      }
      var body := ErrorBody(status, reason, detail);
      if HasBody(status) {
        numBytesSent := |body|;
      }
      out := out + [ErrorHead(status, reason, |body|) + body];
    }

    /** `handle_request`: the protocol's handler. */
    method HandleRequest()
      modifies this`out
      ensures out == old(out) + Handled(proto)
    {
      if proto == ProtoHttp || proto == ProtoIgrs || proto == ProtoIsdp {
        out := out + [OkResponse];
      }
    }

    /** The part of `process_*_new_connection` behind a complete request of
        `requestLen` bytes among the `nread` read: parse it, then answer. */
    method ProcessRequest(buf: array<char>, requestLen: nat, nread: nat)
      requires Ready() && 0 < requestLen <= nread <= buf.Length
      modifies this`out, this`numBytesSent, protoData.value, buf
      ensures Ready()
      ensures var m := protoData.value;
        var r := Http.ScanRequest(old(buf[..]), m.methodStrings, m.numMethods);
        var b1 := Http.Stamp(old(buf[..]), r.nuls);
        out == old(out) + Reply(proto, r.ok, m.versionMajor, m.versionMinor, b1, nread)
        && (Dispatched(proto, r.ok, m.versionMajor, m.versionMinor) ==>
              m.messageBody == Some(b1[requestLen..nread]) && m.messageBodyLen == nread - requestLen)
      ensures var m := protoData.value;
        var r := Http.ScanRequest(old(buf[..]), m.methodStrings, m.numMethods);
        var b1 := Http.Stamp(old(buf[..]), r.nuls);
        var cl := ContentLength(HeaderValue(m.headers, "Content-Length"));
        buf[..] == if Dispatched(proto, r.ok, m.versionMajor, m.versionMinor)
                      && requestLen + BodyLen(cl, nread - requestLen) >= 0
                   then Shifted(b1, requestLen, nread, cl) else b1
    {
      var m := protoData.value;
      var ok := m.ParseRequest(buf);
      Respond(buf, requestLen, nread, ok);
    }

    /** The answer to a parsed request: 400 when it did not parse, 505 for another
        version, otherwise the bytes behind it become the message body, the handler
        runs and the buffer is shifted to the next request. */
    method Respond(buf: array<char>, requestLen: nat, nread: nat, parsed: bool)
      requires Ready() && 0 < requestLen <= nread <= buf.Length
      modifies this`out, this`numBytesSent, protoData.value`statusCode
      modifies protoData.value`messageBody, protoData.value`messageBodyLen, buf
      ensures Ready()
      ensures var m := protoData.value;
        m.versionMajor == old(m.versionMajor) && m.versionMinor == old(m.versionMinor)
        && out == old(out) + Reply(proto, parsed, m.versionMajor, m.versionMinor, old(buf[..]), nread)
        && (Dispatched(proto, parsed, m.versionMajor, m.versionMinor) ==>
              m.messageBody == Some(old(buf[requestLen..nread])) && m.messageBodyLen == nread - requestLen)
      ensures var m := protoData.value;
        var cl := ContentLength(HeaderValue(m.headers, "Content-Length"));
        buf[..] == if Dispatched(proto, parsed, m.versionMajor, m.versionMinor)
                      && requestLen + BodyLen(cl, nread - requestLen) >= 0
                   then Shifted(old(buf[..]), requestLen, nread, cl) else old(buf[..])
    {
      var m := protoData.value;
      if parsed {
        if m.versionMajor != 1 || m.versionMinor != WantedMinor(proto) {
          SendError(505, VersionReason(proto), VersionDetail(proto));
        } else {
          Dispatch(buf, requestLen, nread);
        }
      } else {
        SendError(400, "Bad Request", "Can not parse request: " + CStr(buf[..nread], 0));
      }
    }

    /** The answer to a request of a supported version: the bytes read behind it
        become the message body, the handler runs, and the buffer is shifted to the
        next request when the body length leaves room. */
    method Dispatch(buf: array<char>, requestLen: nat, nread: nat)
      requires Ready() && 0 < requestLen <= nread <= buf.Length
      modifies this`out, protoData.value`messageBody, protoData.value`messageBodyLen, buf
      ensures Ready()
      ensures out == old(out) + Handled(proto)
      ensures var m := protoData.value;
        m.messageBody == Some(old(buf[requestLen..nread])) && m.messageBodyLen == nread - requestLen
      ensures var cl := ContentLength(HeaderValue(protoData.value.headers, "Content-Length"));
        buf[..] == if requestLen + BodyLen(cl, nread - requestLen) >= 0
                   then Shifted(old(buf[..]), requestLen, nread, cl) else old(buf[..])
    {
      var m := protoData.value;
      var body := buf[requestLen..nread];
      assert body[..nread - requestLen] == body;
      var _ := m.SetMessageBody(body, nread - requestLen);
      HandleRequest();
      var cl := ContentLength(HeaderValue(m.headers, "Content-Length"));
      if requestLen + BodyLen(cl, nread - requestLen) >= 0 {
        var _ := ShiftToNext(buf, requestLen, nread, cl);
      }
    }

    /** `process_http_new_connection`, `process_soap_http_new_connection` and
        `process_igrs_new_connection`: read a request into a zeroed buffer, give up
        silently unless it is complete, otherwise parse and answer it.  `read` is
        what came from the socket. */
    method ProcessProtocol() returns (ghost read: seq<char>, requestLen: int)
      requires Ready()
      modifies this`out, this`numBytesSent, protoData.value, client`chunks
      ensures Ready()
      ensures |read| <= requestSize && |read| <= |old(Concat(client.chunks))|
      ensures read == old(Concat(client.chunks))[..|read|]
      ensures Concat(client.chunks) == old(Concat(client.chunks))[|read|..]
      ensures requestLen == if read == [] then 0 else RequestLen(read)
      ensures requestLen <= 0 ==> out == old(out) && numBytesSent == old(numBytesSent) && unchanged(protoData.value)
      ensures var m := protoData.value;
        out == old(out) + Answer(proto, requestLen, read, requestSize, m)
    {
      var buf := new char[requestSize](_ => NUL);
      var nread;
      requestLen, nread := ReadRequest(client, buf, 0);
      read := buf[..nread];
      if requestLen <= 0 {
        return;
      }
      RequestLenMeaning(read);
      assert buf[..] == read + Zeros(requestSize - nread);
      AnswerRequest(buf, requestLen, nread, read);
    }

    /** A complete request of `requestLen` bytes in the zero-padded buffer holding
        the `nread` bytes `read`: parse it and answer it. */
    method AnswerRequest(buf: array<char>, requestLen: nat, nread: nat, ghost read: seq<char>)
      requires Ready() && 0 < requestLen <= nread <= buf.Length == requestSize
      requires |read| == nread && buf[..] == read + Zeros(requestSize - nread)
      modifies this`out, this`numBytesSent, protoData.value, buf
      ensures Ready()
      ensures out == old(out) + Answer(proto, requestLen, read, requestSize, protoData.value)
    {
      ghost var b0 := buf[..];
      ProcessRequest(buf, requestLen, nread);
      AnswerOf(proto, requestLen, read, requestSize, protoData.value, b0);
    }

    /** `init_protocol_data`: the protocol of the accepted socket, and a new protocol
        object for HTTP, SOAP/HTTP and IGRS, or none when `allocOk` says the
        allocation fails.  ISDP and unknown protocols get none. */
    method InitProtocolData(allocOk: bool)
      requires protoData.None?
      modifies this`proto, this`protoData
      ensures proto == client.proto
      ensures protoData.Some? <==> HasProtoData(proto) && allocOk
      ensures protoData.Some? ==> fresh(protoData.value) && Ready()
      ensures protoData.Some? ==> var m := protoData.value;
        m.methodIndex == 0 && m.headers == [] && m.requestUri.None? && m.messageBody.None?
        && m.knownHeaderStrings == Http.DefaultHeaderStrings
        && m.numKnownHeaders == |Http.DefaultHeaderStrings| - 1
        && if proto == ProtoIgrs then m.methodStrings == Igrs.IgrsMethodStrings && m.numMethods == 1
           else m.methodStrings == Http.DefaultMethodStrings && m.numMethods == |Http.DefaultMethodStrings| - 1
    {
      proto := client.proto;
      if !allocOk {
        return;
      }
      match proto
      case ProtoHttp =>
        var m := new Http.HttpMessage();
        protoData := Some(m);
      case ProtoSoapHttp =>
        var m := new Http.HttpMessage();
        protoData := Some(m);
      case ProtoIgrs =>
        var g := Igrs.NewIgrs(true, true, true);
        protoData := Some(g.value.http);
      case _ =>
    }

    /** `process_new_connection`: reset the protocol object, then serve the
        connection with the protocol's handler; ISDP and unknown protocols do
        nothing beyond the reset. */
    method ProcessNewConnection() returns (ghost read: seq<char>, ghost requestLen: int)
      requires Ready()
      modifies this`out, this`numBytesSent, protoData.value, client`chunks
      ensures Ready()
      ensures HasProtoData(proto) ==>
        (|read| <= |old(Concat(client.chunks))| && read == old(Concat(client.chunks))[..|read|] && |read| <= requestSize
         && Concat(client.chunks) == old(Concat(client.chunks))[|read|..]
         && requestLen == (if read == [] then 0 else RequestLen(read))
         && out == old(out) + Answer(proto, requestLen, read, requestSize, protoData.value))
      ensures !HasProtoData(proto) ==>
        (out == old(out) && numBytesSent == 0 && client.chunks == old(client.chunks))
    {
      ResetConnectionAttributes();
      read, requestLen := [], 0;
      if HasProtoData(proto) {
        read, requestLen := ProcessProtocol();
      }
    }

    /** `release_protocol_data`: HTTP, SOAP/HTTP and IGRS drop their protocol
        object; ISDP and unknown protocols keep what they have. */
    method ReleaseProtocolData()
      modifies this`protoData
      ensures protoData == if HasProtoData(proto) then None else old(protoData)
    {
      if HasProtoData(proto) {
        protoData := None;
      }
    }

    /** One pass of `ezcfg_worker_thread` for an accepted connection: set up the
        protocol object, serve the connection when there is one, close the socket
        and drop the object.  `msg` is the protocol object that served, if any. */
    method ServeConnection(allocOk: bool) returns (ghost msg: Option<Http.HttpMessage>, ghost read: seq<char>, ghost requestLen: int)
      requires protoData.None?
      modifies this`proto, this`protoData, this`out, this`numBytesSent, client`chunks, client`closed
      ensures proto == client.proto && protoData.None? && client.closed
      ensures msg.Some? <==> HasProtoData(proto) && allocOk
      ensures msg.None? ==> out == old(out) && client.chunks == old(client.chunks)
      ensures msg.Some? ==> (msg.value.Valid()
        && |read| <= |old(Concat(client.chunks))| && read == old(Concat(client.chunks))[..|read|]
        && |read| <= requestSize && Concat(client.chunks) == old(Concat(client.chunks))[|read|..]
        && requestLen == (if read == [] then 0 else RequestLen(read))
        && out == old(out) + Answer(proto, requestLen, read, requestSize, msg.value))
    {
      InitProtocolData(allocOk);
      msg, read, requestLen := protoData, [], 0;
      if protoData.Some? {
        read, requestLen := ProcessNewConnection();
      }
      client.Close();
      if protoData.Some? {
        ReleaseProtocolData();
      }
    }
  }

  /** The responses to the `read` bytes of a connection whose request length is
      `requestLen`, given the message `m` after parsing: none for an incomplete or
      malformed request, otherwise the reply to the parsed request. */
  ghost function Answer(p: Proto, requestLen: int, read: seq<char>, size: nat, m: Http.HttpMessage): seq<string>
    reads m
    requires |read| <= size && m.Valid()
  {
    if requestLen <= 0 then []
    else
      var b0 := read + Zeros(size - |read|);
      var r := Http.ScanRequest(b0, m.methodStrings, m.numMethods);
      Reply(p, r.ok, m.versionMajor, m.versionMinor, Http.Stamp(b0, r.nuls), |read|)
  }

  /** The answer to a complete request is the reply to the zero-padded buffer. */
  lemma AnswerOf(p: Proto, requestLen: int, read: seq<char>, size: nat, m: Http.HttpMessage, b0: seq<char>)
    requires |read| <= size && m.Valid() && requestLen > 0
    requires b0 == read + Zeros(size - |read|)
    ensures var r := Http.ScanRequest(b0, m.methodStrings, m.numMethods);
      Answer(p, requestLen, read, size, m)
      == Reply(p, r.ok, m.versionMajor, m.versionMinor, Http.Stamp(b0, r.nuls), |read|)
  {
  }
}
