// The IGRS message layer of libezcfg: a table of message types, each with an
// optional builder that fills the owned HTTP message and an optional writer that
// formats it into a caller's buffer.

module Igrs {
  import opened Wrappers
  import opened CString
  import Http

  /** The message types that come with a builder and a writer. */
  datatype Op = CreateSession

  /** One entry of the message-type table: the type's name, its builder and its writer. */
  datatype MsgOp = MsgOp(name: string, builder: Option<Op>, writer: Option<Op>)

  /** A message type that can be neither built nor written. */
  function Plain(name: string): (op: MsgOp)
    ensures op.name == name && op.builder.None? && op.writer.None?
  {
    MsgOp(name, None, None)
  }

  /** The request methods of IGRS: slot 0 is the bad method, then `M-POST` alone. */
  const IgrsMethodStrings: seq<string> := ["", "M-POST"]

  /** Where CreateSessionRequest sits in the table. */
  const CreateSessionIndex: nat := 49

  /** The message types of IGRS, behind the bad-type entry in slot 0.  The name
      UnSubscribeDeviceEventNotify is listed twice. */
  const MessageTypeNames: seq<string> := [
    "", "DeviceOnlineAdvertisement", "DeviceOfflineAdvertisement",
    "CreatePipeRequest", "CreatePipeResponse", "AuthenticateRequest",
    "AuthenticateResponse", "AuthenticateResultRequest", "AuthenticateResultResponse",
    "CreatePipeResultRequest", "CreatePipeResultResponse", "DetachPipeNotify",
    "DeviceOnlineDetectionRequest", "DeviceOnlineDetectionResponse", "GetDeviceDescriptionRequest",
    "GetDeviceDescriptionResponse", "PeerDeviceGroupAdvertisement", "QuitPeerDeviceGroupNotify",
    "CentralisedDeviceGroupAdvertisement", "JoinCentralisedDeviceGroupRequest", "JoinCentralisedDeviceGroupResponse",
    "QuitCentralisedDeviceGroupAdvertisement", "QuitCentralisedDeviceGroupNotify", "SearchDeviceRequest",
    "SearchDeviceResponse", "SearchDeviceRequestOnDevice", "SearchDeviceResponseOnDevice",
    "SubscribeDeviceEventRequest", "RenewSubscriptionDeviceEventRequest", "SubscribeDeviceEventResponse",
    "UnSubscribeDeviceEventNotify", "NotifyDeviceEvent", "SearchDeviceGroupRequest",
    "SearchDeviceGroupResponse", "ServiceOnlineAdvertisement", "ServiceOfflineAdvertisement",
    "RegisterServiceNotify", "UnRegisterServiceNotify", "SearchServiceRequest",
    "SearchServiceResponse", "SearchServiceRequestOnDevice", "SearchServiceResponseOnDevice",
    "SubscribeServiceEventRequest", "RenewSubscriptionServiceEventRequest", "SubscribeServiceEventResponse",
    "UnSubscribeDeviceEventNotify", "NotifyServiceEvent", "GetServiceDescriptionRequest",
    "GetServiceDescriptionResponse", "CreateSessionRequest", "CreateSessionResponse",
    "DestroySessionNotify", "ApplySessionKeyRequest", "ApplySessionKeyResponse",
    "TransferSessionKeyRequest", "TransferSessionKeyResponse", "InvokeServiceRequest",
    "InvokeServiceResponse", "SendNotification"
  ]

  /** The table entry for a type name: only CreateSessionRequest has a builder and a writer. */
  function DefaultOp(name: string): (op: MsgOp)
    ensures op.name == name
    ensures op.builder.Some? <==> name == "CreateSessionRequest"
    ensures op.writer.Some? <==> name == "CreateSessionRequest"
  {
    if name == "CreateSessionRequest" then MsgOp(name, Some(CreateSession), Some(CreateSession))
    else Plain(name)
  }

  /** `default_message_type_ops`. */
  const DefaultMessageTypeOps: seq<MsgOp> :=
    seq(|MessageTypeNames|, i requires 0 <= i < |MessageTypeNames| => DefaultOp(MessageTypeNames[i]))

  /** The long header values of a CreateSessionRequest. */
  const IgrsHost: string := "192.168.1.1:3880"
  const SessionMan: string := "\"http://www.igrs.org/session\";ns=01"
  const DeviceId: string := "urn:IGRS:Device:DeviceId:88888888-4444-4444-4444-CCCCCCCCCCCC"
  const XmlContentType: string := "text/xml;charset=utf-8"
  const SoapMan: string := "\"http://www.w3.org/2002/12/soap-envelope\";ns=02"
  const CreateSessionAction: string := "\"IGRS-CreateSession-Request\""

  /** The headers of a CreateSessionRequest, in the order they are added. */
  const CreateSessionFields: seq<Http.Field> := [
    Http.Field("HOST", IgrsHost),
    Http.Field("MAN", SessionMan),
    Http.Field("01-IGRSVersion", "IGRS/1.0"),
    Http.Field("01-IGRSMessageType", "CreateSessionRequest"),
    Http.Field("01-TargetDeviceId", DeviceId),
    Http.Field("01-SourceDeviceId", DeviceId),
    Http.Field("01-SequenceId", "123456"),
    Http.Field("Content-type", XmlContentType),
    Http.Field("Content-length", "0"),
    Http.Field("MAN", SoapMan),
    Http.Field("02-SoapAction", CreateSessionAction)
  ]

  /** Can this entry be built for a message of type `t`? */
  predicate Builds(op: MsgOp, t: string) {
    op.name == t && op.builder.Some?
  }

  /** The slot `ezcfg_igrs_build_message` settles on when it scans slots `n` down
      to 1 for type `t`, or 0 when no slot there can build `t`. */
  function FindMessageType(ops: seq<MsgOp>, n: nat, t: string): (r: nat)
    requires n < |ops|
    ensures r <= n
  {
    if n == 0 then 0
    else if Builds(ops[n], t) then n
    else FindMessageType(ops, n - 1, t)
  }

  /** The slot found is the highest one in 1..n that can build `t`, and 0 exactly
      when there is none. */
  lemma {:induction false} FindMessageTypeMeaning(ops: seq<MsgOp>, n: nat, t: string)
    requires n < |ops|
    ensures var r := FindMessageType(ops, n, t);
      (r > 0 ==> Builds(ops[r], t))
      && (forall j :: r < j <= n ==> !Builds(ops[j], t))
      && (r == 0 <==> forall j :: 1 <= j <= n ==> !Builds(ops[j], t))
  {
    if n > 0 && !Builds(ops[n], t) {
      FindMessageTypeMeaning(ops, n - 1, t);
    }
  }

  /** In the default table only CreateSessionRequest can be built, so a build
      request for any other type finds no slot. */
  lemma OnlyCreateSessionBuilds(t: string)
    ensures FindMessageType(DefaultMessageTypeOps, |DefaultMessageTypeOps| - 1, t)
      == if t == "CreateSessionRequest" then CreateSessionIndex else 0
  {
    var ops := DefaultMessageTypeOps;
    var n := |ops| - 1;
    FindMessageTypeMeaning(ops, n, t);
    if t == "CreateSessionRequest" {
      assert MessageTypeNames[CreateSessionIndex] == t;
      assert Builds(ops[CreateSessionIndex], t);
      forall j | CreateSessionIndex < j <= n ensures !Builds(ops[j], t) {
        assert MessageTypeNames[j] != t;
      }
    }
  }

  /** `struct ezcfg_igrs`: the owned HTTP message and the message-type table with
      the index of the type last built. */
  class IgrsMessage {
    const http: Http.HttpMessage
    var numMessageTypes: nat
    var messageTypeOps: seq<MsgOp>
    var messageTypeIndex: nat

    ghost predicate Valid()
      reads this, http
    {
      http.Valid() && numMessageTypes < |messageTypeOps| && messageTypeIndex <= numMessageTypes
      && http.methodStrings == IgrsMethodStrings && http.numMethods == 1
    }

    /** A zeroed object that owns `http`; the table is installed afterwards. */
    constructor (http: Http.HttpMessage)
      ensures this.http == http
      ensures numMessageTypes == 0 && messageTypeOps == [] && messageTypeIndex == 0
    {
      this.http := http;
      numMessageTypes := 0;
      messageTypeOps := [];
      messageTypeIndex := 0;
    }

    /** `ezcfg_igrs_set_message_type_ops`: `ops` holds `n` types behind slot 0. */
    method SetMessageTypeOps(ops: seq<MsgOp>, n: nat) returns (ok: bool)
      requires n < |ops| && messageTypeIndex <= n
      modifies this`numMessageTypes, this`messageTypeOps
      ensures ok && messageTypeOps == ops && numMessageTypes == n
    {
      numMessageTypes := n;
      messageTypeOps := ops;
      return true;
    }

    /** `build_create_session_request`: the request line `M-POST /IGRS HTTP/1.1` and
        the eleven CreateSessionRequest headers appended in order. */
    method BuildCreateSessionRequest() returns (ok: bool)
      requires Valid()
      modifies http`methodIndex, http`isExtension, http`requestUri, http`versionMajor, http`versionMinor, http`headers
      ensures Valid() && ok
      ensures http.methodIndex == 1 && http.isExtension && http.requestUri == Some("/IGRS")
      ensures http.versionMajor == 1 && http.versionMinor == 1
      ensures var s, n := http.knownHeaderStrings, http.numKnownHeaders;
        http.headers == WithSoapHeaders(WithSessionHeaders(old(http.headers), s, n), s, n)
    {
      SetSessionLine();
      AddSessionHeaders();
      AddSoapHeaders();
      return true;
    }

    /** The request line of a CreateSessionRequest: `M-POST /IGRS HTTP/1.1`. */
    method SetSessionLine()
      requires Valid()
      modifies http`methodIndex, http`isExtension, http`requestUri, http`versionMajor, http`versionMinor
      ensures Valid()
      ensures http.methodIndex == 1 && http.isExtension && http.requestUri == Some("/IGRS")
      ensures http.versionMajor == 1 && http.versionMinor == 1
    {
      var _ := http.SetRequestMethod("M-POST");
      http.SetRequestUri("/IGRS");
      http.SetVersionMajor(1);
      http.SetVersionMinor(1);
    }

    /** The IGRS session headers of a CreateSessionRequest. */
    method AddSessionHeaders()
      requires Valid()
      modifies http`headers
      ensures Valid()
      ensures http.headers == WithSessionHeaders(old(http.headers), http.knownHeaderStrings, http.numKnownHeaders)
    {
      http.AddHeader("HOST", IgrsHost);
      http.AddHeader("MAN", SessionMan);
      http.AddHeader("01-IGRSVersion", "IGRS/1.0");
      http.AddHeader("01-IGRSMessageType", "CreateSessionRequest");
      http.AddHeader("01-TargetDeviceId", DeviceId);
      http.AddHeader("01-SourceDeviceId", DeviceId);
      http.AddHeader("01-SequenceId", "123456");
    }

    /** The SOAP headers of a CreateSessionRequest. */
    method AddSoapHeaders()
      requires Valid()
      modifies http`headers
      ensures Valid()
      ensures http.headers == WithSoapHeaders(old(http.headers), http.knownHeaderStrings, http.numKnownHeaders)
    {
      http.AddHeader("Content-type", XmlContentType);
      http.AddHeader("Content-length", "0");
      http.AddHeader("MAN", SoapMan);
      http.AddHeader("02-SoapAction", CreateSessionAction);
    }

    /** `ezcfg_igrs_build_message`: scans the table from the last slot down; the first
        slot named `t` that has a builder becomes the current type and its builder
        runs.  Without one the result is false and nothing changes. */
    method BuildMessage(t: string) returns (ok: bool)
      requires Valid()
      modifies this`messageTypeIndex
      modifies http`methodIndex, http`isExtension, http`requestUri, http`versionMajor, http`versionMinor, http`headers
      ensures Valid()
      ensures var i := FindMessageType(messageTypeOps, numMessageTypes, t);
        (i == 0 ==> !ok && messageTypeIndex == old(messageTypeIndex) && unchanged(http))
        && (i > 0 ==> (messageTypeIndex == i && ok
          && http.methodIndex == 1 && http.isExtension && http.requestUri == Some("/IGRS")
          && http.versionMajor == 1 && http.versionMinor == 1
          && http.headers == WithSoapHeaders(WithSessionHeaders(old(http.headers),
               http.knownHeaderStrings, http.numKnownHeaders), http.knownHeaderStrings, http.numKnownHeaders)))
    {
      var i: nat := numMessageTypes;
      while i > 0
        invariant i <= numMessageTypes
        invariant FindMessageType(messageTypeOps, numMessageTypes, t) == FindMessageType(messageTypeOps, i, t)
      {
        var op := messageTypeOps[i];
        if op.name == t && op.builder.Some? {
          messageTypeIndex := i;
          match op.builder.value
          case CreateSession =>
            ok := BuildCreateSessionRequest();
          return;
        }
        i := i - 1;
      }
      return false;
    }

    /** The text the current type's writer formats, or None when
        `ezcfg_igrs_write_message` returns -1 (no type, no writer, or no method). */
    ghost function Message(): Option<string>
      reads this, http
      requires Valid()
    {
      if messageTypeIndex == 0 || messageTypeOps[messageTypeIndex].writer.None? || http.methodIndex == 0 then None
      else Some(http.RequestLine() + Http.HeadersText(http.headers, |http.headers|))
    }

    /** `write_create_session_request`: the request line at the start of `buf`, the
        header lines right behind it; a failed request line is passed on, and on
        success only the length of the header lines is returned. */
    method WriteCreateSessionRequest(buf: array<char>, len: nat) returns (n: int)
      requires Valid() && 0 < len <= buf.Length
      requires http.methodIndex != 0 ==> (|http.RequestLine()| < len
        && (|http.headers| > 0 ==> |Http.HeadersText(http.headers, |http.headers| - 1)| <= len - |http.RequestLine()|))
      modifies buf
      ensures http.methodIndex == 0 ==> n == -1 && buf[..] == old(buf[..])
      ensures http.methodIndex != 0 ==> (n == |Http.HeadersText(http.headers, |http.headers|)|
        && buf[..] == Snprintf(old(buf[..]), 0, len, http.RequestLine() + Http.HeadersText(http.headers, |http.headers|)))
    {
      ghost var b0 := buf[..];
      ghost var line := http.RequestLine();
      ghost var text := Http.HeadersText(http.headers, |http.headers|);
      n := http.WriteRequestLine(buf, len);
      if n < 0 {
        return n;
      }
      ghost var b1 := buf[..];
      assert n == |line| && b1 == Snprintf(b0, 0, len, line);
      n := http.WriteHeaders(buf, n, len - n);
      assert buf[..] == Http.Written(b1, |line|, len - |line|, text);
      WholeMessage(b0, len, line, text);
    }

    /** `ezcfg_igrs_write_message`: -1 without a current type or when that type has
        no writer; otherwise the writer's result, which lays the whole message out
        at the start of `buf`. */
    method WriteMessage(buf: array<char>, len: nat) returns (n: int)
      requires Valid() && 0 < len <= buf.Length
      requires Message().Some? ==> (|http.RequestLine()| < len
        && (|http.headers| > 0 ==> |Http.HeadersText(http.headers, |http.headers| - 1)| <= len - |http.RequestLine()|))
      modifies buf
      ensures Message().None? ==> n == -1 && buf[..] == old(buf[..])
      ensures Message().Some? ==> (n == |Http.HeadersText(http.headers, |http.headers|)|
        && buf[..] == Snprintf(old(buf[..]), 0, len, Message().value))
    {
      if messageTypeIndex == 0 {
        return -1;
      }
      var op := messageTypeOps[messageTypeIndex];
      if op.writer.None? {
        return -1;
      }
      match op.writer.value
      case CreateSession =>
        n := WriteCreateSessionRequest(buf, len);
    }
  }

  /** `ezcfg_igrs_new`: None when the object, its HTTP message or its SOAP message
      cannot be allocated; otherwise an object with the IGRS method table, the
      default message-type table and no current type. */
  method NewIgrs(igrsOk: bool, httpOk: bool, soapOk: bool) returns (r: Option<IgrsMessage>)
    ensures r.Some? <==> igrsOk && httpOk && soapOk
    ensures r.Some? ==> fresh(r.value) && fresh(r.value.http) && r.value.Valid()
    ensures r.Some? ==> (r.value.messageTypeOps == DefaultMessageTypeOps
      && r.value.numMessageTypes == |DefaultMessageTypeOps| - 1 && r.value.messageTypeIndex == 0)
    ensures r.Some? ==> var m := r.value.http;
      m.knownHeaderStrings == Http.DefaultHeaderStrings && m.numKnownHeaders == |Http.DefaultHeaderStrings| - 1
      && m.methodIndex == 0 && m.headers == [] && m.requestUri.None? && m.messageBody.None?
  {
    if !igrsOk || !httpOk {
      return None;
    }
    var http := new Http.HttpMessage();
    if !soapOk {
      return None;
    }
    var igrs := new IgrsMessage(http);
    http.SetMethodStrings(IgrsMethodStrings, |IgrsMethodStrings| - 1);
    var _ := igrs.SetMessageTypeOps(DefaultMessageTypeOps, |DefaultMessageTypeOps| - 1);
    return Some(igrs);
  }

  /** `h` with the headers of the IGRS session part of a CreateSessionRequest behind it. */
  function WithSessionHeaders(h: seq<Http.Header>, s: seq<string>, n: nat): seq<Http.Header>
    requires n < |s|
  {
    h
      + [Http.MakeHeader(s, n, Http.Field("HOST", IgrsHost))]
      + [Http.MakeHeader(s, n, Http.Field("MAN", SessionMan))]
      + [Http.MakeHeader(s, n, Http.Field("01-IGRSVersion", "IGRS/1.0"))]
      + [Http.MakeHeader(s, n, Http.Field("01-IGRSMessageType", "CreateSessionRequest"))]
      + [Http.MakeHeader(s, n, Http.Field("01-TargetDeviceId", DeviceId))]
      + [Http.MakeHeader(s, n, Http.Field("01-SourceDeviceId", DeviceId))]
      + [Http.MakeHeader(s, n, Http.Field("01-SequenceId", "123456"))]
  }

  /** `h` with the headers of the SOAP part of a CreateSessionRequest behind it. */
  function WithSoapHeaders(h: seq<Http.Header>, s: seq<string>, n: nat): seq<Http.Header>
    requires n < |s|
  {
    h
      + [Http.MakeHeader(s, n, Http.Field("Content-type", XmlContentType))]
      + [Http.MakeHeader(s, n, Http.Field("Content-length", "0"))]
      + [Http.MakeHeader(s, n, Http.Field("MAN", SoapMan))]
      + [Http.MakeHeader(s, n, Http.Field("02-SoapAction", CreateSessionAction))]
  }

  /** The builder adds exactly the headers that adding the CreateSessionRequest
      fields one by one adds. */
  lemma CreateSessionHeadersOfFields(h0: seq<Http.Header>, s: seq<string>, n: nat)
    requires n < |s|
    ensures WithSoapHeaders(WithSessionHeaders(h0, s, n), s, n) == h0 + Http.MakeHeaders(s, n, CreateSessionFields)
  {
    var hs := Http.MakeHeaders(s, n, CreateSessionFields);
    var h := WithSoapHeaders(WithSessionHeaders(h0, s, n), s, n);
    forall i | 0 <= i < |CreateSessionFields| ensures hs[i] == h[|h0| + i] {
      Http.MakeHeadersAt(s, n, CreateSessionFields, i);
    }
  }

  /** Writing the request line and then the header text right behind it writes what
      one `snprintf` of the whole message writes. */
  lemma WholeMessage(b: seq<char>, len: nat, line: string, text: string)
    requires |line| < len <= |b|
    ensures Http.Written(Snprintf(b, 0, len, line), |line|, len - |line|, text) == Snprintf(b, 0, len, line + text)
  {
    if text == "" {
      assert line + text == line;
    } else {
      SnprintfThen(b, 0, len, line, text);
    }
  }

  /** The request line a CreateSessionRequest writes parses back, with the IGRS
      method table, to method `M-POST`, URI `/IGRS` and version 1.1. */
  lemma CreateSessionLineRoundTrip()
    ensures Http.ScanRequestLine("M-POST /IGRS HTTP/1.1", IgrsMethodStrings, 1)
      == Http.LineScan(true, Some(1), Some("/IGRS"), Some(1), Some(1))
  {
    assert Decimal(1) == "1";
    assert "M-POST /IGRS HTTP/1.1" == IgrsMethodStrings[1] + " " + "/IGRS" + " HTTP/" + Decimal(1) + "." + Decimal(1);
    Http.RequestLineRoundTrip(IgrsMethodStrings, 1, 1, "/IGRS", 1, 1);
  }
}
