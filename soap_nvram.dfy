/**
 * The NVRAM-over-SOAP request handler of `soap_http_nvram.c`: one response builder
 * per operation and the dispatch on the request URI.  Every builder resets and
 * regrows the SOAP tree: a success element in the nvram namespace, or the SOAP 1.2
 * Fault sub-tree (section 5.4 of SOAP 1.2 Part 1) with an operation-specific reason.
 * It then turns the HTTP message into a `200` response whose body is the XML
 * prologue, a newline and the serialised tree, with a Content-Type and a
 * Content-Length header.
 *
 * The element names, namespaces, fault texts and URIs come from headers that are
 * not part of this model; the constants below stand in for them, and the proofs
 * rely only on their being distinct.
 */
module SoapNvram {
  import opened Wrappers
  import CString
  import Http
  import opened SoapTree
  import opened Nvram

  const Prologue: string := "<?xml version=\"1.0\" encoding=\"utf-8\"?>"

  const EnvelopeTag: string := "env:Envelope"
  const BodyTag: string := "env:Body"
  const EnvelopeNs: Attribute := Attribute("xmlns:env", "http://www.w3.org/2003/05/soap-envelope")
  const FaultTag: string := "env:Fault"
  const CodeTag: string := "env:Code"
  const CodeValueTag: string := "env:Value"
  const ReasonTag: string := "env:Reason"
  const TextTag: string := "env:Text"
  const FaultCode: string := "env:Receiver"

  const NvramNs: Attribute := Attribute("xmlns:nv", "urn:ezcfg:nvram")
  const GetResponseTag: string := "nv:getNvramResponse"
  const SetTag: string := "nv:setNvram"
  const SetResponseTag: string := "nv:setNvramResponse"
  const UnsetResponseTag: string := "nv:unsetNvramResponse"
  const SetMultiTag: string := "nv:setMultiNvram"
  const SetMultiResponseTag: string := "nv:setMultiNvramResponse"
  const ListResponseTag: string := "nv:listNvramResponse"
  const CommitResponseTag: string := "nv:commitNvramResponse"
  const InfoResponseTag: string := "nv:infoNvramResponse"
  const InsertSocketTag: string := "nv:insertSocket"
  const InsertSocketResponseTag: string := "nv:insertSocketResponse"
  const RemoveSocketTag: string := "nv:removeSocket"
  const RemoveSocketResponseTag: string := "nv:removeSocketResponse"
  const NvramTag: string := "nv:nvram"
  const NameTag: string := "nv:name"
  const ValueTag: string := "nv:value"
  const ResultTag: string := "nv:result"

  const ResultOk: string := "OK"
  const ResultError: string := "ERROR"
  const InvalidNameFault: string := "invalid name"
  const InvalidValueFault: string := "invalid value"
  const OperationFailFault: string := "operation fail"

  const GetUri: string := "/ezcfg/nvram/soap-http/getNvram"
  const SetUri: string := "/ezcfg/nvram/soap-http/setNvram"
  const UnsetUri: string := "/ezcfg/nvram/soap-http/unsetNvram"
  const SetMultiUri: string := "/ezcfg/nvram/soap-http/setMultiNvram"
  const ListUri: string := "/ezcfg/nvram/soap-http/listNvram"
  const CommitUri: string := "/ezcfg/nvram/soap-http/commitNvram"
  const InfoUri: string := "/ezcfg/nvram/soap-http/infoNvram"
  const InsertSocketUri: string := "/ezcfg/nvram/soap-http/insertSocket"
  const RemoveSocketUri: string := "/ezcfg/nvram/soap-http/removeSocket"
  const NameQuery: string := "?name="

  const ContentTypeHeader: string := "Content-Type"
  const ContentLengthHeader: string := "Content-Length"
  const ContentType: string := "application/soap+xml; charset=utf-8"

  /** `sizeof(char *)` on the 32-bit targets the daemon is built for. */
  const PointerSize: nat := 4

  /* ---------------------------------------------------------------- trees */

  /** The envelope with its namespace attribute, and the body. */
  const Prelude: seq<Element> := [Element(-1, EnvelopeTag, None, [EnvelopeNs]), Element(0, BodyTag, None, [])]

  function Leaf(parent: int, tag: string, text: string): Element {
    Element(parent, tag, Some(text), [])
  }

  /** The prelude and the operation's response element, element 2. */
  function Opened(op: string): seq<Element> {
    Prelude + [Element(1, op, None, [NvramNs])]
  }

  /** A response that carries one Result. */
  function ResultTree(op: string, result: string): seq<Element> {
    Opened(op) + [Leaf(2, ResultTag, result)]
  }

  /** The getNvram response: the name, then its value. */
  function GetTree(name: string, value: string): seq<Element> {
    Opened(GetResponseTag) + [Leaf(2, NameTag, name), Leaf(2, ValueTag, value)]
  }

  /** The SOAP 1.2 Fault: Fault > Code > Value and Fault > Reason > Text. */
  function FaultTree(reason: string): seq<Element> {
    Prelude + [Element(1, FaultTag, None, []), Element(2, CodeTag, None, []), Leaf(3, CodeValueTag, FaultCode),
               Element(2, ReasonTag, None, []), Leaf(5, TextTag, reason)]
  }

  /** One `nvram` row under the response element, its node at index `at`. */
  function Row(at: nat, p: Pair): seq<Element> {
    [Element(2, NvramTag, None, []), Leaf(at, NameTag, p.name), Leaf(at, ValueTag, p.value)]
  }

  /** The rows of `ps` in order, the first node at index `at`. */
  function Rows(ps: seq<Pair>, at: nat): (es: seq<Element>)
    ensures |es| == 3 * |ps|
  {
    if ps == [] then [] else Rows(ps[..|ps| - 1], at) + Row(at + 3 * (|ps| - 1), ps[|ps| - 1])
  }

  /** A response that carries one row per pair. */
  function RowsTree(op: string, ps: seq<Pair>): (es: seq<Element>)
    ensures |es| == 3 + 3 * |ps|
  {
    Opened(op) + Rows(ps, 3)
  }

  function Verdict(ok: bool): string {
    if ok then ResultOk else ResultError
  }

  /* ------------------------------------------------------------- replies */

  /** getNvram: the value when the store holds the name and the call succeeds, a
      Fault otherwise. */
  function GetReply(m: map<string, string>, ok: bool, name: string): seq<Element> {
    if ok && name in m then GetTree(name, m[name]) else FaultTree(InvalidNameFault)
  }

  /** setNvram: the store's verdict when both name and value are given, a Fault
      otherwise. */
  function SetReply(name: Option<string>, value: Option<string>, ok: bool): seq<Element> {
    if name.Some? && value.Some? then ResultTree(SetResponseTag, Verdict(ok)) else FaultTree(InvalidValueFault)
  }

  /** unsetNvram: OK whenever the preceding get found the name, whatever the unset
      itself reports. */
  function UnsetReply(m: map<string, string>, ok: bool, name: string): seq<Element> {
    if ok && name in m then ResultTree(UnsetResponseTag, ResultOk) else FaultTree(InvalidNameFault)
  }

  /** setMultiNvram, insertSocket and removeSocket: the verdict when a list was
      collected, a Fault otherwise. */
  function ListVerdictReply(op: string, list: Option<seq<Pair>>, ok: bool): seq<Element> {
    if list.Some? then ResultTree(op, Verdict(ok)) else FaultTree(InvalidValueFault)
  }

  function ListReply(ok: bool, listed: seq<Pair>): seq<Element> {
    if ok then RowsTree(ListResponseTag, listed) else FaultTree(OperationFailFault)
  }

  function CommitReply(ok: bool): seq<Element> {
    if ok then ResultTree(CommitResponseTag, ResultOk) else FaultTree(OperationFailFault)
  }

  /** The three rows of storage slot `n`. */
  function SlotRows(n: nat, s: Storage): seq<Pair> {
    var slot := "storage[" + CString.Decimal(n) + "]";
    [Pair(slot + ".backend", s.backend), Pair(slot + ".coding", s.coding), Pair(slot + ".path", s.path)]
  }

  function StorageRows(st: seq<Storage>): (ps: seq<Pair>)
    ensures |ps| == 3 * |st|
  {
    if st == [] then [] else StorageRows(st[..|st| - 1]) + SlotRows(|st| - 1, st[|st| - 1])
  }

  /** infoNvram: version and the three space figures, then three rows per storage slot. */
  function InfoRows(version: string, total: int, free: int, used: int, st: seq<Storage>): seq<Pair> {
    [Pair("version", version), Pair("total_space", CString.SignedDecimal(total)),
     Pair("free_space", CString.SignedDecimal(free)), Pair("used_space", CString.SignedDecimal(used))]
    + StorageRows(st)
  }

  /* ------------------------------------------------------------- set-multi */

  /* -------------------------------------------------------- request lists */

  /** A pair an `nvram` node of a request carries: its `name` child's text, then the
      text of the first `value` child after it.  None when either child is missing,
      and also when one of them has no text: its content is then NULL, and the link
      list is taken to refuse a NULL name or value. */
  function NodePair(es: seq<Element>, node: int): Option<Pair> {
    var ni := FindChild(es, node, -1, NameTag);
    if ni < 2 then None
    else
      var vi := FindChild(es, node, ni, ValueTag);
      if vi < 2 then None
      else
        var name := Content(es, ni);
        var value := Content(es, vi);
        if name.None? || value.None? then None else Some(Pair(name.value, value.value))
  }

  /** The list the dispatch collects from the `nvram` children of element `op`,
      starting at `node`: a pair per node while nodes are found; None once a node
      lacks a name or a value, or an insertion fails because the list already holds
      `cap` pairs.  With `rescan` the next node is searched from the start, as the
      setMultiNvram branch does, rather than after the current node. */
  function Gather(es: seq<Element>, op: int, node: int, rescan: bool, cap: nat, acc: seq<Pair>): Option<seq<Pair>>
    decreases if |acc| < cap then cap - |acc| else 0
  {
    if node <= 0 then Some(acc)
    else
      var p := NodePair(es, node);
      if p.None? || |acc| >= cap then None
      else Gather(es, op, FindChild(es, op, if rescan then -1 else node, NvramTag), rescan, cap, acc + [p.value])
  }

  /** The list collected from the request element tagged `tag` under the body. */
  function Collected(es: seq<Element>, tag: string, rescan: bool, cap: nat): Option<seq<Pair>> {
    var op := FindChild(es, BodyIndex(es), -1, tag);
    Gather(es, op, FindChild(es, op, -1, NvramTag), rescan, cap, [])
  }

  /** The name and value a setNvram request carries (either may be missing). */
  function SetFields(es: seq<Element>): (Option<string>, Option<string>) {
    var op := FindChild(es, BodyIndex(es), -1, SetTag);
    var ni := FindChild(es, op, -1, NameTag);
    if ni < 2 then (None, None)
    else
      var vi := FindChild(es, op, ni, ValueTag);
      (Content(es, ni), if vi < 2 then None else Content(es, vi))
  }

  /* --------------------------------------------------------------- routes */

  datatype Route =
    | GetRoute(name: string)
    | SetRoute
    | UnsetRoute(name: string)
    | SetMultiRoute
    | ListRoute
    | CommitRoute
    | InfoRoute
    | InsertSocketRoute
    | RemoveSocketRoute
    | Unhandled

  /** The unsetNvram branch reads the name six characters past the URI prefix
      without looking at them: a shorter URI would be read past its end. */
  predicate UnsetNameInBounds(uri: string) {
    IsPrefixOf(UnsetUri, uri) ==> |uri| >= |UnsetUri| + |NameQuery|
  }

  predicate IsPrefixOf(p: string, s: string) {
    CString.IsPrefix(p, s)
  }

  /** The branch of the dispatch a request URI takes, checked in source order. */
  function RouteOf(uri: string): Route
    requires UnsetNameInBounds(uri)
  {
    if IsPrefixOf(GetUri, uri) then
      var rest := uri[|GetUri|..];
      if IsPrefixOf(NameQuery, rest) then GetRoute(rest[|NameQuery|..]) else Unhandled
    else if uri == SetUri then SetRoute
    else if IsPrefixOf(UnsetUri, uri) then UnsetRoute(uri[|UnsetUri| + |NameQuery|..])
    else if uri == SetMultiUri then SetMultiRoute
    else if uri == ListUri then ListRoute
    else if uri == CommitUri then CommitRoute
    else if uri == InfoUri then InfoRoute
    else if uri == InsertSocketUri then InsertSocketRoute
    else if uri == RemoveSocketUri then RemoveSocketRoute
    else Unhandled
  }

  /* ------------------------------------------------------------- HTTP side */

  function Body(render: seq<Element> -> string, es: seq<Element>): string {
    Prologue + "\n" + render(es)
  }

  /** The room the Content-Length is printed into: `sizeof(msg)`, the size of a
      pointer, in the getNvram success path, and the message buffer's size
      (`body + 1`) everywhere else. */
  function LengthRoom(pointerSized: bool, n: nat): nat {
    if pointerSized then PointerSize else n + 1
  }

  function SoapHeaders(strings: seq<string>, n: nat, length: string): seq<Http.Header>
    requires n < |strings|
  {
    [Http.MakeHeader(strings, n, Http.Field(ContentTypeHeader, ContentType)),
     Http.MakeHeader(strings, n, Http.Field(ContentLengthHeader, length))]
  }

  /** `struct ezcfg_soap_http`: the HTTP message and the SOAP tree of one connection. */
  class SoapHttp {
    const http: Http.HttpMessage
    const soap: Tree

    ghost predicate Valid()
      reads this, http, soap
    {
      http.Valid() && soap.Valid()
    }

    constructor (http: Http.HttpMessage, soap: Tree)
      requires http.Valid() && soap.Valid()
      ensures Valid() && this.http == http && this.soap == soap
    {
      this.http := http;
      this.soap := soap;
    }

    /** The HTTP message holds the response for the current tree: status 200 even for
        a Fault, the body, then Content-Type and Content-Length in that order. */
    ghost predicate Answered(pointerSized: bool)
      reads this, http, soap
    {
      var body := Body(soap.render, soap.elements);
      http.numKnownHeaders < |http.knownHeaderStrings|
      && http.statusCode == 200 && http.isResponse && http.requestUri.None?
      && http.messageBody == Some(body) && http.messageBodyLen == |body|
      && http.headers == SoapHeaders(http.knownHeaderStrings, http.numKnownHeaders,
                                     CString.Truncated(CString.Decimal(|body|), LengthRoom(pointerSized, |body|)))
    }

    /** The tail every builder shares.  `msgOk` is false when the tree reports a
        negative length or the message buffer cannot be allocated: then the HTTP
        message is left alone and the result is -1. */
    method Respond(msgOk: bool, pointerSized: bool) returns (rc: int)
      requires Valid()
      modifies http`headers, http`requestUri, http`messageBody, http`messageBodyLen, http`statusCode, http`isResponse
      ensures Valid()
      ensures msgOk ==> rc == 0 && Answered(pointerSized)
      ensures !msgOk ==> rc == -1 && unchanged(http)
    {
      if !msgOk {
        return -1;
      }
      var body := Prologue + "\n" + soap.render(soap.elements);
      SetResponseBody(body);
      AddSoapHeaders(|body| + 1, pointerSized);
      rc := 0;
    }

    /** A reset HTTP message turned into a 200 response carrying `body`. */
    method SetResponseBody(body: string)
      requires Valid()
      modifies http`headers, http`requestUri, http`messageBody, http`messageBodyLen, http`statusCode, http`isResponse
      ensures Valid() && http.headers == []
      ensures http.statusCode == 200 && http.isResponse && http.requestUri.None?
      ensures http.messageBody == Some(body) && http.messageBodyLen == |body|
    {
      http.ResetAttributes();
      http.SetStatusCode(200);
      http.SetStateResponse();
      var stored := http.SetMessageBody(body, |body|);
      assert body[..|body|] == body;
    }

    /** Content-Type, then the body length printed into `room` characters, both
        through the message buffer of `msgLen` characters. */
    method AddSoapHeaders(msgLen: nat, pointerSized: bool)
      requires Valid() && http.headers == [] && msgLen == http.messageBodyLen + 1
      requires msgLen > |Prologue| + 1
      modifies http`headers
      ensures Valid()
      ensures http.headers == SoapHeaders(http.knownHeaderStrings, http.numKnownHeaders,
                                          CString.Truncated(CString.Decimal(http.messageBodyLen), LengthRoom(pointerSized, http.messageBodyLen)))
    {
      assert |ContentType| < msgLen;
      http.AddHeader(ContentTypeHeader, CString.Truncated(ContentType, msgLen));
      var room := if pointerSized then PointerSize else msgLen;
      http.AddHeader(ContentLengthHeader, CString.Truncated(CString.Decimal(http.messageBodyLen), room));
    }

    /** Reset the tree; SOAP 1.2; the envelope with its namespace; the body. */
    method BeginEnvelope() returns (body: int)
      requires Valid()
      modifies soap`elements, soap`versionMajor, soap`versionMinor
      ensures Valid() && soap.elements == Prelude && body == 1
      ensures soap.versionMajor == 1 && soap.versionMinor == 2
    {
      soap.Reset();
      soap.SetVersion(1, 2);
      soap.SetEnvelope(EnvelopeTag);
      soap.AddAttribute(0, EnvelopeNs.name, EnvelopeNs.value);
      assert [] + [EnvelopeNs] == [EnvelopeNs];
      assert soap.elements[0] == Element(-1, EnvelopeTag, None, [EnvelopeNs]);
      body := soap.SetBody(BodyTag);
    }

    method BuildFault(reason: string)
      requires Valid()
      modifies soap`elements, soap`versionMajor, soap`versionMinor
      ensures Valid() && soap.elements == FaultTree(reason)
    {
      var body := BeginEnvelope();
      var fault := soap.AddBodyChild(body, FaultTag, None);
      var code := soap.AddBodyChild(fault, CodeTag, None);
      var codeValue := soap.AddBodyChild(code, CodeValueTag, Some(FaultCode));
      var reasonIndex := soap.AddBodyChild(fault, ReasonTag, None);
      var text := soap.AddBodyChild(reasonIndex, TextTag, Some(reason));
    }

    /** The prelude and the response element `op`, with the nvram namespace. */
    method BuildOpened(op: string) returns (index: int)
      requires Valid()
      modifies soap`elements, soap`versionMajor, soap`versionMinor
      ensures Valid() && soap.elements == Opened(op) && index == 2
    {
      var body := BeginEnvelope();
      index := soap.AddBodyChild(body, op, None);
      soap.AddAttribute(index, NvramNs.name, NvramNs.value);
      assert [] + [NvramNs] == [NvramNs];
      assert soap.elements[2] == Element(1, op, None, [NvramNs]);
      assert soap.elements == Prelude + [Element(1, op, None, [NvramNs])];
    }

    method BuildResult(op: string, result: string)
      requires Valid()
      modifies soap`elements, soap`versionMajor, soap`versionMinor
      ensures Valid() && soap.elements == ResultTree(op, result)
    {
      var index := BuildOpened(op);
      var child := soap.AddBodyChild(index, ResultTag, Some(result));
    }

    /** Add row `i` of `all` under the response element; on a full tree, report
        false with the tree holding as much of the whole response as fits. */
    method AppendRow(ghost op: string, ghost all: seq<Pair>, i: nat, p: Pair) returns (ok: bool)
      requires Valid() && i < |all| && all[i] == p
      requires soap.elements == RowsTree(op, all[..i])
      modifies soap`elements
      ensures Valid()
      ensures ok ==> soap.elements == RowsTree(op, all[..i + 1])
      ensures !ok ==> |RowsTree(op, all)| > soap.capacity && soap.elements == RowsTree(op, all)[..soap.capacity]
    {
      ghost var before := soap.elements;
      ghost var full := RowsTree(op, all[..i + 1]);
      RowsTreeSnoc(op, all, i);
      RowsTreePrefix(op, all, i + 1);
      assert full == before + Row(|before|, p);
      var node := soap.AddBodyChild(2, NvramTag, None);
      if node < 0 {
        assert soap.elements == full[..soap.capacity];
        return false;
      }
      var name := soap.AddBodyChild(node, NameTag, Some(p.name));
      if name < 0 {
        assert soap.elements == full[..soap.capacity];
        return false;
      }
      var value := soap.AddBodyChild(node, ValueTag, Some(p.value));
      if value < 0 {
        assert soap.elements == full[..soap.capacity];
        return false;
      }
      return true;
    }

    /** `build_nvram_get_response`. */
    method BuildGetResponse(store: Store, name: string, msgOk: bool) returns (rc: int)
      requires Valid()
      modifies soap`elements, soap`versionMajor, soap`versionMinor, store`script
      modifies http`headers, http`requestUri, http`messageBody, http`messageBodyLen, http`statusCode, http`isResponse
      ensures Valid() && store.script == Rest(old(store.script))
      ensures soap.elements == GetReply(store.entries, Succeeds(old(store.script)), name)
      ensures msgOk ==> rc == 0 && Answered(Succeeds(old(store.script)) && name in store.entries)
      ensures !msgOk ==> rc == -1 && unchanged(http)
    {
      var ret, value := store.GetEntryValue(name);
      if value.Some? {
        var index := BuildOpened(GetResponseTag);
        var nameIndex := soap.AddBodyChild(index, NameTag, Some(name));
        var valueIndex := soap.AddBodyChild(index, ValueTag, value);
        rc := Respond(msgOk, true);
      } else {
        BuildFault(InvalidNameFault);
        rc := Respond(msgOk, false);
      }
    }

    /** `build_nvram_set_response`: `name` and `value` are NULL when the request
        lacks them. */
    method BuildSetResponse(store: Store, name: Option<string>, value: Option<string>, msgOk: bool) returns (rc: int)
      requires Valid()
      modifies soap`elements, soap`versionMajor, soap`versionMinor, store
      modifies http`headers, http`requestUri, http`messageBody, http`messageBodyLen, http`statusCode, http`isResponse
      ensures Valid()
      ensures name.Some? && value.Some? ==>
        store.script == Rest(old(store.script))
        && store.entries == (if Succeeds(old(store.script)) then old(store.entries)[name.value := value.value] else old(store.entries))
      ensures !(name.Some? && value.Some?) ==> unchanged(store)
      ensures soap.elements == SetReply(name, value, Succeeds(old(store.script)))
      ensures msgOk ==> rc == 0 && Answered(false)
      ensures !msgOk ==> rc == -1 && unchanged(http)
    {
      var result: Option<string> := None;
      if name.Some? && value.Some? {
        var ok := store.SetEntry(name.value, value.value);
        result := Some(Verdict(ok));
      }
      if result.Some? {
        BuildResult(SetResponseTag, result.value);
      } else {
        BuildFault(InvalidValueFault);
      }
      rc := Respond(msgOk, false);
    }

    /** `build_nvram_unset_response`: the unset runs only when the get found the
        name, and its own outcome is not looked at. */
    method BuildUnsetResponse(store: Store, name: string, msgOk: bool) returns (rc: int)
      requires Valid()
      modifies soap`elements, soap`versionMajor, soap`versionMinor, store
      modifies http`headers, http`requestUri, http`messageBody, http`messageBodyLen, http`statusCode, http`isResponse
      ensures Valid()
      ensures var found := Succeeds(old(store.script)) && name in old(store.entries);
        (found ==> store.script == Rest(Rest(old(store.script)))
                   && store.entries == (if Succeeds(Rest(old(store.script))) then old(store.entries) - {name} else old(store.entries)))
        && (!found ==> store.script == Rest(old(store.script)) && store.entries == old(store.entries))
      ensures soap.elements == UnsetReply(old(store.entries), Succeeds(old(store.script)), name)
      ensures msgOk ==> rc == 0 && Answered(false)
      ensures !msgOk ==> rc == -1 && unchanged(http)
    {
      var ret, value := store.GetEntryValue(name);
      if value.Some? {
        var unset := store.UnsetEntry(name);
        BuildResult(UnsetResponseTag, ResultOk);
      } else {
        BuildFault(InvalidNameFault);
      }
      rc := Respond(msgOk, false);
    }

    /** `build_nvram_set_multi_response`: the sets run in list order and stop at the
        first failure; the ones before it stay applied. */
    method BuildSetMultiResponse(store: Store, list: Option<seq<Pair>>, msgOk: bool) returns (rc: int)
      requires Valid()
      modifies soap`elements, soap`versionMajor, soap`versionMinor, store
      modifies http`headers, http`requestUri, http`messageBody, http`messageBodyLen, http`statusCode, http`isResponse
      ensures Valid()
      ensures list.None? ==> unchanged(store) && soap.elements == FaultTree(InvalidValueFault)
      ensures list.Some? ==>
        var run := SetRun(old(store.entries), old(store.script), list.value);
        store.entries == run.entries && store.script == run.script
        && soap.elements == ResultTree(SetMultiResponseTag, Verdict(run.ok))
      ensures msgOk ==> rc == 0 && Answered(false)
      ensures !msgOk ==> rc == -1 && unchanged(http)
    {
      if list.Some? {
        var ps := list.value;
        var ok := true;
        var i := 0;
        while i < |ps| && ok
          invariant 0 <= i <= |ps|
          invariant ok ==> SetRun(store.entries, store.script, ps[i..]) == SetRun(old(store.entries), old(store.script), ps)
          invariant !ok ==> Run(store.entries, store.script, false) == SetRun(old(store.entries), old(store.script), ps)
          modifies store
          decreases |ps| - i + (if ok then 1 else 0)
        {
          assert ps[i..][1..] == ps[i + 1..];
          ok := store.SetEntry(ps[i].name, ps[i].value);
          if ok {
            i := i + 1;
          }
        }
        assert ok ==> ps[i..] == [];
        BuildResult(SetMultiResponseTag, Verdict(ok));
      } else {
        BuildFault(InvalidValueFault);
      }
      rc := Respond(msgOk, false);
    }

    /** `build_nvram_list_response`: one row per entry, in the order the store lists
        them.  When the tree fills up the response is abandoned: nothing is sent and
        the result is still 0. */
    method BuildListResponse(store: Store, msgOk: bool) returns (rc: int, ghost listed: seq<Pair>)
      requires Valid()
      modifies soap`elements, soap`versionMajor, soap`versionMinor, store`script
      modifies http`headers, http`requestUri, http`messageBody, http`messageBodyLen, http`statusCode, http`isResponse
      ensures Valid() && store.script == Rest(old(store.script))
      ensures Succeeds(old(store.script)) ==> Lists(store.entries, listed)
      ensures var full := ListReply(Succeeds(old(store.script)), listed);
        if |full| <= soap.capacity then
          soap.elements == full && (msgOk ==> rc == 0 && Answered(false)) && (!msgOk ==> rc == -1 && unchanged(http))
        else
          soap.elements == full[..soap.capacity] && rc == 0 && unchanged(http)
    {
      var ok, list := store.GetAllEntriesList();
      listed := list;
      if ok {
        var built := BuildRows(ListResponseTag, list);
        if !built {
          return 0, list;
        }
        rc := Respond(msgOk, false);
      } else {
        BuildFault(OperationFailFault);
        rc := Respond(msgOk, false);
      }
    }

    /** The response element `op` and one row per entry of `list`, as the list
        builder's loop adds them; false once the tree is full. */
    method BuildRows(op: string, list: seq<Pair>) returns (ok: bool)
      requires Valid()
      modifies soap`elements, soap`versionMajor, soap`versionMinor
      ensures Valid()
      ensures ok ==> soap.elements == RowsTree(op, list)
      ensures !ok ==> |RowsTree(op, list)| > soap.capacity && soap.elements == RowsTree(op, list)[..soap.capacity]
    {
      var index := BuildOpened(op);
      assert list[..0] == [];
      assert Opened(op) + [] == Opened(op);
      var i := 0;
      while i < |list|
        invariant 0 <= i <= |list| && Valid()
        invariant soap.elements == RowsTree(op, list[..i])
        modifies soap`elements
      {
        ok := AppendRow(op, list, i, list[i]);
        if !ok {
          return false;
        }
        i := i + 1;
      }
      assert list[..i] == list;
      return true;
    }

    /** `build_nvram_commit_response`. */
    method BuildCommitResponse(store: Store, msgOk: bool) returns (rc: int)
      requires Valid()
      modifies soap`elements, soap`versionMajor, soap`versionMinor, store`script
      modifies http`headers, http`requestUri, http`messageBody, http`messageBodyLen, http`statusCode, http`isResponse
      ensures Valid() && store.script == Rest(old(store.script))
      ensures soap.elements == CommitReply(Succeeds(old(store.script)))
      ensures msgOk ==> rc == 0 && Answered(false)
      ensures !msgOk ==> rc == -1 && unchanged(http)
    {
      var ok := store.Commit();
      if ok {
        BuildResult(CommitResponseTag, ResultOk);
      } else {
        BuildFault(OperationFailFault);
      }
      rc := Respond(msgOk, false);
    }

    /** `build_nvram_info_response`: the four fixed rows, then three rows per storage
        slot; as for the list, a tree that fills up abandons the response with 0. */
    method BuildInfoResponse(store: Store, msgOk: bool) returns (rc: int)
      requires Valid()
      modifies soap`elements, soap`versionMajor, soap`versionMinor
      modifies http`headers, http`requestUri, http`messageBody, http`messageBodyLen, http`statusCode, http`isResponse
      ensures Valid()
      ensures var full := RowsTree(InfoResponseTag, InfoRows(store.version, store.totalSpace, store.freeSpace, store.usedSpace, store.storage));
        if |full| <= soap.capacity then
          soap.elements == full && (msgOk ==> rc == 0 && Answered(false)) && (!msgOk ==> rc == -1 && unchanged(http))
        else
          soap.elements == full[..soap.capacity] && rc == 0 && unchanged(http)
    {
      var built := BuildInfoRows(store);
      if !built {
        return 0;
      }
      rc := Respond(msgOk, false);
    }

    /** The rows of the info response, in the order the info builder adds them;
        false once the tree is full. */
    method BuildInfoRows(store: Store) returns (ok: bool)
      requires Valid()
      modifies soap`elements, soap`versionMajor, soap`versionMinor
      ensures Valid()
      ensures var full := RowsTree(InfoResponseTag, InfoRows(store.version, store.totalSpace, store.freeSpace, store.usedSpace, store.storage));
        (ok ==> soap.elements == full)
        && (!ok ==> |full| > soap.capacity && soap.elements == full[..soap.capacity])
    {
      ghost var rows := InfoRows(store.version, store.totalSpace, store.freeSpace, store.usedSpace, store.storage);
      var index := BuildOpened(InfoResponseTag);
      assert rows[..0] == [];
      assert Opened(InfoResponseTag) + [] == Opened(InfoResponseTag);
      ok := AppendSpaceRows(store, rows);
      if !ok {
        return false;
      }
      var n := 0;
      while n < |store.storage|
        invariant 0 <= n <= |store.storage| && Valid()
        invariant soap.elements == RowsTree(InfoResponseTag, rows[..4 + 3 * n])
        modifies soap`elements
      {
        ok := AppendSlotRows(store, rows, n);
        if !ok {
          return false;
        }
        n := n + 1;
      }
      assert rows[..4 + 3 * n] == rows;
      return true;
    }

    /** The version row and the three space rows. */
    method AppendSpaceRows(store: Store, ghost rows: seq<Pair>) returns (ok: bool)
      requires Valid() && rows == InfoRows(store.version, store.totalSpace, store.freeSpace, store.usedSpace, store.storage)
      requires soap.elements == RowsTree(InfoResponseTag, rows[..0])
      modifies soap`elements
      ensures Valid()
      ensures ok ==> soap.elements == RowsTree(InfoResponseTag, rows[..4])
      ensures !ok ==> |RowsTree(InfoResponseTag, rows)| > soap.capacity && soap.elements == RowsTree(InfoResponseTag, rows)[..soap.capacity]
    {
      ok := AppendRow(InfoResponseTag, rows, 0, Pair("version", store.version));
      if !ok {
        return false;
      }
      ok := AppendRow(InfoResponseTag, rows, 1, Pair("total_space", CString.SignedDecimal(store.totalSpace)));
      if !ok {
        return false;
      }
      ok := AppendRow(InfoResponseTag, rows, 2, Pair("free_space", CString.SignedDecimal(store.freeSpace)));
      if !ok {
        return false;
      }
      ok := AppendRow(InfoResponseTag, rows, 3, Pair("used_space", CString.SignedDecimal(store.usedSpace)));
    }

    /** The backend, coding and path rows of storage slot `n`. */
    method AppendSlotRows(store: Store, ghost rows: seq<Pair>, n: nat) returns (ok: bool)
      requires Valid() && n < |store.storage|
      requires rows == InfoRows(store.version, store.totalSpace, store.freeSpace, store.usedSpace, store.storage)
      requires soap.elements == RowsTree(InfoResponseTag, rows[..4 + 3 * n])
      modifies soap`elements
      ensures Valid()
      ensures ok ==> soap.elements == RowsTree(InfoResponseTag, rows[..4 + 3 * (n + 1)])
      ensures !ok ==> |RowsTree(InfoResponseTag, rows)| > soap.capacity && soap.elements == RowsTree(InfoResponseTag, rows)[..soap.capacity]
    {
      InfoSlotRows(store.version, store.totalSpace, store.freeSpace, store.usedSpace, store.storage, n);
      var slot := "storage[" + CString.Decimal(n) + "]";
      ok := AppendRow(InfoResponseTag, rows, 4 + 3 * n, Pair(slot + ".backend", store.storage[n].backend));
      if !ok {
        return false;
      }
      ok := AppendRow(InfoResponseTag, rows, 5 + 3 * n, Pair(slot + ".coding", store.storage[n].coding));
      if !ok {
        return false;
      }
      ok := AppendRow(InfoResponseTag, rows, 6 + 3 * n, Pair(slot + ".path", store.storage[n].path));
    }

    /** `build_nvram_insert_socket_response`: the store's verdict on the collected
        list, or a Fault when none was collected. */
    method BuildInsertSocketResponse(store: Store, list: Option<seq<Pair>>, msgOk: bool) returns (rc: int)
      requires Valid()
      modifies soap`elements, soap`versionMajor, soap`versionMinor, store`script
      modifies http`headers, http`requestUri, http`messageBody, http`messageBodyLen, http`statusCode, http`isResponse
      ensures Valid()
      ensures store.script == if list.Some? then Rest(old(store.script)) else old(store.script)
      ensures soap.elements == ListVerdictReply(InsertSocketResponseTag, list, Succeeds(old(store.script)))
      ensures msgOk ==> rc == 0 && Answered(false)
      ensures !msgOk ==> rc == -1 && unchanged(http)
    {
      var result: Option<string> := None;
      if list.Some? {
        var ok := store.InsertSocket(list.value);
        result := Some(Verdict(ok));
      }
      if result.Some? {
        BuildResult(InsertSocketResponseTag, result.value);
      } else {
        BuildFault(InvalidValueFault);
      }
      rc := Respond(msgOk, false);
    }

    /** `build_nvram_remove_socket_response`. */
    method BuildRemoveSocketResponse(store: Store, list: Option<seq<Pair>>, msgOk: bool) returns (rc: int)
      requires Valid()
      modifies soap`elements, soap`versionMajor, soap`versionMinor, store`script
      modifies http`headers, http`requestUri, http`messageBody, http`messageBodyLen, http`statusCode, http`isResponse
      ensures Valid()
      ensures store.script == if list.Some? then Rest(old(store.script)) else old(store.script)
      ensures soap.elements == ListVerdictReply(RemoveSocketResponseTag, list, Succeeds(old(store.script)))
      ensures msgOk ==> rc == 0 && Answered(false)
      ensures !msgOk ==> rc == -1 && unchanged(http)
    {
      var result: Option<string> := None;
      if list.Some? {
        var ok := store.RemoveSocket(list.value);
        result := Some(Verdict(ok));
      }
      if result.Some? {
        BuildResult(RemoveSocketResponseTag, result.value);
      } else {
        BuildFault(InvalidValueFault);
      }
      rc := Respond(msgOk, false);
    }

    /** The list-building loop of the setMultiNvram, insertSocket and removeSocket
        branches over the request tree; `cap` is how many pairs the link list takes
        before an insertion fails. */
    method CollectList(tag: string, rescan: bool, cap: nat) returns (list: Option<seq<Pair>>)
      requires Valid()
      ensures list == Collected(soap.elements, tag, rescan, cap)
    {
      var es := soap.elements;
      var op := FindChild(es, BodyIndex(es), -1, tag);
      var node := FindChild(es, op, -1, NvramTag);
      var acc: seq<Pair> := [];
      while node > 0
        invariant Gather(es, op, node, rescan, cap, acc) == Collected(es, tag, rescan, cap)
        decreases if |acc| < cap then cap - |acc| else 0
      {
        var nameIndex := FindChild(es, node, -1, NameTag);
        if nameIndex < 2 {
          return None;
        }
        var name := Content(es, nameIndex);
        var valueIndex := FindChild(es, node, nameIndex, ValueTag);
        if valueIndex < 2 {
          return None;
        }
        var value := Content(es, valueIndex);
        if name.None? || value.None? || |acc| >= cap {
          return None;
        }
        acc := acc + [Pair(name.value, value.value)];
        node := FindChild(es, op, if rescan then -1 else node, NvramTag);
      }
      return Some(acc);
    }

    /** `ezcfg_soap_http_handle_nvram_request`: route on the request URI, read what
        the request tree carries, and run the builder; -1 for any other URI.  Each
        route's tree, store effect and HTTP answer are its builder's; `listed` is the
        list the store hands the listNvram branch. */
    method HandleNvramRequest(store: Store, msgOk: bool, listCap: nat) returns (ret: int, ghost listed: seq<Pair>)
      requires Valid() && http.requestUri.Some? && UnsetNameInBounds(http.requestUri.value)
      modifies soap`elements, soap`versionMajor, soap`versionMinor, store
      modifies http`headers, http`requestUri, http`messageBody, http`messageBodyLen, http`statusCode, http`isResponse
      ensures Valid()
      ensures var route := RouteOf(old(http.requestUri.value));
        route.Unhandled? ==> ret == -1 && unchanged(http) && unchanged(soap) && unchanged(store)
      ensures var route := RouteOf(old(http.requestUri.value));
        route.GetRoute? || route.SetRoute? || route.UnsetRoute? || route.CommitRoute? ==>
          EntryAnswered(route, store, old(store.entries), old(store.script), old(soap.elements), msgOk, ret)
          && (!msgOk ==> unchanged(http))
      ensures var route := RouteOf(old(http.requestUri.value));
        route.SetMultiRoute? || route.InsertSocketRoute? || route.RemoveSocketRoute? ==>
          ListAnswered(route, store, old(store.entries), old(store.script), old(soap.elements), listCap, msgOk, ret)
          && (!msgOk ==> unchanged(http))
      ensures var route := RouteOf(old(http.requestUri.value));
        route.ListRoute? || route.InfoRoute? ==>
          ReportAnswered(route, store, old(store.entries), old(store.script), listed, msgOk, ret)
          && (!msgOk || |ReportTree(route, store, old(store.script), listed)| > soap.capacity ==> unchanged(http))
    {
      var route := RouteOf(http.requestUri.value);
      listed := [];
      if route.GetRoute? || route.SetRoute? || route.UnsetRoute? || route.CommitRoute? {
        ret := HandleEntryRequest(store, route, msgOk);
      } else if route.SetMultiRoute? || route.InsertSocketRoute? || route.RemoveSocketRoute? {
        ret := HandleListRequest(store, route, msgOk, listCap);
      } else if route.ListRoute? || route.InfoRoute? {
        ret, listed := HandleReportRequest(store, route, msgOk);
      } else {
        ret := -1;
      }
    }

    /** What the get, set, unset and commit branches leave behind, from the store
        `m`/`script` and the request tree `es` they started with: the builder's
        tree, its store effect and the answer when the message could be built. */
    ghost predicate EntryAnswered(route: Route, store: Store, m: map<string, string>, script: seq<bool>, es: seq<Element>, msgOk: bool, ret: int)
      reads this, http, soap, store
    {
      && ret == (if msgOk then 0 else -1)
      && (msgOk ==> Answered(route.GetRoute? && Succeeds(script) && route.name in m))
      && match route
         case GetRoute(name) => GetDone(store, m, script, name)
         case SetRoute => SetDone(store, m, script, es)
         case UnsetRoute(name) => UnsetDone(store, m, script, name)
         case CommitRoute => CommitDone(store, m, script)
         case _ => true
    }

    ghost predicate GetDone(store: Store, m: map<string, string>, script: seq<bool>, name: string)
      reads soap, store
    {
      soap.elements == GetReply(m, Succeeds(script), name) && store.entries == m && store.script == Rest(script)
    }

    ghost predicate SetDone(store: Store, m: map<string, string>, script: seq<bool>, es: seq<Element>)
      reads soap, store
    {
      var (name, value) := SetFields(es);
      soap.elements == SetReply(name, value, Succeeds(script))
      && (name.Some? && value.Some? ==>
            store.script == Rest(script)
            && store.entries == (if Succeeds(script) then m[name.value := value.value] else m))
      && (!(name.Some? && value.Some?) ==> store.script == script && store.entries == m)
    }

    ghost predicate UnsetDone(store: Store, m: map<string, string>, script: seq<bool>, name: string)
      reads soap, store
    {
      var found := Succeeds(script) && name in m;
      soap.elements == UnsetReply(m, Succeeds(script), name)
      && (found ==> store.script == Rest(Rest(script))
                    && store.entries == (if Succeeds(Rest(script)) then m - {name} else m))
      && (!found ==> store.script == Rest(script) && store.entries == m)
    }

    ghost predicate CommitDone(store: Store, m: map<string, string>, script: seq<bool>)
      reads soap, store
    {
      soap.elements == CommitReply(Succeeds(script)) && store.entries == m && store.script == Rest(script)
    }

    /** The branches that work on one entry, named in the URI or carried by the
        request tree, and the commit branch. */
    method HandleEntryRequest(store: Store, route: Route, msgOk: bool) returns (ret: int)
      requires Valid() && (route.GetRoute? || route.SetRoute? || route.UnsetRoute? || route.CommitRoute?)
      modifies soap`elements, soap`versionMajor, soap`versionMinor, store
      modifies http`headers, http`requestUri, http`messageBody, http`messageBodyLen, http`statusCode, http`isResponse
      ensures Valid()
      ensures EntryAnswered(route, store, old(store.entries), old(store.script), old(soap.elements), msgOk, ret)
      ensures !msgOk ==> unchanged(http)
    {
      if route.GetRoute? || route.UnsetRoute? {
        ret := HandleNamedRequest(store, route, msgOk);
      } else {
        ret := HandleStoreRequest(store, route, msgOk);
      }
    }

    /** The getNvram and unsetNvram branches, whose entry is named in the URI. */
    method HandleNamedRequest(store: Store, route: Route, msgOk: bool) returns (ret: int)
      requires Valid() && (route.GetRoute? || route.UnsetRoute?)
      modifies soap`elements, soap`versionMajor, soap`versionMinor, store
      modifies http`headers, http`requestUri, http`messageBody, http`messageBodyLen, http`statusCode, http`isResponse
      ensures Valid()
      ensures EntryAnswered(route, store, old(store.entries), old(store.script), old(soap.elements), msgOk, ret)
      ensures !msgOk ==> unchanged(http)
    {
      ghost var m, script := store.entries, store.script;
      if route.GetRoute? {
        ret := BuildGetResponse(store, route.name, msgOk);
        assert GetDone(store, m, script, route.name);
      } else {
        ret := BuildUnsetResponse(store, route.name, msgOk);
        assert UnsetDone(store, m, script, route.name);
      }
    }

    /** The setNvram branch, whose entry the request tree carries, and the
        commitNvram branch. */
    method HandleStoreRequest(store: Store, route: Route, msgOk: bool) returns (ret: int)
      requires Valid() && (route.SetRoute? || route.CommitRoute?)
      modifies soap`elements, soap`versionMajor, soap`versionMinor, store
      modifies http`headers, http`requestUri, http`messageBody, http`messageBodyLen, http`statusCode, http`isResponse
      ensures Valid()
      ensures EntryAnswered(route, store, old(store.entries), old(store.script), old(soap.elements), msgOk, ret)
      ensures !msgOk ==> unchanged(http)
    {
      ghost var m, script, es := store.entries, store.script, soap.elements;
      if route.SetRoute? {
        var fields := SetFields(soap.elements);
        ret := BuildSetResponse(store, fields.0, fields.1, msgOk);
        assert SetDone(store, m, script, es);
      } else {
        ret := BuildCommitResponse(store, msgOk);
        assert CommitDone(store, m, script);
      }
    }

    /** What the setMultiNvram, insertSocket and removeSocket branches leave behind:
        the list collected from the request tree `es` decides the tree and the store
        effect. */
    ghost predicate ListAnswered(route: Route, store: Store, m: map<string, string>, script: seq<bool>, es: seq<Element>, listCap: nat, msgOk: bool, ret: int)
      reads this, http, soap, store
    {
      && ret == (if msgOk then 0 else -1)
      && (msgOk ==> Answered(false))
      && match route
         case SetMultiRoute => SetMultiDone(store, m, script, es, listCap)
         case InsertSocketRoute => SocketDone(InsertSocketTag, InsertSocketResponseTag, store, m, script, es, listCap)
         case RemoveSocketRoute => SocketDone(RemoveSocketTag, RemoveSocketResponseTag, store, m, script, es, listCap)
         case _ => true
    }

    ghost predicate SetMultiDone(store: Store, m: map<string, string>, script: seq<bool>, es: seq<Element>, listCap: nat)
      reads soap, store
    {
      var list := Collected(es, SetMultiTag, true, listCap);
      (list.None? ==> soap.elements == FaultTree(InvalidValueFault) && store.entries == m && store.script == script)
      && (list.Some? ==>
            var run := SetRun(m, script, list.value);
            soap.elements == ResultTree(SetMultiResponseTag, Verdict(run.ok))
            && store.entries == run.entries && store.script == run.script)
    }

    ghost predicate SocketDone(op: string, responseTag: string, store: Store, m: map<string, string>, script: seq<bool>, es: seq<Element>, listCap: nat)
      reads soap, store
    {
      var list := Collected(es, op, false, listCap);
      soap.elements == ListVerdictReply(responseTag, list, Succeeds(script))
      && store.entries == m && store.script == (if list.Some? then Rest(script) else script)
    }

    /** The three branches that first collect the request's nv:nvram pairs into a
        link list: setMultiNvram (which rescans from the first pair), insertSocket
        and removeSocket.  `listCap` stands for the first insertion the link list
        refuses. */
    method HandleListRequest(store: Store, route: Route, msgOk: bool, listCap: nat) returns (ret: int)
      requires Valid() && (route.SetMultiRoute? || route.InsertSocketRoute? || route.RemoveSocketRoute?)
      modifies soap`elements, soap`versionMajor, soap`versionMinor, store
      modifies http`headers, http`requestUri, http`messageBody, http`messageBodyLen, http`statusCode, http`isResponse
      ensures Valid()
      ensures ListAnswered(route, store, old(store.entries), old(store.script), old(soap.elements), listCap, msgOk, ret)
      ensures !msgOk ==> unchanged(http)
    {
      if route.SetMultiRoute? {
        ret := HandleSetMultiRequest(store, msgOk, listCap);
      } else if route.InsertSocketRoute? {
        ret := HandleInsertSocketRequest(store, msgOk, listCap);
      } else {
        ret := HandleRemoveSocketRequest(store, msgOk, listCap);
      }
    }

    /** The setMultiNvram branch: the collected list is applied pair by pair. */
    method HandleSetMultiRequest(store: Store, msgOk: bool, listCap: nat) returns (ret: int)
      requires Valid()
      modifies soap`elements, soap`versionMajor, soap`versionMinor, store
      modifies http`headers, http`requestUri, http`messageBody, http`messageBodyLen, http`statusCode, http`isResponse
      ensures Valid()
      ensures ret == (if msgOk then 0 else -1) && (msgOk ==> Answered(false))
      ensures SetMultiDone(store, old(store.entries), old(store.script), old(soap.elements), listCap)
      ensures !msgOk ==> unchanged(http)
    {
      var list := CollectList(SetMultiTag, true, listCap);
      ret := BuildSetMultiResponse(store, list, msgOk);
    }

    /** The insertSocket branch: the store judges the collected list. */
    method HandleInsertSocketRequest(store: Store, msgOk: bool, listCap: nat) returns (ret: int)
      requires Valid()
      modifies soap`elements, soap`versionMajor, soap`versionMinor, store
      modifies http`headers, http`requestUri, http`messageBody, http`messageBodyLen, http`statusCode, http`isResponse
      ensures Valid()
      ensures ret == (if msgOk then 0 else -1) && (msgOk ==> Answered(false))
      ensures SocketDone(InsertSocketTag, InsertSocketResponseTag, store, old(store.entries), old(store.script), old(soap.elements), listCap)
      ensures !msgOk ==> unchanged(http)
    {
      var list := CollectList(InsertSocketTag, false, listCap);
      ret := BuildInsertSocketResponse(store, list, msgOk);
    }

    /** The removeSocket branch: the store judges the collected list. */
    method HandleRemoveSocketRequest(store: Store, msgOk: bool, listCap: nat) returns (ret: int)
      requires Valid()
      modifies soap`elements, soap`versionMajor, soap`versionMinor, store
      modifies http`headers, http`requestUri, http`messageBody, http`messageBodyLen, http`statusCode, http`isResponse
      ensures Valid()
      ensures ret == (if msgOk then 0 else -1) && (msgOk ==> Answered(false))
      ensures SocketDone(RemoveSocketTag, RemoveSocketResponseTag, store, old(store.entries), old(store.script), old(soap.elements), listCap)
      ensures !msgOk ==> unchanged(http)
    {
      var list := CollectList(RemoveSocketTag, false, listCap);
      ret := BuildRemoveSocketResponse(store, list, msgOk);
    }

    /** The whole response tree of the listNvram branch (over the list the store
        gave, `listed`) or of the infoNvram branch. */
    ghost function ReportTree(route: Route, store: Store, script: seq<bool>, listed: seq<Pair>): seq<Element> {
      if route.ListRoute? then ListReply(Succeeds(script), listed)
      else RowsTree(InfoResponseTag, InfoRows(store.version, store.totalSpace, store.freeSpace, store.usedSpace, store.storage))
    }

    /** What the listNvram and infoNvram branches leave behind: the whole response
        tree when it fits, answered when the message could be built; otherwise the
        tree cut at its capacity and result 0.  The info branch leaves the store
        alone. */
    ghost predicate ReportAnswered(route: Route, store: Store, m: map<string, string>, script: seq<bool>,
                                   listed: seq<Pair>, msgOk: bool, ret: int)
      reads this, http, soap, store
    {
      var full := ReportTree(route, store, script, listed);
      && store.entries == m
      && store.script == (if route.ListRoute? then Rest(script) else script)
      && (route.ListRoute? && Succeeds(script) ==> Lists(m, listed))
      && (|full| <= soap.capacity ==> soap.elements == full && ret == (if msgOk then 0 else -1) && (msgOk ==> Answered(false)))
      && (|full| > soap.capacity ==> soap.elements == full[..soap.capacity] && ret == 0)
    }

    /** The listNvram and infoNvram branches. */
    method HandleReportRequest(store: Store, route: Route, msgOk: bool) returns (ret: int, ghost listed: seq<Pair>)
      requires Valid() && (route.ListRoute? || route.InfoRoute?)
      modifies soap`elements, soap`versionMajor, soap`versionMinor, store`script
      modifies http`headers, http`requestUri, http`messageBody, http`messageBodyLen, http`statusCode, http`isResponse
      ensures Valid()
      ensures ReportAnswered(route, store, old(store.entries), old(store.script), listed, msgOk, ret)
      ensures !msgOk || |ReportTree(route, store, old(store.script), listed)| > soap.capacity ==> unchanged(http)
    {
      if route.ListRoute? {
        ret, listed := BuildListResponse(store, msgOk);
      } else {
        listed := [];
        ret := BuildInfoResponse(store, msgOk);
      }
    }
  }

  /** Slot `n`'s three rows sit right after the four fixed rows and the rows of the
      slots before it. */
  lemma InfoSlotRows(version: string, total: int, free: int, used: int, st: seq<Storage>, n: nat)
    requires n < |st|
    ensures var rows := InfoRows(version, total, free, used, st);
      |rows| == 4 + 3 * |st|
      && rows[4 + 3 * n] == SlotRows(n, st[n])[0]
      && rows[5 + 3 * n] == SlotRows(n, st[n])[1]
      && rows[6 + 3 * n] == SlotRows(n, st[n])[2]
  {
    StorageRowsAt(st, n);
  }

  lemma {:induction false} StorageRowsAt(st: seq<Storage>, n: nat)
    requires n < |st|
    ensures StorageRows(st)[3 * n..3 * n + 3] == SlotRows(n, st[n])
    decreases |st|
  {
    var front := st[..|st| - 1];
    if n < |st| - 1 {
      StorageRowsAt(front, n);
      assert front[n] == st[n];
      assert StorageRows(st)[3 * n..3 * n + 3] == StorageRows(front)[3 * n..3 * n + 3];
    }
  }

  /** Appending a pair appends its row. */
  lemma RowsTreeSnoc(op: string, all: seq<Pair>, i: nat)
    requires i < |all|
    ensures RowsTree(op, all[..i + 1]) == RowsTree(op, all[..i]) + Row(3 + 3 * i, all[i])
  {
    assert all[..i + 1][..i] == all[..i];
  }

  /** The rows of a prefix of the pairs are a prefix of the rows. */
  lemma {:induction false} RowsPrefix(ps: seq<Pair>, at: nat, k: nat)
    requires k <= |ps|
    ensures Rows(ps[..k], at) == Rows(ps, at)[..3 * k]
    decreases |ps|
  {
    if k < |ps| {
      var front := ps[..|ps| - 1];
      assert front[..k] == ps[..k];
      RowsPrefix(front, at, k);
    } else {
      assert ps[..k] == ps;
    }
  }

  lemma RowsTreePrefix(op: string, ps: seq<Pair>, k: nat)
    requires k <= |ps|
    ensures RowsTree(op, ps[..k]) == RowsTree(op, ps)[..3 + 3 * k]
  {
    RowsPrefix(ps, 3, k);
  }
}
