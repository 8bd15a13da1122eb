/**
 * The example printer server: how it answers Get-Printer-Attributes
 * (section 4.2.5 of RFC 8011) from a fixed table of 23 supported
 * attributes, the operations it refuses, its one-bit printing state and
 * how an operation's error becomes a response.
 */
module IppServerExample {
  import opened IppTypes
  import opened Ipp
  import opened Attributes
  import opened IppConsts

  type u64 = x: int | 0 <= x < 0x1_0000_0000_0000_0000

  /** The attributes the server reports, in the order it reports them by default. */
  const SUPPORTED_ATTRIBUTES: seq<string> := [
    PRINTER_URI_SUPPORTED,
    URI_SECURITY_SUPPORTED,
    URI_AUTHENTICATION_SUPPORTED,
    PRINTER_NAME,
    PRINTER_STATE,
    PRINTER_STATE_REASONS,
    IPP_VERSIONS_SUPPORTED,
    OPERATIONS_SUPPORTED,
    CHARSET_CONFIGURED,
    CHARSET_SUPPORTED,
    NATURAL_LANGUAGE_CONFIGURED,
    GENERATED_NATURAL_LANGUAGE_SUPPORTED,
    DOCUMENT_FORMAT_DEFAULT,
    DOCUMENT_FORMAT_SUPPORTED,
    PRINTER_IS_ACCEPTING_JOBS,
    QUEUED_JOB_COUNT,
    PDL_OVERRIDE_SUPPORTED,
    PRINTER_UP_TIME,
    COMPRESSION_SUPPORTED,
    PRINTER_STATE_MESSAGE,
    PRINTER_MAKE_AND_MODEL,
    FINISHINGS_DEFAULT,
    FINISHINGS_SUPPORTED
  ]

  /** The decoded request an operation sees: `DummyRequest` without its body stream. */
  datatype DummyRequest = DummyRequest(header: IppHeader, attributes: IppAttributeList)

  /** A response envelope: header and attributes. */
  datatype IppResponse = IppResponse(header: IppHeader, attributes: IppAttributeList)

  /**
   * `IppRequestResponse::new_response`: an IPP/1.1 response header with the
   * status and the request id. The attribute list it starts with is the
   * library's; the properties below are stated relative to it.
   */
  function NewResponse(status: u16, requestId: u32): (resp: IppResponse)
    ensures resp.header.version == IPP_VERSION
    ensures resp.header.operationStatus == status && resp.header.requestId == requestId
  {
    IppResponse(IppHeader(IPP_VERSION, status, requestId), IppAttributeList([]))
  }

  /** `as i32` on an unsigned value: keep the low 32 bits, read as two's complement. */
  function AsI32(x: u64): (r: i32)
    ensures (r - x) % 0x1_0000_0000 == 0
  {
    var low := x % 0x1_0000_0000;
    if low < 0x8000_0000 then low else low - 0x1_0000_0000
  }

  /** The names `get_printer_attribute` answers: the supported table and printer-info. */
  predicate Answerable(name: string)
  {
    name in SUPPORTED_ATTRIBUTES || name == PRINTER_INFO
  }

  /** The value `get_printer_attribute` reports for a name, given the printing flag as it reads it. */
  function PrinterAttributeValue(name: string, serverName: string, printing: bool, uptime: u64): IppValue
    requires Answerable(name)
  {
    if name == PRINTER_NAME then NameWithoutLanguage(serverName)
    else if name == PRINTER_INFO then TextWithoutLanguage("Project Typemetal")
    else if name == PRINTER_STATE_MESSAGE then TextWithoutLanguage("Being awesome")
    else if name == PRINTER_MAKE_AND_MODEL then TextWithoutLanguage("Rust Printer")
    else if name == IPP_VERSIONS_SUPPORTED then ListOf([Keyword("1.1")])
    else if name == PRINTER_STATE then Enum(if printing then PRINTER_STATE_PROCESSING else PRINTER_STATE_IDLE)
    else if name == PRINTER_IS_ACCEPTING_JOBS then Boolean(true)
    else if name == FINISHINGS_DEFAULT then Enum(FINISHINGS_NONE)
    else if name == FINISHINGS_SUPPORTED then ListOf([Enum(FINISHINGS_NONE)])
    else if name == QUEUED_JOB_COUNT then Integer(0)
    else if name == PRINTER_UP_TIME then Integer(AsI32(uptime))
    else if name == PDL_OVERRIDE_SUPPORTED then Keyword("not-attempted")
    else if name == CHARSET_CONFIGURED then Charset("utf-8")
    else if name == DOCUMENT_FORMAT_DEFAULT then MimeMediaType("image/pwg-raster")
    else if name == DOCUMENT_FORMAT_SUPPORTED then
      ListOf([MimeMediaType("image/pwg-raster"), MimeMediaType("image/jpeg")])
    else if name == COMPRESSION_SUPPORTED then ListOf([Keyword("none")])
    else if name == URI_AUTHENTICATION_SUPPORTED then ListOf([Keyword("none")])
    else if name == NATURAL_LANGUAGE_CONFIGURED then NaturalLanguage("en")
    else if name == GENERATED_NATURAL_LANGUAGE_SUPPORTED then ListOf([NaturalLanguage("en")])
    else if name == CHARSET_SUPPORTED then ListOf([Charset("utf-8")])
    else if name == OPERATIONS_SUPPORTED then
      ListOf([Enum(PRINT_JOB), Enum(CREATE_JOB), Enum(CANCEL_JOB),
              Enum(GET_JOB_ATTRIBUTES), Enum(GET_JOBS), Enum(GET_PRINTER_ATTRIBUTES)])
    else if name == PRINTER_STATE_REASONS then ListOf([Keyword("none")])
    else if name == PRINTER_URI_SUPPORTED then ListOf([Uri("ipp://192.168.1.217")])
    else if name == URI_SECURITY_SUPPORTED then ListOf([Keyword("none")])
    else assert false; NoValue
  }

  // ---------------------------------------------------------------------
  // Interpreting requested-attributes

  predicate AllKeywords(values: seq<IppValue>)
  {
    forall i :: 0 <= i < |values| ==> values[i].Keyword?
  }

  /** The keyword texts of an all-keyword value list, in order. */
  function KeywordTexts(values: seq<IppValue>): (texts: seq<string>)
    requires AllKeywords(values)
    ensures |texts| == |values|
    ensures forall i :: 0 <= i < |values| ==> texts[i] == values[i].text
  {
    if values == [] then []
    else KeywordTexts(values[..|values| - 1]) + [values[|values| - 1].text]
  }

  /**
   * The names a requested-attributes attribute asks for: none when it is
   * absent, one for a keyword, the keywords of a list in order; any other
   * value kind, or a list holding a non-keyword, is a bad request.
   */
  function Requested(requested: Option<IppAttribute>): Result<seq<string>, u16>
  {
    match requested
    case None => Ok([])
    case Some(attr) =>
      match attr.value
      case Keyword(x) => Ok([x])
      case ListOf(values) =>
        if AllKeywords(values) then Ok(KeywordTexts(values)) else Err(CLIENT_ERROR_BAD_REQUEST)
      case _ => Err(CLIENT_ERROR_BAD_REQUEST)
  }

  /** The names to report: the request's selection, or the whole supported table when it selects nothing. */
  function Selection(requested: seq<string>): seq<string>
  {
    if |requested| == 0 then SUPPORTED_ATTRIBUTES else requested
  }

  /** `names` with every name outside the supported table dropped. */
  function SupportedOnly(names: seq<string>): seq<string>
  {
    if names == [] then []
    else
      var last := names[|names| - 1];
      SupportedOnly(names[..|names| - 1]) + (if last in SUPPORTED_ATTRIBUTES then [last] else [])
  }

  /** The printing flag after `get_printer_attribute` has been asked for each supported name of `names`. */
  function PrintingAfter(names: seq<string>, printing: bool): bool
  {
    printing && PRINTER_STATE !in names
  }

  /** The printer attributes reported for `names`, the printing flag threaded through the lookups. */
  function Emitted(names: seq<string>, serverName: string, printing: bool, uptime: u64): seq<IppAttribute>
  {
    if names == [] then []
    else
      var init := names[..|names| - 1];
      var last := names[|names| - 1];
      Emitted(init, serverName, printing, uptime) +
        (if last in SUPPORTED_ATTRIBUTES
         then [IppAttribute(last, PrinterAttributeValue(last, serverName, PrintingAfter(init, printing), uptime))]
         else [])
  }

  /** `attrs` added one by one to the group `tag` of `l`. */
  function AddAll(l: IppAttributeList, tag: byte, attrs: seq<IppAttribute>): IppAttributeList
  {
    if attrs == [] then l
    else AddAll(l, tag, attrs[..|attrs| - 1]).Add(tag, attrs[|attrs| - 1])
  }

  /** The result `get_printer_attributes` computes for a request and a printing flag. */
  function GetPrinterAttributesResult(req: DummyRequest, serverName: string, printing: bool, uptime: u64)
    : Result<IppResponse, u16>
  {
    match Requested(req.attributes.Get(OPERATION_ATTRIBUTES_TAG, REQUESTED_ATTRIBUTES))
    case Err(code) => Err(code)
    case Ok(requested) =>
      var resp := NewResponse(SUCCESSFUL_OK, req.header.requestId);
      Ok(resp.(attributes := AddAll(resp.attributes, PRINTER_ATTRIBUTES_TAG,
                                    Emitted(Selection(requested), serverName, printing, uptime))))
  }

  /** `handle`: a response is sent as the operation built it; an error code becomes a fresh response carrying that status and the request id. */
  function Respond(result: Result<IppResponse, u16>, req: DummyRequest): (resp: IppResponse)
    ensures result.Ok? ==> resp == result.value
    ensures result.Err? ==> resp.header == IppHeader(IPP_VERSION, result.error, req.header.requestId)
  {
    match result
    case Ok(resp) => resp
    case Err(code) => NewResponse(code, req.header.requestId)
  }

  // ---------------------------------------------------------------------
  // The server

  class DummyServer {
    const name: string
    var printing: bool

    constructor (name: string)
      ensures this.name == name && !printing
    {
      this.name := name;
      printing := false;
    }

    /**
     * `get_printer_attribute`: the attribute carries the requested name;
     * printer-state reports Processing when the printing flag is set, and
     * reading it that way clears the flag.
     */
    method GetPrinterAttribute(attr: string, uptime: u64) returns (a: IppAttribute)
      requires Answerable(attr)
      modifies this
      ensures a == IppAttribute(attr, PrinterAttributeValue(attr, name, old(printing), uptime))
      ensures printing == (old(printing) && attr != PRINTER_STATE)
    {
      a := IppAttribute(attr, PrinterAttributeValue(attr, name, printing, uptime));
      if attr == PRINTER_STATE && printing {
        printing := false;
      }
    }

    /**
     * `get_printer_attributes`: interprets requested-attributes, then adds
     * one printer attribute per supported name of the selection, in order.
     */
    method GetPrinterAttributes(req: DummyRequest, uptime: u64) returns (r: Result<IppResponse, u16>)
      modifies this
      ensures r == GetPrinterAttributesResult(req, name, old(printing), uptime)
      ensures r.Err? ==> printing == old(printing)
      ensures r.Ok? ==> printing == PrintingAfter(
        Selection(Requested(req.attributes.Get(OPERATION_ATTRIBUTES_TAG, REQUESTED_ATTRIBUTES)).value), old(printing))
    {
      var resp := NewResponse(SUCCESSFUL_OK, req.header.requestId);
      var requested := RequestedAttributes(req.attributes);
      if requested.Err? {
        return Err(requested.error);
      }
      var attributeList := if |requested.value| == 0 then SUPPORTED_ATTRIBUTES else requested.value;
      resp := ReportAttributes(resp, attributeList, uptime);
      r := Ok(resp);
    }

    /** The reporting loop of `get_printer_attributes`: each supported name, in order, added to the printer group of `resp`. */
    method ReportAttributes(resp: IppResponse, attributeList: seq<string>, uptime: u64) returns (out: IppResponse)
      modifies this
      ensures out == resp.(attributes :=
        AddAll(resp.attributes, PRINTER_ATTRIBUTES_TAG, Emitted(attributeList, name, old(printing), uptime)))
      ensures printing == PrintingAfter(attributeList, old(printing))
    {
      out := resp;
      var i := 0;
      while i < |attributeList|
        invariant 0 <= i <= |attributeList|
        invariant out == resp.(attributes :=
          AddAll(resp.attributes, PRINTER_ATTRIBUTES_TAG, Emitted(attributeList[..i], name, old(printing), uptime)))
        invariant printing == PrintingAfter(attributeList[..i], old(printing))
      {
        var attr := attributeList[i];
        EmittedStep(attributeList, i, name, old(printing), uptime);
        ghost var before := Emitted(attributeList[..i], name, old(printing), uptime);
        if attr in SUPPORTED_ATTRIBUTES {
          var a := GetPrinterAttribute(attr, uptime);
          out := out.(attributes := out.attributes.Add(PRINTER_ATTRIBUTES_TAG, a));
          assert (before + [a])[..|before|] == before;
        } else {
          assert before + [] == before;
        }
        i := i + 1;
      }
      assert attributeList[..i] == attributeList;
    }

    /** `print_job`: accepts the job, answers with its job attributes and sets the printing flag. */
    method PrintJob(req: DummyRequest) returns (r: Result<IppResponse, u16>)
      modifies this
      ensures printing
      ensures r == Ok(PrintJobResponse(req.header.requestId))
    {
      var resp := NewResponse(SUCCESSFUL_OK, req.header.requestId);
      resp := resp.(attributes := resp.attributes.Add(JOB_ATTRIBUTES_TAG,
        IppAttribute(JOB_URI, Uri("ipp://192.168.1.217/jobs/foo"))));
      resp := resp.(attributes := resp.attributes.Add(JOB_ATTRIBUTES_TAG, IppAttribute(JOB_ID, Integer(1))));
      resp := resp.(attributes := resp.attributes.Add(JOB_ATTRIBUTES_TAG,
        IppAttribute(JOB_STATE, Enum(JOB_STATE_PROCESSING))));
      resp := resp.(attributes := resp.attributes.Add(JOB_ATTRIBUTES_TAG,
        IppAttribute(JOB_STATE_REASONS, Keyword("completed-successfully"))));
      printing := true;
      r := Ok(resp);
    }

    /** `validate_job`: a fresh successful response echoing the request id. */
    function ValidateJob(req: DummyRequest): (r: Result<IppResponse, u16>)
      ensures r.Ok? && r.value.header == IppHeader(IPP_VERSION, SUCCESSFUL_OK, req.header.requestId)
    {
      Ok(NewResponse(SUCCESSFUL_OK, req.header.requestId))
    }

    /** `create_job`: not supported. */
    function CreateJob(req: DummyRequest): (r: Result<IppResponse, u16>)
      ensures r.Err? && r.error == SERVER_ERROR_OPERATION_NOT_SUPPORTED
    {
      Err(SERVER_ERROR_OPERATION_NOT_SUPPORTED)
    }

    /** `cancel_job`: not supported. */
    function CancelJob(req: DummyRequest): (r: Result<IppResponse, u16>)
      ensures r.Err? && r.error == SERVER_ERROR_OPERATION_NOT_SUPPORTED
    {
      Err(SERVER_ERROR_OPERATION_NOT_SUPPORTED)
    }

    /** `get_job_attributes`: not supported. */
    function GetJobAttributes(req: DummyRequest): (r: Result<IppResponse, u16>)
      ensures r.Err? && r.error == SERVER_ERROR_OPERATION_NOT_SUPPORTED
    {
      Err(SERVER_ERROR_OPERATION_NOT_SUPPORTED)
    }

    /** `get_jobs`: not supported. */
    function GetJobs(req: DummyRequest): (r: Result<IppResponse, u16>)
      ensures r.Err? && r.error == SERVER_ERROR_OPERATION_NOT_SUPPORTED
    {
      Err(SERVER_ERROR_OPERATION_NOT_SUPPORTED)
    }
  }

  /** The response `print_job` builds: four job attributes added to the job group of a fresh response. */
  function PrintJobResponse(requestId: u32): IppResponse
  {
    var resp := NewResponse(SUCCESSFUL_OK, requestId);
    resp.(attributes := resp.attributes
      .Add(JOB_ATTRIBUTES_TAG, IppAttribute(JOB_URI, Uri("ipp://192.168.1.217/jobs/foo")))
      .Add(JOB_ATTRIBUTES_TAG, IppAttribute(JOB_ID, Integer(1)))
      .Add(JOB_ATTRIBUTES_TAG, IppAttribute(JOB_STATE, Enum(JOB_STATE_PROCESSING)))
      .Add(JOB_ATTRIBUTES_TAG, IppAttribute(JOB_STATE_REASONS, Keyword("completed-successfully"))))
  }

  /**
   * The requested-attributes loop of `get_printer_attributes`: a keyword
   * selects itself, a list selects its keywords in order and is refused as
   * a bad request as soon as one element is not a keyword, any other value
   * is a bad request, and an absent attribute selects nothing.
   */
  method RequestedAttributes(attributes: IppAttributeList) returns (r: Result<seq<string>, u16>)
    ensures r == Requested(attributes.Get(OPERATION_ATTRIBUTES_TAG, REQUESTED_ATTRIBUTES))
    ensures r.Err? ==> r.error == CLIENT_ERROR_BAD_REQUEST
  {
    var found := attributes.Get(OPERATION_ATTRIBUTES_TAG, REQUESTED_ATTRIBUTES);
    var requested: seq<string> := [];
    if found.Some? {
      match found.value.value {
        case Keyword(x) =>
          requested := [x];
        case ListOf(values) =>
          requested := [];
          var i := 0;
          while i < |values|
            invariant 0 <= i <= |values|
            invariant AllKeywords(values[..i])
            invariant requested == KeywordTexts(values[..i])
          {
            if values[i].Keyword? {
              assert values[..i + 1][..i] == values[..i];
              requested := requested + [values[i].text];
            } else {
              return Err(CLIENT_ERROR_BAD_REQUEST);
            }
            i := i + 1;
          }
          assert values[..i] == values;
        case _ =>
          return Err(CLIENT_ERROR_BAD_REQUEST);
      }
    }
    r := Ok(requested);
  }

  // ---------------------------------------------------------------------
  // Properties

  /** One step of the reporting loop: the next name adds at most one attribute, read with the flag as left so far. */
  lemma EmittedStep(names: seq<string>, i: nat, serverName: string, printing: bool, uptime: u64)
    requires i < |names|
    ensures Emitted(names[..i + 1], serverName, printing, uptime) ==
      Emitted(names[..i], serverName, printing, uptime) +
        (if names[i] in SUPPORTED_ATTRIBUTES
         then [IppAttribute(names[i], PrinterAttributeValue(names[i], serverName, PrintingAfter(names[..i], printing), uptime))]
         else [])
    ensures PrintingAfter(names[..i + 1], printing) == (PrintingAfter(names[..i], printing) && names[i] != PRINTER_STATE)
  {
    assert names[..i + 1][..i] == names[..i];
    assert names[..i + 1] == names[..i] + [names[i]];
  }

  /** Filtering distributes over concatenation and keeps or drops each name on its own: order and duplicates survive. */
  lemma {:induction false} SupportedOnlyIsFilter(a: seq<string>, b: seq<string>, x: string)
    ensures SupportedOnly(a + b) == SupportedOnly(a) + SupportedOnly(b)
    ensures SupportedOnly([x]) == if x in SUPPORTED_ATTRIBUTES then [x] else []
    decreases |b|
  {
    assert [x][..0] == [];
    if b == [] {
      assert a + b == a;
    } else {
      var init := b[..|b| - 1];
      assert (a + b)[..|a + b| - 1] == a + init;
      SupportedOnlyIsFilter(a, init, x);
    }
  }

  /** A selection made only of supported names is reported in full, in order. */
  lemma {:induction false} SupportedOnlyKeepsSupported(names: seq<string>)
    requires forall i :: 0 <= i < |names| ==> names[i] in SUPPORTED_ATTRIBUTES
    ensures SupportedOnly(names) == names
  {
    if names != [] {
      SupportedOnlyKeepsSupported(names[..|names| - 1]);
    }
  }

  /** A name is reported exactly when it was selected and is supported. */
  lemma {:induction false} SupportedOnlyMembers(names: seq<string>, x: string)
    ensures x in SupportedOnly(names) <==> x in names && x in SUPPORTED_ATTRIBUTES
  {
    if names != [] {
      SupportedOnlyMembers(names[..|names| - 1], x);
      assert names == names[..|names| - 1] + [names[|names| - 1]];
    }
  }

  lemma NamesAppend(a: seq<IppAttribute>, b: seq<IppAttribute>)
    ensures Names(a + b) == Names(a) + Names(b)
  {
  }

  /** Every reported attribute carries the name that selected it: the reported names are the filtered selection. */
  lemma {:induction false} EmittedNames(names: seq<string>, serverName: string, printing: bool, uptime: u64)
    ensures Names(Emitted(names, serverName, printing, uptime)) == SupportedOnly(names)
  {
    if names != [] {
      var init := names[..|names| - 1];
      var last := names[|names| - 1];
      EmittedNames(init, serverName, printing, uptime);
      var tail := if last in SUPPORTED_ATTRIBUTES
        then [IppAttribute(last, PrinterAttributeValue(last, serverName, PrintingAfter(init, printing), uptime))]
        else [];
      NamesAppend(Emitted(init, serverName, printing, uptime), tail);
    }
  }

  /**
   * printer-state is reported as Processing only by its first occurrence
   * after the flag was set, and as Idle everywhere else; the flag survives
   * exactly when printer-state was not reported.
   */
  lemma {:induction false} PrinterStateReportedOnce(names: seq<string>, serverName: string, printing: bool,
                                                    uptime: u64, i: nat)
    requires i < |Emitted(names, serverName, printing, uptime)|
    requires Emitted(names, serverName, printing, uptime)[i].name == PRINTER_STATE
    ensures var e := Emitted(names, serverName, printing, uptime);
      e[i].value == Enum(if printing && PRINTER_STATE !in Names(e[..i])
                         then PRINTER_STATE_PROCESSING else PRINTER_STATE_IDLE)
    ensures PrintingAfter(names, printing) ==
      (printing && PRINTER_STATE !in Names(Emitted(names, serverName, printing, uptime)))
  {
    var e := Emitted(names, serverName, printing, uptime);
    var init := names[..|names| - 1];
    var last := names[|names| - 1];
    var e0 := Emitted(init, serverName, printing, uptime);
    EmittedNames(names, serverName, printing, uptime);
    SupportedOnlyMembers(names, PRINTER_STATE);
    if i < |e0| {
      PrinterStateReportedOnce(init, serverName, printing, uptime, i);
      assert e[..i] == e0[..i];
    } else {
      assert e0 == e[..i];
      EmittedNames(init, serverName, printing, uptime);
      SupportedOnlyMembers(init, PRINTER_STATE);
    }
  }

  /** Adding attributes one by one appends exactly those, in order, to their group, and leaves every other group as it was. */
  lemma {:induction false} AddAllAppends(l: IppAttributeList, tag: byte, attrs: seq<IppAttribute>)
    ensures AddAll(l, tag, attrs).Group(tag) == l.Group(tag) + attrs
    ensures forall other :: other != tag ==> AddAll(l, tag, attrs).GetGroup(other) == l.GetGroup(other)
  {
    if attrs == [] {
      assert l.Group(tag) + attrs == l.Group(tag);
    } else {
      var init := attrs[..|attrs| - 1];
      var last := attrs[|attrs| - 1];
      AddAllAppends(l, tag, init);
      var m := AddAll(l, tag, init);
      assert init + [last] == attrs;
      forall other | other != tag
        ensures m.Add(tag, last).GetGroup(other) == l.GetGroup(other)
      {
        AddAppends(m, tag, last, other);
      }
      AddAppends(m, tag, last, tag);
    }
  }

  /**
   * What Get-Printer-Attributes answers: a successful response echoing the
   * request id whose printer group gains one attribute per supported name
   * of the selection, in order, the full table when nothing is selected,
   * every other group being that of the fresh response; otherwise a bad
   * request.
   */
  lemma GetPrinterAttributesOutcome(req: DummyRequest, serverName: string, printing: bool, uptime: u64)
    ensures var requested := Requested(req.attributes.Get(OPERATION_ATTRIBUTES_TAG, REQUESTED_ATTRIBUTES));
      var r := GetPrinterAttributesResult(req, serverName, printing, uptime);
      var initial := NewResponse(SUCCESSFUL_OK, req.header.requestId).attributes;
      && (r.Err? <==> requested.Err?)
      && (r.Err? ==> r.error == CLIENT_ERROR_BAD_REQUEST)
      && (r.Ok? ==> r.value.header == IppHeader(IPP_VERSION, SUCCESSFUL_OK, req.header.requestId))
      && (r.Ok? ==> exists added: seq<IppAttribute> ::
            && r.value.attributes.Group(PRINTER_ATTRIBUTES_TAG) == initial.Group(PRINTER_ATTRIBUTES_TAG) + added
            && Names(added) == if requested.value == [] then SUPPORTED_ATTRIBUTES else SupportedOnly(requested.value))
      && (r.Ok? ==> forall other :: other != PRINTER_ATTRIBUTES_TAG ==>
            r.value.attributes.GetGroup(other) == initial.GetGroup(other))
  {
    var requested := Requested(req.attributes.Get(OPERATION_ATTRIBUTES_TAG, REQUESTED_ATTRIBUTES));
    if requested.Ok? {
      var selection := Selection(requested.value);
      var added := Emitted(selection, serverName, printing, uptime);
      EmittedNames(selection, serverName, printing, uptime);
      AddAllAppends(NewResponse(SUCCESSFUL_OK, req.header.requestId).attributes, PRINTER_ATTRIBUTES_TAG, added);
      SupportedOnlyKeepsSupported(SUPPORTED_ATTRIBUTES);
    }
  }

  /** requested-attributes absent, or an empty list, selects nothing, so the whole table is reported, in table order. */
  lemma EmptySelectionReportsAll(req: DummyRequest, serverName: string, printing: bool, uptime: u64)
    requires var found := req.attributes.Get(OPERATION_ATTRIBUTES_TAG, REQUESTED_ATTRIBUTES);
      found.None? || found.value.value == ListOf([])
    ensures var r := GetPrinterAttributesResult(req, serverName, printing, uptime);
      var initial := NewResponse(SUCCESSFUL_OK, req.header.requestId).attributes;
      && r.Ok?
      && exists added: seq<IppAttribute> ::
           && r.value.attributes.Group(PRINTER_ATTRIBUTES_TAG) == initial.Group(PRINTER_ATTRIBUTES_TAG) + added
           && Names(added) == SUPPORTED_ATTRIBUTES && |added| == 23
  {
    var initial := NewResponse(SUCCESSFUL_OK, req.header.requestId).attributes;
    assert Requested(req.attributes.Get(OPERATION_ATTRIBUTES_TAG, REQUESTED_ATTRIBUTES)) == Ok([]);
    var added := Emitted(SUPPORTED_ATTRIBUTES, serverName, printing, uptime);
    EmittedNames(SUPPORTED_ATTRIBUTES, serverName, printing, uptime);
    SupportedOnlyKeepsSupported(SUPPORTED_ATTRIBUTES);
    AddAllAppends(initial, PRINTER_ATTRIBUTES_TAG, added);
    assert GetPrinterAttributesResult(req, serverName, printing, uptime).value.attributes ==
      AddAll(initial, PRINTER_ATTRIBUTES_TAG, added);
  }

  /** A list holding any non-keyword, or a value that is neither keyword nor list, is a bad request. */
  lemma MalformedSelectionRefused(req: DummyRequest, serverName: string, printing: bool, uptime: u64)
    requires var found := req.attributes.Get(OPERATION_ATTRIBUTES_TAG, REQUESTED_ATTRIBUTES);
      found.Some? && !found.value.value.Keyword? &&
      (found.value.value.ListOf? ==> exists i :: 0 <= i < |found.value.value.values| &&
                                       !found.value.value.values[i].Keyword?)
    ensures GetPrinterAttributesResult(req, serverName, printing, uptime) == Err(CLIENT_ERROR_BAD_REQUEST)
    ensures Respond(GetPrinterAttributesResult(req, serverName, printing, uptime), req).header ==
      IppHeader(IPP_VERSION, CLIENT_ERROR_BAD_REQUEST, req.header.requestId)
  {
  }

  /** Create-Job, Cancel-Job, Get-Job-Attributes and Get-Jobs are always answered with operation-not-supported. */
  lemma UnsupportedOperationsRefused(s: DummyServer, req: DummyRequest)
    ensures var expected := NewResponse(SERVER_ERROR_OPERATION_NOT_SUPPORTED, req.header.requestId);
      && Respond(s.CreateJob(req), req) == expected
      && Respond(s.CancelJob(req), req) == expected
      && Respond(s.GetJobAttributes(req), req) == expected
      && Respond(s.GetJobs(req), req) == expected
  {
  }

  /**
   * Whatever operation ran, the response `handle` sends echoes the request
   * id; its status is successful-ok exactly when the operation succeeded,
   * and the operation's error code otherwise.
   */
  lemma EveryResponseEchoesRequestId(s: DummyServer, req: DummyRequest, printing: bool, uptime: u64,
                                     result: Result<IppResponse, u16>)
    requires result in {GetPrinterAttributesResult(req, s.name, printing, uptime), Ok(PrintJobResponse(req.header.requestId)),
                         s.ValidateJob(req), s.CreateJob(req), s.CancelJob(req), s.GetJobAttributes(req), s.GetJobs(req)}
    ensures Respond(result, req).header.version == IPP_VERSION
    ensures Respond(result, req).header.requestId == req.header.requestId
    ensures Respond(result, req).header.operationStatus == if result.Ok? then SUCCESSFUL_OK else result.error
  {
  }

  /**
   * `print_job` answers successful-ok with the request id, appending job-uri,
   * job-id, job-state Processing and job-state-reasons, in that order, to the
   * job group of the fresh response and leaving its other groups as they were.
   */
  lemma PrintJobAttributes(requestId: u32)
    ensures var resp := PrintJobResponse(requestId);
      var initial := NewResponse(SUCCESSFUL_OK, requestId).attributes;
      && resp.header == IppHeader(IPP_VERSION, SUCCESSFUL_OK, requestId)
      && resp.attributes.Group(JOB_ATTRIBUTES_TAG) == initial.Group(JOB_ATTRIBUTES_TAG) + [
           IppAttribute(JOB_URI, Uri("ipp://192.168.1.217/jobs/foo")),
           IppAttribute(JOB_ID, Integer(1)),
           IppAttribute(JOB_STATE, Enum(JOB_STATE_PROCESSING)),
           IppAttribute(JOB_STATE_REASONS, Keyword("completed-successfully"))]
      && forall other :: other != JOB_ATTRIBUTES_TAG ==> resp.attributes.GetGroup(other) == initial.GetGroup(other)
  {
    var l0 := NewResponse(SUCCESSFUL_OK, requestId).attributes;
    var a0 := IppAttribute(JOB_URI, Uri("ipp://192.168.1.217/jobs/foo"));
    var a1 := IppAttribute(JOB_ID, Integer(1));
    var a2 := IppAttribute(JOB_STATE, Enum(JOB_STATE_PROCESSING));
    var a3 := IppAttribute(JOB_STATE_REASONS, Keyword("completed-successfully"));
    var l1 := l0.Add(JOB_ATTRIBUTES_TAG, a0);
    var l2 := l1.Add(JOB_ATTRIBUTES_TAG, a1);
    var l3 := l2.Add(JOB_ATTRIBUTES_TAG, a2);
    forall other | other != JOB_ATTRIBUTES_TAG
      ensures l3.Add(JOB_ATTRIBUTES_TAG, a3).GetGroup(other) == l0.GetGroup(other)
    {
      AddAppends(l0, JOB_ATTRIBUTES_TAG, a0, other);
      AddAppends(l1, JOB_ATTRIBUTES_TAG, a1, other);
      AddAppends(l2, JOB_ATTRIBUTES_TAG, a2, other);
      AddAppends(l3, JOB_ATTRIBUTES_TAG, a3, other);
    }
    AddAppends(l0, JOB_ATTRIBUTES_TAG, a0, 0);
    AddAppends(l1, JOB_ATTRIBUTES_TAG, a1, 0);
    AddAppends(l2, JOB_ATTRIBUTES_TAG, a2, 0);
    AddAppends(l3, JOB_ATTRIBUTES_TAG, a3, 0);
    assert l0.Group(JOB_ATTRIBUTES_TAG) + [a0] + [a1] + [a2] + [a3] == l0.Group(JOB_ATTRIBUTES_TAG) + [a0, a1, a2, a3];
  }

  /** The value of printer-up-time is the uptime truncated to 32 bits, so it wraps negative after 2^31 seconds. */
  lemma UptimeWraps()
    ensures AsI32(0x7FFF_FFFF) == 0x7FFF_FFFF
    ensures AsI32(0x8000_0000) == -0x8000_0000
    ensures AsI32(0x1_0000_0005) == 5
  {
  }
}
