/**
 * The outgoing request envelope: operation, target URI, attribute list and
 * an optional document payload, and its serialisation as header, then
 * attributes, then payload.
 */
module Request {
  import opened IppTypes
  import opened Streams
  import opened Ipp
  import opened Attributes
  import opened IppConsts

  /** `str::replace`: every occurrence of `pattern`, found leftmost first and without overlap, becomes `replacement`. */
  function ReplaceAll(s: string, pattern: string, replacement: string): string
    requires |pattern| > 0
    decreases |s|
  {
    if |s| < |pattern| then s
    else if s[..|pattern|] == pattern then replacement + ReplaceAll(s[|pattern|..], pattern, replacement)
    else [s[0]] + ReplaceAll(s[1..], pattern, replacement)
  }

  /** `pattern` occurs somewhere in `s`. */
  predicate Contains(s: string, pattern: string)
    decreases |s|
  {
    |s| >= |pattern| && (s[..|pattern|] == pattern || (|s| > 0 && Contains(s[1..], pattern)))
  }

  /** The value `IppRequest::new` gives printer-uri: every "http" of the URI becomes "ipp". */
  function PrinterUriValue(uri: string): string
  {
    ReplaceAll(uri, "http", "ipp")
  }

  /** When the rewritten URI does not start with the 'i' of an inserted "ipp", its head is the URI's own. */
  lemma RewrittenHead(s: string)
    requires |PrinterUriValue(s)| > 0 && PrinterUriValue(s)[0] != 'i'
    ensures |s| > 0 && s[0] == PrinterUriValue(s)[0]
    ensures !(|s| >= 4 && s[..4] == "http")
    ensures PrinterUriValue(s)[1..] == PrinterUriValue(s[1..])
  {
    if |s| < 4 {
      assert PrinterUriValue(s) == s;
      assert PrinterUriValue(s[1..]) == s[1..];
    }
  }

  lemma ContainsSkip(s: string, pattern: string)
    requires |s| > 0 && |pattern| > 0 && s[0] != pattern[0]
    ensures Contains(s, pattern) <==> Contains(s[1..], pattern)
  {
  }

  /** The printer-uri value never contains "http": no occurrence survives and the inserted "ipp" creates none. */
  lemma {:induction false} NoHttpInPrinterUri(s: string)
    ensures !Contains(PrinterUriValue(s), "http")
    decreases |s|
  {
    var r := PrinterUriValue(s);
    if |s| < 4 {
      assert r == s;
    } else if s[..4] == "http" {
      var tail := PrinterUriValue(s[4..]);
      NoHttpInPrinterUri(s[4..]);
      assert r == "ipp" + tail;
      assert r[1..] == "pp" + tail && r[1..][1..] == "p" + tail && r[1..][1..][1..] == tail;
      ContainsSkip(r[1..][1..], "http");
      ContainsSkip(r[1..], "http");
      ContainsSkip(r, "http");
    } else {
      var tail := PrinterUriValue(s[1..]);
      NoHttpInPrinterUri(s[1..]);
      assert r == [s[0]] + tail && r[1..] == tail;
      if |r| >= 4 && r[..4] == "http" {
        RewrittenHead(s[1..]);
        assert tail[1..] == PrinterUriValue(s[2..]);
        RewrittenHead(s[2..]);
        assert tail[2..] == PrinterUriValue(s[3..]);
        RewrittenHead(s[3..]);
        assert false;
      }
    }
  }

  /** A URI with no "http" in it is used unchanged. */
  lemma {:induction false} PrinterUriUnchanged(s: string)
    requires !Contains(s, "http")
    ensures PrinterUriValue(s) == s
    decreases |s|
  {
    if |s| >= 4 {
      PrinterUriUnchanged(s[1..]);
    }
  }

  lemma RewriteMatch(s: string)
    ensures PrinterUriValue("http" + s) == "ipp" + PrinterUriValue(s)
  {
    assert ("http" + s)[..4] == "http" && ("http" + s)[4..] == s;
  }

  /** The number of "http" occurrences `str::replace` finds, scanning left to right without overlap. */
  function HttpCount(s: string): nat
    decreases |s|
  {
    if |s| < 4 then 0
    else if s[..4] == "http" then 1 + HttpCount(s[4..])
    else HttpCount(s[1..])
  }

  /** Each occurrence found costs one character: the rewritten URI is shorter by exactly their number. */
  lemma {:induction false} PrinterUriLength(s: string)
    ensures |PrinterUriValue(s)| == |s| - HttpCount(s)
    ensures HttpCount(s) <= |s| / 4
    decreases |s|
  {
    if |s| >= 4 {
      if s[..4] == "http" {
        PrinterUriLength(s[4..]);
      } else {
        PrinterUriLength(s[1..]);
      }
    }
  }

  /** "https" becomes "ipps": the rewrite works on the text, not on the scheme. */
  lemma PrinterUriSecureScheme()
    ensures PrinterUriValue("https://h") == "ipps://h"
  {
    PrinterUriUnchanged("s://h");
    RewriteMatch("s://h");
    assert "https://h" == "http" + "s://h";
  }

  /** The three operation attributes `IppRequest::new` starts with, in order (section 4.1.4 of RFC 8011). */
  function InitialAttributes(uri: string): seq<IppAttribute>
  {
    [IppAttribute(ATTRIBUTES_CHARSET, Charset("utf-8")),
     IppAttribute(ATTRIBUTES_NATURAL_LANGUAGE, NaturalLanguage("en")),
     IppAttribute(PRINTER_URI, Uri(PrinterUriValue(uri)))]
  }

  /** What `IppRequest::write` sends: header, attribute bytes, then the payload if there is one. */
  function RequestBytes(operation: u16, attributes: IppAttributeList, payload: Option<seq<byte>>,
                        encode: IppAttributeList -> seq<byte>): seq<byte>
  {
    HeaderBytes(IppHeader(IPP_VERSION, operation, 1)) + encode(attributes) +
    (if payload.Some? then payload.value else [])
  }

  /**
   * The request on the wire: an IPP/1.1 header carrying the operation and
   * request id 1, then exactly the attribute list's bytes, then the payload
   * bytes; its length is 8 plus the two.
   */
  lemma RequestLayout(operation: u16, attributes: IppAttributeList, payload: Option<seq<byte>>,
                      encode: IppAttributeList -> seq<byte>)
    ensures var b := RequestBytes(operation, attributes, payload, encode);
      var p := if payload.Some? then payload.value else [];
      && |b| == 8 + |encode(attributes)| + |p|
      && DecodeHeader(b) == Some(IppHeader(0x0101, operation, 1))
      && b[8..8 + |encode(attributes)|] == encode(attributes)
      && b[8 + |encode(attributes)|..] == p
  {
    var h := IppHeader(IPP_VERSION, operation, 1);
    var p := if payload.Some? then payload.value else [];
    HeaderLayout(h);
    HeaderRoundTrip(h, encode(attributes) + p);
    assert RequestBytes(operation, attributes, payload, encode) == HeaderBytes(h) + (encode(attributes) + p);
  }

  /** `IppRequest`. */
  class IppRequest {
    var operation: u16
    var uri: string
    var attributes: IppAttributeList
    var payload: Option<seq<byte>>

    /**
     * `IppRequest::new`: no payload, and an attribute list holding only the
     * operation group with attributes-charset, attributes-natural-language
     * and printer-uri, in that order.
     */
    constructor (operation: u16, uri: string)
      ensures this.operation == operation && Uri() == uri && payload == None
      ensures attributes.groups == [AttributeGroup(OPERATION_ATTRIBUTES_TAG, InitialAttributes(uri))]
      ensures !Contains(attributes.Group(OPERATION_ATTRIBUTES_TAG)[2].value.text, "http")
    {
      this.operation := operation;
      this.uri := uri;
      attributes := IppAttributeList([]);
      payload := None;
      new;
      var initial := InitialAttributes(uri);
      SetAttribute(OPERATION_ATTRIBUTES_TAG, IppAttribute(ATTRIBUTES_CHARSET, Charset("utf-8")));
      assert initial[..1] == [initial[0]];
      SetAttribute(OPERATION_ATTRIBUTES_TAG, IppAttribute(ATTRIBUTES_NATURAL_LANGUAGE, NaturalLanguage("en")));
      assert initial[..1] + [initial[1]] == initial[..2];
      assert attributes.groups == [AttributeGroup(OPERATION_ATTRIBUTES_TAG, initial[..2])];
      SetAttribute(OPERATION_ATTRIBUTES_TAG, IppAttribute(PRINTER_URI, Attributes.Uri(PrinterUriValue(uri))));
      assert initial[..2] + [initial[2]] == initial;
      NoHttpInPrinterUri(uri);
    }

    /** `IppRequest::uri`: the URI as given, before any rewriting. */
    function Uri(): (u: string)
      reads this
      ensures u == uri
    {
      uri
    }

    /** `IppRequest::set_payload`: the new payload replaces any earlier one. */
    method SetPayload(p: seq<byte>)
      modifies this
      ensures payload == Some(p)
      ensures operation == old(operation) && uri == old(uri) && attributes == old(attributes)
    {
      payload := Some(p);
    }

    /** `IppRequest::set_attribute`: appends to the group; every other group, and the rest of the request, unchanged. */
    method SetAttribute(tag: byte, attribute: IppAttribute)
      modifies this
      ensures attributes == old(attributes).Add(tag, attribute)
      ensures attributes.GetGroup(tag) == Some(old(attributes).Group(tag) + [attribute])
      ensures forall other :: other != tag ==> attributes.GetGroup(other) == old(attributes).GetGroup(other)
      ensures operation == old(operation) && uri == old(uri) && payload == old(payload)
    {
      attributes := attributes.Add(tag, attribute);
      forall other | true
        ensures other != tag ==> attributes.GetGroup(other) == old(attributes).GetGroup(other)
        ensures attributes.GetGroup(tag) == Some(old(attributes).Group(tag) + [attribute])
      {
        AddAppends(old(attributes), tag, attribute, other);
      }
    }

    /**
     * `IppRequest::write`: header, attributes and payload in that order.
     * It returns their total length, or the I/O error of the first write
     * the sink refused, having kept what fitted.
     */
    method Write(w: Sink, encode: IppAttributeList -> seq<byte>) returns (r: Result<nat, IppError>)
      modifies w
      ensures var b := RequestBytes(operation, attributes, payload, encode);
        && w.written == old(w.written) + b[..Min(|b|, old(w.room))]
        && w.room == old(w.room) - Min(|b|, old(w.room))
        && r == if |b| <= old(w.room) then Ok(|b|) else Err(IOError(WriteZero))
    {
      ghost var b := RequestBytes(operation, attributes, payload, encode);
      var hdr := IppHeader(IPP_VERSION, operation, 1);
      HeaderLayout(hdr);
      var n := WriteHeader(hdr, w);
      if n.Err? {
        assert b[..old(w.room)] == HeaderBytes(hdr)[..old(w.room)];
        return n;
      }
      var retval := n.value;
      var encoded := encode(attributes);
      var e := w.WriteAll(encoded);
      if e.Err? {
        assert b[..old(w.room)] == HeaderBytes(hdr) + encoded[..old(w.room) - 8];
        return Err(FromIoError(e.error));
      }
      retval := retval + |encoded|;
      if payload.Some? {
        e := w.WriteAll(payload.value);
        if e.Err? {
          assert b[..old(w.room)] == HeaderBytes(hdr) + encoded + payload.value[..old(w.room) - 8 - |encoded|];
          return Err(FromIoError(e.error));
        }
        retval := retval + |payload.value|;
      }
      assert b[..|b|] == HeaderBytes(hdr) + encoded + (if payload.Some? then payload.value else []);
      r := Ok(retval);
    }
  }
}
