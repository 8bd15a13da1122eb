# ipp.rs core, modelled in Dafny

A model of the core of `ipp.rs`, a Rust implementation of the Internet
Printing Protocol. It has three parts:

- **The message header and its stream helpers** (`src/lib.rs`). The header
  is the fixed 8-byte `IppHeader` of section 3.1.1 of RFC 8010: version,
  operation id or status code, and request id, all big-endian. `write`
  sends it to a writer. `from_reader` reads it back. `read_vec` and
  `read_string` do exact-length reads. `IPP_VERSION` is 1.1. `IppError`
  comes with conversions from I/O errors and status codes
  (`FromIoError`, `FromStatusCode`), which wrap the cause in the matching
  variant.
- **The outgoing request envelope** (`src/request.rs`).
  - `IppRequest::new` seeds the operation group with attributes-charset,
    attributes-natural-language and printer-uri. In printer-uri, every
    "http" of the URI is rewritten to "ipp".
  - `set_attribute` and `set_payload` change the envelope.
  - `write` sends the header, then the attribute list, then the payload.
    It returns the total byte count.
- **The example printer server** (`examples/ippserver.rs`).
  - Get-Printer-Attributes (section 4.2.5 of RFC 8011) reads
    requested-attributes. It then reports the supported names of that
    selection, or all 23 table entries when the selection is empty, from a
    fixed table of values.
  - printer-state reports Processing once after a Print-Job, then Idle.
  - Four job operations are refused with operation-not-supported.
  - `handle` turns an operation's error code into a response.

Modules, one per file:

| file | module | models |
|---|---|---|
| `types.dfy` | `IppTypes` | machine integer widths, `Result`, `Option`, I/O error kinds |
| `streams.dfy` | `Streams` | the writer (`Sink`, bounded room) and reader (`Source`) the codec works on |
| `utf8.dfy` | `Utf8` | `String::from_utf8_lossy` and UTF-8 encoding |
| `consts.dfy` | `IppConsts` | the tags, operation ids, status codes, enum values and attribute names used |
| `ipp.dfy` | `Ipp` | `src/lib.rs` |
| `attributes.dfy` | `Attributes` | `IppValue`, `IppAttribute`, `IppAttributeList` as ordered groups |
| `request.dfy` | `Request` | `src/request.rs` |
| `server.dfy` | `IppServerExample` | `examples/ippserver.rs` |

Stateful pieces are classes whose methods change fields:
- `IppRequest`, with its operation, URI, attribute list and payload;
- `DummyServer`, with its printing flag;
- the writer and reader streams.

Every such method is tied to a pure function of the old state: the header
bytes, the request bytes, `GetPrinterAttributesResult`, `Emitted`. The
lemmas state what the source promises about those functions.

Behaviour worth knowing:
- The printer-uri rewrite is textual. "https://h" becomes "ipps://h"
  (`PrinterUriSecureScheme`). An "http" inside a path or host name is
  rewritten too.
- The streams are in memory. A reader fails only when its input runs out;
  in the model a short read then consumes the rest of the input, as the
  default `read_exact` does. A full writer keeps the bytes that fitted,
  and the write fails with an I/O error.

## Model

| member | source | states |
|---|---|---|
| `Ipp.U16Bytes` | src/lib.rs:115-116 | a 16-bit field is sent as two bytes, high byte first |
| `Ipp.U32Bytes` | src/lib.rs:117 | the request id is sent as four bytes, most significant first |
| `Ipp.U16Of` | src/lib.rs:103-104 | reading two bytes big-endian inverts `U16Bytes` |
| `Ipp.U32Of` | src/lib.rs:105 | reading four bytes big-endian inverts `U32Bytes` |
| `Ipp.DecodeHeader` | src/lib.rs:101-107 | a header can be read exactly when at least 8 bytes are available |
| `Ipp.HeaderLayout` | src/lib.rs:114-120 | the header is 8 bytes: version in bytes 0-1, operation or status in 2-3, request id in 4-7, each big-endian |
| `Ipp.HeaderRoundTrip` | src/lib.rs:101-120 | reading back what `write` produced gives the same header and consumes exactly its 8 bytes |
| `Ipp.DecodeThenWrite` | src/lib.rs:101-120 | conversely, any 8 bytes are the encoding of the header read from them |
| `Ipp.WriteHeader` | src/lib.rs:114-120 | `write` sends the header bytes and returns 8; a writer with less room keeps the prefix that fits and the call fails with an I/O error |
| `Ipp.ReadHeader` | src/lib.rs:101-107 | `from_reader` returns the header of the next 8 bytes and advances past them; with fewer than 8 it fails with `IOError(UnexpectedEof)` |
| `Ipp.ReadVec` | src/lib.rs:129-136 | `read_vec(len)` returns exactly the next `len` bytes and advances past them, or fails on a short read |
| `Ipp.ReadString` | src/lib.rs:125-127 | `read_string` fails exactly when `read_vec` does; its text is the lossy decoding of the bytes, and on valid UTF-8 it is exactly the text they encode |
| `Streams.Source.ReadExact` | src/lib.rs:133 | `read_exact` fills the buffer with the next bytes and advances; on a short input it consumes everything and fails with `UnexpectedEof` |
| `Streams.Sink.WriteAll` | src/lib.rs:115-117 | `write_all` appends the data when it fits; otherwise it keeps what fits and fails with `WriteZero` |
| `Utf8.DecodeEncode` | src/lib.rs:126 | decoding the UTF-8 encoding of any text gives that text back, and the encoding is valid UTF-8 |
| `Utf8.EncodeDecodeValid` | src/lib.rs:126 | on valid UTF-8 the lossy decoding loses nothing: re-encoding gives the same bytes |
| `Utf8.DecodeLossyShorter` | src/lib.rs:126 | the decoded text has no more characters than there were bytes |
| `Attributes.AddAppends` | src/request.rs:60-62 | `add` appends the attribute at the end of its group, creates the group after all existing ones if new, and leaves every other group unchanged |
| `Attributes.GetFindsFirst` | examples/ippserver.rs:253 | `get` finds an attribute exactly when some attribute of the group has the name, and returns the first one with that name |
| `Request.NoHttpInPrinterUri` | src/request.rs:45 | the printer-uri value never contains "http" |
| `Request.PrinterUriUnchanged` | src/request.rs:45 | a URI without "http" is used unchanged |
| `Request.PrinterUriLength` | src/request.rs:45 | the rewritten URI is shorter than the given one by exactly the number of non-overlapping "http" occurrences, counted left to right, and at most a quarter of its length shorter |
| `Request.PrinterUriSecureScheme` | src/request.rs:45 | "https://h" becomes "ipps://h" |
| `Request.RequestLayout` | src/request.rs:65-80 | the request is an IPP/1.1 (0x0101) header with the operation and request id 1, then the attribute bytes, then the payload; its length is 8 + attributes + payload |
| `Request.IppRequest.constructor` | src/request.rs:26-47 | no payload; `uri` kept as given; the only group is the operation group holding attributes-charset utf-8, attributes-natural-language en and printer-uri, in that order; printer-uri has no "http" |
| `Request.IppRequest.Uri` | src/request.rs:50-52 | returns the stored URI, which the constructor sets to the URI as given, not the rewritten printer-uri |
| `Request.IppRequest.SetPayload` | src/request.rs:55-57 | the payload is replaced; operation, URI and attributes unchanged |
| `Request.IppRequest.SetAttribute` | src/request.rs:60-62 | the attribute is appended to its group; other groups, operation, URI and payload unchanged |
| `Request.IppRequest.Write` | src/request.rs:65-80 | the writer receives the request bytes, its room shrinks by what it took, and the call returns their count; if the writer fills up, the prefix that fits is kept and the call fails with an I/O error |
| `IppServerExample.AsI32` | examples/ippserver.rs:71-73 | `as i32` keeps the value modulo 2^32 in the signed range |
| `IppServerExample.UptimeWraps` | examples/ippserver.rs:71-73 | printer-up-time turns negative after 2^31 seconds and wraps at 2^32 |
| `IppServerExample.KeywordTexts` | examples/ippserver.rs:258-267 | a keyword list selects its keyword texts, one per element, in order |
| `IppServerExample.RequestedAttributes` | examples/ippserver.rs:252-272 | the push loop with early return computes `Requested`: absent selects nothing, a keyword selects itself, a list of keywords selects them in order, anything else is a bad request |
| `IppServerExample.SupportedOnlyIsFilter` | examples/ippserver.rs:280-287 | the reported names distribute over concatenation and keep or drop each name on its own: request order and duplicates survive, unsupported names vanish |
| `IppServerExample.SupportedOnlyKeepsSupported` | examples/ippserver.rs:274-287 | a selection made only of supported names, such as the default table, is reported in full, in order |
| `IppServerExample.SupportedOnlyMembers` | examples/ippserver.rs:280-287 | a name is reported if and only if it was selected and is supported |
| `IppServerExample.EmittedNames` | examples/ippserver.rs:280-287 | each reported attribute carries the name that selected it; the reported names are the filtered selection |
| `IppServerExample.PrinterStateReportedOnce` | examples/ippserver.rs:48-55 | printer-state reads Processing only at its first report while the flag is set, Idle everywhere else; the flag survives exactly when printer-state was not reported |
| `IppServerExample.AddAllAppends` | examples/ippserver.rs:280-287 | attributes added one by one to a list are appended, in order, to their group, and every other group stays as it was |
| `IppServerExample.GetPrinterAttributesOutcome` | examples/ippserver.rs:250-290 | the answer fails exactly when requested-attributes is malformed, with bad-request; otherwise it is successful-ok with the request id, its printer group gains attributes named by the filtered selection (the whole table for an empty selection) after those of the fresh response, and its other groups are the fresh response's |
| `IppServerExample.EmptySelectionReportsAll` | examples/ippserver.rs:274-278 | requested-attributes absent or an empty list adds all 23 supported attributes to the printer group, in table order |
| `IppServerExample.MalformedSelectionRefused` | examples/ippserver.rs:258-270 | a list holding a non-keyword, or a value that is neither keyword nor list, yields bad-request, answered with that status and the request id |
| `IppServerExample.DummyServer.GetPrinterAttribute` | examples/ippserver.rs:29-150 | the attribute carries the requested name and its table value; printer-state reads the flag and clears it |
| `IppServerExample.DummyServer.GetPrinterAttributes` | examples/ippserver.rs:222-290 | computes `GetPrinterAttributesResult` for the old flag; the flag is then cleared iff printer-state was reported, and untouched on error |
| `IppServerExample.DummyServer.ReportAttributes` | examples/ippserver.rs:280-287 | the loop adds `Emitted(selection)` to the printer group of the response it was given and threads the flag |
| `IppServerExample.DummyServer.PrintJob` | examples/ippserver.rs:168-193 | sets the printing flag and answers with the four job attributes |
| `IppServerExample.PrintJobAttributes` | examples/ippserver.rs:173-187 | the Print-Job response is successful-ok with the request id; job-uri, job-id, job-state Processing and job-state-reasons are appended, in that order, to the job group of the fresh response, and its other groups are unchanged |
| `IppServerExample.DummyServer.ValidateJob` | examples/ippserver.rs:195-204 | Validate-Job succeeds with a successful-ok response echoing the request id |
| `IppServerExample.DummyServer.CreateJob` | examples/ippserver.rs:206-208 | Create-Job always fails with operation-not-supported |
| `IppServerExample.DummyServer.CancelJob` | examples/ippserver.rs:210-212 | Cancel-Job always fails with operation-not-supported |
| `IppServerExample.DummyServer.GetJobAttributes` | examples/ippserver.rs:214-216 | Get-Job-Attributes always fails with operation-not-supported |
| `IppServerExample.DummyServer.GetJobs` | examples/ippserver.rs:218-220 | Get-Jobs always fails with operation-not-supported |
| `IppServerExample.NewResponse` | examples/ippserver.rs:250-251 | a response is created with an IPP/1.1 header carrying the given status and request id |
| `IppServerExample.Respond` | examples/ippserver.rs:305-310 | a successful operation's response is sent as built; an error code becomes a fresh response with IPP/1.1, that status and the request's id |
| `IppServerExample.UnsupportedOperationsRefused` | examples/ippserver.rs:206-220 | Create-Job, Cancel-Job, Get-Job-Attributes and Get-Jobs are always answered with operation-not-supported (0x0501) and the request id |
| `IppServerExample.EveryResponseEchoesRequestId` | examples/ippserver.rs:305-310 | whichever operation ran, the response sent has version 1.1 and the request's id, and its status is successful-ok when the operation succeeded and the error code otherwise |

## Left out

- The wire encoding of `IppValue` and of `IppAttributeList` (`IppAttributeList::write`), and `IppParser`, are not part of this model; the values and the list are modelled as structures only. The attribute list's wire encoding reaches `Request.IppRequest.Write` as a function parameter. Its returned byte count is taken to be the length of the bytes it writes.
- `IppHeader::new` is the datatype constructor `IppHeader(version, operationStatus, requestId)`; it stores its arguments unchanged.
- The payload is a byte sequence, not a `Read`. Reader errors during `io::copy` are not modelled. Neither is the payload being consumed by the copy; `write` borrows the request mutably for its lifetime, so it runs at most once.
- `HttpError` carries no details: hyper and the transport are outside the model, and so is `src/client.rs`.
- The numeric values of tags, operation ids, status codes and enums follow RFC 8010 and RFC 8011; the `consts` modules are not part of this model.
- `IppServerExample.DummyServer.GetPrinterAttribute`: the `panic!` branch for an unknown name is replaced by a precondition that the name is in the supported table or is printer-info.
- `IppServerExample.DummyServer.PrintJob`: the job data is not written to `printjob.dat`. The file open, the copy and their `unwrap` panics are left out.
- printer-up-time takes the uptime in seconds as a parameter. The clock, `start_time` and the `elapsed().unwrap()` panic on a clock that went backwards are left out.
- The printing flag is a plain boolean. The atomic loads and stores, and any interleaving of concurrent requests, are not modelled.
- `IppServerExample.Respond` covers only the error-to-response step of `handle`. Parsing the HTTP body with `IppParser` and writing the response are left out. So is the dispatch `ipp_handle_request`: `src/server.rs` is not part of this model.
- `IppServerExample.NewResponse`: `IppRequestResponse::new_response` is not part of this model. The model gives it an IPP/1.1 header with the status and the request id and an empty attribute list; the operation attributes a response must start with (attributes-charset and attributes-natural-language, section 4.1.4 of RFC 8011) are not modelled. The server properties are stated relative to the fresh response's attribute list and do not rely on it being empty.
- `Streams.Sink` and `Streams.Source` are in-memory streams: a reader fails only when its input runs out (`UnexpectedEof`) and a writer only when its room runs out (`WriteZero`). Other I/O errors, which `?` would pass on from a real reader or writer, and the retries on `Interrupted` inside `read_exact` and `write_all`, are not modelled; so the "fails exactly when fewer than N bytes remain" contracts of `Ipp.DecodeHeader`, `Ipp.ReadHeader`, `Ipp.ReadVec` and `Ipp.ReadString` hold for such streams only. That a failed read consumes the whole input is the model's choice, following the default `read_exact`; the standard library leaves it unspecified.
- `println!` and `debug!` logging are left out.
