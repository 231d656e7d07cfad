/** Header fields of a proxied request: what frames its body, and what is passed on. */
module ProxyHeaders {
  import opened Text
  import PyInt

  type Headers = seq<(string, string)>

  const HOP_BY_HOP_HEADERS: set<string> := {
    "connection", "keep-alive", "proxy-authenticate", "proxy-authorization", "proxy-connection",
    "te", "trailer", "transfer-encoding", "upgrade"
  }

  predicate IsSafeHeader(name: string, value: string) {
    '\r' !in name && '\n' !in name && '\r' !in value && '\n' !in value
  }

  /** The values of all fields with the (lower-case) name, in order. */
  function Values(headers: Headers, name: string): seq<string> {
    if headers == [] then []
    else
      var (key, value) := headers[|headers| - 1];
      Values(headers[..|headers| - 1], name) + if Lower(key) == name then [value] else []
  }

  /** `headers.get(name)`: the first field of that name. */
  function Get(headers: Headers, name: string): Option<string> {
    var values := Values(headers, name);
    if values == [] then None else Some(values[0])
  }

  lemma {:induction false} ValuesAppend(a: Headers, b: Headers, name: string)
    ensures Values(a + b, name) == Values(a, name) + Values(b, name)
  {
    if b == [] {
      assert a + b == a;
    } else {
      assert (a + b)[..|a + b| - 1] == a + b[..|b| - 1];
      ValuesAppend(a, b[..|b| - 1], name);
    }
  }

  // ----- framing of a request body

  datatype Framing = Chunked | Fixed(length: nat) | NoBody | Invalid

  function AfterLastComma(s: string): string {
    if s == [] || s[|s| - 1] == ',' then []
    else AfterLastComma(s[..|s| - 1]) + [s[|s| - 1]]
  }

  function FinalCoding(value: string): string { Lower(Trim(AfterLastComma(value))) }

  /** The length that Content-Length fields give: all must be decimal numerals and agree. */
  function AgreedLength(values: seq<string>): Option<nat> {
    if values != [] && forall i | 0 <= i < |values| ::
         PyInt.Decimal(Trim(values[i])) == PyInt.Decimal(Trim(values[0]))
    then PyInt.Decimal(Trim(values[0]))
    else None
  }

  /** Section 3.3.3 of RFC 7230 for requests. Transfer-Encoding overrides Content-Length and must
      end in `chunked`. */
  function RfcFraming(headers: Headers): Framing {
    var te := Values(headers, "transfer-encoding");
    var cl := Values(headers, "content-length");
    if te != [] then
      if FinalCoding(te[|te| - 1]) == "chunked" then Chunked else Invalid
    else if cl == [] then NoBody
    else
      match AgreedLength(cl)
      case Some(n) => Fixed(n)
      case None => Invalid
  }

  /** What `_proxy` takes the body to be: the first Content-Length must satisfy int(), then the
      first Transfer-Encoding wins if it mentions `chunked` anywhere. */
  datatype Intake = Refused | TakeChunks | TakeBytes(length: int) | TakeNothing

  predicate MentionsChunked(headers: Headers) {
    var te := Get(headers, "transfer-encoding");
    te.Some? && Contains(Lower(te.value), "chunked")
  }

  function IntakeOf(headers: Headers): Intake {
    var cl := Get(headers, "content-length");
    if cl.Some? && PyInt.Parse(cl.value, 10).None? then Refused
    else if MentionsChunked(headers) then TakeChunks
    else if cl.None? then TakeNothing
    else TakeBytes(PyInt.Parse(cl.value, 10).value)
  }

  function Intended(framing: Framing): Intake {
    match framing
    case Chunked => TakeChunks
    case Fixed(n) => TakeBytes(n)
    case NoBody => TakeNothing
    case Invalid => Refused
  }

  /** The proxy can make sense of the Content-Length, if there is one. */
  predicate LengthParses(headers: Headers) {
    var cl := Get(headers, "content-length");
    cl.None? || PyInt.Parse(cl.value, 10).Some?
  }

  /** There is no Transfer-Encoding, or the first one mentions `chunked` and the Content-Length that
      it overrides parses all the same. */
  predicate CodingIsTaken(headers: Headers) {
    || Get(headers, "transfer-encoding").None?
    || (MentionsChunked(headers) && LengthParses(headers))
  }

  /** Exactly when the proxy frames a validly framed request as the RFC does. */
  lemma IntakeFollowsRfc(headers: Headers)
    requires !RfcFraming(headers).Invalid?
    ensures IntakeOf(headers) == Intended(RfcFraming(headers)) <==> CodingIsTaken(headers)
  {
    hide Values, FinalCoding, Contains, PyInt.Parse, PyInt.Decimal;
    var cl := Values(headers, "content-length");
    if RfcFraming(headers).Fixed? {
      PyInt.ParseDecimal(cl[0]);
    }
  }

  /** A single Transfer-Encoding field cannot hide its final `chunked`. */
  lemma OneTransferEncodingIsSeen(headers: Headers)
    requires !RfcFraming(headers).Invalid? && |Values(headers, "transfer-encoding")| <= 1
    ensures Get(headers, "transfer-encoding").None? || MentionsChunked(headers)
  {
    hide Values, FinalCoding, Contains, PyInt.Parse, PyInt.Decimal;
    var te := Values(headers, "transfer-encoding");
    if te != [] {
      assert FinalCoding(te[0]) == "chunked";
      FinalChunkedIsMentioned(te[0]);
    }
  }

  lemma OneTransferEncodingFollowsRfc(headers: Headers)
    requires !RfcFraming(headers).Invalid? && |Values(headers, "transfer-encoding")| <= 1
    ensures IntakeOf(headers) == Intended(RfcFraming(headers))
      <==> (Get(headers, "transfer-encoding").None? || LengthParses(headers))
  {
    OneTransferEncodingIsSeen(headers);
    IntakeFollowsRfc(headers);
  }

  lemma NoValues()
    ensures forall name :: Values([], name) == []
  {
  }

  lemma OneField(key: string, value: string, name: string)
    ensures Values([(key, value)], name) == if Lower(key) == name then [value] else []
  {
    assert [(key, value)][..0] == [];
  }

  lemma TwoFields(a: (string, string), b: (string, string), name: string)
    ensures Values([a, b], name)
         == (if Lower(a.0) == name then [a.1] else []) + (if Lower(b.0) == name then [b.1] else [])
  {
    assert [a, b][..1] == [a] && [a][..0] == [];
    assert Values([a], name) == if Lower(a.0) == name then [a.1] else [];
    assert Values([a, b], name) == Values([a], name) + if Lower(b.0) == name then [b.1] else [];
  }

  /** First way to fail: the codings are spread over two fields, and the final `chunked` is in the
      second one. */
  lemma SecondTransferEncodingIsNotSeen()
    ensures var headers := [("Transfer-Encoding", "gzip"), ("Transfer-Encoding", "chunked")];
      RfcFraming(headers) == Chunked && IntakeOf(headers) == TakeNothing
  {
    var headers := [("Transfer-Encoding", "gzip"), ("Transfer-Encoding", "chunked")];
    assert Lower("Transfer-Encoding") == "transfer-encoding";
    TwoFields(headers[0], headers[1], "transfer-encoding");
    TwoFields(headers[0], headers[1], "content-length");
    ChunkedAlone();
    assert |Lower("gzip")| < |"chunked"|;
  }

  /** Second way: a Content-Length that `chunked` overrides is refused before that is known. */
  lemma OverriddenLengthIsRefused()
    ensures var headers := [("Content-Length", "x"), ("Transfer-Encoding", "chunked")];
      RfcFraming(headers) == Chunked && IntakeOf(headers) == Refused
  {
    var headers := [("Content-Length", "x"), ("Transfer-Encoding", "chunked")];
    assert Lower("Transfer-Encoding") == "transfer-encoding";
    assert Lower("Content-Length") == "content-length";
    TwoFields(headers[0], headers[1], "transfer-encoding");
    TwoFields(headers[0], headers[1], "content-length");
    ChunkedAlone();
    StripTight("x");
  }

  lemma LengthAlone(value: string)
    ensures AgreedLength([value]) == PyInt.Decimal(Trim(value))
  {
  }

  /** Ordinary requests, in any letter case, are taken as the RFC frames them. */
  lemma OrdinaryRequests()
    ensures RfcFraming([]) == NoBody && IntakeOf([]) == TakeNothing
    ensures var headers := [("CONTENT-LENGTH", "12")];
      RfcFraming(headers) == Fixed(12) && IntakeOf(headers) == TakeBytes(12)
    ensures var headers := [("Transfer-Encoding", "gzip, Chunked")];
      RfcFraming(headers) == Chunked && IntakeOf(headers) == TakeChunks
  {
    hide Values, FinalCoding, PyInt.Parse, PyInt.Decimal, AgreedLength, Trim, Contains;
    assert Values([], "content-length") == [] && Values([], "transfer-encoding") == [] by {
      NoValues();
    }
    OneField("CONTENT-LENGTH", "12", "content-length");
    OneField("CONTENT-LENGTH", "12", "transfer-encoding");
    OneField("Transfer-Encoding", "gzip, Chunked", "transfer-encoding");
    OneField("Transfer-Encoding", "gzip, Chunked", "content-length");
    assert Lower("CONTENT-LENGTH") == "content-length";
    assert Lower("Transfer-Encoding") == "transfer-encoding";
    TrimTight("12");
    PyInt.ShortNumerals();
    LastOfTwo();
    PyInt.ParseDecimal("12");
    LengthAlone("12");
    var headers := [("Transfer-Encoding", "gzip, Chunked")];
    OneTransferEncodingIsSeen(headers);
  }

  lemma LastOfTwo()
    ensures FinalCoding("gzip, Chunked") == "chunked"
  {
    hide Trim, AfterLastComma;
    assert "gzip," + " Chunked" == "gzip, Chunked" && " " + "Chunked" == " Chunked";
    AfterLastCommaOf("gzip,", " Chunked");
    TrimOneSpace("Chunked");
    assert Lower("Chunked") == "chunked";
  }

  lemma TrimOneSpace(s: string)
    requires s != [] && !IsOws(s[0]) && !IsOws(s[|s| - 1])
    ensures Trim(" " + s) == s
  {
    assert (" " + s)[1..] == s;
    assert TrimLeft(" " + s) == TrimLeft(s) == s;
  }

  lemma {:induction false} AfterLastCommaOf(a: string, b: string)
    requires a != [] && a[|a| - 1] == ',' && ',' !in b
    ensures AfterLastComma(a + b) == b
  {
    if b == [] {
      assert a + b == a;
    } else {
      assert (a + b)[..|a + b| - 1] == a + b[..|b| - 1];
      AfterLastCommaOf(a, b[..|b| - 1]);
    }
  }

  /** Requests without a framing: codings that do not end in chunked, lengths that disagree. Of two
      lengths the proxy goes by the first. */
  lemma RequestsWithoutFraming()
    ensures RfcFraming([("Transfer-Encoding", "gzip")]) == Invalid
    ensures var headers := [("Content-Length", "3"), ("Content-Length", "12")];
      RfcFraming(headers) == Invalid && IntakeOf(headers) == TakeBytes(3)
  {
    hide Values, FinalCoding, PyInt.Parse, PyInt.Decimal, AgreedLength, Trim, Contains;
    OneField("Transfer-Encoding", "gzip", "transfer-encoding");
    assert Lower("Transfer-Encoding") == "transfer-encoding";
    assert Lower("Content-Length") == "content-length";
    NotChunked();
    LengthsDisagree();
    var headers := [("Content-Length", "3"), ("Content-Length", "12")];
    TwoFields(headers[0], headers[1], "content-length");
    TwoFields(headers[0], headers[1], "transfer-encoding");
    assert ["3"] + ["12"] == ["3", "12"];
  }

  lemma NotChunked()
    ensures FinalCoding("gzip") != "chunked"
  {
    NoComma("gzip");
    TrimTight("gzip");
    assert |Lower("gzip")| < |"chunked"|;
  }

  lemma LengthsDisagree()
    ensures AgreedLength(["3", "12"]) == None && PyInt.Parse("3", 10) == Some(3)
  {
    hide PyInt.Parse, PyInt.Decimal, Trim;
    TrimTight("3");
    TrimTight("12");
    PyInt.ShortNumerals();
    PyInt.ParseDecimal("3");
    var values := ["3", "12"];
    assert PyInt.Decimal(Trim(values[1])) != PyInt.Decimal(Trim(values[0]));
  }

  lemma ChunkedAlone()
    ensures FinalCoding("chunked") == "chunked"
  {
    NoComma("chunked");
    TrimTight("chunked");
    assert Lower("chunked") == "chunked";
  }

  /** int() accepts a signed Content-Length. A request that gets through with a negative one is
      validly framed exactly if its last Transfer-Encoding field ends in `chunked`, and then that
      is a field the proxy does not look at. */
  lemma WhenNegativeLengthIsValid(headers: Headers)
    requires IntakeOf(headers).TakeBytes? && IntakeOf(headers).length < 0
    ensures var te := Values(headers, "transfer-encoding");
      && (!RfcFraming(headers).Invalid? <==> te != [] && FinalCoding(te[|te| - 1]) == "chunked")
      && (!RfcFraming(headers).Invalid? ==> |te| >= 2)
  {
    hide Values, FinalCoding, Contains, PyInt.Parse, PyInt.Decimal;
    var cl := Values(headers, "content-length");
    if PyInt.Decimal(Trim(cl[0])).Some? {
      PyInt.ParseDecimal(cl[0]);
    }
    if !RfcFraming(headers).Invalid? && |Values(headers, "transfer-encoding")| <= 1 {
      OneTransferEncodingIsSeen(headers);
      assert false;
    }
  }

  /** Such a request: its chunked body is taken for no body at all. */
  lemma NegativeLengthOnChunked()
    ensures
      var headers := [("Content-Length", "-5"),
                      ("Transfer-Encoding", "gzip"), ("Transfer-Encoding", "chunked")];
      RfcFraming(headers) == Chunked && IntakeOf(headers) == TakeBytes(-5)
  {
    var headers := [("Content-Length", "-5"),
                    ("Transfer-Encoding", "gzip"), ("Transfer-Encoding", "chunked")];
    assert headers == headers[..1] + headers[1..];
    assert Lower("Transfer-Encoding") == "transfer-encoding";
    assert Lower("Content-Length") == "content-length";
    forall name
      ensures Values(headers, name) == Values(headers[..1], name) + Values(headers[1..], name)
    {
      ValuesAppend(headers[..1], headers[1..], name);
    }
    TwoFields(headers[1], headers[2], "transfer-encoding");
    TwoFields(headers[1], headers[2], "content-length");
    AppendField([], "Content-Length", "-5", "content-length");
    AppendField([], "Content-Length", "-5", "transfer-encoding");
    ChunkedAlone();
    assert |Lower("gzip")| < |"chunked"|;
    PyInt.MinusFive();
  }

  lemma {:induction false} NoComma(s: string)
    requires ',' !in s
    ensures AfterLastComma(s) == s
  {
    if s != [] {
      NoComma(s[..|s| - 1]);
    }
  }

  lemma {:induction false} AfterLastCommaIsSuffix(s: string) returns (k: nat)
    ensures k <= |s| && AfterLastComma(s) == s[k..]
  {
    k := |s|;
    if s != [] && s[|s| - 1] != ',' {
      k := AfterLastCommaIsSuffix(s[..|s| - 1]);
    }
  }

  lemma FinalChunkedIsMentioned(value: string)
    requires FinalCoding(value) == "chunked"
    ensures Contains(Lower(value), "chunked")
  {
    var k := AfterLastCommaIsSuffix(value);
    var a, b := TrimIsSlice(value[k..]);
    assert Lower(value)[k + a..k + b] == Lower(value[k..][a..b]);
    assert OccursAt(Lower(value), "chunked", k + a);
  }

  // ----- the header fields passed on

  predicate IsForwardable(name: string, value: string) {
    Lower(name) !in HOP_BY_HOP_HEADERS && Lower(name) != "host" && IsSafeHeader(name, value)
  }

  function SafeValues(headers: Headers, name: string): seq<string> {
    if headers == [] then []
    else
      var (key, value) := headers[|headers| - 1];
      SafeValues(headers[..|headers| - 1], name)
        + if Lower(key) == name && IsSafeHeader(key, value) then [value] else []
  }

  function KeptValues(headers: Headers, name: string): seq<string> {
    if name == "host" || name in HOP_BY_HOP_HEADERS then [] else SafeValues(headers, name)
  }

  /** What the backend must see under each name: Host is the backend alone, hop-by-hop fields are
      gone, and every other name keeps its safe values in order. */
  function ForwardedValues(headers: Headers, backend: string, name: string): seq<string> {
    if name == "host" then [backend] else KeptValues(headers, name)
  }

  lemma AppendField(out: Headers, key: string, value: string, name: string)
    ensures Values(out + [(key, value)], name)
         == Values(out, name) + if Lower(key) == name then [value] else []
  {
    assert (out + [(key, value)])[..|out|] == out;
  }

  /** `_forwardable_request_headers`. */
  method ForwardableRequestHeaders(headers: Headers, backend: string) returns (out: Headers)
    ensures forall name :: Values(out, name) == ForwardedValues(headers, backend, name)
  {
    out := [];
    for i := 0 to |headers|
      invariant forall name :: Values(out, name) == KeptValues(headers[..i], name)
    {
      var (key, value) := headers[i];
      assert headers[..i + 1][..i] == headers[..i];
      if IsForwardable(key, value) {
        forall name ensures Values(out + [(key, value)], name)
                         == Values(out, name) + if Lower(key) == name then [value] else []
        {
          AppendField(out, key, value, name);
        }
        out := out + [(key, value)];
      }
    }
    assert headers[..|headers|] == headers;
    AddHost(headers, backend, out);
    out := out + [("Host", backend)];
  }

  lemma AddHost(headers: Headers, backend: string, out: Headers)
    requires forall name :: Values(out, name) == KeptValues(headers, name)
    ensures forall name ::
      Values(out + [("Host", backend)], name) == ForwardedValues(headers, backend, name)
  {
    assert Lower("Host") == "host";
    forall name
      ensures Values(out + [("Host", backend)], name) == ForwardedValues(headers, backend, name)
    {
      AppendField(out, "Host", backend, name);
    }
  }

  function RelayedValues(headers: Headers, backend: string, chunked: bool, name: string): seq<string> {
    if chunked && name == "content-length" then [] else ForwardedValues(headers, backend, name)
  }

  /** What the backend must see once the body's framing is settled. */
  function HeadValues(headers: Headers, backend: string, chunked: bool, name: string): seq<string> {
    if chunked && name == "transfer-encoding" then ["chunked"]
    else RelayedValues(headers, backend, chunked, name)
  }

  function Relayed(forwardable: Headers, chunked: bool, name: string): seq<string> {
    if chunked && name == "content-length" then [] else Values(forwardable, name)
  }

  /** The `putheader` calls of `_proxy`: Content-Length is dropped and Transfer-Encoding added
      back when the body goes out chunked. */
  method RequestHead(headers: Headers, backend: string, chunked: bool) returns (head: Headers)
    ensures forall name :: Values(head, name) == HeadValues(headers, backend, chunked, name)
  {
    var forwardable := ForwardableRequestHeaders(headers, backend);
    head := [];
    for i := 0 to |forwardable|
      invariant forall name :: Values(head, name) == Relayed(forwardable[..i], chunked, name)
    {
      var (key, value) := forwardable[i];
      assert forwardable[..i + 1][..i] == forwardable[..i];
      if !(chunked && Lower(key) == "content-length") {
        forall name ensures Values(head + [(key, value)], name)
                         == Values(head, name) + if Lower(key) == name then [value] else []
        {
          AppendField(head, key, value, name);
        }
        head := head + [(key, value)];
      }
    }
    assert forwardable[..|forwardable|] == forwardable;
    if chunked {
      AddTransferEncoding(headers, backend, head);
      head := head + [("Transfer-Encoding", "chunked")];
    }
  }

  lemma AddTransferEncoding(headers: Headers, backend: string, head: Headers)
    requires forall name :: Values(head, name) == RelayedValues(headers, backend, true, name)
    ensures forall name :: Values(head + [("Transfer-Encoding", "chunked")], name)
                        == HeadValues(headers, backend, true, name)
  {
    assert Lower("Transfer-Encoding") == "transfer-encoding";
    forall name ensures Values(head + [("Transfer-Encoding", "chunked")], name)
                     == HeadValues(headers, backend, true, name)
    {
      AppendField(head, "Transfer-Encoding", "chunked", name);
    }
  }

  /** The head sent on announces the framing the proxy writes the body in. */
  lemma HeadAnnouncesBody(headers: Headers, backend: string, head: Headers)
    requires !RfcFraming(headers).Invalid?
    requires forall name ::
      Values(head, name) == HeadValues(headers, backend, RfcFraming(headers).Chunked?, name)
    ensures RfcFraming(head) == RfcFraming(headers)
  {
    hide Values, SafeValues, FinalCoding, PyInt.Decimal;
    assert Values(head, "transfer-encoding")
        == if RfcFraming(headers).Chunked? then ["chunked"] else [];
    if RfcFraming(headers).Chunked? {
      ChunkedAlone();
    } else {
      LengthFieldsAreSafe(headers);
      assert Values(head, "content-length") == Values(headers, "content-length");
    }
  }

  lemma {:induction false} LengthFieldsAreSafe(headers: Headers)
    requires forall i | 0 <= i < |Values(headers, "content-length")| ::
      PyInt.Decimal(Trim(Values(headers, "content-length")[i])).Some?
    ensures SafeValues(headers, "content-length") == Values(headers, "content-length")
  {
    if headers != [] {
      var init := headers[..|headers| - 1];
      var (key, value) := headers[|headers| - 1];
      var all := Values(headers, "content-length");
      assert Values(init, "content-length") <= all;
      LengthFieldsAreSafe(init);
      if Lower(key) == "content-length" {
        assert all[|all| - 1] == value;
        SafeField(key, value);
      }
    }
  }

  lemma SafeField(key: string, value: string)
    requires Lower(key) == "content-length" && PyInt.Decimal(Trim(value)).Some?
    ensures IsSafeHeader(key, value)
  {
    var a, b := TrimIsSlice(value);
    forall i | 0 <= i < |value| ensures value[i] != '\r' && value[i] != '\n' {
      if a <= i < b {
        assert value[i] == Trim(value)[i - a];
      }
    }
    NameIsSafe(key, "content-length");
  }

  lemma NameIsSafe(key: string, name: string)
    requires Lower(key) == name && '\r' !in name && '\n' !in name
    ensures '\r' !in key && '\n' !in key
  {
    assert forall i | 0 <= i < |key| :: name[i] == LowerChar(key[i]);
    assert forall i | 0 <= i < |key| :: name[i] in name;
  }

  /** Under every name but the nine hop-by-hop ones, Host, and Content-Length before a chunked body,
      the backend sees what the client sent. */
  lemma WhatTheBackendSees(headers: Headers, backend: string, chunked: bool, name: string)
    requires forall i | 0 <= i < |headers| && Lower(headers[i].0) == name ::
      && '\r' !in headers[i].0 && '\n' !in headers[i].0
      && '\r' !in headers[i].1 && '\n' !in headers[i].1
    requires name != "connection" && name != "keep-alive" && name != "proxy-authenticate"
    requires name != "proxy-authorization" && name != "proxy-connection" && name != "te"
    requires name != "trailer" && name != "transfer-encoding" && name != "upgrade"
    ensures name != "host" && !(chunked && name == "content-length") ==>
      HeadValues(headers, backend, chunked, name) == Values(headers, name)
    ensures EndToEndValues(headers, name) == Values(headers, name)
  {
    SafeFieldsKeepValues(headers, name);
  }

  /** What it sees under the others, and what the client sees of the hop-by-hop ones. */
  lemma WhatNobodySees(headers: Headers, backend: string, chunked: bool, name: string)
    requires name in ["connection", "keep-alive", "proxy-authenticate", "proxy-authorization",
                      "proxy-connection", "te", "trailer", "transfer-encoding", "upgrade"]
    ensures EndToEndValues(headers, name) == []
    ensures HeadValues(headers, backend, chunked, name)
         == if chunked && name == "transfer-encoding" then ["chunked"] else []
    ensures HeadValues(headers, backend, chunked, "host") == [backend]
    ensures HeadValues(headers, backend, true, "content-length") == []
  {
  }

  /** A field with a line break in its name or its value might as well not be there. */
  lemma LineBreaksAreDropped(headers: Headers, i: nat, backend: string, chunked: bool, name: string)
    requires i < |headers|
    requires '\r' in headers[i].0 || '\n' in headers[i].0 || '\r' in headers[i].1 || '\n' in headers[i].1
    ensures var without := headers[..i] + headers[i + 1..];
      && HeadValues(headers, backend, chunked, name) == HeadValues(without, backend, chunked, name)
      && EndToEndValues(headers, name) == EndToEndValues(without, name)
  {
    hide SafeValues, HOP_BY_HOP_HEADERS;
    assert headers == headers[..i + 1] + headers[i + 1..];
    SafeValuesAppend(headers[..i + 1], headers[i + 1..], name);
    SafeValuesAppend(headers[..i], headers[i + 1..], name);
    UnsafeLast(headers[..i + 1], name);
    assert headers[..i + 1][..i] == headers[..i];
  }

  lemma UnsafeLast(headers: Headers, name: string)
    requires headers != []
    requires !IsSafeHeader(headers[|headers| - 1].0, headers[|headers| - 1].1)
    ensures SafeValues(headers, name) == SafeValues(headers[..|headers| - 1], name)
  {
  }

  lemma {:induction false} SafeValuesAppend(a: Headers, b: Headers, name: string)
    ensures SafeValues(a + b, name) == SafeValues(a, name) + SafeValues(b, name)
  {
    if b == [] {
      assert a + b == a;
    } else {
      assert (a + b)[..|a + b| - 1] == a + b[..|b| - 1];
      SafeValuesAppend(a, b[..|b| - 1], name);
    }
  }

  lemma {:induction false} SafeFieldsKeepValues(headers: Headers, name: string)
    requires forall i | 0 <= i < |headers| && Lower(headers[i].0) == name ::
      IsSafeHeader(headers[i].0, headers[i].1)
    ensures SafeValues(headers, name) == Values(headers, name)
  {
    if headers != [] {
      SafeFieldsKeepValues(headers[..|headers| - 1], name);
    }
  }

  // ----- the header fields of the answer

  function EndToEndValues(headers: Headers, name: string): seq<string> {
    if name in HOP_BY_HOP_HEADERS then [] else SafeValues(headers, name)
  }

  /** What the client sees under each name: end-to-end fields, and the proxy's own Connection. */
  function AnswerValues(headers: Headers, closing: bool, name: string): seq<string> {
    if closing && name == "connection" then ["close"] else EndToEndValues(headers, name)
  }

  /** The response header loop of `_proxy`. */
  method AnswerHeaders(headers: Headers) returns (out: Headers, hasLength: bool)
    ensures forall name :: Values(out, name) == EndToEndValues(headers, name)
    ensures hasLength <==> SafeValues(headers, "content-length") != []
  {
    out, hasLength := [], false;
    for i := 0 to |headers|
      invariant forall name :: Values(out, name) == EndToEndValues(headers[..i], name)
      invariant hasLength <==> SafeValues(headers[..i], "content-length") != []
    {
      var (key, value) := headers[i];
      assert headers[..i + 1][..i] == headers[..i];
      if Lower(key) !in HOP_BY_HOP_HEADERS && IsSafeHeader(key, value) {
        hasLength := hasLength || Lower(key) == "content-length";
        forall name ensures Values(out + [(key, value)], name)
                         == Values(out, name) + if Lower(key) == name then [value] else []
        {
          AppendField(out, key, value, name);
        }
        out := out + [(key, value)];
      }
    }
    assert headers[..|headers|] == headers;
  }

  /** The fields of a reply that pass through unchanged: nothing hop-by-hop and no line break. Of
      Connection only the `close` that the proxy is about to add itself. */
  predicate PassesUnchanged(headers: Headers, closing: bool) {
    && (forall i | 0 <= i < |headers| :: Passes(headers[i].0, headers[i].1, closing))
    && (closing ==> Values(headers, "connection") == ["close"])
  }

  predicate Passes(name: string, value: string, closing: bool) {
    && IsSafeHeader(name, value)
    && (Lower(name) in HOP_BY_HOP_HEADERS ==> closing && Lower(name) == "connection")
  }

  /** Exactly when the client sees the backend's own values under every name. */
  lemma WhenAnswerIsUnchanged(headers: Headers, closing: bool)
    ensures (forall name :: AnswerValues(headers, closing, name) == Values(headers, name))
       <==> PassesUnchanged(headers, closing)
  {
    hide Values, SafeValues;
    if forall name :: AnswerValues(headers, closing, name) == Values(headers, name) {
      forall i | 0 <= i < |headers| ensures Passes(headers[i].0, headers[i].1, closing) {
        var name := Lower(headers[i].0);
        assert AnswerValues(headers, closing, name) == Values(headers, name);
        ValueIsListed(headers, i);
        if name in HOP_BY_HOP_HEADERS {
          assert headers[i].1 == "close";
          NameIsSafe(headers[i].0, "connection");
        } else {
          AllValuesSafe(headers, name, i);
        }
      }
      assert closing ==> AnswerValues(headers, closing, "connection") == Values(headers, "connection");
    }
    if PassesUnchanged(headers, closing) {
      forall name ensures AnswerValues(headers, closing, name) == Values(headers, name) {
        SafeFieldsKeepValues(headers, name);
        if name in HOP_BY_HOP_HEADERS && !(closing && name == "connection") {
          UnusedName(headers, name);
        }
      }
    }
  }

  /** Replies that do change: a Connection field goes missing, and one is added. */
  lemma ConnectionFieldChanges()
    ensures !PassesUnchanged([("Connection", "keep-alive")], false)
    ensures AnswerValues([("Connection", "keep-alive")], false, "connection") == []
    ensures Values([("Connection", "keep-alive")], "connection") == ["keep-alive"]
    ensures !PassesUnchanged([], true)
    ensures AnswerValues([], true, "connection") == ["close"] && Values([], "connection") == []
  {
    var headers := [("Connection", "keep-alive")];
    assert Lower("Connection") == "connection";
    assert headers[..0] == [];
    assert !Passes(headers[0].0, headers[0].1, false);
  }

  lemma {:induction false} ValueIsListed(headers: Headers, i: nat)
    requires i < |headers|
    ensures headers[i].1 in Values(headers, Lower(headers[i].0))
  {
    if i < |headers| - 1 {
      ValueIsListed(headers[..|headers| - 1], i);
    }
  }

  lemma {:induction false} FewerSafeValues(headers: Headers, name: string)
    ensures |SafeValues(headers, name)| <= |Values(headers, name)|
  {
    if headers != [] {
      FewerSafeValues(headers[..|headers| - 1], name);
    }
  }

  lemma {:induction false} AllValuesSafe(headers: Headers, name: string, i: nat)
    requires |SafeValues(headers, name)| == |Values(headers, name)|
    requires i < |headers| && Lower(headers[i].0) == name
    ensures IsSafeHeader(headers[i].0, headers[i].1)
  {
    var init := headers[..|headers| - 1];
    FewerSafeValues(init, name);
    if i < |init| {
      AllValuesSafe(init, name, i);
    }
  }

  lemma {:induction false} UnusedName(headers: Headers, name: string)
    requires forall i | 0 <= i < |headers| :: Lower(headers[i].0) != name
    ensures Values(headers, name) == []
  {
    if headers != [] {
      UnusedName(headers[..|headers| - 1], name);
    }
  }

  lemma AddClose(headers: Headers, out: Headers)
    requires forall name :: Values(out, name) == EndToEndValues(headers, name)
    ensures forall name ::
      Values(out + [("Connection", "close")], name) == AnswerValues(headers, true, name)
  {
    assert Lower("Connection") == "connection";
    forall name
      ensures Values(out + [("Connection", "close")], name) == AnswerValues(headers, true, name)
    {
      AppendField(out, "Connection", "close", name);
    }
  }

  lemma CloseAlone()
    ensures Values([("Connection", "close")], "connection") == ["close"]
  {
    assert Lower("Connection") == "connection";
    AppendField([], "Connection", "close", "connection");
    assert [] + [("Connection", "close")] == [("Connection", "close")];
  }
}
