/** class HttpRequest: a request message (method, URL, version, body and
    header fields), the reader that fills one in from the text of a
    request, and the writer that turns one back into text. */
module Request {
  import opened Text
  import opened Streams
  import opened Fields
  import opened Http

  // ---------------------------------------------------------------------
  // Method names

  /** method_to_string: the name of each method. */
  function MethodToString(m: Method): (s: string)
    ensures IsWord(s)
  {
    match m
    case GET => "GET"
    case POST => "POST"
    case PUT => "PUT"
  }

  /** string_to_method: the method a name stands for; None for any other
      name, on which the conversion throws. */
  function StringToMethod(s: string): (r: Option<Method>)
    ensures r.Some? <==> s in {"GET", "POST", "PUT"}
    ensures r.Some? ==> MethodToString(r.value) == s
  {
    if s == "GET" then Some(GET)
    else if s == "POST" then Some(POST)
    else if s == "PUT" then Some(PUT)
    else None
  }

  /** Converting a method to its name and back gives the method. */
  lemma MethodRoundTrip(m: Method)
    ensures StringToMethod(MethodToString(m)) == Some(m)
  {
  }

  // ---------------------------------------------------------------------
  // The message as a value

  datatype RequestValue = RequestValue(
    httpMethod: Method, url: string, version: string, body: string, fields: seq<Field>)

  /** How `read` ends: normally, or by an exception that leaves the
      request as it was at the throw: an unknown method name, or a header
      line whose first ':' is its last character. */
  datatype RequestOutcome = Done | UnknownMethod | FieldWithoutValue

  datatype RequestRead = RequestRead(request: RequestValue, outcome: RequestOutcome)

  /** The first line: its first three words are the method name, the URL
      and the version; a missing word leaves that member as it was, and a
      missing method name reads as the empty name. */
  function RequestLine(q: RequestValue, line: string): (r: (RequestValue, string))
    ensures r.0 == q.(url := r.0.url, version := r.0.version)
  {
    var words := Words(line);
    (q.(url := if |words| > 1 then words[1] else q.url,
        version := if |words| > 2 then words[2] else q.version),
     if |words| > 0 then words[0] else "")
  }

  /** HttpRequest::read, applied to the request `q`: the request line, then
      the header loop, then the body, which is read only when a
      "Content-Length" field is present and runs up to the first NUL. */
  function ReadRequest(q: RequestValue, input: string): (res: RequestRead)
    ensures ToMap(q.fields).Keys <= ToMap(res.request.fields).Keys
    ensures res.request.body != q.body
            ==> res.outcome == Done && "Content-Length" in ToMap(res.request.fields)
                && '\0' !in res.request.body
  {
    var got := Getline(Open(input), '\n', []);
    var (q1, name) := RequestLine(q, got.text);
    match StringToMethod(name)
    case None => RequestRead(q1, UnknownMethod)
    case Some(m) =>
      ReadBody(q1.(httpMethod := m), got.rest)
  }

  /** The header loop and the body of HttpRequest::read. */
  function ReadBody(q: RequestValue, st: Stream): (res: RequestRead)
    ensures ToMap(q.fields).Keys <= ToMap(res.request.fields).Keys
    ensures res.request.fields == ParseFields(st, q.fields).fields
    ensures res.request.body != q.body
            ==> res.outcome == Done && "Content-Length" in ToMap(res.request.fields)
                && '\0' !in res.request.body
  {
    match ParseFields(st, q.fields)
    case Threw(fs) => RequestRead(q.(fields := fs), FieldWithoutValue)
    case Scanned(fs, rest) =>
      if Lookup(fs, "Content-Length").Some? then
        RequestRead(q.(fields := fs, body := Getline(rest, '\0', q.body).text), Done)
      else RequestRead(q.(fields := fs), Done)
  }

  /** HttpRequest::to_string: the request line, one line per field in key
      order, and the body section. */
  function SerializeRequest(q: RequestValue): (r: string)
    ensures |q.body| <= |r| && r[|r| - |q.body|..] == q.body
  {
    var head := MethodToString(q.httpMethod) + " " + q.url + " " + q.version + "\r\n"
      + FieldLines(q.fields);
    var section := ContentSection(q.body);
    SuffixAfter(head, section, q.body);
    head + section
  }

  // ---------------------------------------------------------------------
  // The class

  class HttpRequest {
    var httpMethod: Method
    var url: string
    var version: string
    var body: string
    var headerFields: seq<Field>

    /** The header fields form a std::map: their keys strictly ascend. */
    predicate Valid()
      reads this
    {
      Sorted(headerFields)
    }

    function Value(): RequestValue
      reads this
    {
      RequestValue(httpMethod, url, version, body, headerFields)
    }

    /** A request with the given method and URL, version "HTTP/1.1", an
        empty body and no header fields. */
    constructor(m: Method, u: string)
      ensures Valid() && Value() == RequestValue(m, u, "HTTP/1.1", "", [])
    {
      httpMethod, url, version, body, headerFields := m, u, "HTTP/1.1", "", [];
    }

    method SetMethod(m: Method)
      modifies this
      ensures Value() == old(Value()).(httpMethod := m) && GetMethod() == m
    {
      httpMethod := m;
    }

    method SetUrl(u: string)
      modifies this
      ensures Value() == old(Value()).(url := u) && GetUrl() == u
    {
      url := u;
    }

    method SetVersion(v: string)
      modifies this
      ensures Value() == old(Value()).(version := v) && GetVersion() == v
    {
      version := v;
    }

    method SetBody(b: string)
      modifies this
      ensures Value() == old(Value()).(body := b) && GetBody() == b
    {
      body := b;
    }

    /** `header_fields_[key] = value`: the key now maps to the value and
        every other key keeps its value. */
    method AddHeaderField(key: string, value: string)
      requires Valid()
      modifies this
      ensures Valid()
      ensures Value() == old(Value()).(fields := headerFields)
      ensures ToMap(headerFields) == old(ToMap(headerFields))[key := value]
      ensures GetHeaderField(key) == value
      ensures forall k :: k != key ==> GetHeaderField(k) == old(GetHeaderField(k))
    {
      PutSorted(headerFields, key, value);
      headerFields := Put(headerFields, key, value);
    }

    function GetMethod(): Method
      reads this
    {
      httpMethod
    }

    function GetUrl(): string
      reads this
    {
      url
    }

    function GetVersion(): string
      reads this
    {
      version
    }

    function GetBody(): string
      reads this
    {
      body
    }

    /** The value stored under `key`, or the empty string when there is
        none. */
    function GetHeaderField(key: string): (r: string)
      reads this
      ensures key in ToMap(headerFields) ==> r == ToMap(headerFields)[key]
      ensures key !in ToMap(headerFields) ==> r == ""
    {
      match Lookup(headerFields, key)
      case Some(value) => value
      case None => ""
    }

    /** HttpRequest::read: fills the request in from `input`. An exception
        is reported as the outcome, with the request as it was at the
        throw. */
    method Read(input: string) returns (outcome: RequestOutcome)
      requires Valid()
      modifies this
      ensures Valid()
      ensures RequestRead(Value(), outcome) == ReadRequest(old(Value()), input)
    {
      var line := Getline(Open(input), '\n', []);
      var (request, name) := RequestLine(Value(), line.text);
      url, version := request.url, request.version;
      var m := StringToMethod(name);
      if m.None? {
        return UnknownMethod;
      }
      httpMethod := m.value;
      outcome := ReadFieldsAndBody(line.rest);
    }

    /** The header loop and the body of HttpRequest::read. */
    method ReadFieldsAndBody(stream: Stream) returns (outcome: RequestOutcome)
      requires Valid()
      modifies this
      ensures Valid()
      ensures RequestRead(Value(), outcome) == ReadBody(old(Value()), stream)
    {
      var scan := ReadFields(stream);
      if scan.Threw? {
        return FieldWithoutValue;
      }
      if Lookup(headerFields, "Content-Length").Some? {
        var rest := Getline(scan.rest, '\0', body);
        body := rest.text;
      }
      return Done;
    }

    /** The header loop of HttpRequest::read:
          while (std::getline(stream, line) && line != "\r") { ... }
        storing the fields it reads in place. */
    method ReadFields(stream: Stream) returns (scan: Scan)
      requires Valid()
      modifies this
      ensures Valid()
      ensures Value() == old(Value()).(fields := headerFields)
      ensures scan == ParseFields(stream, old(headerFields)) && headerFields == scan.fields
    {
      var st := stream;
      while true
        invariant Sorted(headerFields)
        invariant Value() == old(Value()).(fields := headerFields)
        invariant ParseFields(st, headerFields) == ParseFields(stream, old(headerFields))
        decreases st.Measure()
      {
        var line := Getline(st, '\n', []);
        if !line.ok || line.text == "\r" {
          return Scanned(headerFields, line.rest);
        }
        st := line.rest;
        match SplitField(line.text)
        case NoColon =>
        case ColonLast =>
          return Threw(headerFields);
        case KeyValue(key, value) =>
          PutSorted(headerFields, key, value);
          headerFields := Put(headerFields, key, value);
      }
    }

    /** HttpRequest::to_string. */
    method ToString() returns (s: string)
      requires Valid()
      ensures s == SerializeRequest(Value())
    {
      var requestLine := MethodToString(httpMethod) + " " + url + " " + version + "\r\n";
      s := requestLine;
      var i := 0;
      while i < |headerFields|
        invariant i <= |headerFields|
        invariant s == requestLine + FieldLines(headerFields[..i])
      {
        FieldLinesSnoc(headerFields, i);
        Associative(requestLine, FieldLines(headerFields[..i]), FieldLine(headerFields[i]));
        s := s + (headerFields[i].key + ": " + headerFields[i].value + "\r\n");
        i := i + 1;
      }
      assert headerFields[..i] == headerFields;
      if body != [] {
        var length := "Content-length" + ": " + NatToDecimal(|body|) + "\r\n";
        Associative(s, length, "\r\n");
        Associative(s, length + "\r\n", body);
        s := s + length;
        s := s + "\r\n" + body;
      }
    }
  }

  // ---------------------------------------------------------------------
  // Reading back what to_string writes

  /** A request line whose URL and version are words reads back as the
      method name, the URL and the version. */
  lemma ReadRequestLineTokens(q: RequestValue, m: Method, u: string, v: string, rest: string)
    requires IsWord(u) && IsWord(v)
    ensures var got := Getline(Open(MethodToString(m) + " " + u + " " + v + "\r\n" + rest), '\n', []);
            got.rest == Stream(rest, true)
            && RequestLine(q, got.text) == (q.(url := u, version := v), MethodToString(m))
  {
    var name := MethodToString(m);
    var line := name + " " + u + " " + v + "\r";
    assert name + " " + u + " " + v + "\r\n" + rest == line + ['\n'] + rest;
    WordHasNoSpace(name, '\n');
    WordHasNoSpace(u, '\n');
    WordHasNoSpace(v, '\n');
    GetlineLine(Open(line + ['\n'] + rest), '\n', [], line, rest);
    LineShape(name, u, v);
    ThreeWordsBeforeCR(name, u, v);
  }

  /** What reading the text of `q` into the request `into` yields: the
      method, URL and version come back when URL and version are words;
      the fields are added to those of `into`, each value with a '\r'
      appended, together with the "Content-length" field to_string writes
      for a non-empty body; and the body is read back, up to its first
      NUL, only when it is non-empty and a field is spelt
      "Content-Length", which to_string itself never writes. */
  lemma RequestRoundTrip(into: RequestValue, q: RequestValue)
    requires IsWord(q.url) && IsWord(q.version) && Sorted(q.fields) && Writable(q.fields)
    ensures var res := ReadRequest(into, SerializeRequest(q));
            && res.outcome == Done
            && res.request.httpMethod == q.httpMethod
            && res.request.url == q.url
            && res.request.version == q.version
            && ToMap(res.request.fields) == WrittenMap(into.fields, q.fields, q.body)
            && res.request.body
               == if q.body != [] && "Content-Length" in ToMap(into.fields) + ToMap(q.fields)
                  then UpToNul(q.body) else into.body
  {
    var name := MethodToString(q.httpMethod);
    var rest := FieldLines(q.fields) + ContentSection(q.body);
    Associative(name + " " + q.url + " " + q.version + "\r\n", FieldLines(q.fields), ContentSection(q.body));
    ReadRequestLineTokens(into, q.httpMethod, q.url, q.version, rest);
    MethodRoundTrip(q.httpMethod);
    var q1 := into.(url := q.url, version := q.version, httpMethod := q.httpMethod);
    assert ReadRequest(into, SerializeRequest(q)) == ReadBody(q1, Stream(rest, true));
    ReadWrittenBody(q1, q.fields, q.body);
  }

  /** The header loop and the body read of HttpRequest::read, applied to
      written header lines and the section after them. */
  lemma ReadWrittenBody(q: RequestValue, fs: seq<Field>, body: string)
    requires Sorted(fs) && Writable(fs)
    ensures var res := ReadBody(q, Stream(FieldLines(fs) + ContentSection(body), true));
            && res.outcome == Done
            && res.request == q.(fields := res.request.fields, body := res.request.body)
            && ToMap(res.request.fields) == WrittenMap(q.fields, fs, body)
            && res.request.body
               == if body != [] && "Content-Length" in ToMap(q.fields) + ToMap(fs)
                  then UpToNul(body) else q.body
  {
    ReadWrittenHeaders(fs, body, q.fields);
    var scan := ParseFields(Stream(FieldLines(fs) + ContentSection(body), true), q.fields);
    assert "Content-Length" in ToMap(scan.fields) <==> "Content-Length" in ToMap(q.fields) + ToMap(fs);
  }

  /** The body of a request is lost on the way through to_string and
      read: a request without a "Content-Length" field, read into a fresh
      request, comes back with an empty body whatever body it had. */
  lemma RequestBodyLost(q: RequestValue, m: Method, u: string)
    requires IsWord(q.url) && IsWord(q.version) && Sorted(q.fields) && Writable(q.fields)
    requires "Content-Length" !in ToMap(q.fields)
    ensures ReadRequest(RequestValue(m, u, "HTTP/1.1", "", []), SerializeRequest(q)).request.body == ""
  {
    RequestRoundTrip(RequestValue(m, u, "HTTP/1.1", "", []), q);
  }
}
