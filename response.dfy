/** class HttpResponse: a response message (status, version, body and
    header fields), the reader that fills one in from the text of a
    response, and the writer that turns one back into text. */
module Response {
  import opened Text
  import opened Streams
  import opened Fields
  import opened Http

  /** get_status_message: the reason text written after the status code. */
  function StatusMessage(status: int): (s: string)
    ensures s == "OK" <==> status == 200
    ensures s == "Not Found" <==> status == 404
    ensures s == "Unknown" <==> status != 200 && status != 404
  {
    if status == 200 then "OK" else if status == 404 then "Not Found" else "Unknown"
  }

  // ---------------------------------------------------------------------
  // The message as a value

  datatype ResponseValue = ResponseValue(status: Int32, version: string, body: string, fields: seq<Field>)

  /** How `read` ends: normally, or by an exception that leaves the
      response as it was at the throw: a header line whose first ':' is
      its last character, a "Content-length" value std::stoi rejects, or a
      negative one, which std::string::resize rejects once it is converted
      to size_t. */
  datatype ResponseOutcome = Done | FieldWithoutValue | BadContentLength | NegativeContentLength

  datatype ResponseRead = ResponseRead(response: ResponseValue, outcome: ResponseOutcome)

  /** The status line: its first word is the version and the second is
      read as an int; a missing word leaves that member as it was, and the
      reason text is ignored. */
  function StatusLine(r: ResponseValue, line: string): (r': ResponseValue)
    ensures r' == r.(version := r'.version, status := r'.status)
  {
    var words := Words(line);
    r.(version := if |words| > 0 then words[0] else r.version,
       status := if |words| > 1 then ExtractInt(words[1]) else r.status)
  }

  /** std::string::resize: cuts the string to `n` characters, or pads it
      with NULs up to `n`. */
  function Resize(s: string, n: nat): (r: string)
    ensures |r| == n
    ensures forall i :: 0 <= i < n ==> r[i] == if i < |s| then s[i] else '\0'
  {
    if n <= |s| then s[..n] else s + seq(n - |s|, _ => '\0')
  }

  /** HttpResponse::read, applied to the response `r`: the status line
      when there is one, then the header loop, then the body, whose length
      a "Content-length" field gives. */
  function ReadResponse(r: ResponseValue, input: string): (res: ResponseRead)
    ensures ToMap(r.fields).Keys <= ToMap(res.response.fields).Keys
    ensures res.response.body != r.body
            ==> res.outcome == Done && "Content-length" in ToMap(res.response.fields)
    ensures res.outcome == Done && "Content-length" in ToMap(res.response.fields)
            ==> var n := Stoi(ToMap(res.response.fields)["Content-length"]);
                n.Some? && |res.response.body| == n.value
  {
    var got := Getline(Open(input), '\n', []);
    ReadResponseBody(if got.ok then StatusLine(r, got.text) else r, got.rest)
  }

  /** The header loop and the body of HttpResponse::read. */
  function ReadResponseBody(r: ResponseValue, st: Stream): (res: ResponseRead)
    ensures ToMap(r.fields).Keys <= ToMap(res.response.fields).Keys
    ensures res.response == r.(fields := res.response.fields, body := res.response.body)
    ensures res.response.fields == ParseFields(st, r.fields).fields
    ensures res.response.body != r.body
            ==> res.outcome == Done && "Content-length" in ToMap(res.response.fields)
    ensures res.outcome == Done && "Content-length" in ToMap(res.response.fields)
            ==> var n := Stoi(ToMap(res.response.fields)["Content-length"]);
                n.Some? && |res.response.body| == n.value
  {
    match ParseFields(st, r.fields)
    case Threw(fs) => ResponseRead(r.(fields := fs), FieldWithoutValue)
    case Scanned(fs, rest) => ReadSizedBody(r.(fields := fs), rest)
  }

  /** The body of HttpResponse::read, after the header loop: the body is
      resized to the length the "Content-length" field gives and the
      characters read from the stream overwrite its front. */
  function ReadSizedBody(r: ResponseValue, rest: Stream): (res: ResponseRead)
    ensures res.response == r.(body := res.response.body)
    ensures res.response.body != r.body
            ==> res.outcome == Done && "Content-length" in ToMap(r.fields)
    ensures res.outcome == Done && "Content-length" in ToMap(r.fields)
            ==> var n := Stoi(ToMap(r.fields)["Content-length"]);
                n.Some? && |res.response.body| == n.value
  {
    match Lookup(r.fields, "Content-length")
    case None => ResponseRead(r, Done)
    case Some(text) =>
      match Stoi(text)
      case None => ResponseRead(r, BadContentLength)
      case Some(n) =>
        if n < 0 then ResponseRead(r, NegativeContentLength)
        else
          var chunk := ReadBlock(rest, n);
          ResponseRead(r.(body := chunk.text + Resize(r.body, n)[|chunk.text|..]), Done)
  }

  /** HttpResponse::to_string: the status line, one line per field in key
      order, and the body section. */
  function SerializeResponse(r: ResponseValue): (s: string)
    ensures |r.body| <= |s| && s[|s| - |r.body|..] == r.body
  {
    var head := r.version + " " + IntToDecimal(r.status) + " " + StatusMessage(r.status) + "\r\n"
      + FieldLines(r.fields);
    var section := ContentSection(r.body);
    SuffixAfter(head, section, r.body);
    head + section
  }

  // ---------------------------------------------------------------------
  // The class

  class HttpResponse {
    var status: Int32
    var version: string
    var body: string
    var headerFields: seq<Field>

    /** The header fields form a std::map: their keys strictly ascend. */
    predicate Valid()
      reads this
    {
      Sorted(headerFields)
    }

    function Value(): ResponseValue
      reads this
    {
      ResponseValue(status, version, body, headerFields)
    }

    /** A response with the given status, version "HTTP/1.1", an empty
        body and no header fields. */
    constructor(s: Int32)
      ensures Valid() && Value() == ResponseValue(s, "HTTP/1.1", "", [])
    {
      status, version, body, headerFields := s, "HTTP/1.1", "", [];
    }

    /** A response with the given status and body. */
    constructor WithBody(s: Int32, b: string)
      ensures Valid() && Value() == ResponseValue(s, "HTTP/1.1", b, [])
    {
      status, version, body, headerFields := s, "HTTP/1.1", b, [];
    }

    /** A response with the given status, body and header fields. */
    constructor WithHeaders(s: Int32, b: string, headers: seq<Field>)
      requires Sorted(headers)
      ensures Valid() && Value() == ResponseValue(s, "HTTP/1.1", b, headers)
    {
      status, version, body, headerFields := s, "HTTP/1.1", b, headers;
    }

    function GetStatus(): Int32
      reads this
    {
      status
    }

    function GetVersion(): string
      reads this
    {
      version
    }

    function GetBody(): string
      reads this
    {
      body
    }

    function GetHeaderFields(): seq<Field>
      reads this
    {
      headerFields
    }

    method SetStatus(s: Int32)
      modifies this
      ensures Value() == old(Value()).(status := s) && GetStatus() == s
    {
      status := s;
    }

    method SetVersion(v: string)
      modifies this
      ensures Value() == old(Value()).(version := v) && GetVersion() == v
    {
      version := v;
    }

    method SetBody(b: string)
      modifies this
      ensures Value() == old(Value()).(body := b) && GetBody() == b
    {
      body := b;
    }

    /** `header_fields_[field] = value`: the field is added to the keys or
        kept among them, it now maps to the value, and every other key
        keeps its value. */
    method SetHeaderField(field: string, value: string)
      requires Valid()
      modifies this
      ensures Valid()
      ensures Value() == old(Value()).(fields := headerFields)
      ensures ToMap(headerFields).Keys == old(ToMap(headerFields)).Keys + {field}
      ensures ToMap(headerFields)[field] == value
      ensures forall k :: k in old(ToMap(headerFields)) && k != field
                         ==> ToMap(headerFields)[k] == old(ToMap(headerFields))[k]
    {
      PutSorted(headerFields, field, value);
      headerFields := Put(headerFields, field, value);
    }

    /** HttpResponse::read: fills the response in from `input`. An
        exception is reported as the outcome, with the response as it was
        at the throw. */
    method Read(input: string) returns (outcome: ResponseOutcome)
      requires Valid()
      modifies this
      ensures Valid()
      ensures ResponseRead(Value(), outcome) == ReadResponse(old(Value()), input)
    {
      var line := Getline(Open(input), '\n', []);
      if line.ok {
        var parsed := StatusLine(Value(), line.text);
        version, status := parsed.version, parsed.status;
      }
      outcome := ReadFieldsAndBody(line.rest);
    }

    /** The header loop and the body of HttpResponse::read. */
    method ReadFieldsAndBody(stream: Stream) returns (outcome: ResponseOutcome)
      requires Valid()
      modifies this
      ensures Valid()
      ensures ResponseRead(Value(), outcome) == ReadResponseBody(old(Value()), stream)
    {
      var scan := ReadFields(stream);
      if scan.Threw? {
        return FieldWithoutValue;
      }
      var field := Lookup(headerFields, "Content-length");
      if field.None? {
        return Done;
      }
      var length := Stoi(field.value);
      if length.None? {
        return BadContentLength;
      }
      if length.value < 0 {
        return NegativeContentLength;
      }
      body := Resize(body, length.value);
      var chunk := ReadBlock(scan.rest, length.value);
      body := chunk.text + body[|chunk.text|..];
      return Done;
    }

    /** The header loop of HttpResponse::read:
          while (std::getline(stream, line) && line != "\r") { ... }
        storing the fields it reads in place. */
    method ReadFields(stream: Stream) returns (scan: Scan)
      requires Valid()
      modifies this
      ensures Valid()
      ensures Value() == old(Value()).(fields := headerFields)
      ensures scan == ParseFields(stream, old(headerFields)) && headerFields == scan.fields
    {
      var st := stream;
      while true
        invariant Sorted(headerFields)
        invariant Value() == old(Value()).(fields := headerFields)
        invariant ParseFields(st, headerFields) == ParseFields(stream, old(headerFields))
        decreases st.Measure()
      {
        var line := Getline(st, '\n', []);
        if !line.ok || line.text == "\r" {
          return Scanned(headerFields, line.rest);
        }
        st := line.rest;
        match SplitField(line.text)
        case NoColon =>
        case ColonLast =>
          return Threw(headerFields);
        case KeyValue(key, value) =>
          PutSorted(headerFields, key, value);
          headerFields := Put(headerFields, key, value);
      }
    }

    /** HttpResponse::to_string. */
    method ToString() returns (s: string)
      requires Valid()
      ensures s == SerializeResponse(Value())
    {
      var statusLine := version + " " + IntToDecimal(status) + " " + StatusMessage(status) + "\r\n";
      s := statusLine;
      var i := 0;
      while i < |headerFields|
        invariant i <= |headerFields|
        invariant s == statusLine + FieldLines(headerFields[..i])
      {
        FieldLinesSnoc(headerFields, i);
        Associative(statusLine, FieldLines(headerFields[..i]), FieldLine(headerFields[i]));
        s := s + (headerFields[i].key + ": " + headerFields[i].value + "\r\n");
        i := i + 1;
      }
      assert headerFields[..i] == headerFields;
      if body != [] {
        var length := "Content-length" + ": " + NatToDecimal(|body|) + "\r\n";
        Associative(s, length, "\r\n");
        Associative(s, length + "\r\n", body);
        s := s + length;
        s := s + "\r\n" + body;
      }
    }
  }

  // ---------------------------------------------------------------------
  // Properties of read and to_string

  /** Reading `n` characters into the front of a string resized to `n`:
      the result has `n` characters, starts with those read, and keeps
      the resized string after them: the old characters, then NULs. When
      the stream holds `n` characters, the result is exactly them. */
  lemma ReadIntoResized(old_body: string, n: nat, st: Stream)
    ensures var chunk := ReadBlock(st, n);
            var b := chunk.text + Resize(old_body, n)[|chunk.text|..];
            && |b| == n
            && b[..|chunk.text|] == chunk.text
            && chunk.text <= st.unread
            && (forall i :: |chunk.text| <= i < n ==> b[i] == if i < |old_body| then old_body[i] else '\0')
            && (st.good && n <= |st.unread| ==> b == st.unread[..n])
  {
    var chunk := ReadBlock(st, n);
    var b := chunk.text + Resize(old_body, n)[|chunk.text|..];
    assert b[..|chunk.text|] == chunk.text;
    if st.good && n <= |st.unread| {
      assert st.unread == chunk.text + chunk.rest.unread;
      assert b == chunk.text;
    }
  }

  /** A status line whose version is a word reads back as the version and
      the status; the reason text after them is ignored. */
  lemma ReadStatusLineTokens(r: ResponseValue, v: string, status: Int32, m: string, rest: string)
    requires IsWord(v) && '\n' !in m
    ensures var got := Getline(Open(v + " " + IntToDecimal(status) + " " + m + "\r\n" + rest), '\n', []);
            got.ok && got.rest == Stream(rest, true)
            && StatusLine(r, got.text) == r.(version := v, status := status)
  {
    var d := IntToDecimal(status);
    var line := v + " " + d + " " + m + "\r";
    assert v + " " + d + " " + m + "\r\n" + rest == line + ['\n'] + rest;
    WordHasNoSpace(v, '\n');
    WordHasNoSpace(d, '\n');
    GetlineLine(Open(line + ['\n'] + rest), '\n', [], line, rest);
    LineShape(v, d, m);
    TwoWordsFirst(v, d, " " + m + "\r");
    ExtractIntOfDecimal(status);
  }

  /** The header loop and the body read of HttpResponse::read, applied to
      written header lines and the section after them: the fields come
      back with '\r' appended to each value, and a non-empty body comes
      back whole through the "Content-length" field. */
  lemma ReadWrittenResponseBody(r: ResponseValue, fs: seq<Field>, body: string)
    requires Sorted(fs) && Writable(fs) && |body| <= INT_MAX
    requires body == [] ==> "Content-length" !in ToMap(r.fields) + ToMap(fs)
    ensures var res := ReadResponseBody(r, Stream(FieldLines(fs) + ContentSection(body), true));
            && res.outcome == Done
            && res.response == r.(fields := res.response.fields, body := res.response.body)
            && ToMap(res.response.fields) == WrittenMap(r.fields, fs, body)
            && res.response.body == if body == [] then r.body else body
  {
    var st := Stream(FieldLines(fs) + ContentSection(body), true);
    ReadWrittenHeaders(fs, body, r.fields);
    var scan := ParseFields(st, r.fields);
    if body != [] {
      ReadLengthBody(r.(fields := scan.fields), body);
    } else {
      assert ToMap(scan.fields).Keys == (ToMap(r.fields) + ToMap(fs)).Keys;
    }
  }

  /** The body after a length line that matches it is read whole. */
  lemma ReadLengthBody(r: ResponseValue, body: string)
    requires |body| <= INT_MAX
    requires "Content-length" in ToMap(r.fields)
    requires ToMap(r.fields)["Content-length"] == NatToDecimal(|body|) + "\r"
    ensures ReadSizedBody(r, Stream(body, true)) == ResponseRead(r.(body := body), Done)
  {
    var n := |body|;
    StoiOfDecimal(n, "\r");
    ReadIntoResized(r.body, n, Stream(body, true));
    assert body[..n] == body;
  }

  /** Reading the text of `r` into the response `into` gives back the
      version, the status and the body of `r`, when the version is a word
      and the body fits the length line: the fields are added to those of
      `into`, each value with a '\r' appended, together with the
      "Content-length" field to_string writes for a non-empty body. An
      empty body leaves the body of `into` as it was. */
  lemma ResponseRoundTrip(into: ResponseValue, r: ResponseValue)
    requires IsWord(r.version) && Sorted(r.fields) && Writable(r.fields) && |r.body| <= INT_MAX
    requires r.body == [] ==> "Content-length" !in ToMap(into.fields) + ToMap(r.fields)
    ensures var res := ReadResponse(into, SerializeResponse(r));
            && res.outcome == Done
            && res.response.version == r.version
            && res.response.status == r.status
            && ToMap(res.response.fields) == WrittenMap(into.fields, r.fields, r.body)
            && res.response.body == if r.body == [] then into.body else r.body
  {
    var d := IntToDecimal(r.status);
    var m := StatusMessage(r.status);
    var rest := FieldLines(r.fields) + ContentSection(r.body);
    Associative(r.version + " " + d + " " + m + "\r\n", FieldLines(r.fields), ContentSection(r.body));
    ReadStatusLineTokens(into, r.version, r.status, m, rest);
    var r1 := into.(version := r.version, status := r.status);
    assert ReadResponse(into, SerializeResponse(r)) == ReadResponseBody(r1, Stream(rest, true));
    ReadWrittenResponseBody(r1, r.fields, r.body);
  }

  /** A freshly constructed response that reads the text of `r` comes
      back with the version, status and body of `r`. */
  lemma FreshResponseRoundTrip(s: Int32, r: ResponseValue)
    requires IsWord(r.version) && Sorted(r.fields) && Writable(r.fields) && |r.body| <= INT_MAX
    requires r.body == [] ==> "Content-length" !in ToMap(r.fields)
    ensures var res := ReadResponse(ResponseValue(s, "HTTP/1.1", "", []), SerializeResponse(r));
            res.outcome == Done && res.response.version == r.version
            && res.response.status == r.status && res.response.body == r.body
  {
    ResponseRoundTrip(ResponseValue(s, "HTTP/1.1", "", []), r);
  }

  /** A canned error response is a status line, one Content-type line, the
      blank line and the paragraph. */
  lemma BadResponseShape(code: Int32)
    ensures GenerateBadResponse(code)
         == "HTTP/1.0" + " " + IntToDecimal(code) + " " + ErrorMessage(code) + "\r\n"
          + (FieldLine(Field("Content-type", "text/html")) + ("\r\n" + ErrorParagraph(code)))
  {
    var h := "HTTP/1.0 " + IntToDecimal(code) + " " + ErrorMessage(code);
    assert h == "HTTP/1.0" + " " + IntToDecimal(code) + " " + ErrorMessage(code) by {
      assert "HTTP/1.0 " == "HTTP/1.0" + " ";
    }
    ContentTypeLines();
    Regroup(h, "\r\n", FieldLine(Field("Content-type", "text/html")), "\r\n", ErrorParagraph(code));
  }

  lemma ContentTypeLines()
    ensures "\r\nContent-type: text/html\r\n\r\n" == "\r\n" + (FieldLine(Field("Content-type", "text/html")) + "\r\n")
  {
  }

  lemma Regroup(h: string, a: string, f: string, b: string, p: string)
    ensures h + (a + (f + b)) + p == h + a + (f + (b + p))
  {
    Associative(h, a + (f + b), p);
    Associative(a, f + b, p);
    Associative(f, b, p);
    Associative(h, a, f + (b + p));
  }

  /** A client that reads a canned error response gets version "HTTP/1.0",
      the code as the status, one Content-type field holding "text/html"
      and the line's '\r', and no body: the response carries no
      Content-length field. */
  lemma BadResponseReadsBack(into: ResponseValue, code: Int32)
    requires "Content-length" !in ToMap(into.fields)
    ensures var res := ReadResponse(into, GenerateBadResponse(code));
            && res.outcome == Done
            && res.response.version == "HTTP/1.0"
            && res.response.status == code
            && ToMap(res.response.fields) == ToMap(into.fields)["Content-type" := "text/html" + "\r"]
            && res.response.body == into.body
  {
    BadResponseShape(code);
    BadResponseWords(code);
    ReadStatusAndOneField(into, "HTTP/1.0", code, ErrorMessage(code),
                          Field("Content-type", "text/html"), ErrorParagraph(code));
  }

  lemma BadResponseWords(code: Int32)
    ensures IsWord("HTTP/1.0") && '\n' !in ErrorMessage(code)
    ensures ':' !in "Content-type" && '\n' !in "Content-type" && '\n' !in "text/html"
    ensures "Content-type" != "Content-length"
  {
    ErrorMessageOneLine(code);
    assert "Content-type"[8] != "Content-length"[8];
  }

  /** A status line, one header line and the blank line: the version and
      the status are read, the field is stored with the line's '\r', and
      without a Content-length field the body is left alone. */
  lemma ReadStatusAndOneField(into: ResponseValue, v: string, status: Int32, m: string, f: Field, tail: string)
    requires IsWord(v) && '\n' !in m
    requires ':' !in f.key && '\n' !in f.key && '\n' !in f.value
    requires "Content-length" !in ToMap(into.fields) && f.key != "Content-length"
    ensures ReadResponse(into, v + " " + IntToDecimal(status) + " " + m + "\r\n" + (FieldLine(f) + ("\r\n" + tail)))
         == ResponseRead(into.(version := v, status := status, fields := Put(into.fields, f.key, f.value + "\r")), Done)
  {
    var rest := FieldLine(f) + ("\r\n" + tail);
    ReadStatusLineTokens(into, v, status, m, rest);
    ReadOneField(into.(version := v, status := status), f, tail);
  }

  /** One header line and the blank line: the field is stored with the
      line's '\r', and without a Content-length field the body is left
      alone. */
  lemma ReadOneField(r: ResponseValue, f: Field, tail: string)
    requires ':' !in f.key && '\n' !in f.key && '\n' !in f.value
    requires "Content-length" !in ToMap(r.fields) && f.key != "Content-length"
    ensures ReadResponseBody(r, Stream(FieldLine(f) + ("\r\n" + tail), true))
         == ResponseRead(r.(fields := Put(r.fields, f.key, f.value + "\r")), Done)
  {
    var st := Stream(FieldLine(f) + ("\r\n" + tail), true);
    var fs := Put(r.fields, f.key, f.value + "\r");
    assert ParseFields(st, r.fields) == Scanned(fs, Stream(tail, true)) by {
      ScanFieldLine(st, f, "\r\n" + tail, r.fields);
      ScanStopsAtBlank(tail, fs);
    }
    assert Lookup(fs, "Content-length") == None;
  }
}
