# HTTP message codec of the Chat-Room server

A Dafny model of the HTTP/1.x message codec of the Chat-Room web server,
together with the static-resource helpers beside it. It covers:

- **`HttpRequest`**: a request with a method, URL, version, body and header
  map. Its `read` fills one in from the text of a request, and its
  `to_string` writes one back.
- **`HttpResponse`**: the same for responses. The first line is a status
  line (version, status code, reason text), and the reader takes the body
  length from a `Content-length` field.
- **Namespace `HTTP`**:
  - the MIME table;
  - file-extension extraction;
  - the URL-to-path mapping under `../html`;
  - the canned 400/500 error response.

The model is split into six modules, one per file:

| file | module | what it holds |
|---|---|---|
| `text.dfy` | `Text` | the standard-library behaviour the codec relies on: `find`/`rfind`, `stream >> word`, `stream >> int`, `std::stoi`, decimal output |
| `streams.dfy` | `Streams` | `std::istringstream` as far as `std::getline` and `istream::read` use it. A stream is the text not read yet plus a flag saying whether the stream is still good. |
| `fields.dfy` | `Fields` | the `std::map<std::string, std::string>` of header fields, modelled as a sequence of fields with strictly ascending keys. It also holds the header-line loop both readers share, and the lines both writers emit. |
| `http.dfy` | `Http` | namespace `HTTP` |
| `request.dfy` | `Request` | class `HttpRequest` |
| `response.dfy` | `Response` | class `HttpResponse` |

Each class is a Dafny `class` with the C++ fields. Its setters and its
`read` are methods that update those fields in place, and its loops are
`while` loops with invariants.

The behaviour of `read` and `to_string` is also given as functions on
values:

- `ReadRequest` and `ReadResponse` for `read`;
- `SerializeRequest` and `SerializeResponse` for `to_string`.

Each method is proved to compute the function of its old state. The
properties of reading and writing are proved about the functions.

An exception thrown inside `read` becomes an outcome (`RequestOutcome`,
`ResponseOutcome`). The object is left as it was at the throw.

**`method_to_string` and `string_to_method` are empty stubs in the source**
(include/HttpRequest.h:117-123). The model takes them to be the mapping
between the three enumerators of `HTTP::Method` and their names "GET",
"POST" and "PUT". `string_to_method` is taken to throw on any other name.
This is an assumption, not behaviour the source defines.

Where the code departs from HTTP/1.1 (RFC 9112 and RFC 9110) or from what
its own writer produces, the model follows the code:

- **No request round trip.** The request reader takes a body only when a
  field spelt `Content-Length` is present. The request writer spells its
  length line `Content-length`.
  - So the body of a request does not come back through `to_string` and
    `read`, unless the request itself carries a `Content-Length` field.
  - Even then, the body comes back only up to its first NUL, since
    `read` stops at the first NUL rather than reading the declared length.
  - `RequestRoundTrip` states exactly what does come back, and
    `RequestBodyLost` states the loss.
- **Values keep the line's '\r'.** Header values read back keep the '\r'
  that ends their line.
- **Bad header lines do not all fail.** A header line without ':' is
  skipped, not rejected. Only a line whose first ':' is its last character
  makes `read` throw.
- **The length line does not override a caller's field.** `to_string` writes
  the caller's own fields and then its own `Content-length` line. A reader
  keeps the last one.
- **The blank line is conditional.** The blank line after the header lines
  is written only when the body is non-empty.
- **Paths are not confined to the root.** `url_to_path` does not reject `..`
  segments, so a URL can name a file outside the document root.

## Model

| member | source | states |
|---|---|---|
| Text.Find | include/HttpRequest.h:81 | `line.find(':')`: the result is the first position of the character, and npos means the character does not occur |
| Text.RFind | include/HTTP.h:45 | `url.rfind('.')`: the result is the last position of the character, and npos means the character does not occur |
| Text.FindFirst | include/HttpRequest.h:81 | in `a + [c] + b` with no `c` in `a`, the first `c` is at `\|a\|` |
| Text.UpToNul | include/HttpRequest.h:91 | what `getline(stream, body_, '\0')` extracts: a prefix of the input with no NUL, cut exactly at the first NUL when there is one |
| Text.SkipSpace | include/HttpRequest.h:74 | formatted input first drops a run of whitespace: the result is a suffix that does not start with whitespace |
| Text.WordLength | include/HttpRequest.h:74 | a word extracted by `>>` runs up to the first whitespace character |
| Text.WordsOfWord | include/HttpRequest.h:74 | a word followed by whitespace or by the end is extracted whole, and extraction goes on after it |
| Text.WordsSkipSpace | include/HttpRequest.h:74 | leading whitespace changes no extracted word |
| Text.WordsAfterSpace | include/HttpRequest.h:74 | a word after one space is extracted whole |
| Text.WordsAreWords | include/HttpRequest.h:71-74 | `Words` models `stream >> word`: every string it extracts is non-empty and holds no whitespace |
| Text.WordsOfBlank | include/HttpRequest.h:71-74 | `Words` extracts nothing exactly when the text is all whitespace |
| Text.ThreeWordsBeforeCR | include/HttpRequest.h:71-74 | from a line "a b c" ending in '\r', `>> a >> b >> c` extracts exactly a, b and c, leaving the '\r' out |
| Text.TwoWordsFirst | src/HttpResponse.cpp:9-10 | the first two words of "a b…" are a and b, whatever follows after whitespace |
| Text.NatToDecimal | src/HttpResponse.cpp:55 | `out << length` writes a non-empty run of digits, with no leading zero except for 0 itself |
| Text.IntToDecimal | src/HttpResponse.cpp:46 | `out << status_` writes a word that starts with '-' exactly when the value is negative, and is digits after that sign |
| Text.DecimalRoundTrip | src/HttpResponse.cpp:55 | the digits written for a number denote that number |
| Text.DigitSpan | src/HttpResponse.cpp:27 | the longest run of leading digits: all of it is digits, and the next character is not a digit |
| Text.DigitSpanOfDigits | src/HttpResponse.cpp:27 | a run of digits followed by a non-digit is read to exactly its end |
| Text.LeadingDigitsOf | src/HttpResponse.cpp:27 | a run of digits followed by a non-digit reads as its value |
| Text.LeadingIntegerOfDigits | src/HttpResponse.cpp:10 | a numeral without a sign reads back as its value |
| Text.LeadingIntegerOfNegated | src/HttpResponse.cpp:10 | a numeral after '-' reads back as the negated value |
| Text.LeadingIntegerOfPlus | src/HttpResponse.cpp:10 | a numeral after '+' reads back as its value |
| Text.LeadingIntegerOfDecimal | src/HttpResponse.cpp:10 | whatever integer is written, it reads back as itself when a non-digit follows |
| Text.LeadingIntegerCases | src/HttpResponse.cpp:10 | `LeadingInteger` models reading an `int`: it fails exactly when no digit follows the optional sign. A value read without '-' is never negative, and one read after '-' is never positive. |
| Text.ExtractInt | src/HttpResponse.cpp:10 | `line_stream >> status_`: 0 when the word does not start with a number, otherwise the number, clamped to the `int` range |
| Text.Stoi | src/HttpResponse.cpp:27 | `std::stoi`: skips leading whitespace and reads a signed integer. It fails when there is no number or when the number is outside the `int` range. |
| Text.ExtractIntOfDecimal | src/HttpResponse.cpp:10 | any `int` status written by `to_string` is read back by `>>` as itself |
| Text.StoiOfDecimal | src/HttpResponse.cpp:26-27 | a written length that fits an `int`, followed by a non-digit such as '\r', is read back by `std::stoi` as itself |
| Streams.Getline | include/HttpRequest.h:80 | `std::getline` on a good stream: empties the destination, then extracts up to the delimiter and consumes it. Running out of text sets end-of-file. The call fails only if nothing was extracted. On a stream that is not good it fails and changes nothing. Text extracted plus delimiter plus text left is the text before the call. |
| Streams.GetlineLine | include/HttpRequest.h:80 | a line ending in the delimiter is extracted without the delimiter, and the stream stays good just after it |
| Streams.GetlineLast | include/HttpRequest.h:80 | a last line without the delimiter is extracted whole and sets end-of-file |
| Streams.ReadBlock | src/HttpResponse.cpp:29 | `stream.read(buf, n)`: copies the next `n` characters and keeps the stream good. When fewer are left it copies them all and the stream is no longer good. On a stream that is not good it copies nothing. |
| Fields.LessIrreflexive | include/HttpRequest.h:14 | no key is below itself in std::string order |
| Fields.LessTotal | include/HttpRequest.h:14 | any two distinct keys are ordered one way or the other |
| Fields.LessTransitive | include/HttpRequest.h:14 | std::string order is transitive |
| Fields.LessLexicographic | include/HttpRequest.h:14 | `Less` is the order std::string keys are compared by: `a` is below `b` exactly when it is a proper prefix of `b`, or when its character is the smaller one at the first position where they differ |
| Fields.AboveNotIn | include/HttpRequest.h:14 | a key below every key of a sorted map is not in it |
| Fields.Lookup | include/HttpRequest.h:61 | `header_fields_.find(key)`: finds the key exactly when the map holds it, and then returns the value stored under it |
| Fields.Put | include/HttpRequest.h:40 | `header_fields_[key] = value`: the map becomes the old map with `key` now mapped to `value` |
| Fields.PutSorted | include/HttpRequest.h:40 | the insertion keeps the keys strictly ascending: a std::map stays a std::map |
| Fields.FieldLinesSnoc | include/HttpRequest.h:103-105 | writing one more entry appends exactly its "key: value\r\n" line |
| Fields.FieldLinesAppend | include/HttpRequest.h:103-105 | `FieldLines` writes each entry on its own line: writing two runs of fields writes their lines one after the other |
| Fields.SplitField | include/HttpRequest.h:81-85 | a line splits at its first ':'. With no ':' the line is skipped. A ':' in last place throws, because `substr(colon + 2)` is past the end. Otherwise key + ':' + one character + value is the line. |
| Fields.SplitWritten | include/HttpRequest.h:81-85 | a written line "key: value" splits back into that key and value |
| Fields.ParseFields | include/HttpRequest.h:80-87 | the header loop never removes a key |
| Fields.ParseFieldsSorted | include/HttpRequest.h:80-87 | the header loop leaves the map sorted |
| Fields.ScanFieldLine | include/HttpRequest.h:80-87 | one "key: value" line stores `key` with `value + "\r"`, and the loop goes on after it |
| Fields.ScanFieldLines | src/HttpResponse.cpp:15-22 | the loop reads back every line written for a map, in order, each value with '\r' appended |
| Fields.ScanStopsAtBlank | src/HttpResponse.cpp:15 | the line "\r" ends the loop, and the stream stays good after it |
| Fields.ScanSkipsLine | src/HttpResponse.cpp:17 | a line without ':' changes nothing |
| Fields.ScanThrowsOnBareColon | src/HttpResponse.cpp:19 | a line whose only ':' is its last character makes the loop throw, keeping the fields stored so far |
| Fields.RereadStep | src/HttpResponse.cpp:15-22 | storing the first written field and then the rest is the same as storing them all |
| Fields.RereadMap | src/HttpResponse.cpp:15-22 | the loop over written lines adds every written field to the map: the keys are exactly the written keys, and each value is the written value with the '\r' of its line appended |
| Fields.ReadContentSection | src/HttpResponse.cpp:54-57 | after the header lines, the `Content-length` line a writer emits is stored like any other, and the blank line after it ends the loop just before the body. Without a body the loop runs to the end of the input. |
| Fields.ReadWrittenHeaders | src/HttpResponse.cpp:15-22 | the loop over written header lines and length line yields the written map plus the length field. It stops in front of the body, or at end-of-file when the body is empty. |
| Fields.ContentSection | include/HttpRequest.h:107-111 | the body section is empty exactly when the body is empty, and otherwise ends with the body itself |
| Http.GetContentType | include/HTTP.h:30-42 | each of js, css, html, jpg and png maps to its own MIME type. Every other extension, the empty one included, maps to "text/plain". |
| Http.ExtractFileExtension | include/HTTP.h:44-48 | with no '.', the extension is empty. Otherwise it holds no '.' and the URL is some prefix, a '.', then the extension. |
| Http.ExtensionOfSuffix | include/HTTP.h:44-48 | the extension of `p + "." + e` is `e` whenever `e` holds no '.' |
| Http.UrlToPath | include/HTTP.h:50-53 | every path starts with "../html". "/" maps to "../html/index.html" and every other URL to "../html" + URL. |
| Http.UrlToPathCollision | include/HTTP.h:50-53 | two URLs map to the same path exactly when they are equal, or when they are "/" and "/index.html" |
| Http.DotDotNotRejected | include/HTTP.h:52 | a URL that climbs out of the root is not rejected: for example, "/../secret" maps to "../html/../secret" |
| Http.ErrorMessageOneLine | include/HTTP.h:18-21 | no reason text holds a line break |
| Http.BadRequestResponse | include/HTTP.h:55-66 | `generate_bad_response` (`GenerateBadResponse`): for 400 the response is "HTTP/1.0 400 " + message + "\r\nContent-type: text/html\r\n\r\n<p>" + message + "\r\n" |
| Http.ServerErrorResponse | include/HTTP.h:55-66 | `GenerateBadResponse` for 500: the same shape, with its own message |
| Http.UnknownCodeResponse | include/HTTP.h:56-61 | `GenerateBadResponse` for any code other than 400 and 500: it gets no reason text and no body after the blank line |
| Response.BadResponseShape | include/HTTP.h:55-66 | a canned error response is a status line, one `Content-type: text/html` field line, the blank line, then the paragraph |
| Response.BadResponseReadsBack | include/HTTP.h:55-66 | when the reading response has no `Content-length` field, `HttpResponse::read` of any canned error response ends normally with version "HTTP/1.0" and the code as status. It adds only `Content-type` (its value keeping the '\r') and leaves the body alone, since no `Content-length` is sent. |
| Request.MethodToString | include/HttpRequest.h:117-119 | every method name is a single word |
| Request.StringToMethod | include/HttpRequest.h:121-123 | only "GET", "POST" and "PUT" name a method, and the name of the method found is the string given |
| Request.MethodRoundTrip | include/HttpRequest.h:116-123 | converting a method to its name and back gives the method |
| Request.RequestLine | include/HttpRequest.h:71-74 | the request line changes only the URL and the version |
| Request.ReadRequest | include/HttpRequest.h:66-93 | `read` never removes a header field. It changes the body only when it ends normally with a `Content-Length` field present, and the new body holds no NUL. |
| Request.ReadBody | include/HttpRequest.h:80-92 | the header loop and the body read: the fields are exactly those the loop leaves, and the same guarantees as `ReadRequest` hold |
| Request.HttpRequest.constructor | include/HttpRequest.h:19-20 | method and URL from the arguments, version "HTTP/1.1", an empty body and no fields |
| Request.HttpRequest.SetMethod | include/HttpRequest.h:23-25 | only the method changes, and `get_method` returns the new one |
| Request.HttpRequest.SetUrl | include/HttpRequest.h:27-29 | only the URL changes, and `get_url` returns the new one |
| Request.HttpRequest.SetVersion | include/HttpRequest.h:31-33 | only the version changes, and `get_version` returns the new one |
| Request.HttpRequest.SetBody | include/HttpRequest.h:35-37 | only the body changes, and `get_body` returns the new one |
| Request.HttpRequest.AddHeaderField | include/HttpRequest.h:39-41 | the map stays sorted. The key now maps to the value, `get_header_field(key)` returns it, and every other key reads as before. |
| Request.HttpRequest.GetHeaderField | include/HttpRequest.h:60-63 | the value stored under the key, or "" when there is none |
| Request.HttpRequest.Read | include/HttpRequest.h:66-93 | the object ends as `ReadRequest` of its old state, with the same outcome, and its map stays sorted |
| Request.HttpRequest.ReadFieldsAndBody | include/HttpRequest.h:79-92 | the object ends as `ReadBody` of its state before the header loop |
| Request.HttpRequest.ReadFields | include/HttpRequest.h:80-87 | the loop stores fields in place, exactly as `ParseFields`, changing nothing but the map |
| Request.HttpRequest.ToString | include/HttpRequest.h:96-114 | on a request whose map is sorted (as every map is), the text is the request line, one line per field in ascending key order, then the length line, blank line and body when the body is non-empty |
| Request.SerializeRequest | include/HttpRequest.h:96-114 | the body is written last and unchanged; `RequestRoundTrip` says what reading the whole text gives back |
| Request.ReadRequestLineTokens | include/HttpRequest.h:71-77 | the request line written by `to_string` reads back as its method name, URL and version, when URL and version are words |
| Request.RequestRoundTrip | include/HttpRequest.h:66-114 | when the URL and the version are words, the map is sorted, keys hold no ':' or line break and values no line break: reading what `to_string` wrote gives back the method, URL and version, and the written map with '\r' appended to each value plus `Content-length` for a non-empty body. The body comes back (up to its first NUL) only if it is non-empty and a `Content-Length` field was already there; otherwise the old body stays. |
| Request.ReadWrittenBody | include/HttpRequest.h:80-92 | the header loop and body read over written lines, with the same result as above |
| Request.RequestBodyLost | include/HttpRequest.h:90 | a request without a `Content-Length` field, read into a fresh request, comes back with an empty body, whatever body it had |
| Response.StatusMessage | src/HttpResponse.cpp:33-40 | "OK" exactly for 200, "Not Found" exactly for 404, "Unknown" for every other code |
| Response.StatusLine | src/HttpResponse.cpp:8-12 | the status line changes only the version and the status |
| Response.Resize | src/HttpResponse.cpp:28 | `body_.resize(n)`: exactly `n` characters, the old ones first and NULs after them |
| Response.ReadResponse | src/HttpResponse.cpp:3-31 | `read` never removes a header field, and changes the body only when it ends normally with `Content-length` present. After a normal end with `Content-length` present, the body has exactly the length `std::stoi` reads from that field. |
| Response.ReadResponseBody | src/HttpResponse.cpp:14-30 | the header loop and the body: only fields and body change, the fields are those the loop leaves, and the same length guarantee holds |
| Response.ReadSizedBody | src/HttpResponse.cpp:24-30 | the body step: only the body changes, and only when `Content-length` is present. Its new length is the value read from that field. |
| Response.HttpResponse.constructor | include/HttpResponse.h:13 | status from the argument, version "HTTP/1.1", empty body, no fields |
| Response.HttpResponse.WithBody | include/HttpResponse.h:16 | status and body from the arguments, version "HTTP/1.1", no fields |
| Response.HttpResponse.WithHeaders | include/HttpResponse.h:19-20 | status, body and fields from the arguments, version "HTTP/1.1" |
| Response.HttpResponse.SetStatus | include/HttpResponse.h:29 | only the status changes, and `get_status` returns the new one |
| Response.HttpResponse.SetVersion | include/HttpResponse.h:30 | only the version changes, and `get_version` returns the new one |
| Response.HttpResponse.SetBody | include/HttpResponse.h:31 | only the body changes, and `get_body` returns the new one |
| Response.HttpResponse.SetHeaderField | include/HttpResponse.h:32-34 | the keys become the old keys plus the field. The field maps to the value, every other key keeps its value, and the map stays sorted. |
| Response.HttpResponse.Read | src/HttpResponse.cpp:3-31 | the object ends as `ReadResponse` of its old state, with the same outcome, and its map stays sorted |
| Response.HttpResponse.ReadFieldsAndBody | src/HttpResponse.cpp:14-30 | the object ends as `ReadResponseBody` of its state before the header loop |
| Response.HttpResponse.ReadFields | src/HttpResponse.cpp:15-22 | the loop stores fields in place, exactly as `ParseFields`, changing nothing but the map |
| Response.HttpResponse.ToString | src/HttpResponse.cpp:42-60 | on a response whose map is sorted (as every map is), the text is the status line, one line per field in ascending key order, then the length line, blank line and body when the body is non-empty |
| Response.SerializeResponse | src/HttpResponse.cpp:42-60 | the body is written last and unchanged; `ResponseRoundTrip` says what reading the whole text gives back |
| Response.ReadIntoResized | src/HttpResponse.cpp:28-29 | after the resize and the read, the body has `n` characters and starts with those read. Past them it keeps the old characters and then NULs. When the stream holds `n` characters, the body is exactly those. |
| Response.ReadStatusLineTokens | src/HttpResponse.cpp:8-12 | the status line written by `to_string` reads back as its version and status, whatever the reason text, when the version is a word |
| Response.ReadWrittenResponseBody | src/HttpResponse.cpp:14-30 | over written header lines, length line and body: the written map with '\r' appended to each value plus `Content-length`, and a non-empty body read back whole. This holds when the written map is sorted, its keys hold no ':' or line break, its values hold no line break, the body length fits an `int`, and, when the body is empty, neither the reading response nor the written map has a `Content-length` field. |
| Response.ReadLengthBody | src/HttpResponse.cpp:24-30 | a body after a matching length line is read whole |
| Response.ReadOneField | src/HttpResponse.cpp:15-30 | one field line and the blank line store that field. Without `Content-length` the body is left alone. |
| Response.ReadStatusAndOneField | src/HttpResponse.cpp:3-31 | a status line, one field line and the blank line are read as version, status and that field. This holds when the version is a word, the reason text holds no line break, the key holds no ':' or line break, the value holds no line break, the field is not `Content-length`, and the reading response has no `Content-length` field. |
| Response.ResponseRoundTrip | src/HttpResponse.cpp:3-60 | reading what `to_string` wrote gives back the version and the status of any `int`. It gives back the written map with '\r' appended to each value plus `Content-length` for a non-empty body, and the body itself when it is non-empty. This holds when the version is a word, the map is sorted, keys hold no ':' or line break, values hold no line break, the body length fits an `int`, and, when the body is empty, neither the reading response nor `r` has a `Content-length` field. |
| Response.FreshResponseRoundTrip | src/HttpResponse.cpp:3-60 | a freshly constructed response that reads the text of `r` comes back with the version, status and body of `r`, when the version of `r` is a word, its map is sorted, keys hold no ':' or line break, values hold no line break, the body length fits an `int`, and an empty body comes with no `Content-length` field in `r` |

## Left out

- `execute_cgi` (include/HTTP.h:68-112) is not modelled. It is process and pipe I/O: fork, exec, dup2, and byte-by-byte send, recv and waitpid.
- `process_http_request` (include/HTTP.h:114-125) is not modelled. It calls `read_request` and `read_file`, which are not part of this model, and it does file I/O.
- The server loop, the thread pool and the database setup (src/server.cpp, include/server.h, include/ThreadPool.h) are not part of this model. They are socket, thread and database plumbing.
- `url_fields_` (include/HttpRequest.h:15) is not modelled. No code reads or writes it.
- Getters (include/HttpRequest.h:44-58, include/HttpResponse.h:23-26) are modelled as functions that read the object. Their meaning is stated by the setters' contracts, so they have no rows of their own.
- `get_status_message` is defined in src/HttpResponse.cpp:33-40 but not declared in include/HttpResponse.h. It is modelled as the free function `StatusMessage`.
- Request.StringToMethod, Request.MethodToString: the source bodies are empty stubs. The model assumes the closed mapping described above, including a throw for any other name in `read`.
- Streams.Getline: a stream is modelled as the text not yet read plus a single "good" flag. Failure and end-of-file are not told apart, and the read position is not kept. Nothing in the codec inspects them separately.
- Response.ReadSizedBody: a `Content-length` that `std::stoi` rejects, or a negative one, ends `read` with an exception outcome. This stands for the `std::invalid_argument` and `std::out_of_range` of `std::stoi`, and the `std::length_error` of `resize` on the converted `size_t`. Memory exhaustion (`std::bad_alloc`) on a huge length is not modelled.
- A `char` stands for one byte. Locale-dependent whitespace and digit classes are fixed to the "C" locale.
- Response.HttpResponse.ToString, Request.HttpRequest.ToString: the `std::ostringstream` is modelled as a string that the loop extends.
