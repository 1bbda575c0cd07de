/**
 The MMDS endpoint's HTTP request parser and response writer (crates/mmds/src/tcp.rs).

 Text is a sequence of Unicode scalar values.  Lengths are unbounded integers, so the sum of
 header end and content length cannot overflow.
 */
module Http {
  import opened Words
  import opened Outcomes

  type Text = seq<int>

  const MAX_REQUEST_BYTES: nat := 16 * 1024
  const CRLF: seq<Byte> := [13, 10]
  const CRLFCRLF: seq<Byte> := [13, 10, 13, 10]

  datatype Request = Request(verb: Text, path: Text, token: Option<Text>, ttl: Option<nat>, body: seq<Byte>)

  datatype Outcome =
    | Incomplete
    | Complete(request: Request)
    | Malformed
    | TooLarge

  // ---- searching ---------------------------------------------------------------------------

  predicate OccursAt<T(==)>(s: seq<T>, needle: seq<T>, i: nat) {
    i + |needle| <= |s| && s[i..i + |needle|] == needle
  }

  /** The first position at or after `from` where `needle` occurs. */
  function Find<T(==)>(s: seq<T>, needle: seq<T>, from: nat): (r: Option<nat>)
    ensures r.Some? ==> from <= r.value && OccursAt(s, needle, r.value)
    ensures r.Some? ==> forall i :: from <= i < r.value ==> !OccursAt(s, needle, i)
    ensures r.None? ==> forall i :: from <= i ==> !OccursAt(s, needle, i)
    decreases |s| - from
  {
    if from + |needle| > |s| then None
    else if OccursAt(s, needle, from) then Some(from)
    else Find(s, needle, from + 1)
  }

  /** `str::split`: the pieces between non-overlapping occurrences of a non-empty separator. */
  function Split<T(==)>(s: seq<T>, sep: seq<T>): (r: seq<seq<T>>)
    requires sep != []
    ensures r != []
    decreases |s|
  {
    match Find(s, sep, 0)
    case None => [s]
    case Some(i) => [s[..i]] + Split(s[i + |sep|..], sep)
  }

  // ---- text --------------------------------------------------------------------------------

  predicate IsContinuation(b: Byte) {
    0x80 <= b <= 0xBF
  }

  /** How many bytes the character starting here has; 0 if it is not well-formed UTF-8. */
  function CharLength(b: seq<Byte>): (n: nat)
    requires b != []
    ensures n <= |b|
  {
    var lead := b[0];
    if lead < 0x80 then 1
    else if 0xC2 <= lead <= 0xDF then
      if |b| >= 2 && IsContinuation(b[1]) then 2 else 0
    else if 0xE0 <= lead <= 0xEF then
      var lo := if lead == 0xE0 then 0xA0 else 0x80;
      var hi := if lead == 0xED then 0x9F else 0xBF;
      if |b| >= 3 && lo <= b[1] <= hi && IsContinuation(b[2]) then 3 else 0
    else if 0xF0 <= lead <= 0xF4 then
      var lo := if lead == 0xF0 then 0x90 else 0x80;
      var hi := if lead == 0xF4 then 0x8F else 0xBF;
      if |b| >= 4 && lo <= b[1] <= hi && IsContinuation(b[2]) && IsContinuation(b[3]) then 4 else 0
    else 0
  }

  function CharValue(b: seq<Byte>): int
    requires b != [] && CharLength(b) > 0
  {
    var lead: int := b[0];
    match CharLength(b)
    case 1 => lead
    case 2 => 0x40 * (lead - 0xC0) + Low6(b[1])
    case 3 => 0x1000 * (lead - 0xE0) + 0x40 * Low6(b[1]) + Low6(b[2])
    case _ => 0x4_0000 * (lead - 0xF0) + 0x1000 * Low6(b[1]) + 0x40 * Low6(b[2]) + Low6(b[3])
  }

  function Low6(b: Byte): int {
    b - 0x80
  }

  /** `str::from_utf8`. */
  function Decode(b: seq<Byte>): Option<Text>
    decreases |b|
  {
    if b == [] then Some([])
    else
      var n := CharLength(b);
      if n == 0 then None
      else
        match Decode(b[n..])
        case None => None
        case Some(rest) => Some([CharValue(b)] + rest)
  }

  /** Unicode White_Space. */
  predicate IsSpace(c: int) {
    || 9 <= c <= 13 || c == 0x20 || c == 0x85 || c == 0xA0 || c == 0x1680
    || 0x2000 <= c <= 0x200A || c == 0x2028 || c == 0x2029 || c == 0x202F || c == 0x205F || c == 0x3000
  }

  function SkipSpace(s: Text): (r: Text)
    ensures |r| <= |s|
  {
    if s != [] && IsSpace(s[0]) then SkipSpace(s[1..]) else s
  }

  function DropTrailingSpace(s: Text): Text {
    if s != [] && IsSpace(s[|s| - 1]) then DropTrailingSpace(s[..|s| - 1]) else s
  }

  function Trim(s: Text): Text {
    DropTrailingSpace(SkipSpace(s))
  }

  /** The leading run of non-space characters. */
  function Token(s: Text): (r: Text)
    ensures |r| <= |s| && r == s[..|r|]
  {
    if s == [] || IsSpace(s[0]) then [] else [s[0]] + Token(s[1..])
  }

  /** The next item of `split_whitespace`, and what follows it. */
  function NextWord(s: Text): Option<(Text, Text)> {
    var t := SkipSpace(s);
    if t == [] then None else Some((Token(t), t[|Token(t)|..]))
  }

  predicate IsDigit(c: int) {
    48 <= c <= 57
  }

  function DigitsValue(s: Text): nat
    requires forall i :: 0 <= i < |s| ==> IsDigit(s[i])
  {
    if s == [] then 0
    else
      assert IsDigit(s[|s| - 1]);
      10 * DigitsValue(s[..|s| - 1]) + (s[|s| - 1] - 48)
  }

  /** `str::parse` for an unsigned type with this exclusive limit: an optional `+`, then digits. */
  function ParseUnsigned(s: Text, limit: nat): Option<nat> {
    var digits := if s != [] && s[0] == 43 then s[1..] else s;
    if digits == [] || exists i :: 0 <= i < |digits| && !IsDigit(digits[i]) then None
    else if DigitsValue(digits) >= limit then None
    else Some(DigitsValue(digits))
  }

  function Lower(c: int): int {
    if 65 <= c <= 90 then c + 32 else c
  }

  predicate SameIgnoringCase(a: Text, b: Text) {
    |a| == |b| && forall i :: 0 <= i < |a| ==> Lower(a[i]) == Lower(b[i])
  }

  function ByteOf(c: char): Byte {
    c as int % 256
  }

  /** The bytes of an ASCII literal. */
  function Bytes(s: string): (b: seq<Byte>)
    ensures |b| == |s|
  {
    seq(|s|, i requires 0 <= i < |s| => ByteOf(s[i]))
  }

  const CONTENT_LENGTH: seq<Byte> := Bytes("content-length")
  const TOKEN_HEADER: seq<Byte> := Bytes("x-aws-ec2-") + Bytes("metadata-token")
  const TTL_HEADER: seq<Byte> := TOKEN_HEADER + Bytes("-ttl-seconds")

  // ---- the parser --------------------------------------------------------------------------

  datatype Headers = Headers(contentLength: nat, token: Option<Text>, ttl: Option<nat>)

  /** The effect of one header line; lines without a colon and unknown names are skipped. */
  function ApplyHeader(h: Headers, line: Text): Headers {
    match Find(line, [58], 0)
    case None => h
    case Some(i) =>
      var name, value := line[..i], Trim(line[i + 1..]);
      if SameIgnoringCase(name, CONTENT_LENGTH) then
        h.(contentLength := match ParseUnsigned(value, U64_LIMIT) case Some(n) => n case None => 0)
      else if SameIgnoringCase(name, TOKEN_HEADER) then h.(token := Some(value))
      else if SameIgnoringCase(name, TTL_HEADER) then h.(ttl := ParseUnsigned(value, 0x1_0000_0000))
      else h
  }

  function ApplyHeaders(h: Headers, lines: seq<Text>): Headers
    decreases |lines|
  {
    if lines == [] then h else ApplyHeaders(ApplyHeader(h, lines[0]), lines[1..])
  }

  datatype Head = Head(verb: Text, path: Text, headers: Headers)

  /** The request line and headers, from the bytes before the blank line. */
  function ParseHead(headerBytes: seq<Byte>): Option<Head> {
    match Decode(headerBytes)
    case None => None
    case Some(text) =>
      var lines := Split(text, CRLF);
      match NextWord(lines[0])
      case None => None
      case Some((verb, rest)) =>
        match NextWord(rest)
        case None => None
        case Some((path, _)) => Some(Head(verb, path, ApplyHeaders(Headers(0, None, None), lines[1..])))
  }

  /** `try_parse_http`. */
  function Parse(buf: seq<Byte>): Outcome {
    if |buf| > MAX_REQUEST_BYTES then TooLarge
    else
      match Find(buf, CRLFCRLF, 0)
      case None => Incomplete
      case Some(headerEnd) =>
        Finish(buf, headerEnd + 4, ParseHead(buf[..headerEnd]))
  }

  /** The verdict once the head has been read. */
  function Finish(buf: seq<Byte>, bodyStart: nat, head: Option<Head>): Outcome {
    match head
    case None => Malformed
    case Some(head) =>
      var bodyEnd := bodyStart + head.headers.contentLength;
      if bodyEnd > MAX_REQUEST_BYTES then TooLarge
      else if |buf| < bodyEnd then Incomplete
      else Complete(Request(head.verb, head.path, head.headers.token, head.headers.ttl, buf[bodyStart..bodyEnd]))
  }

  /** The parser as written: locals updated by a loop over the header lines. */
  method TryParse(buf: seq<Byte>) returns (r: Outcome)
    ensures r == Parse(buf)
  {
    if |buf| > MAX_REQUEST_BYTES {
      return TooLarge;
    }
    var headerEnd := Find(buf, CRLFCRLF, 0);
    if headerEnd.None? {
      return Incomplete;
    }
    var text := Decode(buf[..headerEnd.value]);
    if text.None? {
      return Malformed;
    }
    var lines := Split(text.value, CRLF);
    var methodPart := NextWord(lines[0]);
    if methodPart.None? {
      return Malformed;
    }
    var pathPart := NextWord(methodPart.value.1);
    if pathPart.None? {
      return Malformed;
    }
    var headers := Headers(0, None, None);
    for i := 1 to |lines|
      invariant ApplyHeaders(headers, lines[i..]) == ApplyHeaders(Headers(0, None, None), lines[1..])
    {
      headers := ApplyHeader(headers, lines[i]);
    }
    var bodyStart := headerEnd.value + 4;
    var bodyEnd := bodyStart + headers.contentLength;
    if bodyEnd > MAX_REQUEST_BYTES {
      return TooLarge;
    }
    if |buf| < bodyEnd {
      return Incomplete;
    }
    return Complete(Request(methodPart.value.0, pathPart.value.0, headers.token, headers.ttl, buf[bodyStart..bodyEnd]));
  }

  // ---- a verdict never changes as more bytes arrive -------------------------------------------

  lemma FindInPrefix<T>(s: seq<T>, more: seq<T>, needle: seq<T>)
    requires Find(s, needle, 0).Some?
    ensures Find(s + more, needle, 0) == Find(s, needle, 0)
  {
    var i := Find(s, needle, 0).value;
    forall j: nat | j <= i
      ensures OccursAt(s + more, needle, j) == OccursAt(s, needle, j)
    {
      assert (s + more)[j..j + |needle|] == s[j..j + |needle|];
    }
  }

  lemma VerdictIsStable(buf: seq<Byte>, more: seq<Byte>)
    requires !Parse(buf).Incomplete? && |buf + more| <= MAX_REQUEST_BYTES
    ensures Parse(buf + more) == Parse(buf)
  {
    FindInPrefix(buf, more, CRLFCRLF);
    var headerEnd := Find(buf, CRLFCRLF, 0).value;
    assert (buf + more)[..headerEnd] == buf[..headerEnd];
    match ParseHead(buf[..headerEnd])
    case None =>
    case Some(head) =>
      var bodyStart := headerEnd + 4;
      var bodyEnd := bodyStart + head.headers.contentLength;
      if bodyEnd <= |buf| { assert (buf + more)[bodyStart..bodyEnd] == buf[bodyStart..bodyEnd]; }
  }

  // ---- responses -----------------------------------------------------------------------------

  datatype Response = Response(status: nat, body: seq<Byte>)

  function Digits(n: nat): (t: seq<Byte>)
    ensures t != [] && forall i :: 0 <= i < |t| ==> IsDigit(t[i])
  {
    if n < 10 then [48 + n] else Digits(n / 10) + [48 + n % 10]
  }

  function Reason(status: nat): string {
    match status
    case 200 => "OK"
    case 400 => "Bad Request"
    case 401 => "Unauthorized"
    case 404 => "Not Found"
    case 405 => "Method Not Allowed"
    case 413 => "Payload Too Large"
    case 414 => "URI Too Long"
    case 500 => "Internal Server Error"
    case _ => "Unknown"
  }

  /** Lines with CRLF between them. */
  function Join(lines: seq<seq<Byte>>): seq<Byte>
    requires lines != []
  {
    if |lines| == 1 then lines[0] else lines[0] + CRLF + Join(lines[1..])
  }

  const HTTP_VERSION: seq<Byte> := Bytes("HTTP/1.1")

  function StatusLine(status: nat): seq<Byte> {
    HTTP_VERSION + ([32] + Digits(status) + ([32] + Bytes(Reason(status))))
  }

  /** `name: value`. */
  function FieldLine(name: Text, value: Text): Text {
    name + [58] + ([32] + value)
  }

  function ResponseLines(r: Response): seq<seq<Byte>> {
    [StatusLine(r.status),
     FieldLine(Bytes("Content-Length"), Digits(|r.body|)),
     FieldLine(Bytes("Content-Type"), Bytes("application/json")),
     FieldLine(Bytes("Connection"), Bytes("close"))]
  }

  /** `HttpResponse::to_wire`: status line, three headers, blank line, body. */
  function ToWire(r: Response): (w: seq<Byte>)
    ensures |w| > |r.body|
  {
    Join(ResponseLines(r)) + CRLFCRLF + r.body
  }

  /** What the server answers to a verdict; nothing while the request is incomplete. */
  function Answer(v: Outcome, handler: Request -> Response): Option<Response> {
    match v
    case Incomplete => None
    case Malformed => Some(Response(400, Bytes("{\"fault_message\":\"malformed request\"}")))
    case TooLarge => Some(Response(413, Bytes("{\"fault_message\":\"request too large\"}")))
    case Complete(request) => Some(handler(request))
  }
}
