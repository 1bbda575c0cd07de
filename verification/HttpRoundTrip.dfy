/**
 The HTTP parser undoes a straightforward client: any request a client can write down in the
 endpoint's vocabulary is parsed back exactly (crates/mmds/src/tcp.rs).
 */
module HttpRoundTrip {
  import opened Words
  import opened Outcomes
  import opened Http

  // ---- the client ----------------------------------------------------------------------------

  /** Printable ASCII without space. */
  predicate IsGraphic(s: seq<int>) {
    forall i :: 0 <= i < |s| ==> 33 <= s[i] <= 126
  }

  /** Printable ASCII that neither starts nor ends with a space. */
  predicate IsFieldValue(s: seq<int>) {
    && (forall i :: 0 <= i < |s| ==> 32 <= s[i] <= 126)
    && (s != [] ==> s[0] != 32 && s[|s| - 1] != 32)
  }

  /** Text without carriage returns or line feeds, and not empty. */
  predicate IsLine(s: seq<int>) {
    s != [] && forall i :: 0 <= i < |s| ==> 32 <= s[i] <= 126
  }

  ghost predicate AllLines(lines: seq<seq<int>>) {
    forall i :: 0 <= i < |lines| ==> IsLine(lines[i])
  }

  // ---- finding the blank line ------------------------------------------------------------------

  /** No CRLF CRLF starts inside the joined lines, whatever follows them. */
  lemma {:induction false} NoBlankInside(lines: seq<seq<Byte>>, after: seq<Byte>, i: nat)
    requires lines != [] && AllLines(lines) && i < |Join(lines)|
    ensures !OccursAt(Join(lines) + CRLFCRLF + after, CRLFCRLF, i)
    decreases |lines|
  {
    var l := lines[0];
    var full := Join(lines) + CRLFCRLF + after;
    assert IsLine(l);
    if i < |l| {
      assert full[i] == l[i];
      NotAt(full, i, 0);
    } else {
      var rest := lines[1..];
      var tail := Join(rest) + CRLFCRLF + after;
      assert full == l + CRLF + tail;
      if i == |l| {
        assert IsLine(rest[0]);
        assert full[i + 2] == tail[0] == rest[0][0];
        NotAt(full, i, 2);
      } else if i == |l| + 1 {
        assert full[i] == 10;
        NotAt(full, i, 0);
      } else {
        var k := i - |l| - 2;
        NoBlankInside(rest, after, k);
        assert full[i..] == tail[k..];
        ShiftOccurrence(full, tail, CRLFCRLF, i, k);
      }
    }
  }

  lemma NotAt(s: seq<Byte>, i: nat, k: nat)
    requires k < 4 && i + k < |s| && s[i + k] != CRLFCRLF[k]
    ensures !OccursAt(s, CRLFCRLF, i)
  {
    if OccursAt(s, CRLFCRLF, i) { OccursElement(s, CRLFCRLF, i, k); }
  }

  lemma OccursElement<T>(s: seq<T>, needle: seq<T>, i: nat, k: nat)
    requires OccursAt(s, needle, i) && k < |needle|
    ensures s[i + k] == needle[k]
  {
    assert s[i..i + |needle|][k] == s[i + k];
  }

  lemma ShiftOccurrence<T>(s: seq<T>, t: seq<T>, needle: seq<T>, i: nat, k: nat)
    requires i <= |s| && k <= |t| && s[i..] == t[k..]
    ensures OccursAt(s, needle, i) == OccursAt(t, needle, k)
  {
    if i + |needle| <= |s| {
      assert s[i..i + |needle|] == s[i..][..|needle|];
      assert t[k..k + |needle|] == t[k..][..|needle|];
    }
  }

  lemma FindBlank(lines: seq<seq<Byte>>, after: seq<Byte>)
    requires lines != [] && AllLines(lines)
    ensures Find(Join(lines) + CRLFCRLF + after, CRLFCRLF, 0) == Some(|Join(lines)|)
  {
    var full := Join(lines) + CRLFCRLF + after;
    assert full[|Join(lines)|..|Join(lines)| + 4] == CRLFCRLF;
    assert OccursAt(full, CRLFCRLF, |Join(lines)|);
    forall i: nat | i < |Join(lines)| ensures !OccursAt(full, CRLFCRLF, i) {
      NoBlankInside(lines, after, i);
    }
  }

  // ---- splitting into lines --------------------------------------------------------------------

  lemma FindLineEnd(l: seq<int>, more: seq<int>)
    requires IsLine(l)
    ensures Find(l + CRLF + more, CRLF, 0) == Some(|l|)
    ensures Find(l, CRLF, 0) == None
  {
    var s := l + CRLF + more;
    assert s[|l|..|l| + 2] == CRLF;
    assert OccursAt(s, CRLF, |l|);
    forall i: nat | i < |l| ensures !OccursAt(s, CRLF, i) && !OccursAt(l, CRLF, i) {
      assert s[i] == l[i];
      if OccursAt(s, CRLF, i) { OccursElement(s, CRLF, i, 0); }
      if OccursAt(l, CRLF, i) { OccursElement(l, CRLF, i, 0); }
    }
  }

  lemma SplitFirst(s: seq<int>, l: seq<int>, more: seq<int>, rest: seq<seq<int>>)
    requires IsLine(l) && s == l + CRLF + more && Split<int>(more, CRLF) == rest
    ensures Split<int>(s, CRLF) == [l] + rest
  {
    FindLineEnd(l, more);
    assert s[..|l|] == l && s[|l| + 2..] == more;
  }

  lemma SplitLast(l: seq<int>)
    requires IsLine(l)
    ensures Split<int>(l, CRLF) == [l]
  {
    FindLineEnd(l, []);
  }

  lemma {:induction false} SplitJoin(lines: seq<seq<Byte>>)
    requires lines != [] && AllLines(lines)
    ensures Split<int>(Join(lines), CRLF) == lines
    decreases |lines|
  {
    assert IsLine(lines[0]);
    if |lines| == 1 {
      SplitLast(lines[0]);
    } else {
      SplitJoin(lines[1..]);
      SplitFirst(Join(lines), lines[0], Join(lines[1..]), lines[1..]);
    }
  }

  // ---- ASCII -----------------------------------------------------------------------------------

  lemma {:induction false} DecodeAscii(b: seq<Byte>)
    requires forall i :: 0 <= i < |b| ==> b[i] < 128
    ensures Decode(b) == Some(b)
    decreases |b|
  {
    if b == [] {
    } else {
      DecodeAscii(b[1..]);
      assert [b[0]] + b[1..] == b;
    }
  }

  lemma {:induction false} JoinIsAscii(lines: seq<seq<Byte>>)
    requires lines != [] && AllLines(lines)
    ensures forall i :: 0 <= i < |Join(lines)| ==> Join(lines)[i] < 128
    decreases |lines|
  {
    assert IsLine(lines[0]);
    if |lines| > 1 { JoinIsAscii(lines[1..]); }
  }

  // ---- words -----------------------------------------------------------------------------------

  lemma {:induction false} TokenStops(w: seq<int>, more: seq<int>)
    requires IsGraphic(w) && (more == [] || IsSpace(more[0]))
    ensures Token(w + more) == w
    decreases |w|
  {
    if w == [] {
      assert w + more == more;
    } else {
      assert (w + more)[1..] == w[1..] + more;
      TokenStops(w[1..], more);
      assert [w[0]] + w[1..] == w;
    }
  }

  lemma WordAtStart(w: seq<int>, more: seq<int>)
    requires IsGraphic(w) && w != [] && (more == [] || IsSpace(more[0]))
    ensures NextWord(w + more) == Some((w, more))
  {
    TokenStops(w, more);
    assert (w + more)[|w|..] == more;
  }

  lemma WordAfterSpace(w: seq<int>, more: seq<int>)
    requires IsGraphic(w) && w != [] && (more == [] || IsSpace(more[0]))
    ensures NextWord([32] + w + more) == Some((w, more))
  {
    var s := [32] + w + more;
    assert s[1..] == w + more;
    assert SkipSpace(s) == SkipSpace(w + more) == w + more;
    WordAtStart(w, more);
  }

  // ---- header fields -----------------------------------------------------------------------------

  lemma {:induction false} ColonAt(name: seq<int>, more: seq<int>)
    requires forall i :: 0 <= i < |name| ==> name[i] != 58
    ensures Find(name + [58] + more, [58], 0) == Some(|name|)
  {
    var s := name + [58] + more;
    assert s[|name|..|name| + 1] == [58];
    assert OccursAt(s, [58], |name|);
    forall i: nat | i < |name| ensures !OccursAt(s, [58], i) {
      assert s[i] == name[i];
      if OccursAt(s, [58], i) { OccursElement(s, [58], i, 0); }
    }
  }

  lemma TrimField(value: seq<int>)
    requires IsFieldValue(value)
    ensures Trim([32] + value) == value
  {
    var s := [32] + value;
    assert s[1..] == value;
    assert SkipSpace(s) == SkipSpace(value) == value;
  }

  lemma FieldApplies(h: Headers, name: seq<int>, value: seq<int>)
    requires IsFieldValue(value) && forall i :: 0 <= i < |name| ==> name[i] != 58
    ensures ApplyHeader(h, name + [58] + ([32] + value)) ==
            if SameIgnoringCase(name, CONTENT_LENGTH) then
              h.(contentLength := match ParseUnsigned(value, U64_LIMIT) case Some(n) => n case None => 0)
            else if SameIgnoringCase(name, TOKEN_HEADER) then h.(token := Some(value))
            else if SameIgnoringCase(name, TTL_HEADER) then h.(ttl := ParseUnsigned(value, 0x1_0000_0000))
            else h
  {
    var line := name + [58] + ([32] + value);
    ColonAt(name, [32] + value);
    assert line[..|name|] == name && line[|name| + 1..] == [32] + value;
    TrimField(value);
  }

  lemma {:induction false} DigitsParse(n: nat)
    ensures DigitsValue(Digits(n)) == n
  {
    if n >= 10 {
      DigitsParse(n / 10);
      var d := Digits(n);
      assert d[..|d| - 1] == Digits(n / 10);
    }
  }

  lemma NumberParses(n: nat, limit: nat)
    requires n < limit
    ensures ParseUnsigned(Digits(n), limit) == Some(n) && IsFieldValue(Digits(n))
  {
    DigitsParse(n);
    var d := Digits(n);
    assert IsDigit(d[0]) && IsDigit(d[|d| - 1]);
  }

  // ---- the whole request -------------------------------------------------------------------------

  /** Requests a client can put on the wire: graphic method and path, trimmed token, 32-bit TTL. */
  ghost predicate Renderable(r: Request) {
    && IsGraphic(r.verb) && r.verb != [] && IsGraphic(r.path) && r.path != []
    && (r.token.Some? ==> IsFieldValue(r.token.value))
    && (r.ttl.Some? ==> r.ttl.value < 0x1_0000_0000)
  }

  function RequestLine(verb: seq<int>, path: seq<int>): seq<int> {
    verb + ([32] + path + ([32] + HTTP_VERSION))
  }

  /** The optional headers, then the length of the body. */
  function FieldLines(r: Request): seq<seq<int>> {
    (if r.token.Some? then [FieldLine(TOKEN_HEADER, r.token.value)] else [])
    + (if r.ttl.Some? then [FieldLine(TTL_HEADER, Digits(r.ttl.value))] else [])
    + [FieldLine(CONTENT_LENGTH, Digits(|r.body|))]
  }

  function HeadLines(r: Request): seq<seq<int>> {
    [RequestLine(r.verb, r.path)] + FieldLines(r)
  }

  ghost function Render(r: Request): seq<Byte>
    requires Renderable(r)
  {
    HeadLinesPrintable(r);
    Join(HeadLines(r)) + CRLFCRLF + r.body
  }

  /** Graphic and without a colon, so that the first colon of a field ends its name. */
  predicate IsName(s: seq<int>) {
    IsGraphic(s) && s != [] && forall i :: 0 <= i < |s| ==> s[i] != 58
  }

  predicate PlainText(s: string) {
    s != "" && forall i :: 0 <= i < |s| ==> '!' <= s[i] <= '~' && s[i] != ':'
  }

  lemma PlainIsName(s: string)
    requires PlainText(s)
    ensures IsName(Bytes(s))
  {
  }

  predicate PrintableText(s: string) {
    forall i :: 0 <= i < |s| ==> ' ' <= s[i] <= '~'
  }

  lemma PrintableIsLine(s: string)
    requires PrintableText(s) && s != ""
    ensures IsLine(Bytes(s))
  {
  }

  lemma ContentLengthIsName()
    ensures IsName(CONTENT_LENGTH)
  {
    PlainIsName("content-length");
  }

  lemma VendorPrefixIsName()
    ensures IsName(Bytes("x-aws-ec2-"))
  {
    PlainIsName("x-aws-ec2-");
  }

  lemma TokenSuffixIsName()
    ensures IsName(Bytes("metadata-token"))
  {
    PlainIsName("metadata-token");
  }

  lemma TtlSuffixIsName()
    ensures IsName(Bytes("-ttl-seconds"))
  {
    PlainIsName("-ttl-seconds");
  }

  lemma NamesConcat(a: seq<int>, b: seq<int>)
    requires IsName(a) && IsName(b)
    ensures IsName(a + b)
  {
  }

  lemma MmdsHeadersAreNames()
    ensures IsName(TOKEN_HEADER) && IsName(TTL_HEADER)
    ensures |CONTENT_LENGTH| == 14 && |TOKEN_HEADER| == 24 && |TTL_HEADER| == 36
  {
    VendorPrefixIsName();
    TokenSuffixIsName();
    TtlSuffixIsName();
    NamesConcat(Bytes("x-aws-ec2-"), Bytes("metadata-token"));
    NamesConcat(TOKEN_HEADER, Bytes("-ttl-seconds"));
  }

  lemma VersionIsGraphic()
    ensures IsGraphic(HTTP_VERSION)
  {
    PlainIsName("HTTP/1.1");
  }

  lemma FieldPrintable(name: seq<int>, value: seq<int>)
    requires IsName(name) && IsFieldValue(value)
    ensures IsLine(FieldLine(name, value))
  {
  }

  lemma RequestLinePrintable(verb: seq<int>, path: seq<int>)
    requires IsGraphic(verb) && verb != [] && IsGraphic(path)
    ensures IsLine(RequestLine(verb, path))
  {
    VersionIsGraphic();
  }

  lemma FieldLinesPrintable(r: Request)
    requires Renderable(r)
    ensures AllLines(FieldLines(r))
  {
    ContentLengthIsName();
    MmdsHeadersAreNames();
    if r.token.Some? { FieldPrintable(TOKEN_HEADER, r.token.value); }
    if r.ttl.Some? {
      NumberParses(r.ttl.value, 0x1_0000_0000);
      FieldPrintable(TTL_HEADER, Digits(r.ttl.value));
    }
    NumberParses(|r.body|, |r.body| + 1);
    FieldPrintable(CONTENT_LENGTH, Digits(|r.body|));
  }

  /** Every line is printable, and so made of bytes. */
  lemma HeadLinesPrintable(r: Request)
    requires Renderable(r)
    ensures AllLines(HeadLines(r))
    ensures forall i :: 0 <= i < |HeadLines(r)| ==>
              forall j :: 0 <= j < |HeadLines(r)[i]| ==> 0 <= HeadLines(r)[i][j] < 256
  {
    RequestLinePrintable(r.verb, r.path);
    FieldLinesPrintable(r);
    LinesAreBytes(HeadLines(r));
  }

  lemma LinesAreBytes(lines: seq<seq<int>>)
    requires AllLines(lines)
    ensures forall i :: 0 <= i < |lines| ==> forall j :: 0 <= j < |lines[i]| ==> 0 <= lines[i][j] < 256
  {
    forall i | 0 <= i < |lines| ensures forall j :: 0 <= j < |lines[i]| ==> 0 <= lines[i][j] < 256 {
      assert IsLine(lines[i]);
    }
  }

  // ---- reading the head back -----------------------------------------------------------------

  lemma RequestLineReads(verb: seq<int>, path: seq<int>)
    requires IsGraphic(verb) && verb != [] && IsGraphic(path) && path != []
    ensures var rest := [32] + path + ([32] + HTTP_VERSION);
            && NextWord(RequestLine(verb, path)) == Some((verb, rest))
            && NextWord(rest) == Some((path, [32] + HTTP_VERSION))
  {
    WordAtStart(verb, [32] + path + ([32] + HTTP_VERSION));
    WordAfterSpace(path, [32] + HTTP_VERSION);
  }

  lemma LengthField(h: Headers, n: nat)
    requires n < U64_LIMIT
    ensures ApplyHeader(h, FieldLine(CONTENT_LENGTH, Digits(n))) == h.(contentLength := n)
  {
    ContentLengthIsName();
    NumberParses(n, U64_LIMIT);
    FieldApplies(h, CONTENT_LENGTH, Digits(n));
  }

  lemma TokenField(h: Headers, token: seq<int>)
    requires IsFieldValue(token)
    ensures ApplyHeader(h, FieldLine(TOKEN_HEADER, token)) == h.(token := Some(token))
  {
    MmdsHeadersAreNames();
    FieldApplies(h, TOKEN_HEADER, token);
  }

  lemma TtlField(h: Headers, n: nat)
    requires n < 0x1_0000_0000
    ensures ApplyHeader(h, FieldLine(TTL_HEADER, Digits(n))) == h.(ttl := Some(n))
  {
    MmdsHeadersAreNames();
    NumberParses(n, 0x1_0000_0000);
    FieldApplies(h, TTL_HEADER, Digits(n));
  }

  lemma ApplyOne(h: Headers, line: seq<int>, lines: seq<seq<int>>)
    ensures ApplyHeaders(h, [line] + lines) == ApplyHeaders(ApplyHeader(h, line), lines)
  {
    assert ([line] + lines)[1..] == lines;
  }

  lemma FieldsRead(r: Request)
    requires Renderable(r) && |r.body| < U64_LIMIT
    ensures ApplyHeaders(Headers(0, None, None), FieldLines(r)) == Headers(|r.body|, r.token, r.ttl)
  {
    var h0 := Headers(0, None, None);
    var last := [FieldLine(CONTENT_LENGTH, Digits(|r.body|))];
    var ttl := (if r.ttl.Some? then [FieldLine(TTL_HEADER, Digits(r.ttl.value))] else []) + last;
    var h1 := h0.(token := r.token);
    var h2 := h1.(ttl := r.ttl);
    LengthField(h2, |r.body|);
    ApplyOne(h2, last[0], []);
    assert last == [last[0]] + [];
    assert ApplyHeaders(h2, last) == Headers(|r.body|, r.token, r.ttl);
    assert ApplyHeaders(h1, ttl) == ApplyHeaders(h2, last) by {
      if r.ttl.Some? {
        TtlField(h1, r.ttl.value);
        ApplyOne(h1, FieldLine(TTL_HEADER, Digits(r.ttl.value)), last);
      } else {
        assert ttl == last;
      }
    }
    if r.token.Some? {
      TokenField(h0, r.token.value);
      ApplyOne(h0, FieldLine(TOKEN_HEADER, r.token.value), ttl);
      assert FieldLines(r) == [FieldLine(TOKEN_HEADER, r.token.value)] + ttl;
    } else {
      assert FieldLines(r) == ttl;
    }
  }

  lemma HeadReads(r: Request)
    requires Renderable(r) && |r.body| < U64_LIMIT
    ensures AllLines(HeadLines(r))
    ensures forall i :: 0 <= i < |HeadLines(r)| ==>
              forall j :: 0 <= j < |HeadLines(r)[i]| ==> 0 <= HeadLines(r)[i][j] < 256
    ensures ParseHead(Join(HeadLines(r))) == Some(Head(r.verb, r.path, Headers(|r.body|, r.token, r.ttl)))
  {
    HeadLinesPrintable(r);
    var lines: seq<seq<Byte>> := HeadLines(r);
    FieldsRead(r);
    assert lines[1..] == FieldLines(r);
    RequestLineReads(r.verb, r.path);
    LinesHead(lines, r.verb, [32] + r.path + ([32] + HTTP_VERSION), r.path, [32] + HTTP_VERSION,
              Headers(|r.body|, r.token, r.ttl));
  }

  /** A head is read back from its lines: the first two words, then the fields. */
  lemma LinesHead(lines: seq<seq<Byte>>, verb: seq<int>, rest: seq<int>, path: seq<int>, end: seq<int>, h: Headers)
    requires lines != [] && AllLines(lines)
    requires NextWord(lines[0]) == Some((verb, rest)) && NextWord(rest) == Some((path, end))
    requires ApplyHeaders(Headers(0, None, None), lines[1..]) == h
    ensures ParseHead(Join(lines)) == Some(Head(verb, path, h))
  {
    JoinIsAscii(lines);
    DecodeAscii(Join(lines));
    SplitJoin(lines);
    HeadOfLines(Join(lines), lines, verb, rest, path, end, h);
  }

  lemma HeadOfLines(bytes: seq<Byte>, lines: seq<seq<int>>, verb: seq<int>, rest: seq<int>, path: seq<int>,
                    end: seq<int>, h: Headers)
    requires Decode(bytes) == Some(bytes) && Split<int>(bytes, CRLF) == lines && lines != []
    requires NextWord(lines[0]) == Some((verb, rest)) && NextWord(rest) == Some((path, end))
    requires ApplyHeaders(Headers(0, None, None), lines[1..]) == h
    ensures ParseHead(bytes) == Some(Head(verb, path, h))
  {
  }

  lemma Completes(before: seq<Byte>, head: Head, body: seq<Byte>)
    requires |before| + 4 + |body| <= MAX_REQUEST_BYTES && head.headers.contentLength == |body|
    ensures Finish(before + CRLFCRLF + body, |before| + 4, Some(head)) ==
            Complete(Request(head.verb, head.path, head.headers.token, head.headers.ttl, body))
  {
    var buf := before + CRLFCRLF + body;
    assert buf[|before| + 4..|before| + 4 + |body|] == body;
  }

  lemma ParseFinishes(buf: seq<Byte>, headerEnd: nat, head: Option<Head>)
    requires |buf| <= MAX_REQUEST_BYTES && headerEnd <= |buf| && Find(buf, CRLFCRLF, 0) == Some(headerEnd)
    requires ParseHead(buf[..headerEnd]) == head
    ensures Parse(buf) == Finish(buf, headerEnd + 4, head)
  {
  }

  lemma ParsedLines(lines: seq<seq<Byte>>, head: Head, body: seq<Byte>)
    requires lines != [] && AllLines(lines) && ParseHead(Join(lines)) == Some(head)
    requires head.headers.contentLength == |body| && |Join(lines)| + 4 + |body| <= MAX_REQUEST_BYTES
    ensures Parse(Join(lines) + CRLFCRLF + body) ==
            Complete(Request(head.verb, head.path, head.headers.token, head.headers.ttl, body))
  {
    var buf := Join(lines) + CRLFCRLF + body;
    FindBlank(lines, body);
    assert buf[..|Join(lines)|] == Join(lines);
    ParseFinishes(buf, |Join(lines)|, Some(head));
    Completes(Join(lines), head, body);
  }

  /** Parsing undoes rendering, for every renderable request within the size limit. */
  lemma ParseUndoesRender(r: Request)
    requires Renderable(r) && |Render(r)| <= MAX_REQUEST_BYTES
    ensures Parse(Render(r)) == Complete(r)
  {
    HeadReads(r);
    ParsedLines(HeadLines(r), Head(r.verb, r.path, Headers(|r.body|, r.token, r.ttl)), r.body);
  }

  /** `GET /` without a body. */
  const GET_ROOT := Request(Bytes("GET"), Bytes("/"), None, None, [])

  lemma GetRootRenders()
    ensures Renderable(GET_ROOT) && |Render(GET_ROOT)| <= MAX_REQUEST_BYTES
  {
    PlainIsName("GET");
    PlainIsName("/");
    var lines := HeadLines(GET_ROOT);
    assert |lines| == 2 && |lines[0]| == 14 && lines[1] == FieldLine(CONTENT_LENGTH, Digits(0));
    assert lines[1..] == [lines[1]] && |Digits(0)| == 1;
    HeadLinesPrintable(GET_ROOT);
    assert |Join(lines)| == |lines[0]| + 2 + |lines[1]|;
  }

  // ---- responses -----------------------------------------------------------------------------

  lemma ReasonIsText(status: nat)
    ensures Reason(status) != "" && PrintableText(Reason(status))
  {
    if status in {405, 413} { LongReason(status); }
    else if status in {414, 500} { LongerReason(status); }
    else { ShortReason(status); }
  }

  lemma LongReason(status: nat)
    requires status in {405, 413}
    ensures Reason(status) != "" && PrintableText(Reason(status))
  {
  }

  lemma LongerReason(status: nat)
    requires status in {414, 500}
    ensures Reason(status) != "" && PrintableText(Reason(status))
  {
  }

  lemma ShortReason(status: nat)
    requires status !in {405, 413, 414, 500}
    ensures Reason(status) != "" && PrintableText(Reason(status))
  {
  }

  lemma ReasonPrintable(status: nat)
    ensures IsLine(Bytes(Reason(status)))
  {
    ReasonIsText(status);
    PrintableIsLine(Reason(status));
  }

  lemma StatusWords(status: nat)
    ensures IsLine(StatusLine(status))
    ensures var rest := [32] + Digits(status) + ([32] + Bytes(Reason(status)));
            && NextWord(StatusLine(status)) == Some((HTTP_VERSION, rest))
            && NextWord(rest) == Some((Digits(status), [32] + Bytes(Reason(status))))
  {
    var rest := [32] + Digits(status) + ([32] + Bytes(Reason(status)));
    VersionIsGraphic();
    ReasonPrintable(status);
    assert IsGraphic(Digits(status)) by {
      forall i | 0 <= i < |Digits(status)| ensures 33 <= Digits(status)[i] <= 126 { assert IsDigit(Digits(status)[i]); }
    }
    WordAtStart(HTTP_VERSION, rest);
    WordAfterSpace(Digits(status), [32] + Bytes(Reason(status)));
  }

  lemma LengthNameIsName()
    ensures IsName(Bytes("Content-Length"))
  {
    PlainIsName("Content-Length");
  }

  lemma LengthNameMatches()
    ensures SameIgnoringCase(Bytes("Content-Length"), CONTENT_LENGTH)
  {
    var a, b := Bytes("Content-Length"), CONTENT_LENGTH;
    assert |a| == 14 && |b| == 14;
    assert a[0] == 67 && b[0] == 99 && a[8] == 76 && b[8] == 108;
    assert a[1..8] == b[1..8] && a[9..] == b[9..];
    forall i | 0 <= i < 14 ensures Lower(a[i]) == Lower(b[i]) {
      if 1 <= i < 8 { assert a[1..8][i - 1] == b[1..8][i - 1]; }
      if 9 <= i { assert a[9..][i - 9] == b[9..][i - 9]; }
    }
  }

  lemma LengthLine(h: Headers, n: nat)
    requires n < U64_LIMIT
    ensures IsLine(FieldLine(Bytes("Content-Length"), Digits(n)))
    ensures ApplyHeader(h, FieldLine(Bytes("Content-Length"), Digits(n))) == h.(contentLength := n)
  {
    NumberParses(n, U64_LIMIT);
    LengthNameIsName();
    LengthNameMatches();
    FieldPrintable(Bytes("Content-Length"), Digits(n));
    FieldApplies(h, Bytes("Content-Length"), Digits(n));
  }

  lemma TypeIsName()
    ensures IsName(Bytes("Content-Type"))
  {
    PlainIsName("Content-Type");
  }

  lemma JsonIsGraphic()
    ensures IsGraphic(Bytes("application/json"))
  {
    PlainIsName("application/json");
  }

  lemma GraphicIsValue(s: seq<int>)
    requires IsGraphic(s)
    ensures IsFieldValue(s)
  {
  }

  /** A header whose name has none of the three lengths is skipped. */
  lemma OtherField(h: Headers, name: seq<Byte>, value: seq<Byte>)
    requires IsName(name) && IsFieldValue(value) && |name| !in {14, 24, 36}
    ensures IsLine(FieldLine(name, value)) && ApplyHeader(h, FieldLine(name, value)) == h
  {
    MmdsHeadersAreNames();
    FieldPrintable(name, value);
    FieldApplies(h, name, value);
  }

  lemma TypeLine(h: Headers)
    ensures var line := FieldLine(Bytes("Content-Type"), Bytes("application/json"));
            IsLine(line) && ApplyHeader(h, line) == h
  {
    TypeIsName();
    JsonIsGraphic();
    GraphicIsValue(Bytes("application/json"));
    OtherField(h, Bytes("Content-Type"), Bytes("application/json"));
  }

  lemma ConnectionIsName()
    ensures IsName(Bytes("Connection"))
  {
    PlainIsName("Connection");
  }

  lemma CloseLine(h: Headers)
    ensures var line := FieldLine(Bytes("Connection"), Bytes("close"));
            IsLine(line) && ApplyHeader(h, line) == h
  {
    ConnectionIsName();
    OtherField(h, Bytes("Connection"), Bytes("close"));
  }

  lemma ThreeFields(h: Headers, h': Headers, a: seq<int>, b: seq<int>, c: seq<int>)
    requires IsLine(a) && IsLine(b) && IsLine(c)
    requires ApplyHeader(h, a) == h' && ApplyHeader(h', b) == h' && ApplyHeader(h', c) == h'
    ensures AllLines([a, b, c]) && ApplyHeaders(h, [a, b, c]) == h'
  {
    ApplyOne(h, a, [b, c]);
    ApplyOne(h', b, [c]);
    ApplyOne(h', c, []);
    assert [a, b, c] == [a] + [b, c] && [b, c] == [b] + [c] && [c] == [c] + [];
  }

  lemma ResponseFields(r: Response)
    requires |r.body| < U64_LIMIT
    ensures AllLines(ResponseLines(r)[1..])
    ensures ApplyHeaders(Headers(0, None, None), ResponseLines(r)[1..]) == Headers(|r.body|, None, None)
  {
    var lines := ResponseLines(r);
    var h := Headers(|r.body|, None, None);
    LengthLine(Headers(0, None, None), |r.body|);
    TypeLine(h);
    CloseLine(h);
    ThreeFields(Headers(0, None, None), h, lines[1], lines[2], lines[3]);
    assert lines[1..] == [lines[1], lines[2], lines[3]];
  }

  /** What a reader using the same text rules makes of a response. */
  function ReadResponse(wire: seq<Byte>): Option<Response> {
    match Find(wire, CRLFCRLF, 0)
    case None => None
    case Some(end) =>
      ReadBody(wire, end, ParseHead(wire[..end]))
  }

  function ReadBody(wire: seq<Byte>, end: nat, head: Option<Head>): Option<Response>
  {
    match head
    case None => None
    case Some(head) =>
      match ParseUnsigned(head.path, 0x1_0000)
      case None => None
      case Some(status) =>
        if end + 4 + head.headers.contentLength > |wire| then None
        else Some(Response(status, wire[end + 4..end + 4 + head.headers.contentLength]))
  }

  lemma HeadThenBody(wire: seq<Byte>, end: nat, head: Option<Head>)
    requires Find(wire, CRLFCRLF, 0) == Some(end) && end <= |wire|
    requires ParseHead(wire[..end]) == head
    ensures ReadResponse(wire) == ReadBody(wire, end, head)
  {
  }

  lemma BodyRead(before: seq<Byte>, head: Head, status: nat, body: seq<Byte>)
    requires ParseUnsigned(head.path, 0x1_0000) == Some(status) && head.headers.contentLength == |body|
    ensures ReadBody(before + CRLFCRLF + body, |before|, Some(head)) == Some(Response(status, body))
  {
    var wire := before + CRLFCRLF + body;
    assert wire[|before| + 4..|before| + 4 + |body|] == body;
  }

  lemma ReadFromLines(lines: seq<seq<Byte>>, version: seq<int>, rest: seq<int>, word: seq<int>, end: seq<int>,
                      status: nat, body: seq<Byte>)
    requires lines != [] && AllLines(lines)
    requires NextWord(lines[0]) == Some((version, rest)) && NextWord(rest) == Some((word, end))
    requires ParseUnsigned(word, 0x1_0000) == Some(status)
    requires ApplyHeaders(Headers(0, None, None), lines[1..]) == Headers(|body|, None, None)
    ensures ReadResponse(Join(lines) + CRLFCRLF + body) == Some(Response(status, body))
  {
    var head := Head(version, word, Headers(|body|, None, None));
    LinesHead(lines, version, rest, word, end, head.headers);
    FindBlank(lines, body);
    var wire := Join(lines) + CRLFCRLF + body;
    assert wire[..|Join(lines)|] == Join(lines);
    HeadThenBody(wire, |Join(lines)|, Some(head));
    BodyRead(Join(lines), head, status, body);
  }

  /** A client reads back exactly the status and body the server put on the wire. */
  lemma ResponseReadsBack(r: Response)
    requires r.status < 0x1_0000 && |r.body| < U64_LIMIT
    ensures ReadResponse(ToWire(r)) == Some(r)
  {
    StatusWords(r.status);
    ResponseFields(r);
    NumberParses(r.status, 0x1_0000);
    LinesFromTail(ResponseLines(r));
    ReadFromLines(ResponseLines(r), HTTP_VERSION, [32] + Digits(r.status) + ([32] + Bytes(Reason(r.status))),
                  Digits(r.status), [32] + Bytes(Reason(r.status)), r.status, r.body);
  }

  lemma LinesFromTail(lines: seq<seq<int>>)
    requires lines != [] && IsLine(lines[0]) && AllLines(lines[1..])
    ensures AllLines(lines)
  {
    forall i | 0 <= i < |lines| ensures IsLine(lines[i]) {
      if i > 0 { assert lines[1..][i - 1] == lines[i]; }
    }
  }
}
