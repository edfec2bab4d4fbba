/**
 * `HTTPResponse`: a status code and message, a `std::map` of headers and a body, and
 * `to_string`, which writes them out as an HTTP/1.1 message (section 4 of RFC 9112 for
 * the status line, section 5 for the header lines).
 *
 * The `std::map<std::string, std::string>` is held as a sequence of headers kept strictly
 * sorted by name, which is the order in which a range-`for` over the map visits them;
 * `MapOf` is its dictionary view. `ParseResponse` reads a serialized message back and is
 * the partner of `Serialize`.
 */
module HttpResponse {
  import opened Wrappers
  import opened Text

  datatype Header = Header(name: string, value: string)

  /** A response as it travels: status code, reason phrase, header lines in order, body. */
  datatype Message = Message(code: int, reason: string, headers: seq<Header>, body: string)

  // ---------------------------------------------------------------------------
  // Key order of std::map<std::string, ...>

  /** `a < b` for `std::string`: lexicographic by character, a proper prefix first. */
  predicate Less(a: string, b: string)
    decreases |a|
  {
    if a == [] then b != []
    else if b == [] then false
    else if a[0] != b[0] then a[0] < b[0]
    else Less(a[1..], b[1..])
  }

  lemma {:induction false} LessIrreflexive(a: string)
    ensures !Less(a, a)
    decreases |a|
  {
    if a != [] {
      LessIrreflexive(a[1..]);
    }
  }

  lemma {:induction false} LessTotal(a: string, b: string)
    ensures a == b || Less(a, b) || Less(b, a)
    decreases |a|
  {
    if a != [] && b != [] && a[0] == b[0] {
      LessTotal(a[1..], b[1..]);
      if a[1..] == b[1..] {
        assert a == [a[0]] + a[1..] && b == [b[0]] + b[1..];
      }
    }
  }

  lemma {:induction false} LessTransitive(a: string, b: string, c: string)
    requires Less(a, b) && Less(b, c)
    ensures Less(a, c)
    decreases |a|
  {
    if a != [] && a[0] == b[0] && b[0] == c[0] {
      LessTransitive(a[1..], b[1..], c[1..]);
    }
  }

  lemma {:induction false} LessAsymmetric(a: string, b: string)
    requires Less(a, b)
    ensures !Less(b, a)
    decreases |a|
  {
    if a != [] && a[0] == b[0] {
      LessAsymmetric(a[1..], b[1..]);
    }
  }

  /** Strings that agree up to position `k` and differ there are ordered by that character. */
  lemma {:induction false} LessAt(a: string, b: string, k: nat)
    requires k < |a| && k < |b| && a[..k] == b[..k] && a[k] < b[k]
    ensures Less(a, b)
    decreases k
  {
    if k > 0 {
      assert a[1..][..k - 1] == a[..k][1..];
      assert b[1..][..k - 1] == b[..k][1..];
      LessAt(a[1..], b[1..], k - 1);
    }
  }

  /** The two headers that `set_header("Content-Type", …)` and `set_body` add: `Content-Length` comes first. */
  lemma ContentLengthBeforeContentType()
    ensures Less("Content-Length", "Content-Type")
  {
    assert "Content-Length"[..8] == "Content-" == "Content-Type"[..8];
    LessAt("Content-Length", "Content-Type", 8);
  }

  // ---------------------------------------------------------------------------
  // The header map

  /** No two headers share a name, and names ascend: the traversal order of a `std::map`. */
  predicate StrictlySorted(hs: seq<Header>) {
    forall i, j :: 0 <= i < j < |hs| ==> Less(hs[i].name, hs[j].name)
  }

  /** The dictionary a header sequence stands for. */
  function MapOf(hs: seq<Header>): (m: map<string, string>)
    ensures forall i :: 0 <= i < |hs| ==> hs[i].name in m
  {
    if hs == [] then map[] else MapOf(hs[1..])[hs[0].name := hs[0].value]
  }

  /** `headers_[name] = value`: overwrite the entry for `name`, or insert it in key order. */
  function Insert(hs: seq<Header>, name: string, value: string): (r: seq<Header>)
    requires StrictlySorted(hs)
    ensures StrictlySorted(r)
    ensures MapOf(r) == MapOf(hs)[name := value]
    ensures forall h :: h in r ==> h in hs || h == Header(name, value)
  {
    if hs == [] then
      [Header(name, value)]
    else if hs[0].name == name then
      [Header(name, value)] + hs[1..]
    else if Less(name, hs[0].name) then
      InsertFrontSorted(hs, name, value);
      [Header(name, value)] + hs
    else
      LessTotal(name, hs[0].name);
      var r := [hs[0]] + Insert(hs[1..], name, value);
      KeepFrontSorted(hs, name, value, Insert(hs[1..], name, value));
      r
  }

  lemma InsertFrontSorted(hs: seq<Header>, name: string, value: string)
    requires StrictlySorted(hs) && hs != [] && Less(name, hs[0].name)
    ensures StrictlySorted([Header(name, value)] + hs)
  {
    var r := [Header(name, value)] + hs;
    forall i, j | 0 <= i < j < |r|
      ensures Less(r[i].name, r[j].name)
    {
      if i == 0 && j > 1 {
        LessTransitive(name, hs[0].name, hs[j - 1].name);
      }
    }
  }

  lemma KeepFrontSorted(hs: seq<Header>, name: string, value: string, tail: seq<Header>)
    requires StrictlySorted(hs) && hs != [] && Less(hs[0].name, name)
    requires StrictlySorted(tail)
    requires forall h :: h in tail ==> h in hs[1..] || h == Header(name, value)
    ensures StrictlySorted([hs[0]] + tail)
  {
    var r := [hs[0]] + tail;
    forall i, j | 0 <= i < j < |r|
      ensures Less(r[i].name, r[j].name)
    {
      if i == 0 {
        assert r[j] in tail;
        if r[j] != Header(name, value) {
          var k :| 0 <= k < |hs[1..]| && hs[1..][k] == r[j];
          assert hs[k + 1] == r[j];
        }
      }
    }
  }

  /** The value a lookup of `name` finds: the first header so named. */
  function Lookup(hs: seq<Header>, name: string): Option<string> {
    if hs == [] then None
    else if hs[0].name == name then Some(hs[0].value)
    else Lookup(hs[1..], name)
  }

  /** Looking a name up in the sequence agrees with the dictionary view. */
  lemma {:induction false} LookupMapOf(hs: seq<Header>, name: string)
    ensures Lookup(hs, name) == if name in MapOf(hs) then Some(MapOf(hs)[name]) else None
  {
    if hs != [] && hs[0].name != name {
      LookupMapOf(hs[1..], name);
    }
  }

  /** `set_header` on another name keeps what was stored under `name`. */
  lemma InsertKeepsOthers(hs: seq<Header>, name: string, value: string, other: string)
    requires StrictlySorted(hs) && other != name
    ensures Lookup(Insert(hs, name, value), other) == Lookup(hs, other)
  {
    LookupMapOf(hs, other);
    LookupMapOf(Insert(hs, name, value), other);
  }

  /** After `set_header(name, value)` a lookup of `name` finds `value`. */
  lemma InsertThenLookup(hs: seq<Header>, name: string, value: string)
    requires StrictlySorted(hs)
    ensures Lookup(Insert(hs, name, value), name) == Some(value)
  {
    LookupMapOf(Insert(hs, name, value), name);
  }

  // ---------------------------------------------------------------------------
  // Serialization

  function StatusLine(code: int, reason: string): string {
    "HTTP/1.1 " + IntToString(code) + " " + reason + "\r\n"
  }

  function HeaderLine(h: Header): string {
    h.name + ": " + h.value + "\r\n"
  }

  function HeaderLines(hs: seq<Header>): string {
    if hs == [] then "" else HeaderLine(hs[0]) + HeaderLines(hs[1..])
  }

  /** What `to_string` produces: status line, each header line, a blank line, the body. */
  function Serialize(m: Message): string {
    StatusLine(m.code, m.reason) + HeaderLines(m.headers) + "\r\n" + m.body
  }

  lemma {:induction false} HeaderLinesAppend(hs: seq<Header>, h: Header)
    ensures HeaderLines(hs + [h]) == HeaderLines(hs) + HeaderLine(h)
  {
    if hs == [] {
      assert [h][1..] == [];
      assert HeaderLines([h]) == HeaderLine(h) + "";
    } else {
      assert (hs + [h])[1..] == hs[1..] + [h];
      HeaderLinesAppend(hs[1..], h);
    }
  }

  /** The serialization starts with the status line and ends with a blank line and the body. */
  lemma SerializeFrame(m: Message)
    ensures StartsWith(Serialize(m), StatusLine(m.code, m.reason))
    ensures EndsWith(Serialize(m), "\r\n" + m.body)
  {
    var s := Serialize(m);
    var front := StatusLine(m.code, m.reason);
    assert s == front + (HeaderLines(m.headers) + "\r\n" + m.body);
    assert s[..|front|] == front;
    var mid := StatusLine(m.code, m.reason) + HeaderLines(m.headers);
    assert s == mid + ("\r\n" + m.body);
    assert s[|s| - |"\r\n" + m.body|..] == "\r\n" + m.body;
  }

  // ---------------------------------------------------------------------------
  // Reading a serialized message back

  /** The text before the first `"\r"`, provided a `"\n"` follows it, and the text after the pair. */
  function SplitLine(s: string): (r: Option<(string, string)>)
    ensures r.Some? ==> s == r.value.0 + "\r\n" + r.value.1 && Lacks(r.value.0, '\r')
    ensures r.None? ==> forall i :: 0 <= i < |s| && s[i] == '\r' && Lacks(s[..i], '\r') ==> i + 1 == |s| || s[i + 1] != '\n'
  {
    var i := IndexOf(s, '\r');
    if i + 1 < |s| && s[i + 1] == '\n' then
      assert s == s[..i] + "\r\n" + s[i + 2..];
      Some((s[..i], s[i + 2..]))
    else
      None
  }

  lemma SplitLineOf(line: string, rest: string)
    requires Lacks(line, '\r')
    ensures SplitLine(line + "\r\n" + rest) == Some((line, rest))
  {
    var s := line + "\r\n" + rest;
    assert s == line + ("\r\n" + rest);
    IndexOfAppend(line, "\r\n" + rest, '\r');
    assert s[..|line|] == line;
    assert s[|line| + 2..] == rest;
  }

  /** `HTTP/1.1 <code> <reason>`: the code ends at the first space after the version. */
  function ParseStatusLine(line: string): Option<(int, string)> {
    if !StartsWith(line, "HTTP/1.1 ") then None
    else
      var r := line[9..];
      var j := IndexOf(r, ' ');
      if j == |r| then None
      else
        match ParseInt(r[..j])
        case None => None
        case Some(code) => Some((code, r[j + 1..]))
  }

  lemma StatusLineRoundTrip(code: int, reason: string)
    ensures ParseStatusLine("HTTP/1.1 " + IntToString(code) + " " + reason) == Some((code, reason))
  {
    var digits := IntToString(code);
    var line := "HTTP/1.1 " + digits + " " + reason;
    assert line[..9] == "HTTP/1.1 ";
    var r := line[9..];
    assert r == digits + (" " + reason);
    IntToStringLacks(code, ' ');
    IndexOfAppend(digits, " " + reason, ' ');
    assert r[..|digits|] == digits;
    assert r[|digits| + 1..] == reason;
    ParseIntToString(code);
  }

  /** `<name>: <value>`: the name ends at the first colon, which a space follows. */
  function ParseHeaderLine(line: string): Option<Header> {
    var i := IndexOf(line, ':');
    if i + 1 < |line| && line[i + 1] == ' ' then Some(Header(line[..i], line[i + 2..])) else None
  }

  lemma HeaderLineRoundTrip(h: Header)
    requires Lacks(h.name, ':')
    ensures ParseHeaderLine(h.name + ": " + h.value) == Some(h)
  {
    var line := h.name + ": " + h.value;
    assert line == h.name + (": " + h.value);
    IndexOfAppend(h.name, ": " + h.value, ':');
    assert line[..|h.name|] == h.name;
    assert line[|h.name| + 2..] == h.value;
  }

  /** Header lines up to the blank line, and what follows the blank line. */
  function ParseHeaders(s: string): Option<(seq<Header>, string)>
    decreases |s|
  {
    match SplitLine(s)
    case None => None
    case Some((line, rest)) =>
      if line == [] then Some(([], rest))
      else
        match ParseHeaderLine(line)
        case None => None
        case Some(h) =>
          match ParseHeaders(rest)
          case None => None
          case Some((hs, body)) => Some(([h] + hs, body))
  }

  function ParseResponse(s: string): Option<Message> {
    match SplitLine(s)
    case None => None
    case Some((first, rest)) =>
      match ParseStatusLine(first)
      case None => None
      case Some((code, reason)) =>
        match ParseHeaders(rest)
        case None => None
        case Some((hs, body)) => Some(Message(code, reason, hs, body))
  }

  /** A header that reads back as itself: no colon in its name, no carriage return anywhere. */
  predicate Writable(h: Header) {
    Lacks(h.name, ':') && Lacks(h.name, '\r') && Lacks(h.value, '\r')
  }

  predicate WellFormed(m: Message) {
    Lacks(m.reason, '\r') && forall i :: 0 <= i < |m.headers| ==> Writable(m.headers[i])
  }

  lemma LengthHeaderWritable(n: nat)
    ensures Writable(Header("Content-Length", NatToString(n)))
  {
  }

  lemma TypeHeaderWritable(v: string)
    requires Lacks(v, '\r')
    ensures Writable(Header("Content-Type", v))
  {
  }

  /** None of the reason phrases the servers send holds a carriage return. */
  lemma ReasonsHaveNoCarriageReturn()
    ensures Lacks("OK", '\r') && Lacks("Bad Request", '\r') && Lacks("Forbidden", '\r') && Lacks("Not Found", '\r')
  {
  }

  /** None of the media types the servers send holds a carriage return. */
  lemma MediaTypesHaveNoCarriageReturn()
    ensures Lacks("text/html", '\r') && Lacks("text/css", '\r') && Lacks("text/plain", '\r')
    ensures Lacks("image/jpeg", '\r') && Lacks("image/png", '\r') && Lacks("image/gif", '\r')
    ensures Lacks("application/javascript", '\r') && Lacks("application/json", '\r')
    ensures Lacks("application/pdf", '\r') && Lacks("application/octet-stream", '\r') && Lacks("video/mp4", '\r')
  {
  }

  lemma MessageWellFormed(code: int, reason: string, hs: seq<Header>, body: string)
    requires Lacks(reason, '\r')
    requires forall i :: 0 <= i < |hs| ==> Writable(hs[i])
    ensures WellFormed(Message(code, reason, hs, body))
  {
  }

  lemma {:induction false} HeadersRoundTrip(hs: seq<Header>, body: string)
    requires forall i :: 0 <= i < |hs| ==> Writable(hs[i])
    ensures ParseHeaders(HeaderLines(hs) + "\r\n" + body) == Some((hs, body))
  {
    if hs == [] {
      assert HeaderLines(hs) + "\r\n" + body == [] + "\r\n" + body;
      SplitLineOf([], body);
    } else {
      var h := hs[0];
      var line := h.name + ": " + h.value;
      var rest := HeaderLines(hs[1..]) + "\r\n" + body;
      assert HeaderLines(hs) + "\r\n" + body == line + "\r\n" + rest;
      WritableLineLacks(h);
      SplitLineOf(line, rest);
      HeaderLineRoundTrip(h);
      HeadersRoundTrip(hs[1..], body);
      assert [h] + hs[1..] == hs;
    }
  }

  /** A writable header's line holds no carriage return. */
  lemma WritableLineLacks(h: Header)
    requires Writable(h)
    ensures Lacks(h.name + ": " + h.value, '\r')
  {
    var line := h.name + ": " + h.value;
    forall i | 0 <= i < |line| ensures line[i] != '\r' {
      if i >= |h.name| + 2 {
        assert line[i] == h.value[i - |h.name| - 2];
      }
    }
  }

  /** Reading a well-formed message's serialization gives back the message, headers in their order. */
  lemma SerializeRoundTrip(m: Message)
    requires WellFormed(m)
    ensures ParseResponse(Serialize(m)) == Some(m)
  {
    var first := "HTTP/1.1 " + IntToString(m.code) + " " + m.reason;
    var rest := HeaderLines(m.headers) + "\r\n" + m.body;
    assert Serialize(m) == first + "\r\n" + rest;
    assert Lacks(first, '\r') by {
      IntToStringLacks(m.code, '\r');
      var k := 9 + |IntToString(m.code)|;
      forall i | 0 <= i < |first| ensures first[i] != '\r' {
        if i > k {
          assert first[i] == m.reason[i - k - 1];
        } else if i >= 9 && i < k {
          assert first[i] == IntToString(m.code)[i - 9];
        }
      }
    }
    SplitLineOf(first, rest);
    StatusLineRoundTrip(m.code, m.reason);
    HeadersRoundTrip(m.headers, m.body);
  }

  /** The body length announced by a message's `Content-Length` header. */
  function ContentLength(m: Message): Option<nat> {
    match Lookup(m.headers, "Content-Length")
    case None => None
    case Some(v) => ParseNat(v)
  }

  /** `Content-Length` agrees with the body. */
  predicate LengthMatches(hs: seq<Header>, body: string) {
    "Content-Length" in MapOf(hs) && MapOf(hs)["Content-Length"] == NatToString(|body|)
  }

  /**
   * A serialized message whose header map records the body length announces that length on
   * the wire: reading it back, `Content-Length` parses to the body's size.
   */
  lemma WireContentLength(m: Message)
    requires WellFormed(m) && LengthMatches(m.headers, m.body)
    ensures ParseResponse(Serialize(m)).Some?
    ensures ContentLength(ParseResponse(Serialize(m)).value) == Some(|m.body|)
  {
    SerializeRoundTrip(m);
    LookupMapOf(m.headers, "Content-Length");
    ParseNatToString(|m.body|);
  }

  lemma TypeThenLength(mime: string, n: string)
    ensures Insert(Insert([], "Content-Type", mime), "Content-Length", n) == [Header("Content-Length", n), Header("Content-Type", mime)]
  {
    var inner := Insert([], "Content-Type", mime);
    assert inner == [Header("Content-Type", mime)];
    ContentLengthBeforeContentType();
  }

  // ---------------------------------------------------------------------------
  // The response object

  class Response {
    var statusCode: int
    var statusMessage: string
    var headers: seq<Header>
    var body: string

    predicate Valid()
      reads this
    {
      StrictlySorted(headers)
    }

    function HeaderMap(): map<string, string>
      reads this
    {
      MapOf(headers)
    }

    function AsMessage(): Message
      reads this
    {
      Message(statusCode, statusMessage, headers, body)
    }

    /** `HTTPResponse()`: 200 OK, no headers, empty body. */
    constructor()
      ensures Valid()
      ensures statusCode == 200 && statusMessage == "OK" && headers == [] && body == ""
    {
      statusCode := 200;
      statusMessage := "OK";
      headers := [];
      body := "";
    }

    /** `set_status`: only code and message change. */
    method SetStatus(code: int, message: string)
      modifies this
      ensures statusCode == code && statusMessage == message
      ensures headers == old(headers) && body == old(body)
    {
      statusCode := code;
      statusMessage := message;
    }

    /** `set_header`: the entry for `name` becomes `value`; every other entry stays. */
    method SetHeader(name: string, value: string)
      requires Valid()
      modifies this
      ensures Valid()
      ensures headers == Insert(old(headers), name, value)
      ensures HeaderMap() == old(HeaderMap())[name := value]
      ensures statusCode == old(statusCode) && statusMessage == old(statusMessage) && body == old(body)
      ensures old(LengthMatches(headers, body)) && name != "Content-Length" ==> LengthMatches(headers, body)
    {
      headers := Insert(headers, name, value);
    }

    /** `set_body`: the body, and `Content-Length` set to its decimal size. */
    method SetBody(b: string)
      requires Valid()
      modifies this
      ensures Valid()
      ensures body == b
      ensures headers == Insert(old(headers), "Content-Length", NatToString(|b|))
      ensures HeaderMap() == old(HeaderMap())["Content-Length" := NatToString(|b|)]
      ensures LengthMatches(headers, body)
      ensures statusCode == old(statusCode) && statusMessage == old(statusMessage)
    {
      body := b;
      headers := Insert(headers, "Content-Length", NatToString(|b|));
    }

    /** `to_string`: the status line, one line per header in key order, a blank line, the body. */
    method ToString() returns (s: string)
      ensures s == Serialize(AsMessage())
    {
      s := "HTTP/1.1 " + IntToString(statusCode) + " " + statusMessage + "\r\n";
      var i := 0;
      while i < |headers|
        invariant 0 <= i <= |headers|
        invariant s == StatusLine(statusCode, statusMessage) + HeaderLines(headers[..i])
      {
        HeaderLinesAppend(headers[..i], headers[i]);
        assert headers[..i + 1] == headers[..i] + [headers[i]];
        s := s + headers[i].name + ": " + headers[i].value + "\r\n";
        i := i + 1;
      }
      assert headers[..i] == headers;
      s := s + "\r\n" + body;
    }
  }
}
