/**
 * `HTTPRequest::parse` of the class-based server: the raw request text is split into
 * lines with `std::getline`; the first line gives method, URI and version by formatted
 * extraction; the following lines are headers up to the first line that is exactly
 * `"\r"`; for POST and PUT the remaining lines, with their newlines dropped, form the body.
 */
module HttpRequest {
  import opened Wrappers
  import opened Text

  /** The fields an `HTTPRequest` holds once constructed (it offers only getters afterwards). */
  datatype Request = Request(
    methodName: string,
    uri: string,
    version: string,
    headers: map<string, string>,
    body: string)

  /** What one header line contributes: the text before the first `':'` and the text after it, with all whitespace removed; nothing when there is no `':'`. */
  function HeaderField(line: string): Option<(string, string)> {
    var colon := IndexOf(line, ':');
    if colon == |line| then None
    else Some((RemoveSpace(line[..colon]), RemoveSpace(line[colon + 1..])))
  }

  /** `headers_[key] = value` for a line with a colon; a line without one leaves the map alone. */
  function AddHeaderLine(headers: map<string, string>, line: string): map<string, string> {
    match HeaderField(line)
    case None => headers
    case Some(kv) => headers[kv.0 := kv.1]
  }

  /** Every line of `ls` applied in order. */
  function FoldHeaders(headers: map<string, string>, ls: seq<string>): map<string, string>
    decreases |ls|
  {
    if ls == [] then headers else FoldHeaders(AddHeaderLine(headers, ls[0]), ls[1..])
  }

  /**
   * The header loop `while (getline(...) && line != "\r")` over the lines `ls`: the header
   * map it ends with, and the lines still unread (those after the terminating `"\r"`).
   */
  function ScanHeaders(headers: map<string, string>, ls: seq<string>): (map<string, string>, seq<string>)
    decreases |ls|
  {
    if ls == [] then (headers, [])
    else if ls[0] == "\r" then (headers, ls[1..])
    else ScanHeaders(AddHeaderLine(headers, ls[0]), ls[1..])
  }

  predicate HasBody(methodName: string) {
    methodName == "POST" || methodName == "PUT"
  }

  /** The request that parsing `raw` yields, stated on the lines of `raw`. */
  function Parsed(raw: string): Request {
    var ls := Lines(raw);
    var words := if ls == [] then [] else Words(ls[0]);
    var methodName := Field(words, 0);
    var scan := ScanHeaders(map[], if ls == [] then [] else ls[1..]);
    Request(methodName, Field(words, 1), Field(words, 2), scan.0,
            if HasBody(methodName) then Concat(scan.1) else "")
  }

  /**
   * `HTTPRequest::parse`: a stream over `raw` read with `getline`; the first line is split
   * into method, URI and version, then the header loop and, for POST and PUT, the body loop run.
   */
  method Parse(raw: string) returns (req: Request)
    ensures req == Parsed(raw)
  {
    var methodName, uri, version := "", "", "";
    var pos := 0;
    assert raw[pos..] == raw;

    // request line
    var next := NextLine(raw, pos);
    if next.Some? {
      var words := Words(next.value.0);
      methodName, uri, version := Field(words, 0), Field(words, 1), Field(words, 2);
      pos := next.value.1;
    }

    var headers;
    headers, pos := ReadHeaders(raw, pos);
    var body := "";
    if methodName == "POST" || methodName == "PUT" {
      body := ReadBody(raw, pos);
    }
    req := Request(methodName, uri, version, headers, body);
  }

  /**
   * The header loop of `HTTPRequest::parse`, from stream position `start`: the header map it
   * builds and the position after the terminating `"\r"` line (or the end of the input).
   */
  method ReadHeaders(raw: string, start: nat) returns (headers: map<string, string>, pos: nat)
    requires start <= |raw|
    ensures pos <= |raw|
    ensures (headers, Lines(raw[pos..])) == ScanHeaders(map[], Lines(raw[start..]))
  {
    headers := map[];
    pos := start;
    var next := NextLine(raw, pos);
    while next.Some? && next.value.0 != "\r"
      invariant pos <= |raw|
      invariant next == NextLine(raw, pos)
      invariant ScanHeaders(headers, Lines(raw[pos..])) == ScanHeaders(map[], Lines(raw[start..]))
      decreases |raw| - pos
    {
      var line := next.value.0;
      HeaderLineStep(headers, raw, pos);
      AddHeaderLineCases(headers, line);
      var colon := IndexOf(line, ':');
      if colon < |line| {
        var key := RemoveSpace(line[..colon]);
        var value := RemoveSpace(line[colon + 1..]);
        headers := headers[key := value];
      }
      pos := next.value.1;
      next := NextLine(raw, pos);
    }
    if next.Some? {
      HeaderEndStep(headers, raw, pos);
      pos := next.value.1;
    }
  }

  /** The body loop of `HTTPRequest::parse`: every remaining line appended, its newline dropped. */
  method ReadBody(raw: string, start: nat) returns (body: string)
    requires start <= |raw|
    ensures body == Concat(Lines(raw[start..]))
  {
    body := "";
    var pos := start;
    var next := NextLine(raw, pos);
    while next.Some?
      invariant pos <= |raw|
      invariant next == NextLine(raw, pos)
      invariant body + Concat(Lines(raw[pos..])) == Concat(Lines(raw[start..]))
      decreases |raw| - pos
    {
      BodyLineStep(raw, pos);
      body := body + next.value.0;
      pos := next.value.1;
      next := NextLine(raw, pos);
    }
    assert body + "" == body;
  }

  lemma AddHeaderLineCases(headers: map<string, string>, line: string)
    ensures IndexOf(line, ':') == |line| ==> AddHeaderLine(headers, line) == headers
    ensures IndexOf(line, ':') < |line| ==>
      AddHeaderLine(headers, line)
        == headers[RemoveSpace(line[..IndexOf(line, ':')]) := RemoveSpace(line[IndexOf(line, ':') + 1..])]
  {
  }

  lemma HeaderLineStep(headers: map<string, string>, raw: string, pos: nat)
    requires pos <= |raw| && NextLine(raw, pos).Some? && NextLine(raw, pos).value.0 != "\r"
    ensures ScanHeaders(headers, Lines(raw[pos..]))
         == ScanHeaders(AddHeaderLine(headers, NextLine(raw, pos).value.0), Lines(raw[NextLine(raw, pos).value.1..]))
  {
  }

  lemma HeaderEndStep(headers: map<string, string>, raw: string, pos: nat)
    requires pos <= |raw| && NextLine(raw, pos).Some? && NextLine(raw, pos).value.0 == "\r"
    ensures ScanHeaders(headers, Lines(raw[pos..])) == (headers, Lines(raw[NextLine(raw, pos).value.1..]))
  {
  }

  lemma BodyLineStep(raw: string, pos: nat)
    requires pos <= |raw| && NextLine(raw, pos).Some?
    ensures Concat(Lines(raw[pos..])) == NextLine(raw, pos).value.0 + Concat(Lines(raw[NextLine(raw, pos).value.1..]))
  {
  }

  // ---------------------------------------------------------------------------
  // The request line

  /** A request that is empty (nothing was read) leaves every field empty. */
  lemma EmptyRequest()
    ensures Parsed("") == Request("", "", "", map[], "")
  {
  }

  /** The method, URI and version are the first three words of the first line; missing words leave fields empty. */
  lemma RequestLineWords(first: string, rest: string)
    requires IndexOf(first, '\n') == |first|
    ensures var r := Parsed(first + "\n" + rest);
      var ws := Words(first);
      r.methodName == Field(ws, 0) && r.uri == Field(ws, 1) && r.version == Field(ws, 2)
  {
    LinesCons(first, rest);
  }

  /**
   * A request with no newline at all is still read by `getline` as one line: its words give
   * the method, URI and version, and there are no headers and no body.
   */
  lemma SingleLineRequest(raw: string)
    requires IndexOf(raw, '\n') == |raw|
    ensures var r := Parsed(raw);
      var ws := Words(raw);
      r.methodName == Field(ws, 0) && r.uri == Field(ws, 1) && r.version == Field(ws, 2) &&
      r.headers == map[] && r.body == ""
  {
    if raw != [] {
      assert Lines(raw) == [raw];
      assert Lines(raw)[1..] == [];
    }
  }

  /**
   * A request line of three words separated by single spaces, followed by anything that
   * starts with whitespace (a `"\r"`, further words), gives back exactly the three words:
   * a trailing carriage return and extra words are ignored.
   */
  lemma RequestLineRoundTrip(m: string, u: string, v: string, extra: string, rest: string)
    requires m != [] && NoSpace(m) && u != [] && NoSpace(u) && v != [] && NoSpace(v)
    requires extra == [] || IsSpace(extra[0])
    requires IndexOf(extra, '\n') == |extra|
    ensures var r := Parsed(Unwords([m, u, v]) + extra + "\n" + rest);
      r.methodName == m && r.uri == u && r.version == v
  {
    var three := [m, u, v];
    WordsUnwords(three, extra);
    UnwordsHasNoNewline(three);
    IndexOfAppend(Unwords(three), extra, '\n');
    RequestLineWords(Unwords(three) + extra, rest);
  }

  // ---------------------------------------------------------------------------
  // Header lines

  /** A header line without a colon is ignored. */
  lemma NoColonIgnored(headers: map<string, string>, line: string)
    requires forall i :: 0 <= i < |line| ==> line[i] != ':'
    ensures AddHeaderLine(headers, line) == headers
  {
  }

  /** The key is the text before the first colon and the value all that follows it, later colons included. */
  lemma FirstColonSplits(headers: map<string, string>, key: string, value: string)
    requires forall i :: 0 <= i < |key| ==> key[i] != ':'
    ensures AddHeaderLine(headers, key + ":" + value) == headers[RemoveSpace(key) := RemoveSpace(value)]
  {
    var line := key + ":" + value;
    assert line == key + (":" + value);
    IndexOfAppend(key, ":" + value, ':');
    assert line[..|key|] == key;
    assert line[|key| + 1..] == value;
    assert HeaderField(line) == Some((RemoveSpace(key), RemoveSpace(value)));
  }

  /** Neither a key nor a value contains whitespace. */
  predicate WhitespaceFree(headers: map<string, string>) {
    forall k :: k in headers ==> NoSpace(k) && NoSpace(headers[k])
  }

  lemma {:induction false} ScanKeepsWhitespaceFree(headers: map<string, string>, ls: seq<string>)
    requires WhitespaceFree(headers)
    ensures WhitespaceFree(ScanHeaders(headers, ls).0)
    decreases |ls|
  {
    if ls != [] && ls[0] != "\r" {
      ScanKeepsWhitespaceFree(AddHeaderLine(headers, ls[0]), ls[1..]);
    }
  }

  /** Every key and every value of a parsed request is free of whitespace. */
  lemma HeadersWhitespaceFree(raw: string)
    ensures WhitespaceFree(Parsed(raw).headers)
  {
    var ls := Lines(raw);
    ScanKeepsWhitespaceFree(map[], if ls == [] then [] else ls[1..]);
  }

  // ---------------------------------------------------------------------------
  // Where the headers end

  /** The header loop stops at the first line that is exactly `"\r"`; the lines after it are left for the body. */
  lemma {:induction false} ScanStopsAtCarriageReturn(headers: map<string, string>, pre: seq<string>, post: seq<string>)
    requires "\r" !in pre
    ensures ScanHeaders(headers, pre + ["\r"] + post) == (FoldHeaders(headers, pre), post)
    decreases |pre|
  {
    if pre == [] {
      assert pre + ["\r"] + post == ["\r"] + post;
    } else {
      assert (pre + ["\r"] + post)[1..] == pre[1..] + ["\r"] + post;
      ScanStopsAtCarriageReturn(AddHeaderLine(headers, pre[0]), pre[1..], post);
    }
  }

  /** Without a `"\r"` line the header loop runs to the end of the input and leaves nothing for the body. */
  lemma {:induction false} ScanRunsToEnd(headers: map<string, string>, ls: seq<string>)
    requires "\r" !in ls
    ensures ScanHeaders(headers, ls) == (FoldHeaders(headers, ls), [])
    decreases |ls|
  {
    if ls != [] {
      ScanRunsToEnd(AddHeaderLine(headers, ls[0]), ls[1..]);
    }
  }

  /** An empty line (a bare `"\n"`) does not end the headers: it has no colon and is skipped. */
  lemma EmptyLineDoesNotStop(headers: map<string, string>, ls: seq<string>)
    ensures ScanHeaders(headers, [""] + ls) == ScanHeaders(headers, ls)
  {
    assert ([""] + ls)[1..] == ls;
  }

  // ---------------------------------------------------------------------------
  // Repeated keys

  lemma {:induction false} FoldAppend(headers: map<string, string>, a: seq<string>, b: seq<string>)
    ensures FoldHeaders(headers, a + b) == FoldHeaders(FoldHeaders(headers, a), b)
    decreases |a|
  {
    if a == [] {
      assert a + b == b;
    } else {
      assert (a + b)[1..] == a[1..] + b;
      FoldAppend(AddHeaderLine(headers, a[0]), a[1..], b);
    }
  }

  /** The line does not set `key`. */
  predicate LeavesKey(line: string, key: string) {
    HeaderField(line).None? || HeaderField(line).value.0 != key
  }

  lemma {:induction false} FoldKeeps(headers: map<string, string>, ls: seq<string>, key: string)
    requires key in headers
    requires forall i :: 0 <= i < |ls| ==> LeavesKey(ls[i], key)
    ensures key in FoldHeaders(headers, ls) && FoldHeaders(headers, ls)[key] == headers[key]
    decreases |ls|
  {
    if ls != [] {
      FoldKeeps(AddHeaderLine(headers, ls[0]), ls[1..], key);
    }
  }

  /** When a key repeats, the value of its last occurrence wins. */
  lemma LastValueWins(headers: map<string, string>, pre: seq<string>, line: string, post: seq<string>,
                      key: string, value: string)
    requires HeaderField(line) == Some((key, value))
    requires forall i :: 0 <= i < |post| ==> LeavesKey(post[i], key)
    ensures key in FoldHeaders(headers, pre + [line] + post)
    ensures FoldHeaders(headers, pre + [line] + post)[key] == value
  {
    FoldAppend(headers, pre + [line], post);
    FoldAppend(headers, pre, [line]);
    var before := FoldHeaders(headers, pre);
    assert FoldHeaders(before, [line]) == FoldHeaders(AddHeaderLine(before, line), []);
    FoldKeeps(FoldHeaders(headers, pre + [line]), post, key);
  }

  // ---------------------------------------------------------------------------
  // Headers and body of a whole request

  /**
   * With a `"\r"` line after the request line, the headers come from the lines before it
   * and, for POST and PUT only, the body is the lines after it with their newlines dropped.
   */
  lemma HeadersThenBody(raw: string, first: string, pre: seq<string>, post: seq<string>)
    requires Lines(raw) == [first] + pre + ["\r"] + post
    requires "\r" !in pre
    ensures Parsed(raw).headers == FoldHeaders(map[], pre)
    ensures Parsed(raw).body == if HasBody(Parsed(raw).methodName) then Concat(post) else ""
  {
    assert Lines(raw)[1..] == pre + ["\r"] + post;
    ScanStopsAtCarriageReturn(map[], pre, post);
  }

  /** Without a `"\r"` line all lines after the request line are headers and the body stays empty, even for POST. */
  lemma HeadersWithoutEnd(raw: string, first: string, ls: seq<string>)
    requires Lines(raw) == [first] + ls
    requires "\r" !in ls
    ensures Parsed(raw).headers == FoldHeaders(map[], ls)
    ensures Parsed(raw).body == ""
  {
    assert Lines(raw)[1..] == ls;
    ScanRunsToEnd(map[], ls);
  }

  /** Only POST and PUT requests carry a body. */
  lemma BodyOnlyForPostOrPut(raw: string)
    ensures Parsed(raw).body != "" ==> HasBody(Parsed(raw).methodName)
  {
  }
}
