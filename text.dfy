/**
 * The C and C++ library string primitives the servers rely on, as pure functions:
 * `isspace` in the "C" locale, formatted extraction `stream >> word`, `std::getline`,
 * `std::remove_if(..., ::isspace)`, `find`, `rfind`, `ends_with`, decimal rendering of
 * integers (`std::to_string`, `operator<<`) and the conversion of a NUL-terminated buffer
 * into a `std::string`.  Bytes are modelled as `char`s.
 */
module Text {
  import opened Wrappers

  /** `isspace` in the "C" locale: space, tab, newline, vertical tab, form feed, carriage return. */
  predicate IsSpace(c: char) {
    c == ' ' || c == '\t' || c == '\n' || c == '\U{B}' || c == '\U{C}' || c == '\r'
  }

  predicate NoSpace(s: string) {
    forall i :: 0 <= i < |s| ==> !IsSpace(s[i])
  }

  predicate AllSpace(s: string) {
    forall i :: 0 <= i < |s| ==> IsSpace(s[i])
  }

  /** `s.erase(std::remove_if(s.begin(), s.end(), ::isspace), s.end())`: every whitespace character goes. */
  function RemoveSpace(s: string): (r: string)
    ensures NoSpace(r)
    ensures |r| <= |s|
  {
    if s == [] then []
    else if IsSpace(s[0]) then RemoveSpace(s[1..])
    else [s[0]] + RemoveSpace(s[1..])
  }

  /** Every other character is kept, as often as it occurs. */
  lemma {:induction false} RemoveSpaceKeepsOthers(s: string)
    ensures forall c :: !IsSpace(c) ==> multiset(RemoveSpace(s))[c] == multiset(s)[c]
  {
    if s != [] {
      assert s == [s[0]] + s[1..];
      RemoveSpaceKeepsOthers(s[1..]);
    }
  }

  /** A string without whitespace is left as it is. */
  lemma {:induction false} RemoveSpaceKeepsClean(s: string)
    requires NoSpace(s)
    ensures RemoveSpace(s) == s
  {
    if s != [] {
      RemoveSpaceKeepsClean(s[1..]);
    }
  }

  /** A run of whitespace is erased altogether. */
  lemma {:induction false} RemoveSpaceOfSpace(s: string)
    requires AllSpace(s)
    ensures RemoveSpace(s) == []
  {
    if s != [] {
      RemoveSpaceOfSpace(s[1..]);
    }
  }

  /** Removing whitespace works piece by piece. */
  lemma {:induction false} RemoveSpaceAppend(a: string, b: string)
    ensures RemoveSpace(a + b) == RemoveSpace(a) + RemoveSpace(b)
  {
    if a != [] {
      assert (a + b)[0] == a[0];
      assert (a + b)[1..] == a[1..] + b;
      RemoveSpaceAppend(a[1..], b);
    } else {
      assert a + b == b;
    }
  }

  /** Removing whitespace twice is the same as removing it once. */
  lemma RemoveSpaceIdempotent(s: string)
    ensures RemoveSpace(RemoveSpace(s)) == RemoveSpace(s)
  {
    RemoveSpaceKeepsClean(RemoveSpace(s));
  }

  // ---------------------------------------------------------------------------
  // Formatted extraction: `stream >> word`

  /** The run of non-whitespace characters at the front of `s`. */
  function LeadingWord(s: string): (w: string)
    ensures |w| <= |s| && w == s[..|w|]
    ensures NoSpace(w)
    ensures |w| == |s| || IsSpace(s[|w|])
    ensures s != [] && !IsSpace(s[0]) ==> w != []
  {
    if s == [] || IsSpace(s[0]) then [] else [s[0]] + LeadingWord(s[1..])
  }

  /**
   * The successive strings that `stream >> w1 >> w2 >> ...` extracts from `s`: each call
   * skips leading whitespace and then takes the longest run of non-whitespace characters.
   */
  function Words(s: string): (ws: seq<string>)
    ensures forall i :: 0 <= i < |ws| ==> ws[i] != [] && NoSpace(ws[i])
    decreases |s|
  {
    if s == [] then []
    else if IsSpace(s[0]) then Words(s[1..])
    else
      var w := LeadingWord(s);
      [w] + Words(s[|w|..])
  }

  /**
   * The value of the k-th target of a chain of `>>` extractions into strings that start out
   * empty: once an extraction fails, the stream is in a failed state and the remaining
   * targets keep their empty value.
   */
  function Field(ws: seq<string>, k: nat): string {
    if k < |ws| then ws[k] else ""
  }

  /** Words separated by single spaces. */
  function Unwords(ws: seq<string>): string {
    if ws == [] then "" else if |ws| == 1 then ws[0] else ws[0] + " " + Unwords(ws[1..])
  }

  lemma {:induction false} LeadingWordOf(w: string, rest: string)
    requires NoSpace(w)
    requires rest == [] || IsSpace(rest[0])
    ensures LeadingWord(w + rest) == w
  {
    if w != [] {
      assert (w + rest)[1..] == w[1..] + rest;
      LeadingWordOf(w[1..], rest);
    } else {
      assert w + rest == rest;
    }
  }

  /** Leading whitespace is skipped. */
  lemma {:induction false} WordsSkipSpace(sp: string, rest: string)
    requires AllSpace(sp)
    ensures Words(sp + rest) == Words(rest)
  {
    if sp != [] {
      assert (sp + rest)[1..] == sp[1..] + rest;
      WordsSkipSpace(sp[1..], rest);
    } else {
      assert sp + rest == rest;
    }
  }

  /** A word ended by whitespace or by the end of the input is extracted whole. */
  lemma WordsCons(w: string, rest: string)
    requires w != [] && NoSpace(w)
    requires rest == [] || IsSpace(rest[0])
    ensures Words(w + rest) == [w] + Words(rest)
  {
    LeadingWordOf(w, rest);
    assert (w + rest)[|w|..] == rest;
  }

  /**
   * Round trip: extracting words from space-separated words, followed by anything that
   * starts with whitespace, gives those words back first.
   */
  lemma {:induction false} WordsUnwords(ws: seq<string>, rest: string)
    requires forall i :: 0 <= i < |ws| ==> ws[i] != [] && NoSpace(ws[i])
    requires rest == [] || IsSpace(rest[0])
    ensures Words(Unwords(ws) + rest) == ws + Words(rest)
  {
    if ws == [] {
      assert Unwords(ws) + rest == rest;
    } else if |ws| == 1 {
      WordsCons(ws[0], rest);
    } else {
      WordsUnwords(ws[1..], rest);
      WordsUnwordsStep(ws, rest);
    }
  }

  /** One inductive step of WordsUnwords: the first word, then a space. */
  lemma WordsUnwordsStep(ws: seq<string>, rest: string)
    requires |ws| > 1 && ws[0] != [] && NoSpace(ws[0])
    requires Words(Unwords(ws[1..]) + rest) == ws[1..] + Words(rest)
    ensures Words(Unwords(ws) + rest) == ws + Words(rest)
  {
    var tail := Unwords(ws[1..]) + rest;
    assert Unwords(ws) + rest == ws[0] + (" " + tail);
    WordsSpaceThen(ws[0], tail);
    ConsTail(ws, Words(rest));
  }

  lemma ConsTail<T>(xs: seq<T>, ys: seq<T>)
    requires xs != []
    ensures [xs[0]] + (xs[1..] + ys) == xs + ys
  {
    assert xs == [xs[0]] + xs[1..];
  }

  /** A word, a single space, then more text. */
  lemma WordsSpaceThen(w: string, tail: string)
    requires w != [] && NoSpace(w)
    ensures Words(w + (" " + tail)) == [w] + Words(tail)
  {
    WordsCons(w, " " + tail);
    WordsSkipSpace(" ", tail);
  }

  /** Words joined by spaces contain no newline. */
  lemma {:induction false} UnwordsHasNoNewline(ws: seq<string>)
    requires forall i :: 0 <= i < |ws| ==> NoSpace(ws[i])
    ensures IndexOf(Unwords(ws), '\n') == |Unwords(ws)|
  {
    if |ws| > 1 {
      UnwordsHasNoNewline(ws[1..]);
      var tail := Unwords(ws[1..]);
      assert forall i :: 0 <= i < |tail| ==> tail[i] != '\n';
      assert Unwords(ws) == ws[0] + " " + tail;
      assert forall i :: 0 <= i < |Unwords(ws)| ==> Unwords(ws)[i] != '\n';
    } else if |ws| == 1 {
      assert forall i :: 0 <= i < |ws[0]| ==> ws[0][i] != '\n';
    }
  }

  // ---------------------------------------------------------------------------
  // Searching

  /** The index of the first `c` in `s`, or `|s|` when there is none (`find` with `npos` as `|s|`). */
  function IndexOf(s: string, c: char): (i: nat)
    ensures i <= |s|
    ensures i < |s| ==> s[i] == c
    ensures forall j :: 0 <= j < i ==> s[j] != c
  {
    if s == [] || s[0] == c then 0 else 1 + IndexOf(s[1..], c)
  }

  /** `rfind(c)` / `find_last_of(c)`: the index of the last `c` in `s`, if any. */
  function LastIndexOf(s: string, c: char): (r: Option<nat>)
    ensures r.Some? ==> r.value < |s| && s[r.value] == c
    ensures r.Some? ==> forall j :: r.value < j < |s| ==> s[j] != c
    ensures r.None? ==> forall j :: 0 <= j < |s| ==> s[j] != c
  {
    if s == [] then None
    else if s[|s| - 1] == c then Some(|s| - 1)
    else LastIndexOf(s[..|s| - 1], c)
  }

  /** `s.find(c) == std::string::npos`: `c` does not occur in `s`. */
  predicate Lacks(s: string, c: char) {
    forall i :: 0 <= i < |s| ==> s[i] != c
  }

  predicate StartsWith(s: string, p: string) {
    |p| <= |s| && s[..|p|] == p
  }

  /** `std::string::ends_with`. */
  predicate EndsWith(s: string, suffix: string) {
    |suffix| <= |s| && s[|s| - |suffix|..] == suffix
  }

  /** `s.find(t) != std::string::npos`: `t` occurs somewhere in `s`. */
  predicate Contains(s: string, t: string)
    decreases |s|
  {
    StartsWith(s, t) || (s != [] && Contains(s[1..], t))
  }

  /** A string contains whatever is written into its middle. */
  lemma {:induction false} ContainsInfix(a: string, t: string, b: string)
    ensures Contains(a + t + b, t)
  {
    if a == [] {
      assert (a + t + b)[..|t|] == t;
    } else {
      assert (a + t + b)[1..] == a[1..] + t + b;
      ContainsInfix(a[1..], t, b);
    }
  }

  /** And contains nothing else: an occurrence sits at some position. */
  lemma {:induction false} ContainsAt(s: string, t: string) returns (i: nat)
    requires Contains(s, t)
    ensures i + |t| <= |s| && s[i..i + |t|] == t
    decreases |s|
  {
    if StartsWith(s, t) {
      i := 0;
    } else {
      var k := ContainsAt(s[1..], t);
      i := k + 1;
      assert s[i..i + |t|] == s[1..][k..k + |t|];
    }
  }

  /** Whatever a string contains, a longer string starting with it contains too. */
  lemma ContainsExtend(a: string, t: string, b: string)
    requires Contains(a, t)
    ensures Contains(a + b, t)
  {
    var i := ContainsAt(a, t);
    assert a + b == a[..i] + t + (a[i + |t|..] + b);
    ContainsInfix(a[..i], t, a[i + |t|..] + b);
  }

  // ---------------------------------------------------------------------------
  // Lines: `std::getline(stream, line)` with the default `'\n'` delimiter

  /**
   * The successive lines that `while (std::getline(stream, line))` yields: the text up to
   * each `'\n'`, which is consumed and dropped; a final piece without `'\n'` is a line too,
   * while the empty remainder after a final `'\n'` is not.
   */
  function Lines(s: string): (ls: seq<string>)
    ensures forall i :: 0 <= i < |ls| ==> IndexOf(ls[i], '\n') == |ls[i]|
    decreases |s|
  {
    if s == [] then []
    else
      var i := IndexOf(s, '\n');
      if i == |s| then [s] else [s[..i]] + Lines(s[i + 1..])
  }

  /** Each line followed by a newline. */
  function Unlines(ls: seq<string>): string {
    if ls == [] then "" else ls[0] + "\n" + Unlines(ls[1..])
  }

  /** The lines written one after the other, with their separators dropped. */
  function Concat(ls: seq<string>): string {
    if ls == [] then "" else ls[0] + Concat(ls[1..])
  }

  lemma {:induction false} ConcatAppend(a: seq<string>, b: seq<string>)
    ensures Concat(a + b) == Concat(a) + Concat(b)
  {
    if a != [] {
      assert (a + b)[1..] == a[1..] + b;
      ConcatAppend(a[1..], b);
    } else {
      assert a + b == b;
    }
  }

  /** The first line of `first + "\n" + rest` is `first`. */
  lemma LinesCons(first: string, rest: string)
    requires IndexOf(first, '\n') == |first|
    ensures Lines(first + "\n" + rest) == [first] + Lines(rest)
  {
    var s := first + "\n" + rest;
    assert s == first + ("\n" + rest);
    IndexOfAppend(first, "\n" + rest, '\n');
    assert s[..|first|] == first;
    assert s[|first| + 1..] == rest;
  }

  /** Reading lines back from newline-terminated lines gives the same lines. */
  lemma {:induction false} LinesUnlines(ls: seq<string>)
    requires forall i :: 0 <= i < |ls| ==> IndexOf(ls[i], '\n') == |ls[i]|
    ensures Lines(Unlines(ls)) == ls
  {
    if ls != [] {
      LinesCons(ls[0], Unlines(ls[1..]));
      LinesUnlines(ls[1..]);
      assert ls == [ls[0]] + ls[1..];
    }
  }

  /** Writing the lines of `s` back, each with a newline, restores `s` (with a final newline added if it lacked one). */
  lemma {:induction false} UnlinesLines(s: string)
    ensures Unlines(Lines(s)) == if s == [] || s[|s| - 1] == '\n' then s else s + "\n"
    decreases |s|
  {
    if s != [] {
      var i := IndexOf(s, '\n');
      if i == |s| {
        assert Lines(s) == [s];
        assert Unlines([s]) == s + "\n" + Unlines([]);
      } else {
        var first, rest := s[..i], s[i + 1..];
        assert s == first + "\n" + rest;
        LinesCons(first, rest);
        UnlinesCons(first, Lines(rest));
        UnlinesLines(rest);
        if rest != [] {
          assert s[|s| - 1] == rest[|rest| - 1];
        }
      }
    }
  }

  lemma UnlinesCons(first: string, ls: seq<string>)
    ensures Unlines([first] + ls) == first + "\n" + Unlines(ls)
  {
    assert ([first] + ls)[1..] == ls;
  }

  lemma {:induction false} IndexOfAppend(a: string, b: string, c: char)
    requires IndexOf(a, c) == |a|
    ensures IndexOf(a + b, c) == |a| + IndexOf(b, c)
  {
    if a != [] {
      assert (a + b)[1..] == a[1..] + b;
      IndexOfAppend(a[1..], b, c);
    } else {
      assert a + b == b;
    }
  }

  /**
   * One call of `std::getline` on a stream positioned at `pos`: the line read and the new
   * position, or `None` when the stream is at its end (the call fails).
   */
  function NextLine(s: string, pos: nat): (r: Option<(string, nat)>)
    requires pos <= |s|
    ensures r.None? <==> pos == |s|
    ensures r.None? ==> Lines(s[pos..]) == []
    ensures r.Some? ==> pos < r.value.1 <= |s| && Lines(s[pos..]) == [r.value.0] + Lines(s[r.value.1..])
  {
    if pos == |s| then None
    else
      var rest := s[pos..];
      var i := IndexOf(rest, '\n');
      assert i < |rest| ==> rest[i + 1..] == s[pos + i + 1..];
      assert i == |rest| ==> rest[..i] == rest && s[|s|..] == [];
      Some((rest[..i], if i == |rest| then |s| else pos + i + 1))
  }

  // ---------------------------------------------------------------------------
  // Decimal numbers

  predicate IsDigit(c: char) {
    '0' <= c <= '9'
  }

  predicate AllDigits(s: string) {
    forall i :: 0 <= i < |s| ==> IsDigit(s[i])
  }

  function DigitChar(d: nat): (c: char)
    requires d < 10
    ensures IsDigit(c)
  {
    (('0' as int) + d) as char
  }

  function DigitValue(c: char): (d: nat)
    requires IsDigit(c)
    ensures d < 10
  {
    (c as int) - ('0' as int)
  }

  /** `std::to_string(n)` for an unsigned value: decimal digits, no sign, no leading zero. */
  function NatToString(n: nat): (s: string)
    ensures s != [] && AllDigits(s)
    ensures s[0] == '0' ==> n == 0
    decreases n
  {
    if n < 10 then [DigitChar(n)] else NatToString(n / 10) + [DigitChar(n % 10)]
  }

  /** `operator<<(int)` and `std::to_string(int)`: a minus sign for negative values. */
  function IntToString(i: int): string {
    if i < 0 then "-" + NatToString(-i) else NatToString(i)
  }

  /** The value of a string of decimal digits, most significant first. */
  function DigitsValue(s: string): nat
    requires AllDigits(s)
  {
    if s == [] then 0 else DigitsValue(s[..|s| - 1]) * 10 + DigitValue(s[|s| - 1])
  }

  /** A reader of unsigned decimal numbers: one or more digits and nothing else. */
  function ParseNat(s: string): Option<nat> {
    if s != [] && AllDigits(s) then Some(DigitsValue(s)) else None
  }

  /** A reader of decimal integers: an optional minus sign, then one or more digits. */
  function ParseInt(s: string): Option<int> {
    if s != [] && s[0] == '-' then
      match ParseNat(s[1..])
      case Some(n) => Some(-(n as int))
      case None => None
    else
      match ParseNat(s)
      case Some(n) => Some(n)
      case None => None
  }

  /** Round trip: the decimal rendering of a natural number reads back as that number. */
  lemma {:induction false} ParseNatToString(n: nat)
    ensures ParseNat(NatToString(n)) == Some(n)
    decreases n
  {
    var s := NatToString(n);
    if n >= 10 {
      ParseNatToString(n / 10);
      assert s[..|s| - 1] == NatToString(n / 10);
      assert DigitValue(DigitChar(n % 10)) == n % 10;
    } else {
      assert s == [DigitChar(n)] && s[..0] == [];
      assert DigitsValue(s) == DigitsValue([]) * 10 + DigitValue(DigitChar(n));
    }
  }

  /** Round trip: the decimal rendering of an integer reads back as that integer. */
  lemma ParseIntToString(i: int)
    ensures ParseInt(IntToString(i)) == Some(i)
  {
    if i < 0 {
      ParseNatToString(-i);
      assert IntToString(i)[1..] == NatToString(-i);
    } else {
      ParseNatToString(i);
    }
  }

  /** Distinct numbers have distinct renderings. */
  lemma NatToStringInjective(m: nat, n: nat)
    requires NatToString(m) == NatToString(n)
    ensures m == n
  {
    ParseNatToString(m);
    ParseNatToString(n);
  }

  /** A rendered number is digits, after an optional minus sign: it holds no other character. */
  lemma IntToStringLacks(i: int, c: char)
    requires c != '-' && !IsDigit(c)
    ensures Lacks(IntToString(i), c)
  {
    if i < 0 {
      assert IntToString(i) == "-" + NatToString(-i);
    }
  }

  // ---------------------------------------------------------------------------
  // C strings

  /** `std::string(buffer)` for a buffer holding `bytes`: the text up to the first NUL. */
  function CString(bytes: string): (s: string)
    ensures |s| <= |bytes| && s == bytes[..|s|]
    ensures forall i :: 0 <= i < |s| ==> s[i] != '\0'
    ensures |s| < |bytes| ==> bytes[|s|] == '\0'
  {
    bytes[..IndexOf(bytes, '\0')]
  }
}
