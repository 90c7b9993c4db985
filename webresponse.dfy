/**
 * The response message of `webresponse.c`: a status code, an owned status
 * text, an owned header collection, an owned body with its length, and a
 * keep-alive flag; an incremental parser that commits all fields together or
 * none, and a serialiser that reports its size with or without a buffer.
 */
module WebResponse {
  import opened Wrappers
  import opened LibC
  import opened WebTools
  import opened WebHeaders

  /** `uint16_t` holds a value modulo 2^16. */
  const UInt16Modulus: nat := 0x1_0000
  /** `size_t` holds a value modulo 2^64. */
  const SizeModulus: nat := 0x1_0000_0000_0000_0000

  const ContentLengthName: string := "Content-Length"
  const DefaultStatusCode: nat := 500
  const DefaultStatusMessage: string := "Internal Server Error"

  /** C's conversion of an `int` to `size_t`. */
  function ToSize(v: int): (r: nat)
    ensures r < SizeModulus
    ensures 0 <= v < SizeModulus ==> r == v
    ensures -(SizeModulus as int) <= v < 0 ==> r == v + SizeModulus
  {
    v % SizeModulus
  }

  // ---------------------------------------------------------------------------
  // The status line
  // ---------------------------------------------------------------------------

  /**
   * The code token and the message token of a status line (the text before
   * the first '\n'): the protocol token before the first space is dropped, the
   * code is what lies between the first and the second space, and the message
   * is everything after the second space; each is read as a C string, so it
   * ends at a NUL. None when the line has fewer than two spaces.
   */
  function SplitStatusLine(line: string): (r: Option<(string, string)>)
  {
    match IndexFrom(line, ' ', 0)
    case None => None
    case Some(p1) =>
      match IndexFrom(line, ' ', p1 + 1)
      case None => None
      case Some(p2) => Some((CString(line[p1 + 1..p2]), CString(line[p2 + 1..])))
  }

  /** The line holds at least two spaces. */
  predicate TwoSpaces(line: string)
  {
    exists i, j :: 0 <= i < j < |line| && line[i] == ' ' && line[j] == ' '
  }

  /** The split fails exactly when the line holds fewer than two spaces. */
  lemma SplitStatusLineFails(line: string)
    ensures SplitStatusLine(line).None? <==> !TwoSpaces(line)
  {
    match IndexFrom(line, ' ', 0)
    case None =>
    case Some(p1) =>
      match IndexFrom(line, ' ', p1 + 1)
      case None =>
        forall i, j | 0 <= i < j < |line| && line[i] == ' '
          ensures line[j] != ' '
        {
          assert p1 <= i;
        }
      case Some(p2) =>
        assert line[p1] == ' ' && line[p2] == ' ';
  }

  /**
   * A line "protocol code message" splits into the code and the whole message,
   * spaces included: splitting stops at the second space.
   */
  lemma SplitStatusLineFields(protocol: string, code: string, message: string)
    requires ' ' !in protocol && ' ' !in code
    requires '\0' !in code && '\0' !in message
    ensures SplitStatusLine(protocol + " " + code + " " + message) == Some((code, message))
  {
    var line := protocol + " " + code + " " + message;
    var p1 := |protocol|;
    var p2 := |protocol| + 1 + |code|;
    assert IndexFrom(line, ' ', 0) == Some(p1) by {
      assert forall j :: 0 <= j < p1 ==> line[j] == protocol[j];
      IndexFromFinds(line, ' ', 0, p1);
    }
    assert IndexFrom(line, ' ', p1 + 1) == Some(p2) by {
      assert forall j :: p1 < j < p2 ==> line[j] == code[j - p1 - 1];
      IndexFromFinds(line, ' ', p1 + 1, p2);
    }
    assert line[p1 + 1..p2] == code;
    assert line[p2 + 1..] == message;
    CStringUnique(code, code);
    CStringUnique(message, message);
  }

  /**
   * Among the first `eol` characters of `s`, `codeAt` is one past the first
   * space and `messageAt` one past the second; None where there is no such space.
   */
  ghost predicate MarksSpaces(s: string, eol: nat, codeAt: Option<nat>, messageAt: Option<nat>)
  {
    && eol <= |s|
    && (codeAt.None? ==> messageAt.None? && forall j :: 0 <= j < eol ==> s[j] != ' ')
    && (codeAt.Some? ==> 1 <= codeAt.value <= eol && s[codeAt.value - 1] == ' '
                         && forall j :: 0 <= j < codeAt.value - 1 ==> s[j] != ' ')
    && (codeAt.Some? && messageAt.None? ==> forall j :: codeAt.value <= j < eol ==> s[j] != ' ')
    && (messageAt.Some? ==> codeAt.Some? && codeAt.value < messageAt.value <= eol
                            && s[messageAt.value - 1] == ' '
                            && forall j :: codeAt.value <= j < messageAt.value - 1 ==> s[j] != ' ')
  }

  /**
   * The loop of `web_response_parse` over its scratch copy of the header: it
   * walks to the first '\n', takes the positions just after the first and the
   * second space as the code and message pointers, and overwrites those two
   * spaces and the '\n' with NUL. Spaces after the second one are left alone.
   */
  method TerminateStatusLine(buf: array<char>) returns (eol: nat, codeAt: Option<nat>, messageAt: Option<nat>)
    requires '\n' in buf[..]
    modifies buf
    ensures eol < buf.Length && old(buf[eol]) == '\n' && '\n' !in old(buf[..eol])
    ensures MarksSpaces(old(buf[..]), eol, codeAt, messageAt)
    ensures buf[eol] == '\0'
    ensures codeAt.Some? ==> buf[codeAt.value - 1] == '\0'
    ensures messageAt.Some? ==> buf[messageAt.value - 1] == '\0'
    ensures forall j :: 0 <= j < buf.Length && j != eol && Some(j + 1) != codeAt && Some(j + 1) != messageAt ==>
              buf[j] == old(buf[j])
  {
    ghost var s := buf[..];
    ghost var nl := IndexFrom(s, '\n', 0).value;
    eol, codeAt, messageAt := 0, None, None;
    while buf[eol] != '\n'
      invariant eol <= nl
      decreases nl - eol
      invariant forall j :: 0 <= j < buf.Length ==>
                  buf[j] == if Some(j + 1) == codeAt || Some(j + 1) == messageAt then '\0' else s[j]
      invariant MarksSpaces(s, eol, codeAt, messageAt)
    {
      if buf[eol] == ' ' && messageAt.None? {
        if codeAt.None? {
          codeAt := Some(eol + 1);
        } else {
          messageAt := Some(eol + 1);
        }
        buf[eol] := '\0';
      }
      eol := eol + 1;
    }
    buf[eol] := '\0';
  }

  /**
   * The marks the loop records are one past the first and second spaces of the
   * line, so the text they delimit is the split of the status line.
   */
  lemma SpacesSplit(s: string, eol: nat, codeAt: Option<nat>, messageAt: Option<nat>)
    requires MarksSpaces(s, eol, codeAt, messageAt)
    ensures codeAt.None? || messageAt.None? ==> SplitStatusLine(s[..eol]) == None
    ensures codeAt.Some? && messageAt.Some? ==>
              SplitStatusLine(s[..eol]) == Some((CString(s[codeAt.value..messageAt.value - 1]), CString(s[messageAt.value..eol])))
  {
    var line := s[..eol];
    if codeAt.None? {
      NoSpaceFrom(s, eol, 0);
    } else {
      var c := codeAt.value;
      SpaceAt(s, eol, 0, c - 1);
      if messageAt.None? {
        NoSpaceFrom(s, eol, c);
      } else {
        var m := messageAt.value;
        SpaceAt(s, eol, c, m - 1);
        SplitAtSpaces(line, c - 1, m - 1);
        assert line[c..m - 1] == s[c..m - 1];
        assert line[m..] == s[m..eol];
      }
    }
  }

  lemma NoSpaceFrom(s: string, eol: nat, from: nat)
    requires eol <= |s| && forall j :: from <= j < eol ==> s[j] != ' '
    ensures IndexFrom(s[..eol], ' ', from) == None
  {
    assert forall j :: from <= j < eol ==> s[..eol][j] == s[j];
  }

  lemma SpaceAt(s: string, eol: nat, from: nat, k: nat)
    requires from <= k < eol <= |s| && s[k] == ' '
    requires forall j :: from <= j < k ==> s[j] != ' '
    ensures IndexFrom(s[..eol], ' ', from) == Some(k)
  {
    assert forall j :: from <= j <= k ==> s[..eol][j] == s[j];
    IndexFromFinds(s[..eol], ' ', from, k);
  }

  /** With both spaces found, the split is the text after each of them. */
  lemma SplitAtSpaces(line: string, p1: nat, p2: nat)
    requires IndexFrom(line, ' ', 0) == Some(p1) && IndexFrom(line, ' ', p1 + 1) == Some(p2)
    ensures SplitStatusLine(line) == Some((CString(line[p1 + 1..p2]), CString(line[p2 + 1..])))
  {
  }

  /** Reading the two tokens back from the marked buffer gives the text between the marks. */
  lemma MarkedTokens(original: string, marked: string, eol: nat, c: nat, m: nat)
    requires |marked| == |original| && 1 <= c < m <= eol < |marked|
    requires marked[m - 1] == '\0' && marked[eol] == '\0'
    requires forall j :: c <= j < eol && j != m - 1 ==> marked[j] == original[j]
    ensures CString(marked[c..]) == CString(original[c..m - 1])
    ensures CString(marked[m..]) == CString(original[m..eol])
  {
    CStringStopsAt(marked[c..], m - 1 - c);
    assert marked[c..][..m - 1 - c] == original[c..m - 1];
    CStringStopsAt(marked[m..], eol - m);
    assert marked[m..][..eol - m] == original[m..eol];
  }

  /** Between the two marks, only the second space was overwritten. */
  lemma UnmarkedBetween(original: string, marked: string, eol: nat, c: nat, m: nat)
    requires |marked| == |original| && c < m <= eol < |marked|
    requires forall j :: 0 <= j < |marked| && j != eol && Some(j + 1) != Some(c) && Some(j + 1) != Some(m) ==>
               marked[j] == original[j]
    ensures forall j :: c <= j < eol && j != m - 1 ==> marked[j] == original[j]
  {
    forall j | c <= j < eol && j != m - 1 ensures marked[j] == original[j] {
      assert Some(j + 1) != Some(c) && Some(j + 1) != Some(m);
    }
  }

  /**
   * The status-line pass of `web_response_parse`: the converted header is
   * copied into a scratch array, the loop above marks it, and the code and
   * message tokens are read back as C strings from the two pointers.
   */
  method ReadStatusLine(converted: string) returns (eol: nat, split: Option<(string, string)>)
    requires converted != [] && converted[|converted| - 1] == '\n'
    ensures IndexFrom(converted, '\n', 0) == Some(eol)
    ensures split == SplitStatusLine(converted[..eol])
  {
    var header := new char[|converted|](i requires 0 <= i < |converted| => converted[i]);
    assert header[..] == converted;
    assert header[|converted| - 1] == '\n';
    var codeAt, messageAt;
    eol, codeAt, messageAt := TerminateStatusLine(header);
    FirstNewline(converted, eol);
    SpacesSplit(converted, eol, codeAt, messageAt);
    if codeAt.None? || messageAt.None? {
      split := None;
    } else {
      var marked := header[..];
      UnmarkedBetween(converted, marked, eol, codeAt.value, messageAt.value);
      MarkedTokens(converted, marked, eol, codeAt.value, messageAt.value);
      split := Some((CString(marked[codeAt.value..]), CString(marked[messageAt.value..])));
    }
  }

  lemma FirstNewline(s: string, eol: nat)
    requires eol < |s| && s[eol] == '\n' && '\n' !in s[..eol]
    ensures IndexFrom(s, '\n', 0) == Some(eol)
  {
    assert forall j :: 0 <= j < eol ==> s[..eol][j] == s[j];
  }

  // ---------------------------------------------------------------------------
  // What a parse yields
  // ---------------------------------------------------------------------------

  datatype ParseOutcome =
    | Incomplete
    | Malformed
    | Complete(statusCode: nat, statusMessage: string, headers: Headers, contentStart: nat, contentLength: nat)

  /** The body length a header block declares: `atoi` of Content-Length stored in a `size_t`, 0 when absent. */
  function DeclaredLength(h: Headers): (n: nat)
    ensures Value(h, ContentLengthName).None? ==> n == 0
  {
    match Value(h, ContentLengthName)
    case None => 0
    case Some(v) => ToSize(Atoi(v))
  }

  /** The Content-Length header that goes with a body of `size` bytes: none for an empty body. */
  function ContentLengthHeader(size: nat): (v: Option<string>)
    ensures v.None? <==> size == 0
  {
    if size > 0 then Some(Decimal(size)) else None
  }

  /**
   * What `web_response_parse` reads from a header block whose line endings are
   * already converted (it ends in '\n'): the code and message tokens of its
   * first line and the header collection parsed from the lines after it, or
   * None when the status line is malformed.
   */
  function ParseHeaderBlock(header: string): (r: Option<(string, string, Headers)>)
    requires header != [] && header[|header| - 1] == '\n'
    ensures r.Some? ==> '\0' !in r.value.1 && Distinct(r.value.2)
  {
    var eol := IndexFrom(header, '\n', 0).value;
    match SplitStatusLine(header[..eol])
    case None => None
    case Some((code, message)) => Some((code, message, Parse([], header[eol + 1..])))
  }

  /** What a complete outcome guarantees about the fields it carries. */
  predicate CommitReady(data: string, outcome: ParseOutcome)
    requires outcome.Complete?
  {
    && outcome.statusCode < UInt16Modulus
    && '\0' !in outcome.statusMessage
    && Distinct(outcome.headers)
    && outcome.contentStart + outcome.contentLength <= |data|
  }

  /** The header bytes before the boundary `cs`, with their line ends converted. */
  function ConvertedHeader(data: string, cs: nat): (header: string)
    requires 2 <= cs <= |data| && data[cs - 1] == '\n'
    ensures header != [] && header[|header| - 1] == '\n'
    ensures |header| <= cs
  {
    assert data[..cs][cs - 1] == '\n';
    ConvertNewLines(data[..cs])
  }

  /** The first line of a header block, without its '\n'. */
  function StatusLineOf(header: string): (line: string)
    requires header != [] && header[|header| - 1] == '\n'
    ensures line < header && header[|line|] == '\n' && '\n' !in line
  {
    header[..IndexFrom(header, '\n', 0).value]
  }

  /**
   * What `web_response_parse` makes of `data`: Incomplete when no blank line
   * has arrived or the body declared by Content-Length has not all arrived;
   * Malformed when the status line lacks the code or the message token;
   * otherwise the fields to commit and the offsets of the body.
   */
  function ParseSpec(data: string): (r: ParseOutcome)
    ensures !HasTerminator(data) ==> r == Incomplete
    ensures r.Complete? ==> ContentStart(data) == Some(r.contentStart)
    ensures r.Complete? ==> r.contentStart + r.contentLength <= |data|
    ensures r.Complete? ==> r.statusCode < UInt16Modulus && '\0' !in r.statusMessage && Distinct(r.headers)
  {
    match ContentStart(data)
    case None => Incomplete
    case Some(cs) =>
      match ParseHeaderBlock(ConvertNewLines(data[..cs]))
      case None => Malformed
      case Some((code, message, parsed)) =>
        var declared := DeclaredLength(parsed);
        if declared <= |data| - cs then
          Complete(Atoi(code) % UInt16Modulus, message, parsed, cs, declared)
        else
          Incomplete
  }

  /**
   * The parser is incremental: once `data` parses as complete or malformed,
   * bytes arriving after it change neither the outcome nor the count consumed.
   */
  lemma ParseSpecExtends(data: string, more: string)
    requires ParseSpec(data).Complete? || ParseSpec(data).Malformed?
    ensures ParseSpec(data + more) == ParseSpec(data)
  {
    ContentStartExtends(data, more);
    var cs := ContentStart(data).value;
    assert (data + more)[..cs] == data[..cs];
  }

  /**
   * A parse is malformed exactly when the blank line has arrived and the
   * first line of the converted header holds fewer than two spaces; the
   * body length plays no part.
   */
  lemma ParseSpecMalformed(data: string)
    ensures ParseSpec(data).Malformed? <==>
            match ContentStart(data)
            case None => false
            case Some(cs) => !TwoSpaces(StatusLineOf(ConvertedHeader(data, cs)))
  {
    match ContentStart(data)
    case None =>
    case Some(cs) =>
      var header := ConvertedHeader(data, cs);
      var eol := IndexFrom(header, '\n', 0).value;
      assert StatusLineOf(header) == header[..eol];
      SplitStatusLineFails(header[..eol]);
  }

  /**
   * The header pass of `web_response_parse` on the converted scratch copy: the
   * status-line loop, then a fresh collection parsed from the lines after it.
   */
  method ReadHeaderBlock(converted: string) returns (r: Option<(string, string, Headers)>)
    requires converted != [] && converted[|converted| - 1] == '\n'
    ensures r == ParseHeaderBlock(converted)
  {
    var eol, split := ReadStatusLine(converted);
    if split.None? {
      return None;
    }
    var (codeText, statusText) := split.value;
    var parsed := Parse([], converted[eol + 1..]);
    r := Some((codeText, statusText, parsed));
  }

  /**
   * Everything `web_response_parse` does before it touches the response: copy
   * the input, find the blank line, convert the header's line endings, split
   * the status line, parse the headers into a fresh collection and compare the
   * declared body length with the bytes that follow the blank line.
   */
  method ReadMessage(data: string) returns (outcome: ParseOutcome)
    ensures outcome == ParseSpec(data)
    ensures outcome.Complete? ==> CommitReady(data, outcome)
  {
    var buffer := data;
    var start := ContentStart(buffer);
    if start.None? {
      return Incomplete;
    }
    var cs := start.value;
    assert buffer[..cs][cs - 1] == '\n';
    var converted := ConvertNewLines(buffer[..cs]);
    var block := ReadHeaderBlock(converted);
    if block.None? {
      return Malformed;
    }
    var (codeText, statusText, parsed) := block.value;
    var declared := DeclaredLength(parsed);
    if declared <= |buffer| - cs {
      outcome := Complete(Atoi(codeText) % UInt16Modulus, statusText, parsed, cs, declared);
    } else {
      outcome := Incomplete;
    }
  }

  // ---------------------------------------------------------------------------
  // Serialisation
  // ---------------------------------------------------------------------------

  /** The status line's text between the line breaks. */
  function StatusText(protocol: string, code: nat, message: string): (text: string)
  {
    protocol + " " + Decimal(code) + " " + message
  }

  /** `sprintf("%s %d %s\r\n", protocol, code, message)`, without the trailing NUL. */
  function StatusLine(protocol: string, code: nat, message: string): (line: string)
  {
    StatusText(protocol, code, message) + "\r\n"
  }

  /** The complete bytes `web_response_write` puts in a large enough buffer. */
  function Serialized(protocol: string, code: nat, message: string, h: Headers): (bytes: string)
  {
    StatusLine(protocol, code, message) + Text(h)
  }

  /**
   * The size `web_response_write` reports as written: the status line is
   * counted as protocol, message and 7 more characters, as if the code always
   * printed as three digits.
   */
  function AsWrittenSize(protocol: string, message: string, h: Headers): (size: nat)
  {
    |protocol| + |message| + 7 + |Text(h)|
  }

  /** The as-written size is the real size exactly for the codes 100 to 999. */
  lemma AsWrittenSizeExact(protocol: string, code: nat, message: string, h: Headers)
    ensures AsWrittenSize(protocol, message, h) == |Serialized(protocol, code, message, h)| <==> 100 <= code <= 999
  {
    DecimalHasThreeDigits(code);
  }

  /** `set_status(wr, 42, "OK")` is accepted, and then `write` reports one byte more than it prints. */
  lemma AsWrittenSizeMiscountsTwoDigitCode()
    ensures AsWrittenSize("RTSP/1.0", "OK", []) == |Serialized("RTSP/1.0", 42, "OK", [])| + 1
  {
    assert Decimal(42) == "42";
  }

  /** Copies `s` into `dest` at `at`, as `memcpy` and `sprintf` do. */
  method CopyInto(dest: array<char>, at: nat, s: string)
    requires at + |s| <= dest.Length
    modifies dest
    ensures dest[..at] == old(dest[..at])
    ensures dest[at..at + |s|] == s
    ensures dest[at + |s|..] == old(dest[at + |s|..])
  {
    var i := 0;
    while i < |s|
      invariant 0 <= i <= |s|
      invariant dest[..at] == old(dest[..at])
      invariant dest[at..at + i] == s[..i]
      invariant dest[at + i..] == old(dest[at + i..])
    {
      dest[at + i] := s[i];
      i := i + 1;
    }
  }

  /**
   * The write sequence of `web_response_write`: each part is copied at the
   * running position only when it still fits in `size`; the position
   * advances regardless, so the result is the full length either way.
   */
  method FillInTwoParts(dest: array?<char>, size: nat, first: string, second: string) returns (n: nat)
    requires dest != null ==> size <= dest.Length
    modifies dest
    ensures n == |first + second|
    ensures dest != null ==>
              && (n <= size ==> dest[..n] == first + second && dest[n..] == old(dest[n..]))
              && (|first| <= size < n ==> dest[..|first|] == first && dest[|first|..] == old(dest[|first|..]))
              && (size < |first| ==> dest[..] == old(dest[..]))
  {
    var writePos := 0;
    if dest != null && writePos + |first| <= size {
      CopyInto(dest, writePos, first);
    }
    writePos := writePos + |first|;
    if dest != null && writePos + |second| <= size {
      CopyInto(dest, writePos, second);
      assert dest[..writePos + |second|] == dest[..writePos] + dest[writePos..writePos + |second|];
    }
    n := writePos + |second|;
  }

  // ---------------------------------------------------------------------------
  // Writing and parsing again
  // ---------------------------------------------------------------------------

  /** What the serialiser writes is a block of lines: the status line, then one line per header. */
  lemma SerializedLines(protocol: string, code: nat, message: string, h: Headers)
    ensures Serialized(protocol, code, message, h) ==
            CRLFLines([StatusText(protocol, code, message)] + EntryLines(h)) + "\r\n"
  {
    var ls := [StatusText(protocol, code, message)] + EntryLines(h);
    assert ls[0] == StatusText(protocol, code, message) && ls[1..] == EntryLines(h);
  }

  /**
   * The converted header block of a written response reads back as the code
   * token printed by "%d", the message and the same header collection.
   */
  lemma ParseWrittenHeaderBlock(protocol: string, code: nat, message: string, h: Headers)
    requires ' ' !in protocol && '\n' !in protocol && '\n' !in message && '\0' !in message
    requires Distinct(h) && AllWireSafe(h)
    ensures var ls := [StatusText(protocol, code, message)] + EntryLines(h);
            ParseHeaderBlock(LFLines(ls) + "\n") == Some((Decimal(code), message, h))
  {
    var status := StatusText(protocol, code, message);
    var ls := [status] + EntryLines(h);
    assert ls[0] == status && ls[1..] == EntryLines(h);
    var digits := Decimal(code);
    assert ' ' !in digits && '\0' !in digits && '\n' !in digits by {
      assert AllDigits(digits);
    }
    assert '\n' !in status;
    SplitStatusLineFields(protocol, digits, message);
    ParseEntryLines([], h);
    assert [] + h == h;
    HeaderBlockOfLines(ls, digits, message, h);
  }

  /** ParseHeaderBlock of a block of lines: the first line is the status line, the rest are headers. */
  lemma HeaderBlockOfLines(ls: seq<string>, code: string, message: string, h: Headers)
    requires ls != [] && '\n' !in ls[0]
    requires SplitStatusLine(ls[0]) == Some((code, message))
    requires Parse([], LFLines(ls[1..]) + "\n") == h
    ensures ParseHeaderBlock(LFLines(ls) + "\n") == Some((code, message, h))
  {
    FirstLineOfLines(ls);
  }

  /**
   * Parsing what `web_response_write` produced, followed by the body, gives
   * back the status code, the status text, the headers and the body length,
   * and consumes exactly the written bytes plus the body. This holds for any
   * response whose Content-Length header matches its body (the invariant the
   * setters keep), provided the text fields carry no line breaks, the
   * protocol no space and the header entries survive the header parser.
   */
  lemma ParseSerialized(protocol: string, code: nat, message: string, h: Headers, body: string)
    requires ' ' !in protocol && '\r' !in protocol && '\n' !in protocol
    requires code < UInt16Modulus
    requires '\r' !in message && '\n' !in message && '\0' !in message
    requires Distinct(h) && AllWireSafe(h)
    requires Value(h, ContentLengthName) == ContentLengthHeader(|body|) && |body| < SizeModulus
    ensures var written := Serialized(protocol, code, message, h);
            ParseSpec(written + body) == Complete(code, message, h, |written|, |body|)
  {
    var written := Serialized(protocol, code, message, h);
    var data := written + body;
    WrittenBoundary(protocol, code, message, h, body);
    assert ContentStart(data) == Some(|written|);
    ParseWrittenHeaderBlock(protocol, code, message, h);
    assert ParseHeaderBlock(ConvertNewLines(data[..|written|])) == Some((Decimal(code), message, h));
    DeclaredLengthMatches(h, |body|);
    ParseSpecComplete(data, |written|, Decimal(code), message, h);
    AtoiDecimal(code);
    SmallModulo(code, UInt16Modulus);
  }

  /** Reduction by a larger modulus leaves a number unchanged. */
  lemma SmallModulo(x: nat, m: nat)
    requires x < m
    ensures x % m == x
  {
  }

  /** A block the parser reads and a body that has all arrived make a complete outcome. */
  lemma ParseSpecComplete(data: string, cs: nat, code: string, message: string, h: Headers)
    requires ContentStart(data) == Some(cs)
    requires ParseHeaderBlock(ConvertNewLines(data[..cs])) == Some((code, message, h))
    requires DeclaredLength(h) <= |data| - cs
    ensures ParseSpec(data) == Complete(Atoi(code) % UInt16Modulus, message, h, cs, DeclaredLength(h))
  {
  }

  /** The Content-Length header the setters keep declares exactly the body length. */
  lemma DeclaredLengthMatches(h: Headers, n: nat)
    requires Value(h, ContentLengthName) == ContentLengthHeader(n) && n < SizeModulus
    ensures DeclaredLength(h) == n
  {
    if n > 0 {
      AtoiDecimal(n);
    }
  }

  /**
   * The boundary of written bytes followed by a body lies just past the
   * written bytes, and converting them gives the lines ended by "\n".
   */
  lemma WrittenBoundary(protocol: string, code: nat, message: string, h: Headers, body: string)
    requires ' ' !in protocol && '\r' !in protocol && '\n' !in protocol
    requires '\r' !in message && '\n' !in message
    requires AllWireSafe(h)
    ensures var written := Serialized(protocol, code, message, h);
            var ls := [StatusText(protocol, code, message)] + EntryLines(h);
            && ContentStart(written + body) == Some(|written|)
            && ConvertNewLines((written + body)[..|written|]) == LFLines(ls) + "\n"
  {
    var ls := [StatusText(protocol, code, message)] + EntryLines(h);
    SerializedLines(protocol, code, message, h);
    WrittenLinesPlain(protocol, code, message, h);
    BlockOfLines(ls, body);
  }

  lemma WrittenLinesPlain(protocol: string, code: nat, message: string, h: Headers)
    requires ' ' !in protocol && '\r' !in protocol && '\n' !in protocol
    requires '\r' !in message && '\n' !in message
    requires AllWireSafe(h)
    ensures var ls := [StatusText(protocol, code, message)] + EntryLines(h);
            forall i :: 0 <= i < |ls| ==> PlainLine(ls[i])
  {
    var status := StatusText(protocol, code, message);
    var ls := [status] + EntryLines(h);
    EntryLinesPlain(h);
    var digits := Decimal(code);
    assert '\r' !in digits && '\n' !in digits by {
      assert AllDigits(digits);
    }
    assert status[|protocol|] == ' ';
    forall i | 0 <= i < |ls| ensures PlainLine(ls[i]) {
      if i > 0 {
        assert ls[i] == EntryLines(h)[i - 1];
      }
    }
  }

  /**
   * The same bytes cut short anywhere inside the body parse as Incomplete: the
   * header block is whole, but Content-Length declares more than has arrived.
   */
  lemma ParseTruncatedBody(protocol: string, code: nat, message: string, h: Headers, body: string, k: nat)
    requires ' ' !in protocol && '\r' !in protocol && '\n' !in protocol
    requires '\r' !in message && '\n' !in message && '\0' !in message
    requires Distinct(h) && AllWireSafe(h)
    requires Value(h, ContentLengthName) == ContentLengthHeader(|body|) && |body| < SizeModulus
    requires k < |body|
    ensures ParseSpec(Serialized(protocol, code, message, h) + body[..k]) == Incomplete
  {
    var written := Serialized(protocol, code, message, h);
    var data := written + body[..k];
    WrittenBoundary(protocol, code, message, h, body[..k]);
    ParseWrittenHeaderBlock(protocol, code, message, h);
    DeclaredLengthMatches(h, |body|);
    ParseSpecShort(data, |written|, Decimal(code), message, h);
  }

  /** A block the parser reads and a body not all arrived make an incomplete outcome. */
  lemma ParseSpecShort(data: string, cs: nat, code: string, message: string, h: Headers)
    requires ContentStart(data) == Some(cs)
    requires ParseHeaderBlock(ConvertNewLines(data[..cs])) == Some((code, message, h))
    requires DeclaredLength(h) > |data| - cs
    ensures ParseSpec(data) == Incomplete
  {
  }

  /**
   * What `web_response_write` puts in the buffer for a two-digit status code
   * and a Content-Length header: the status line, the NUL that `sprintf` ends
   * it with, and the headers at the offset the constant 7 gives, one past the
   * status line; the size it reports is the length of these bytes. Read back
   * with the body, the NUL becomes part of the header's name, so no
   * Content-Length is found and the reply parses as complete with no body.
   */
  lemma WrittenTwoDigitCodeLosesBody(protocol: string, code: nat, message: string, length: string, body: string)
    requires ' ' !in protocol && '\r' !in protocol && '\n' !in protocol
    requires 10 <= code < 100
    requires '\r' !in message && '\n' !in message && '\0' !in message
    requires WireSafe(Header(ContentLengthName, length))
    ensures var h := [Header(ContentLengthName, length)];
            var written := StatusLine(protocol, code, message) + "\0" + Text(h);
            && |written| == AsWrittenSize(protocol, message, h)
            && ParseSpec(written + body) ==
               Complete(code, message, [Header("\0" + ContentLengthName, length)], |written|, 0)
  {
    TwoDigitWrittenBytes(protocol, code, message, length);
    ParseSerializedWithoutLength(protocol, code, message, [Header("\0" + ContentLengthName, length)], body);
  }

  /**
   * Those bytes are the serialisation of a response whose only header name
   * starts with the NUL, and their length is the size `write` reports.
   */
  lemma TwoDigitWrittenBytes(protocol: string, code: nat, message: string, length: string)
    requires 10 <= code < 100
    ensures var h := [Header(ContentLengthName, length)];
            var written := StatusLine(protocol, code, message) + "\0" + Text(h);
            && written == Serialized(protocol, code, message, [Header("\0" + ContentLengthName, length)])
            && |written| == AsWrittenSize(protocol, message, h)
  {
    TextOfOne(ContentLengthName, length);
    TextOfOne("\0" + ContentLengthName, length);
    DecimalLengthBounds(code);
  }

  /**
   * Written bytes whose headers carry no Content-Length parse as complete
   * with no body, whatever follows them.
   */
  lemma ParseSerializedWithoutLength(protocol: string, code: nat, message: string, h: Headers, body: string)
    requires ' ' !in protocol && '\r' !in protocol && '\n' !in protocol
    requires code < UInt16Modulus
    requires '\r' !in message && '\n' !in message && '\0' !in message
    requires Distinct(h) && AllWireSafe(h)
    requires Value(h, ContentLengthName) == None
    ensures var written := Serialized(protocol, code, message, h);
            ParseSpec(written + body) == Complete(code, message, h, |written|, 0)
  {
    var written := Serialized(protocol, code, message, h);
    var data := written + body;
    WrittenBoundary(protocol, code, message, h, body);
    ParseWrittenHeaderBlock(protocol, code, message, h);
    ParseSpecComplete(data, |written|, Decimal(code), message, h);
    AtoiDecimal(code);
    SmallModulo(code, UInt16Modulus);
  }

  /** The header text of a single entry. */
  lemma TextOfOne(name: string, value: string)
    ensures Text([Header(name, value)]) == name + ": " + value + "\r\n\r\n"
  {
    var h := [Header(name, value)];
    var line := name + ": " + value;
    assert h[1..] == [];
    assert EntryLine(h[0]) == line;
    assert EntryLines(h) == [line];
    assert [line][1..] == [];
    assert CRLFLines([line]) == line + "\r\n";
  }

  /** A complete RTSP reply with a five-byte body, parsed. */
  lemma ParseCompleteReply()
    ensures ParseSpec("RTSP/1.0 200 OK\r\nContent-Length: 5\r\n\r\nHELLO") ==
            Complete(200, "OK", [Header("Content-Length", "5")], 38, 5)
  {
    var h := [Header("Content-Length", "5")];
    ReplyHeaders();
    ReplyWritten();
    var written := Serialized("RTSP/1.0", 200, "OK", h);
    assert written + "HELLO" == "RTSP/1.0 200 OK\r\nContent-Length: 5\r\n\r\nHELLO";
    ParseSerialized("RTSP/1.0", 200, "OK", h, "HELLO");
  }

  lemma ReplyHeaders()
    ensures var h := [Header("Content-Length", "5")];
            Distinct(h) && AllWireSafe(h) && Value(h, ContentLengthName) == ContentLengthHeader(5)
  {
    var e := Header("Content-Length", "5");
    assert WireSafe(e);
    assert Value([e], ContentLengthName) == Some("5") by {
      assert [e][0].name == ContentLengthName;
    }
    assert ContentLengthHeader(5) == Some("5") by {
      assert Decimal(5) == "5";
    }
  }

  lemma ReplyWritten()
    ensures Serialized("RTSP/1.0", 200, "OK", [Header("Content-Length", "5")]) ==
            "RTSP/1.0 200 OK\r\nContent-Length: 5\r\n\r\n"
  {
    ReplyStatusLine();
    ReplyText();
  }

  lemma ReplyStatusLine()
    ensures StatusLine("RTSP/1.0", 200, "OK") == "RTSP/1.0 200 OK\r\n"
  {
    assert Decimal(200) == "200";
  }

  lemma ReplyText()
    ensures Text([Header("Content-Length", "5")]) == "Content-Length: 5\r\n\r\n"
  {
    var h := [Header("Content-Length", "5")];
    var ls := EntryLines(h);
    assert h[1..] == [];
    assert EntryLines(h[1..]) == [];
    assert EntryLine(h[0]) == "Content-Length: 5";
    assert ls == ["Content-Length: 5"];
    assert ls[1..] == [];
  }

  // ---------------------------------------------------------------------------
  // The response object
  // ---------------------------------------------------------------------------

  class Response {
    var statusCode: nat
    var statusMessage: string
    var headers: Headers
    /** The owned body; the empty sequence stands for the NULL pointer. */
    var content: string
    var contentLength: nat
    var keepAlive: bool

    /** Status code in `uint16_t` range, status text a C string, header names distinct. */
    ghost predicate FieldsValid()
      reads this
    {
      && statusCode < UInt16Modulus
      && '\0' !in statusMessage
      && Distinct(headers)
    }

    /** In addition, the body and its Content-Length header agree. */
    ghost predicate Valid()
      reads this
    {
      && FieldsValid()
      && |content| == contentLength
      && Value(headers, ContentLengthName) == ContentLengthHeader(contentLength)
    }

    /** `web_response_create`: empty headers, no body, status 500 "Internal Server Error". */
    constructor ()
      ensures Valid()
      ensures statusCode == DefaultStatusCode && statusMessage == DefaultStatusMessage
      ensures headers == [] && content == [] && contentLength == 0 && !keepAlive
    {
      statusCode, statusMessage := 0, [];
      headers, content, contentLength, keepAlive := [], [], 0, false;
      new;
      SetStatus(DefaultStatusCode, DefaultStatusMessage);
    }

    /** `web_response_get_headers`. */
    function GetHeaders(): (h: Headers)
      reads this
      requires Valid()
      ensures Distinct(h)
      ensures Value(h, ContentLengthName) == ContentLengthHeader(contentLength)
    {
      headers
    }

    /** `web_response_set_status`: the caller must pass a code in 1..999 and a message. */
    method SetStatus(code: nat, message: string)
      requires 0 < code < 1000 && '\0' !in message
      requires Valid()
      modifies this
      ensures Valid()
      ensures statusCode == code && statusMessage == message
      ensures headers == old(headers) && content == old(content)
      ensures contentLength == old(contentLength) && keepAlive == old(keepAlive)
    {
      statusCode := code;
      statusMessage := message;
    }

    /** `web_response_get_status`. */
    function GetStatus(): (code: nat)
      reads this
      requires Valid()
      ensures code < UInt16Modulus
    {
      statusCode
    }

    /** `web_response_get_status_message`: a C string. */
    function GetStatusMessage(): (message: string)
      reads this
      requires Valid()
      ensures '\0' !in message
    {
      statusMessage
    }

    /**
     * `web_response_set_content`: with a buffer and a positive size the body
     * becomes a copy of the first `size` bytes and Content-Length their decimal
     * count; otherwise the body is dropped and Content-Length removed (not "0").
     */
    method SetContent(src: Option<string>, size: nat)
      requires FieldsValid()
      requires src.Some? ==> size <= |src.value|
      modifies this
      ensures Valid()
      ensures content == if src.Some? && size > 0 then src.value[..size] else []
      ensures contentLength == |content|
      ensures headers == SetValue(old(headers), ContentLengthName, ContentLengthHeader(contentLength))
      ensures statusCode == old(statusCode) && statusMessage == old(statusMessage) && keepAlive == old(keepAlive)
    {
      content := [];
      if src.Some? && size > 0 {
        content := src.value[..size];
        contentLength := size;
        headers := SetValue(headers, ContentLengthName, Some(Decimal(size)));
      } else {
        contentLength := 0;
        headers := SetValue(headers, ContentLengthName, None);
      }
    }

    /**
     * `web_response_get_content`: always returns the body length; given a
     * destination, copies the first min(size, length) body bytes into it.
     */
    method GetContent(dest: array?<char>, size: nat) returns (n: nat)
      requires Valid()
      requires dest != null ==> size <= dest.Length
      modifies dest
      ensures n == contentLength
      ensures dest != null ==> var k := Min(size, n);
                dest[..k] == content[..k] && dest[k..] == old(dest[k..])
    {
      if dest != null && content != [] {
        CopyInto(dest, 0, content[..Min(size, contentLength)]);
      }
      n := contentLength;
    }

    /** `web_response_set_keep_alive`: only the flag changes. */
    method SetKeepAlive(keepAlive: bool)
      modifies this
      ensures this.keepAlive == keepAlive
      ensures statusCode == old(statusCode) && statusMessage == old(statusMessage)
      ensures headers == old(headers) && content == old(content) && contentLength == old(contentLength)
    {
      this.keepAlive := keepAlive;
    }

    /** `web_response_get_keep_alive`: the flag last set, false for a fresh response. */
    function GetKeepAlive(): (keepAlive: bool)
      reads this
    {
      this.keepAlive
    }

    /**
     * `web_response_write`: returns the serialised size whether or not a
     * buffer is given; writes the status line only if it fits, and the header
     * block after it only if everything fits. The size counts the status line
     * as printed (see AsWrittenSize for the count the C code makes).
     */
    method Write(protocol: string, dest: array?<char>, size: nat) returns (n: nat)
      requires Valid() && '\0' !in protocol
      requires dest != null ==> size <= dest.Length
      modifies dest
      ensures n == |Serialized(protocol, statusCode, statusMessage, headers)|
      ensures var line := StatusLine(protocol, statusCode, statusMessage);
              dest != null ==>
                && (n <= size ==> dest[..n] == Serialized(protocol, statusCode, statusMessage, headers)
                                  && dest[n..] == old(dest[n..]))
                && (|line| <= size < n ==> dest[..|line|] == line && dest[|line|..] == old(dest[|line|..]))
                && (size < |line| ==> dest[..] == old(dest[..]))
    {
      var line := StatusLine(protocol, statusCode, statusMessage);
      n := FillInTwoParts(dest, size, line, Text(headers));
    }

    /**
     * `web_response_parse`: returns 0 and changes nothing while the message is
     * incomplete, -1 and changes nothing when the status line is malformed, and
     * otherwise commits status code, status text, the new header collection and
     * the body together and returns the bytes consumed (offset of the body in
     * `data` plus its declared length).
     */
    method Parse(data: string) returns (r: int)
      requires Valid()
      modifies this
      ensures Valid()
      ensures ParsedAs(data, ParseSpec(data), r)
    {
      var outcome := ReadMessage(data);
      r := Commit(data, outcome);
    }

    /**
     * The result and the new state of `web_response_parse` for a given outcome:
     * 0 or -1 with nothing changed, or every field committed from the outcome
     * with the body taken from `data` through SetContent.
     */
    twostate predicate ParsedAs(data: string, outcome: ParseOutcome, r: int)
      reads this
    {
      match outcome
      case Incomplete => r == 0 && unchanged(this)
      case Malformed => r == -1 && unchanged(this)
      case Complete(code, message, parsed, cs, len) =>
        && r == cs + len
        && cs + len <= |data|
        && statusCode == code && statusMessage == message
        && headers == SetValue(parsed, ContentLengthName, ContentLengthHeader(len))
        && content == data[cs..cs + len] && contentLength == len
        && keepAlive == old(keepAlive)
    }

    /**
     * The second half of `web_response_parse`: nothing changes unless the
     * outcome is complete; then status code, status text and headers are
     * replaced and the body is installed through SetContent.
     */
    method Commit(data: string, outcome: ParseOutcome) returns (r: int)
      requires Valid()
      requires outcome.Complete? ==> CommitReady(data, outcome)
      modifies this
      ensures Valid()
      ensures ParsedAs(data, outcome, r)
    {
      match outcome
      case Incomplete =>
        r := 0;
      case Malformed =>
        r := -1;
      case Complete(code, message, parsed, cs, len) =>
        statusCode := code;
        statusMessage := message;
        headers := parsed;
        SetContent(Some(data[cs..]), len);
        assert data[cs..][..len] == data[cs..cs + len];
        r := cs + len;
    }
  }

  function Min(a: nat, b: nat): (m: nat) { if a < b then a else b }
}
