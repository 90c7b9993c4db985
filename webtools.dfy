/**
 * Stand-ins for the two `web_tools_*` helpers the response parser calls. Their
 * C sources are not part of this model: each definition below is an assumption
 * about their behaviour. The parser's own contracts use only the contracts
 * stated here; the round-trip and incremental lemmas also use the definitions
 * (the first terminator is the boundary, every CRLF becomes LF).
 */
module WebTools {
  import opened Wrappers
  import opened LibC

  /** A blank-line terminator ("\r\n\r\n" or "\n\n") begins at index `i` of `s`. */
  predicate TerminatorAt(s: string, i: nat)
  {
    (i + 4 <= |s| && s[i..i + 4] == "\r\n\r\n") || (i + 2 <= |s| && s[i..i + 2] == "\n\n")
  }

  predicate HasTerminator(s: string)
  {
    exists i :: 0 <= i < |s| && TerminatorAt(s, i)
  }

  /**
   * `web_tools_get_content_start`: the offset just past the first blank-line
   * terminator, or None when the buffer holds none yet.
   */
  function ContentStart(data: string): (r: Option<nat>)
    ensures r.None? <==> !HasTerminator(data)
    ensures r.Some? ==> 2 <= r.value <= |data| && data[r.value - 1] == '\n'
  {
    ContentStartFrom(data, 0)
  }

  function ContentStartFrom(data: string, i: nat): (r: Option<nat>)
    ensures r.None? <==> forall j :: i <= j < |data| ==> !TerminatorAt(data, j)
    ensures r.Some? ==> i + 2 <= r.value <= |data| && data[r.value - 1] == '\n'
    decreases |data| - i
  {
    if i >= |data| then None
    else if i + 4 <= |data| && data[i..i + 4] == "\r\n\r\n" then
      assert TerminatorAt(data, i) && data[i + 3] == data[i..i + 4][3];
      Some(i + 4)
    else if i + 2 <= |data| && data[i..i + 2] == "\n\n" then
      assert TerminatorAt(data, i) && data[i + 1] == data[i..i + 2][1];
      Some(i + 2)
    else
      assert !TerminatorAt(data, i);
      ContentStartFrom(data, i + 1)
  }

  /**
   * Bytes arriving after a terminator do not move the boundary: the scan stops
   * at the first terminator, and appended bytes cannot complete an earlier one.
   */
  lemma {:induction false} ContentStartExtends(data: string, more: string)
    requires ContentStart(data).Some?
    ensures ContentStart(data + more) == ContentStart(data)
  {
    ContentStartFromExtends(data, more, 0);
  }

  lemma {:induction false} ContentStartFromExtends(data: string, more: string, i: nat)
    requires ContentStartFrom(data, i).Some?
    ensures ContentStartFrom(data + more, i) == ContentStartFrom(data, i)
    decreases |data| - i
  {
    var d := data + more;
    if i + 4 <= |data| && data[i..i + 4] == "\r\n\r\n" {
      assert d[i..i + 4] == data[i..i + 4];
    } else if i + 2 <= |data| && data[i..i + 2] == "\n\n" {
      assert d[i..i + 2] == data[i..i + 2];
      assert d[i] == '\n';
    } else {
      ContentStartFromExtends(data, more, i + 1);
      ExtendsNotTerminator(data, more, i);
    }
  }

  /**
   * A position the scan passes over in `data` is passed over in `data + more`
   * as well, when a terminator follows it in `data`.
   */
  lemma ExtendsNotTerminator(data: string, more: string, i: nat)
    requires i < |data| && !TerminatorAt(data, i) && ContentStartFrom(data, i + 1).Some?
    ensures !TerminatorAt(data + more, i)
  {
    var d := data + more;
    if i + 4 <= |data| {
      assert d[i..i + 4] == data[i..i + 4];
    } else {
      TerminatorAtEnd(data, i + 1);
      assert d[i + 2] == '\n';
    }
    assert d[i..i + 2] == data[i..i + 2];
  }

  /** Near the end of the buffer, the only terminator the scan can find is a final "\n\n". */
  lemma TerminatorAtEnd(data: string, j: nat)
    requires j + 2 >= |data| && ContentStartFrom(data, j).Some?
    ensures j + 2 == |data| && data[j] == '\n' && data[j + 1] == '\n'
  {
  }

  /**
   * `web_tools_convert_new_lines`: every "\r\n" becomes "\n"; the C function
   * does this in place and returns the new length, here the result's length.
   */
  function ConvertNewLines(s: string): (r: string)
    ensures |r| <= |s|
    ensures s != [] && s[|s| - 1] == '\n' ==> r != [] && r[|r| - 1] == '\n'
  {
    if s == [] then []
    else if |s| >= 2 && s[0] == '\r' && s[1] == '\n' then "\n" + ConvertNewLines(s[2..])
    else [s[0]] + ConvertNewLines(s[1..])
  }

  // ---------------------------------------------------------------------------
  // Blocks of lines, as a header block is written
  // ---------------------------------------------------------------------------

  /** A line as it travels between line breaks: non-empty, without CR or LF. */
  predicate PlainLine(l: string)
  {
    l != [] && '\r' !in l && '\n' !in l
  }

  /** The lines, each ended by "\r\n". */
  function CRLFLines(ls: seq<string>): (text: string)
  {
    if ls == [] then "" else ls[0] + "\r\n" + CRLFLines(ls[1..])
  }

  /** The lines, each ended by "\n". */
  function LFLines(ls: seq<string>): (text: string)
  {
    if ls == [] then "" else ls[0] + "\n" + LFLines(ls[1..])
  }

  /** No line break is followed directly by another one, except at the very end. */
  predicate NoBlankLine(s: string)
  {
    forall k :: 0 <= k < |s| - 1 && s[k] == '\n' ==> s[k + 1] != '\n' && s[k + 1] != '\r'
  }

  lemma {:induction false} CRLFLinesNoBlankLine(ls: seq<string>)
    requires forall i :: 0 <= i < |ls| ==> PlainLine(ls[i])
    ensures NoBlankLine(CRLFLines(ls))
    ensures ls != [] && ls[0] != [] ==> CRLFLines(ls)[0] == ls[0][0]
  {
    if ls != [] {
      var l, rest := ls[0], CRLFLines(ls[1..]);
      CRLFLinesNoBlankLine(ls[1..]);
      var s := l + "\r\n" + rest;
      forall k | 0 <= k < |s| - 1 && s[k] == '\n' ensures s[k + 1] != '\n' && s[k + 1] != '\r' {
        if k == |l| + 1 {
          assert ls[1..] != [];
          assert s[k + 1] == rest[0] == ls[1][0];
        } else if k > |l| + 1 {
          assert s[k] == rest[k - |l| - 2] && s[k + 1] == rest[k - |l| - 1];
        }
      }
    }
  }

  /** The scan reaches a "\r\n\r\n" at `t` when no terminator begins before it. */
  lemma {:induction false} ContentStartFromFirst(d: string, i: nat, t: nat)
    requires i <= t && t + 4 <= |d| && d[t..t + 4] == "\r\n\r\n"
    requires forall j :: i <= j < t ==> !TerminatorAt(d, j)
    ensures ContentStartFrom(d, i) == Some(t + 4)
    decreases t - i
  {
    if i < t {
      assert !TerminatorAt(d, i);
      ContentStartFromFirst(d, i + 1, t);
    }
  }

  /** A written header block: the boundary is just past the blank line that closes it. */
  lemma ContentStartOfLines(ls: seq<string>, body: string)
    requires ls != [] && forall i :: 0 <= i < |ls| ==> PlainLine(ls[i])
    ensures ContentStart(CRLFLines(ls) + "\r\n" + body) == Some(|CRLFLines(ls)| + 2)
  {
    var s := CRLFLines(ls);
    CRLFLinesEndsWithCRLF(ls);
    CRLFLinesNoBlankLine(ls);
    var d := s + ("\r\n" + body);
    assert d == s + "\r\n" + body;
    NoTerminatorBefore(s, "\r\n" + body);
    ContentStartFromFirst(d, 0, |s| - 2);
  }

  /**
   * A written block followed by a body: the boundary lies just past the block,
   * and the block converts to the same lines ended by "\n".
   */
  lemma BlockOfLines(ls: seq<string>, body: string)
    requires ls != [] && forall i :: 0 <= i < |ls| ==> PlainLine(ls[i])
    ensures ContentStart(CRLFLines(ls) + "\r\n" + body) == Some(|CRLFLines(ls) + "\r\n"|)
    ensures ConvertNewLines((CRLFLines(ls) + "\r\n" + body)[..|CRLFLines(ls) + "\r\n"|]) == LFLines(ls) + "\n"
  {
    ContentStartOfLines(ls, body);
    var block := CRLFLines(ls) + "\r\n";
    assert (block + body)[..|block|] == block;
    ConvertCRLFLines(ls);
  }

  /** In text ending "\r\n" without a blank line, no terminator begins before that line end. */
  lemma NoTerminatorBefore(s: string, rest: string)
    requires |s| >= 2 && s[|s| - 2..] == "\r\n" && NoBlankLine(s)
    requires |rest| >= 2 && rest[..2] == "\r\n"
    ensures (s + rest)[|s| - 2..|s| + 2] == "\r\n\r\n"
    ensures forall j :: 0 <= j < |s| - 2 ==> !TerminatorAt(s + rest, j)
  {
    var d := s + rest;
    var t := |s| - 2;
    assert d[t] == s[t] && d[t + 1] == s[t + 1] && d[t + 2] == rest[0] && d[t + 3] == rest[1];
    forall j | 0 <= j < t ensures !TerminatorAt(d, j) {
      NoLineBreakPair(s, rest, j);
    }
  }

  lemma NoLineBreakPair(s: string, rest: string, j: nat)
    requires j + 2 < |s| && NoBlankLine(s)
    ensures !TerminatorAt(s + rest, j)
  {
    var d := s + rest;
    assert d[j] == s[j] && d[j + 1] == s[j + 1] && d[j + 2] == s[j + 2];
  }

  lemma {:induction false} CRLFLinesEndsWithCRLF(ls: seq<string>)
    requires ls != []
    ensures |CRLFLines(ls)| >= 2 && CRLFLines(ls)[|CRLFLines(ls)| - 2..] == "\r\n"
  {
    if ls[1..] != [] {
      CRLFLinesEndsWithCRLF(ls[1..]);
    }
  }

  /** Text without CR passes the conversion unchanged. */
  lemma {:induction false} ConvertNewLinesPlain(l: string, tail: string)
    requires '\r' !in l
    ensures ConvertNewLines(l + tail) == l + ConvertNewLines(tail)
  {
    if l == [] {
      assert l + tail == tail;
    } else {
      var s := l + tail;
      assert s[0] == l[0] && s[1..] == l[1..] + tail;
      ConvertNewLinesHead(s);
      ConvertNewLinesPlain(l[1..], tail);
      assert l == [l[0]] + l[1..];
    }
  }

  /** A first character other than CR passes through. */
  lemma ConvertNewLinesHead(s: string)
    requires s != [] && s[0] != '\r'
    ensures ConvertNewLines(s) == [s[0]] + ConvertNewLines(s[1..])
  {
  }

  lemma ConvertCRLF(tail: string)
    ensures ConvertNewLines("\r\n" + tail) == "\n" + ConvertNewLines(tail)
  {
    assert ("\r\n" + tail)[2..] == tail;
  }

  /** Converting a written header block turns every "\r\n" line end into "\n". */
  lemma {:induction false} ConvertCRLFLines(ls: seq<string>)
    requires forall i :: 0 <= i < |ls| ==> PlainLine(ls[i])
    ensures ConvertNewLines(CRLFLines(ls) + "\r\n") == LFLines(ls) + "\n"
  {
    if ls == [] {
      assert ("\r\n")[2..] == [];
    } else {
      var tail := CRLFLines(ls[1..]) + "\r\n";
      LinesCons(ls);
      ConvertNewLinesPlain(ls[0], "\r\n" + tail);
      ConvertCRLF(tail);
      PlainTail(ls);
      ConvertCRLFLines(ls[1..]);
    }
  }

  lemma LinesCons(ls: seq<string>)
    requires ls != []
    ensures CRLFLines(ls) + "\r\n" == ls[0] + ("\r\n" + (CRLFLines(ls[1..]) + "\r\n"))
    ensures LFLines(ls) + "\n" == ls[0] + ("\n" + (LFLines(ls[1..]) + "\n"))
  {
    var crlf, lf := CRLFLines(ls[1..]), LFLines(ls[1..]);
    assert ls[0] + "\r\n" + crlf + "\r\n" == ls[0] + ("\r\n" + (crlf + "\r\n"));
    assert ls[0] + "\n" + lf + "\n" == ls[0] + ("\n" + (lf + "\n"));
  }

  lemma PlainTail(ls: seq<string>)
    requires ls != [] && forall i :: 0 <= i < |ls| ==> PlainLine(ls[i])
    ensures PlainLine(ls[0]) && forall i :: 0 <= i < |ls[1..]| ==> PlainLine(ls[1..][i])
  {
    forall i | 0 <= i < |ls[1..]| ensures PlainLine(ls[1..][i]) {
      assert ls[1..][i] == ls[i + 1];
    }
  }

  /** In a block of lines ended by "\n", the first '\n' ends the first line. */
  lemma FirstLineOfLines(ls: seq<string>)
    requires ls != [] && '\n' !in ls[0]
    ensures var header := LFLines(ls) + "\n";
            && IndexFrom(header, '\n', 0) == Some(|ls[0]|)
            && header[..|ls[0]|] == ls[0]
            && header[|ls[0]| + 1..] == LFLines(ls[1..]) + "\n"
  {
    var header := LFLines(ls) + "\n";
    LinesCons(ls);
    assert forall j :: 0 <= j < |ls[0]| ==> header[j] == ls[0][j];
    IndexFromFinds(header, '\n', 0, |ls[0]|);
  }
}
