/**
 * A stand-in for the header collection (`web_headers_*`), whose C source is not
 * part of this model. It is an ordered list of name/value entries; every
 * definition here is an assumption. The setters and the parser's own contracts
 * use only the contracts: lookup returns the value set last, setting None
 * removes the name, and the serialised form is a value whose length does not
 * depend on any buffer. The round-trip lemmas also use the definitions of the
 * written form (`Name: value` lines) and of the header parser.
 */
module WebHeaders {
  import opened Wrappers
  import opened LibC
  import opened WebTools

  datatype Header = Header(name: string, value: string)

  type Headers = seq<Header>

  /** No name occurs twice. */
  predicate Distinct(h: Headers)
  {
    forall i, j :: 0 <= i < j < |h| ==> h[i].name != h[j].name
  }

  /** `web_headers_value`: the value stored under `name`, or None (NULL). */
  function Value(h: Headers, name: string): (r: Option<string>)
    ensures r.None? <==> forall i :: 0 <= i < |h| ==> h[i].name != name
    ensures r.Some? ==> exists i :: 0 <= i < |h| && h[i] == Header(name, r.value)
  {
    if h == [] then None
    else if h[0].name == name then Some(h[0].value)
    else Value(h[1..], name)
  }

  /** The entries of `h` not named `name`, in their order. */
  function Remove(h: Headers, name: string): (r: Headers)
    ensures |r| <= |h|
    ensures forall i :: 0 <= i < |r| ==> r[i].name != name
  {
    if h == [] then []
    else if h[0].name == name then Remove(h[1..], name)
    else [h[0]] + Remove(h[1..], name)
  }

  lemma {:induction false} ValueOfRemove(h: Headers, name: string, other: string)
    ensures Value(Remove(h, name), other) == if other == name then None else Value(h, other)
  {
    if h != [] {
      ValueOfRemove(h[1..], name, other);
    }
  }

  lemma {:induction false} NamesOfRemove(h: Headers, name: string, x: Header)
    ensures x in Remove(h, name) <==> x in h && x.name != name
  {
    if h != [] {
      NamesOfRemove(h[1..], name, x);
    }
  }

  lemma {:induction false} ValueOfAppend(h: Headers, x: Header, other: string)
    requires forall i :: 0 <= i < |h| ==> h[i].name != x.name
    ensures Value(h + [x], other) == if other == x.name then Some(x.value) else Value(h, other)
  {
    if h != [] {
      assert (h + [x])[1..] == h[1..] + [x];
      ValueOfAppend(h[1..], x, other);
    }
  }

  /**
   * `web_headers_set_value`: a value replaces whatever `name` held; None (a NULL
   * format) removes `name` altogether. No other name is affected.
   */
  function SetValue(h: Headers, name: string, value: Option<string>): (r: Headers)
    ensures Value(r, name) == value
    ensures forall other :: other != name ==> Value(r, other) == Value(h, other)
    ensures Distinct(h) ==> Distinct(r)
  {
    var kept := Remove(h, name);
    var r := match value case None => kept case Some(v) => kept + [Header(name, v)];
    assert Distinct(h) ==> Distinct(kept) by {
      if Distinct(h) { DistinctRemove(h, name); }
    }
    assert forall other :: Value(r, other) == (if other == name then value else Value(h, other)) by {
      forall other ensures Value(r, other) == (if other == name then value else Value(h, other)) {
        ValueOfRemove(h, name, other);
        if value.Some? { ValueOfAppend(kept, Header(name, value.value), other); }
      }
    }
    r
  }

  lemma {:induction false} DistinctRemove(h: Headers, name: string)
    requires Distinct(h)
    ensures Distinct(Remove(h, name))
  {
    if h != [] {
      DistinctRemove(h[1..], name);
      var t := Remove(h[1..], name);
      if h[0].name != name {
        forall i | 0 <= i < |t| ensures t[i].name != h[0].name {
          NamesOfRemove(h[1..], name, t[i]);
        }
      }
    }
  }

  /** One serialised header line, without its line end. */
  function EntryLine(e: Header): (line: string)
  {
    e.name + ": " + e.value
  }

  function EntryLines(h: Headers): (lines: seq<string>)
  {
    if h == [] then [] else [EntryLine(h[0])] + EntryLines(h[1..])
  }

  /**
   * `web_headers_write`: the header lines, each ended by "\r\n", followed by
   * the blank line that ends the header block. Its length is the size
   * `web_headers_write(h, NULL, 0)` reports.
   */
  function Text(h: Headers): (r: string)
    ensures |r| >= 2 && r[|r| - 2..] == "\r\n"
  {
    CRLFLines(EntryLines(h)) + "\r\n"
  }

  function TrimLeadingSpaces(s: string): (r: string)
    ensures |r| <= |s| && r == s[|s| - |r|..]
    ensures r != [] ==> r[0] != ' '
  {
    if s != [] && s[0] == ' ' then
      var t := TrimLeadingSpaces(s[1..]);
      assert s[1..][|s| - 1 - |t|..] == s[|s| - |t|..];
      t
    else s
  }

  /** One "Name: value" line; a line without ':' is skipped. */
  function ParseLine(h: Headers, line: string): (r: Headers)
    ensures Distinct(h) ==> Distinct(r)
  {
    match IndexFrom(line, ':', 0)
    case None => h
    case Some(k) => SetValue(h, line[..k], Some(TrimLeadingSpaces(line[k + 1..])))
  }

  /** `web_headers_parse`: every '\n'-separated line of `text`, in order. */
  function Parse(h: Headers, text: string): (r: Headers)
    ensures Distinct(h) ==> Distinct(r)
    decreases |text|
  {
    match IndexFrom(text, '\n', 0)
    case None => ParseLine(h, text)
    case Some(k) => Parse(ParseLine(h, text[..k]), text[k + 1..])
  }

  // ---------------------------------------------------------------------------
  // Reading back what was written
  // ---------------------------------------------------------------------------

  /**
   * An entry that survives being written and parsed again: the name holds no
   * ':' and neither part a line break, and the value does not begin with a
   * space (the parser trims those).
   */
  predicate WireSafe(e: Header)
  {
    && ':' !in e.name && '\r' !in e.name && '\n' !in e.name
    && '\r' !in e.value && '\n' !in e.value
    && (e.value == [] || e.value[0] != ' ')
  }

  predicate AllWireSafe(h: Headers)
  {
    forall i :: 0 <= i < |h| ==> WireSafe(h[i])
  }

  /** Written entries are plain lines, one per entry. */
  lemma {:induction false} EntryLinesPlain(h: Headers)
    requires AllWireSafe(h)
    ensures |EntryLines(h)| == |h|
    ensures forall i :: 0 <= i < |h| ==> PlainLine(EntryLines(h)[i])
  {
    if h != [] {
      EntryLinesPlain(h[1..]);
      var l := EntryLine(h[0]);
      assert l[|h[0].name|] == ':';
      forall i | 0 <= i < |h| ensures PlainLine(EntryLines(h)[i]) {
        if i > 0 {
          assert EntryLines(h)[i] == EntryLines(h[1..])[i - 1];
        }
      }
    }
  }

  /** A written line is read back as the entry it came from. */
  lemma ParseEntryLine(acc: Headers, e: Header)
    requires WireSafe(e)
    ensures ParseLine(acc, EntryLine(e)) == SetValue(acc, e.name, Some(e.value))
  {
    var line := EntryLine(e);
    var k := |e.name|;
    assert line == e.name + (": " + e.value);
    ColonAfterName(e.name, ": " + e.value);
    assert line[k + 1..] == " " + e.value;
    TrimOneSpace(e.value);
  }

  lemma ColonAfterName(name: string, rest: string)
    requires ':' !in name && rest != [] && rest[0] == ':'
    ensures IndexFrom(name + rest, ':', 0) == Some(|name|)
    ensures (name + rest)[..|name|] == name
  {
    var line := name + rest;
    assert forall j :: 0 <= j < |name| ==> line[j] == name[j];
    IndexFromFinds(line, ':', 0, |name|);
  }

  lemma TrimOneSpace(v: string)
    requires v == [] || v[0] != ' '
    ensures TrimLeadingSpaces(" " + v) == v
  {
    assert (" " + v)[1..] == v;
  }

  /** Removing a name that is absent changes nothing. */
  lemma {:induction false} RemoveAbsent(h: Headers, name: string)
    requires forall i :: 0 <= i < |h| ==> h[i].name != name
    ensures Remove(h, name) == h
  {
    if h != [] {
      RemoveAbsent(h[1..], name);
    }
  }

  /**
   * Parsing written lines (after the line ends were converted to "\n") adds
   * their entries, in order, to the collection being built.
   */
  lemma {:induction false} ParseEntryLines(acc: Headers, h: Headers)
    requires Distinct(acc + h) && AllWireSafe(h)
    ensures Parse(acc, LFLines(EntryLines(h)) + "\n") == acc + h
    decreases |h|
  {
    if h == [] {
      ParseBlankLine(acc);
    } else {
      ParseEntryLinesStep(acc, h);
      ParseEntryLines(acc + [h[0]], h[1..]);
    }
  }

  /** One step of the induction: the first written line becomes the next entry. */
  lemma ParseEntryLinesStep(acc: Headers, h: Headers)
    requires h != [] && Distinct(acc + h) && AllWireSafe(h)
    ensures Parse(acc, LFLines(EntryLines(h)) + "\n") == Parse(acc + [h[0]], LFLines(EntryLines(h[1..])) + "\n")
    ensures Distinct(acc + [h[0]] + h[1..]) && AllWireSafe(h[1..])
    ensures acc + [h[0]] + h[1..] == acc + h
  {
    NewNameAppends(acc, h);
    assert WireSafe(h[0]);
    ParseAppendsLine(acc, h);
    WireSafeTail(h);
  }

  lemma WireSafeTail(h: Headers)
    requires h != [] && AllWireSafe(h)
    ensures AllWireSafe(h[1..])
  {
    forall i | 0 <= i < |h[1..]| ensures WireSafe(h[1..][i]) {
      assert h[1..][i] == h[i + 1];
    }
  }

  lemma ParseAppendsLine(acc: Headers, h: Headers)
    requires h != [] && WireSafe(h[0])
    requires SetValue(acc, h[0].name, Some(h[0].value)) == acc + [h[0]]
    ensures Parse(acc, LFLines(EntryLines(h)) + "\n") == Parse(acc + [h[0]], LFLines(EntryLines(h[1..])) + "\n")
  {
    EntryLinesCons(h);
    ParseWrittenLine(acc, h[0], LFLines(EntryLines(h[1..])) + "\n");
  }

  lemma ParseWrittenLine(acc: Headers, e: Header, tail: string)
    requires WireSafe(e)
    ensures Parse(acc, EntryLine(e) + "\n" + tail) == Parse(SetValue(acc, e.name, Some(e.value)), tail)
  {
    assert '\n' !in EntryLine(e);
    ParseFirstLine(acc, EntryLine(e), tail);
    ParseEntryLine(acc, e);
  }

  /** The blank line that closes the block adds nothing. */
  lemma ParseBlankLine(acc: Headers)
    ensures Parse(acc, LFLines(EntryLines([])) + "\n") == acc + []
  {
    assert acc + [] == acc;
    assert LFLines(EntryLines([])) + "\n" == "\n";
    assert IndexFrom("\n", '\n', 0) == Some(0);
    assert "\n"[1..] == "";
  }

  lemma EntryLinesCons(h: Headers)
    requires h != []
    ensures LFLines(EntryLines(h)) + "\n" == EntryLine(h[0]) + "\n" + (LFLines(EntryLines(h[1..])) + "\n")
  {
    var ls := EntryLines(h);
    assert ls[0] == EntryLine(h[0]) && ls[1..] == EntryLines(h[1..]);
  }

  /** Parsing takes the text up to the first '\n' as its first line. */
  lemma ParseFirstLine(acc: Headers, l: string, tail: string)
    requires '\n' !in l
    ensures Parse(acc, l + "\n" + tail) == Parse(ParseLine(acc, l), tail)
  {
    var text := l + "\n" + tail;
    assert forall j :: 0 <= j < |l| ==> text[j] == l[j];
    assert text[|l|] == '\n';
    IndexFromFinds(text, '\n', 0, |l|);
    assert text[..|l|] == l && text[|l| + 1..] == tail;
  }

  /** An entry whose name the collection lacks is appended by SetValue. */
  lemma NewNameAppends(acc: Headers, h: Headers)
    requires h != [] && Distinct(acc + h)
    ensures SetValue(acc, h[0].name, Some(h[0].value)) == acc + [h[0]]
    ensures Distinct(acc + [h[0]] + h[1..])
    ensures acc + [h[0]] + h[1..] == acc + h
  {
    forall i | 0 <= i < |acc| ensures acc[i].name != h[0].name {
      assert (acc + h)[i] == acc[i] && (acc + h)[|acc|] == h[0];
    }
    RemoveAbsent(acc, h[0].name);
    assert acc + [h[0]] + h[1..] == acc + h;
  }
}
