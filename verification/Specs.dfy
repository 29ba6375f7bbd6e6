/** Command specifications: cmd_make_descvec, cmd_desc_str, cmd_cmdsize and cmd_install_element. */
module Specs {
  import opened Options
  import opened CText
  import opened Vectors
  import opened Commands

  // ---------- Characters ----------

  predicate IsNewline(c: char) { c == '\r' || c == '\n' }

  predicate EndsToken(c: char) { IsSpace(c) || c == ')' || c == '|' }

  function DropSpaces(s: string): (r: string)
    ensures |r| <= |s| && r == s[|s| - |r|..]
    ensures r != "" ==> !IsSpace(r[0])
    ensures forall k :: 0 <= k < |s| - |r| ==> IsSpace(s[k])
  {
    if s != "" && IsSpace(s[0]) then DropSpaces(s[1..]) else s
  }

  predicate StartsWith(s: string, c: char) { s != "" && s[0] == c }

  function TokenLength(s: string): (n: nat)
    ensures n <= |s| && forall k :: 0 <= k < n ==> !EndsToken(s[k])
    ensures n < |s| ==> EndsToken(s[n])
  {
    if s == "" || EndsToken(s[0]) then 0 else 1 + TokenLength(s[1..])
  }

  // ---------- Descriptions ----------

  function LineLength(s: string): (n: nat)
    ensures n <= |s| && forall k :: 0 <= k < n ==> !IsNewline(s[k])
    ensures n < |s| ==> IsNewline(s[n])
  {
    if s == "" || IsNewline(s[0]) then 0 else 1 + LineLength(s[1..])
  }

  /** cmd_desc_str: the next description, or NULL, and what is left of the text. */
  function NextDoc(docs: string): (Option<string>, string) {
    var rest := DropSpaces(docs);
    if rest == "" then (None, docs) else (Some(rest[..LineLength(rest)]), rest[LineLength(rest)..])
  }

  /** The non-blank lines of a text, without their leading blanks. */
  function DocLines(docs: string): seq<string>
    decreases |docs|
  {
    if docs == "" then []
    else
      var n := LineLength(docs);
      var line := DropSpaces(docs[..n]);
      (if line == "" then [] else [line]) + (if n < |docs| then DocLines(docs[n + 1..]) else [])
  }

  lemma DropSpacesIs(s: string, n: nat)
    requires n <= |s| && (forall k :: 0 <= k < n ==> IsSpace(s[k])) && (n < |s| ==> !IsSpace(s[n]))
    ensures DropSpaces(s) == s[n..]
  {
    hide IsSpace, DropSpaces;
    var r := DropSpaces(s);
    var m := |s| - |r|;
    assert m < |s| ==> r[0] == s[m];
  }

  lemma LineLengthIs(s: string, n: nat)
    requires n <= |s| && (forall k :: 0 <= k < n ==> !IsNewline(s[k])) && (n < |s| ==> IsNewline(s[n]))
    ensures LineLength(s) == n
  {
    hide IsNewline, LineLength;
  }

  method CmdDescStr(docs: string, dp: nat) returns (token: Option<string>, next: nat)
    requires dp <= |docs|
    ensures next <= |docs| && (token, docs[next..]) == NextDoc(docs[dp..])
  {
    hide NextDoc, IsSpace, IsNewline;
    var cp := dp;
    while cp < |docs| && IsSpace(docs[cp])
      invariant dp <= cp <= |docs|
      invariant forall k :: dp <= k < cp ==> IsSpace(docs[k])
    {
      cp := cp + 1;
    }
    if cp == |docs| {
      NoMoreDocs(docs, dp);
      return None, dp;
    }
    var start := cp;
    while cp < |docs| && !IsNewline(docs[cp])
      invariant start <= cp <= |docs|
      invariant forall k :: start <= k < cp ==> !IsNewline(docs[k])
    {
      cp := cp + 1;
    }
    OneMoreDoc(docs, dp, start, cp);
    return Some(docs[start..cp]), cp;
  }

  lemma NoMoreDocs(docs: string, dp: nat)
    requires dp <= |docs| && forall k :: dp <= k < |docs| ==> IsSpace(docs[k])
    ensures NextDoc(docs[dp..]) == (None, docs[dp..])
  {
    hide DropSpaces, IsSpace;
    DropSpacesIs(docs[dp..], |docs| - dp);
  }

  lemma OneMoreDoc(docs: string, dp: nat, start: nat, end: nat)
    requires dp <= start < |docs| && start <= end <= |docs|
    requires (forall k :: dp <= k < start ==> IsSpace(docs[k])) && !IsSpace(docs[start])
    requires (forall k :: start <= k < end ==> !IsNewline(docs[k])) && (end < |docs| ==> IsNewline(docs[end]))
    ensures NextDoc(docs[dp..]) == (Some(docs[start..end]), docs[end..])
  {
    DropSpacesAt(docs, dp, start);
    LineLengthAt(docs, start, end);
    NextDocFrom(docs, dp, start, end);
  }

  lemma NextDocFrom(docs: string, dp: nat, start: nat, end: nat)
    requires dp <= start < |docs| && start <= end <= |docs|
    requires DropSpaces(docs[dp..]) == docs[start..] && LineLength(docs[start..]) == end - start
    ensures NextDoc(docs[dp..]) == (Some(docs[start..end]), docs[end..])
  {
    hide DropSpaces, LineLength;
    assert docs[start..][..end - start] == docs[start..end] && docs[start..][end - start..] == docs[end..];
  }

  lemma DropSpacesAt(docs: string, dp: nat, start: nat)
    requires dp <= start < |docs|
    requires (forall k :: dp <= k < start ==> IsSpace(docs[k])) && !IsSpace(docs[start])
    ensures DropSpaces(docs[dp..]) == docs[start..]
  {
    hide DropSpaces, IsSpace;
    DropSpacesIs(docs[dp..], start - dp);
    assert docs[dp..][start - dp..] == docs[start..];
  }

  lemma LineLengthAt(docs: string, start: nat, end: nat)
    requires start <= end <= |docs|
    requires (forall k :: start <= k < end ==> !IsNewline(docs[k])) && (end < |docs| ==> IsNewline(docs[end]))
    ensures LineLength(docs[start..]) == end - start
  {
    hide LineLength, IsNewline;
    LineLengthIs(docs[start..], end - start);
  }

  /** Taking descriptions one by one takes the non-blank lines in order. */
  lemma {:induction false} NextDocIsFirstLine(docs: string)
    ensures var (line, rest) := NextDoc(docs);
      if DocLines(docs) == [] then line == None && DocLines(rest) == []
      else line == Some(DocLines(docs)[0]) && DocLines(rest) == DocLines(docs)[1..]
    decreases |docs|
  {
    hide DropSpaces, LineLength, NextDoc, DocLines;
    EmptyDoc();
    if docs != "" {
      var n := LineLength(docs);
      var line := DropSpaces(docs[..n]);
      DocLinesStep(docs);
      if line == "" {
        BlankLine(docs, n);
        if n < |docs| { NextDocIsFirstLine(docs[n + 1..]); }
      } else {
        TextLine(docs, n);
      }
    }
  }

  lemma DocLinesStep(docs: string)
    requires docs != ""
    ensures var n := LineLength(docs);
      var line := DropSpaces(docs[..n]);
      var rest := if n < |docs| then DocLines(docs[n + 1..]) else [];
      if line == "" then DocLines(docs) == rest
      else DocLines(docs) != [] && DocLines(docs)[0] == line && DocLines(docs)[1..] == rest
  {
    hide DropSpaces, LineLength;
    var n := LineLength(docs);
    var rest := if n < |docs| then DocLines(docs[n + 1..]) else [];
    assert [] + rest == rest;
  }

  lemma EmptyDoc()
    ensures NextDoc("") == (None, "") && DocLines("") == []
  {}

  /** A blank line is skipped together with its end. */
  lemma BlankLine(docs: string, n: nat)
    requires docs != "" && n == LineLength(docs) && DropSpaces(docs[..n]) == ""
    ensures n == |docs| ==> NextDoc(docs) == (None, docs)
    ensures n < |docs| ==> NextDoc(docs).0 == NextDoc(docs[n + 1..]).0
    ensures n < |docs| && NextDoc(docs).0.Some? ==> NextDoc(docs).1 == NextDoc(docs[n + 1..]).1
    ensures n < |docs| && NextDoc(docs).0.None? ==> NextDoc(docs).1 == docs && DropSpaces(docs[n + 1..]) == ""
  {
    hide LineLength, DropSpaces, IsSpace, IsNewline;
    forall k | 0 <= k < n ensures IsSpace(docs[k]) { assert docs[k] == docs[..n][k]; }
    if n == |docs| {
      DropSpacesIs(docs, n);
    } else {
      NewlineIsSpace(docs[n]);
      DropAcross(docs, n + 1);
    }
  }

  /** A description ends at a line feed or a carriage return. */
  lemma NewlineExactly(c: char)
    ensures IsNewline(c) <==> c as int == 10 || c as int == 13
  {}

  lemma NewlineIsSpace(c: char)
    requires IsNewline(c)
    ensures IsSpace(c)
  {}

  lemma {:induction false} DropAcross(s: string, n: nat)
    requires n <= |s| && forall k :: 0 <= k < n ==> IsSpace(s[k])
    ensures DropSpaces(s) == DropSpaces(s[n..])
    decreases n
  {
    hide IsSpace, DropSpaces;
    if n == 0 {
      assert s[0..] == s;
    } else {
      DropOne(s);
      DropAcross(s[1..], n - 1);
      assert s[1..][n - 1..] == s[n..];
    }
  }

  lemma DropOne(s: string)
    requires s != "" && IsSpace(s[0])
    ensures DropSpaces(s) == DropSpaces(s[1..])
  {
    hide IsSpace;
  }

  /** A line with text is returned without its leading blanks, and what is left starts at its end. */
  lemma TextLine(docs: string, n: nat)
    requires docs != "" && n == LineLength(docs) && DropSpaces(docs[..n]) != ""
    ensures NextDoc(docs) == (Some(DropSpaces(docs[..n])), docs[n..])
    ensures DocLines(docs[n..]) == if n < |docs| then DocLines(docs[n + 1..]) else []
  {
    hide DropSpaces, LineLength, IsSpace, IsNewline, NextDoc, DocLines;
    var line := DropSpaces(docs[..n]);
    var skip := n - |line|;
    assert line == docs[..n][skip..] == docs[skip..n];
    assert forall k :: 0 <= k < skip ==> docs[..n][k] == docs[k];
    assert docs[skip] == line[0];
    assert docs[0..] == docs;
    OneMoreDoc(docs, 0, skip, n);
    if n < |docs| {
      NewlineFirst(docs, n);
    } else {
      assert docs[n..] == "" && DocLines("") == [] by { EmptyDoc(); }
    }
  }

  lemma NewlineFirst(docs: string, n: nat)
    requires n < |docs| && IsNewline(docs[n])
    ensures DocLines(docs[n..]) == DocLines(docs[n + 1..])
  {
    var tail := docs[n..];
    assert LineLength(tail) == 0;
    assert tail[..0] == "" && tail[1..] == docs[n + 1..];
    assert DropSpaces("") == "";
  }

  // ---------- The parser ----------

  /** `ParseError` is the message and exit(1) for a '|' outside parentheses. */
  datatype Parse = Parsed(slots: seq<Slot>) | ParseError

  /** What precedes a token: an error, or the text from the token on and the group counter. */
  datatype Prelude = Misplaced | AtToken(rest: string, multiple: nat)

  function Opening(s: string, multiple: nat): (string, nat) {
    if StartsWith(s, '(') then (s[1..], 1) else (s, multiple)
  }

  function Closing(s: string, multiple: nat): (string, nat) {
    if StartsWith(s, ')') then (s[1..], 0) else (s, multiple)
  }

  /** From the test for '|' on. */
  function Separate(s: string, multiple: nat): (p: Prelude)
    ensures p.AtToken? ==> |p.rest| <= |s|
    ensures p.AtToken? && (StartsWith(s, '|') || (s != "" && IsSpace(s[0]))) ==> |p.rest| < |s|
  {
    if StartsWith(s, '|') && multiple == 0 then Misplaced
    else
      var rest := DropSpaces(if StartsWith(s, '|') then s[1..] else s);
      AtToken(Opening(rest, multiple).0, Opening(rest, multiple).1)
  }

  function Prepare(s: string, multiple: nat): (p: Prelude)
    ensures p.AtToken? ==> |p.rest| <= |s|
    ensures p.AtToken? && p.rest != "" && EndsToken(p.rest[0]) ==> |p.rest| < |s|
  {
    var inside := Opening(DropSpaces(s), multiple);
    var outside := Closing(inside.0, inside.1);
    Separate(outside.0, outside.1)
  }

  /** Inside parentheses all words but the first join the last group. */
  function AddWord(slots: seq<Slot>, multiple: nat, d: Desc): seq<Slot> {
    if multiple > 1 && slots != [] then slots[..|slots| - 1] + [slots[|slots| - 1] + [d]] else slots + [[d]]
  }

  /** The rest of the parse. Every round consumes input, so parsing ends on every text. */
  function ParseFrom(s: string, multiple: nat, docs: string, slots: seq<Slot>): Parse
    decreases |s|
  {
    hide Prepare, EndsToken, AddWord, NextDoc;
    match Prepare(s, multiple)
    case Misplaced => ParseError
    case AtToken(rest, m) =>
      if rest == "" then Parsed(slots)
      else
        var n := TokenLength(rest);
        var (doc, left) := NextDoc(docs);
        ParseFrom(rest[n..], if m > 0 then m + 1 else 0, left, AddWord(slots, m, Desc(rest[..n], doc)))
  }

  /** The slots cmd_make_descvec makes of a specification and its descriptions. */
  function MakeDescvec(spec: string, docs: string): Parse {
    ParseFrom(spec, 0, docs, [])
  }

  method SkipSpaces(s: string, start: nat) returns (cp: nat)
    requires start <= |s|
    ensures start <= cp <= |s| && s[cp..] == DropSpaces(s[start..])
  {
    hide DropSpaces, IsSpace;
    cp := start;
    while cp < |s| && IsSpace(s[cp])
      invariant start <= cp <= |s|
      invariant forall k :: start <= k < cp ==> IsSpace(s[k])
    {
      cp := cp + 1;
    }
    DropSpacesIs(s[start..], cp - start);
    assert s[start..][cp - start..] == s[cp..];
  }

  /** `if (*cp == c) cp++`, with the answer whether it was. */
  method SkipChar(s: string, cp: nat, c: char) returns (skipped: bool, next: nat)
    requires cp <= |s|
    ensures cp <= next <= |s| && skipped == StartsWith(s[cp..], c)
    ensures s[next..] == if skipped then s[cp..][1..] else s[cp..]
  {
    if cp < |s| && s[cp] == c { return true, cp + 1; }
    return false, cp;
  }

  method SkipToToken(s: string, start: nat, multiple: nat) returns (misplaced: bool, cp: nat, m: nat)
    requires start <= |s|
    ensures cp <= |s|
    ensures Prepare(s[start..], multiple) == if misplaced then Misplaced else AtToken(s[cp..], m)
  {
    hide DropSpaces, StartsWith;
    misplaced, m := false, multiple;
    var skipped;
    cp := SkipSpaces(s, start);
    skipped, cp := SkipChar(s, cp, '(');
    if skipped { m := 1; }
    skipped, cp := SkipChar(s, cp, ')');
    if skipped { m := 0; }
    skipped, cp := SkipChar(s, cp, '|');
    if skipped && m == 0 { return true, cp, m; }
    cp := SkipSpaces(s, cp);
    skipped, cp := SkipChar(s, cp, '(');
    if skipped { m := 1; }
  }

  lemma TokenLengthIs(s: string, n: nat)
    requires n <= |s| && (forall k :: 0 <= k < n ==> !EndsToken(s[k])) && (n < |s| ==> EndsToken(s[n]))
    ensures TokenLength(s) == n
  {
    hide EndsToken, TokenLength;
  }

  method CmdMakeDescvec(spec: string, descstr: string) returns (r: Parse)
    ensures r == MakeDescvec(spec, descstr)
  {
    hide Prepare, NextDoc, AddWord, EndsToken;
    var cp: nat, dp: nat, multiple: nat := 0, 0, 0;
    var allvec: seq<Slot> := [];
    assert spec[0..] == spec && descstr[0..] == descstr;
    while true
      invariant cp <= |spec| && dp <= |descstr|
      invariant MakeDescvec(spec, descstr) == ParseFrom(spec[cp..], multiple, descstr[dp..], allvec)
      decreases |spec| - cp
    {
      ghost var start, from := cp, dp;
      var misplaced, at, m := SkipToToken(spec, cp, multiple);
      if misplaced { return ParseError; }
      if at == |spec| { return Parsed(allvec); }
      cp := at;
      while cp < |spec| && !EndsToken(spec[cp])
        invariant at <= cp <= |spec|
        invariant forall k :: at <= k < cp ==> !EndsToken(spec[k])
      {
        cp := cp + 1;
      }
      var doc;
      doc, dp := CmdDescStr(descstr, dp);
      var desc := Desc(spec[at..cp], doc);
      ParseStep(spec, start, multiple, descstr[from..], allvec, at, m, cp);
      allvec := AddToDescvec(allvec, m, desc);
      multiple := if m > 0 then m + 1 else 0;
    }
  }

  method AddToDescvec(allvec: seq<Slot>, multiple: nat, desc: Desc) returns (r: seq<Slot>)
    ensures r == AddWord(allvec, multiple, desc)
  {
    if multiple <= 1 || allvec == [] { return allvec + [[desc]]; }
    return allvec[|allvec| - 1 := allvec[|allvec| - 1] + [desc]];
  }

  lemma ParseStep(spec: string, cp: nat, multiple: nat, docs: string, slots: seq<Slot>, at: nat, m: nat, end: nat)
    requires cp <= |spec| && at < |spec| && at <= end <= |spec|
    requires Prepare(spec[cp..], multiple) == AtToken(spec[at..], m)
    requires (forall k :: at <= k < end ==> !EndsToken(spec[k])) && (end < |spec| ==> EndsToken(spec[end]))
    ensures end > cp
    ensures var (doc, left) := NextDoc(docs);
      ParseFrom(spec[cp..], multiple, docs, slots)
      == ParseFrom(spec[end..], if m > 0 then m + 1 else 0, left, AddWord(slots, m, Desc(spec[at..end], doc)))
  {
    hide Prepare, NextDoc, AddWord, EndsToken, TokenLength;
    var rest := spec[at..];
    assert forall k :: 0 <= k < |rest| ==> rest[k] == spec[at + k];
    TokenLengthIs(rest, end - at);
    assert rest[..end - at] == spec[at..end] && rest[end - at..] == spec[end..];
    assert |spec[at..]| <= |spec[cp..]|;
    if end == at { assert EndsToken(rest[0]); }
  }

  // ---------- Installing ----------

  /** cmd_cmdsize */
  method CmdCmdsize(strvec: seq<Slot>) returns (size: nat)
    ensures size == CmdSize(strvec)
  {
    hide IsOption;
    size := 0;
    for i := 0 to |strvec|
      invariant size == i && CmdSize(strvec) == i + CmdSize(strvec[i..])
    {
      var descvec := strvec[i];
      assert strvec[i..][1..] == strvec[i + 1..] && strvec[i..][0] == descvec;
      if |descvec| == 1 {
        if IsOption(descvec[0].cmd) { return; }
        size := size + 1;
      } else {
        size := size + 1;
      }
    }
  }

  /** cmd_install_element on a node: the parsed command takes the first free slot. A misplaced
      '|' ends the program instead. */
  method InstallElement(node: Vector<Element>, text: string, doc: string, daemon: bool, func: nat) returns (installed: bool)
    requires node.Valid() && node.max < INDEX_LIMIT && Installed(node.Slots())
    modifies node, node.index
    ensures node.Valid() && Installed(node.Slots())
    ensures installed == MakeDescvec(text, doc).Parsed?
    ensures installed ==>
      var slots := MakeDescvec(text, doc).slots;
      node.Slots() == Stored(old(node.Slots()), FirstEmpty(old(node.Slots())),
                             Some(Element(text, slots, CmdSize(slots), daemon, func)))
    ensures !installed ==> node.Slots() == old(node.Slots())
  {
    hide MakeDescvec, CmdSize, FirstEmpty;
    var parsed := CmdMakeDescvec(text, doc);
    if parsed.ParseError? { return false; }
    var size := CmdCmdsize(parsed.slots);
    ghost var before := node.Slots();
    var i := node.Set(Some(Element(text, parsed.slots, size, daemon, func)));
    assert forall k :: 0 <= k < |node.Slots()| && k != i ==> node.Slots()[k] == if k < |before| then before[k] else None;
    return true;
  }
}
