/** The specification parser undoes the printer, and hands out descriptions in order. */
module SpecRoundTrip {
  import opened Options
  import opened CText
  import opened Commands
  import opened Specs

  // ---------- Printing ----------

  /** A word the notation can express. */
  predicate GoodWord(w: string) {
    w != "" && w[0] != '(' && forall k :: 0 <= k < |w| ==> !EndsToken(w[k])
  }

  predicate GoodWords(ws: seq<string>) {
    forall k :: 0 <= k < |ws| ==> GoodWord(ws[k])
  }

  predicate GoodGroups(gs: seq<seq<string>>) {
    forall k :: 0 <= k < |gs| ==> gs[k] != [] && GoodWords(gs[k])
  }

  /** "|b|c)": the alternatives after the first and the closing parenthesis. */
  function MoreAlternatives(ws: seq<string>): string {
    if ws == [] then ")" else "|" + (ws[0] + MoreAlternatives(ws[1..]))
  }

  /** "w" for one word and "(a|b|c)" for several. */
  function PrintGroup(g: seq<string>): string
    requires g != []
  {
    if |g| == 1 then g[0] else "(" + (g[0] + MoreAlternatives(g[1..]))
  }

  /** Each group after a blank. */
  function PrintMore(gs: seq<seq<string>>): string
    requires GoodGroups(gs)
  {
    if gs == [] then "" else " " + (PrintGroup(gs[0]) + PrintMore(gs[1..]))
  }

  /** The groups separated by single blanks. */
  function Print(gs: seq<seq<string>>): string
    requires GoodGroups(gs)
  {
    if gs == [] then "" else PrintGroup(gs[0]) + PrintMore(gs[1..])
  }

  // ---------- What the parser should make of it ----------

  function DocsLeft(docs: string, n: nat): string
    decreases n
  {
    if n == 0 then docs else DocsLeft(NextDoc(docs).1, n - 1)
  }

  function Labelled(ws: seq<string>, docs: string): (r: Slot)
    ensures |r| == |ws| && forall k :: 0 <= k < |ws| ==> r[k].cmd == ws[k]
  {
    hide NextDoc;
    if ws == [] then [] else [Desc(ws[0], NextDoc(docs).0)] + Labelled(ws[1..], NextDoc(docs).1)
  }

  function LabelledGroups(gs: seq<seq<string>>, docs: string): (r: seq<Slot>)
    ensures |r| == |gs|
    ensures forall i :: 0 <= i < |gs| ==> |r[i]| == |gs[i]| && forall k :: 0 <= k < |gs[i]| ==> r[i][k].cmd == gs[i][k]
  {
    if gs == [] then [] else [Labelled(gs[0], docs)] + LabelledGroups(gs[1..], DocsLeft(docs, |gs[0]|))
  }

  // ---------- One word ----------

  predicate TokenEndsAt(tail: string) {
    tail == "" || EndsToken(tail[0])
  }

  lemma WordToken(w: string, tail: string)
    requires GoodWord(w) && TokenEndsAt(tail)
    ensures var s := w + tail;
      && s != "" && s[0] == w[0] && WordStart(s)
      && TokenLength(s) == |w| && s[..|w|] == w && s[|w|..] == tail
  {
    assert !EndsToken(w[0]);
    TokenLengthIs(w + tail, |w|);
  }

  lemma NoBlanks(s: string)
    requires s == "" || !IsSpace(s[0])
    ensures DropSpaces(s) == s
  {}

  /** A word is taken as it stands, whatever the counter. */
  lemma ParseWord(w: string, tail: string, multiple: nat, docs: string, slots: seq<Slot>)
    requires GoodWord(w) && TokenEndsAt(tail)
    ensures ParseFrom(w + tail, multiple, docs, slots)
      == ParseFrom(tail, if multiple > 0 then multiple + 1 else 0, NextDoc(docs).1,
                   AddWord(slots, multiple, Desc(w, NextDoc(docs).0)))
  {
    hide NextDoc, AddWord, TokenLength;
    WordToken(w, tail);
    PlainWord(w + tail, multiple);
    hide Prepare;
  }

  predicate WordStart(s: string) {
    s != "" && !IsSpace(s[0]) && s[0] != '(' && s[0] != ')' && s[0] != '|'
  }

  /** A text that starts with the one character `c`. */
  lemma FirstChar(c: char, s: string)
    ensures ([c] + s)[1..] == s
    ensures StartsWith([c] + s, '(') <==> c == '('
    ensures StartsWith([c] + s, ')') <==> c == ')'
    ensures StartsWith([c] + s, '|') <==> c == '|'
    ensures !IsSpace(c) ==> DropSpaces([c] + s) == [c] + s
    ensures c == ' ' && (s == "" || !IsSpace(s[0])) ==> DropSpaces([c] + s) == s
  {
    hide DropSpaces;
    if !IsSpace(c) { DropSpacesIs([c] + s, 0); }
    if c == ' ' && (s == "" || !IsSpace(s[0])) { DropSpacesIs([c] + s, 1); }
  }

  lemma PlainWord(s: string, multiple: nat)
    requires WordStart(s)
    ensures DropSpaces(s) == s && Opening(s, multiple) == (s, multiple) && Closing(s, multiple) == (s, multiple)
    ensures Separate(s, multiple) == Prepare(s, multiple) == AtToken(s, multiple)
  {
    hide DropSpaces;
    NoBlanks(s);
  }

  lemma PrepareParen(s: string, multiple: nat)
    requires WordStart(s)
    ensures Opening(['('] + s, multiple) == (s, 1) && !IsSpace((['('] + s)[0])
    ensures Prepare(['('] + s, multiple) == AtToken(s, 1)
  {
    hide DropSpaces, StartsWith, WordStart, Separate, Closing;
    PlainWord(s, 1);
    FirstChar('(', s);
  }

  lemma PrepareBar(s: string, multiple: nat)
    requires WordStart(s) && multiple > 0
    ensures Prepare(['|'] + s, multiple) == AtToken(s, multiple)
  {
    hide DropSpaces, StartsWith, WordStart, Opening, Closing, Separate;
    PlainWord(s, multiple);
    FirstChar('|', s);
    BarSeparates(s, multiple);
  }

  lemma BarSeparates(s: string, multiple: nat)
    requires WordStart(s) && multiple > 0
    ensures Opening(['|'] + s, multiple) == (['|'] + s, multiple)
    ensures Closing(['|'] + s, multiple) == (['|'] + s, multiple)
    ensures Separate(['|'] + s, multiple) == AtToken(s, multiple)
  {
    hide DropSpaces, StartsWith, WordStart;
    PlainWord(s, multiple);
    FirstChar('|', s);
  }

  lemma PrepareBlank(s: string, multiple: nat)
    requires s != "" && !IsSpace(s[0])
    ensures Prepare([' '] + s, multiple) == Prepare(s, multiple)
  {
    hide Opening, Closing, Separate, DropSpaces;
    FirstChar(' ', s);
    NoBlanks(s);
  }

  lemma SeparateBlank(s: string)
    requires s != "" && !IsSpace(s[0])
    ensures Separate([' '] + s, 0) == AtToken(Opening(s, 0).0, Opening(s, 0).1)
  {
    hide DropSpaces, StartsWith, IsSpace, Opening;
    FirstChar(' ', s);
  }

  /** A closing parenthesis, a blank and what follows it. */
  lemma PrepareClosing(s: string, multiple: nat)
    requires s != "" && !IsSpace(s[0])
    ensures Prepare([')'] + ([' '] + s), multiple) == AtToken(Opening(s, 0).0, Opening(s, 0).1)
  {
    SeparateBlank(s);
    hide DropSpaces, StartsWith, IsSpace, Separate;
    var b := [' '] + s;
    FirstChar(')', b);
    assert Opening([')'] + b, multiple) == ([')'] + b, multiple);
    assert Closing([')'] + b, multiple) == (b, 0);
    hide Opening, Closing;
  }

  lemma SamePrepare(s: string, m: nat, t: string, n: nat, docs: string, slots: seq<Slot>)
    requires Prepare(s, m) == Prepare(t, n)
    ensures ParseFrom(s, m, docs, slots) == ParseFrom(t, n, docs, slots)
  {
    hide Prepare, NextDoc, AddWord, TokenLength;
  }

  /** After a separator a word parses as if the separator were not there. */
  lemma ParseAlternative(w: string, tail: string, multiple: nat, docs: string, slots: seq<Slot>)
    requires GoodWord(w) && TokenEndsAt(tail)
    ensures ParseFrom("(" + (w + tail), multiple, docs, slots) == ParseFrom(w + tail, 1, docs, slots)
    ensures multiple > 0 ==> ParseFrom("|" + (w + tail), multiple, docs, slots) == ParseFrom(w + tail, multiple, docs, slots)
    ensures ParseFrom(" " + (w + tail), multiple, docs, slots) == ParseFrom(w + tail, multiple, docs, slots)
    ensures ParseFrom(" " + ("(" + (w + tail)), multiple, docs, slots) == ParseFrom(w + tail, 1, docs, slots)
    ensures ParseFrom(")" + (" " + (w + tail)), multiple, docs, slots) == ParseFrom(w + tail, 0, docs, slots)
    ensures ParseFrom(")" + (" " + ("(" + (w + tail))), multiple, docs, slots) == ParseFrom(w + tail, 1, docs, slots)
  {
    WordToken(w, tail);
    hide ParseFrom, Prepare, Opening;
    var s := w + tail;
    var p := ['('] + s;
    PlainWord(s, multiple);
    PlainWord(s, 1);
    PlainWord(s, 0);
    PrepareParen(s, multiple);
    PrepareParen(s, 0);
    PrepareBlank(s, multiple);
    PrepareBlank(p, multiple);
    PrepareClosing(s, multiple);
    PrepareClosing(p, multiple);
    hide WordStart, IsSpace;
    SamePrepare(p, multiple, s, 1, docs, slots);
    if multiple > 0 {
      PrepareBar(s, multiple);
      SamePrepare(['|'] + s, multiple, s, multiple, docs, slots);
    }
    SamePrepare([' '] + s, multiple, s, multiple, docs, slots);
    SamePrepare([' '] + p, multiple, s, 1, docs, slots);
    SamePrepare([')'] + ([' '] + s), multiple, s, 0, docs, slots);
    SamePrepare([')'] + ([' '] + p), multiple, s, 1, docs, slots);
  }

  // ---------- One group ----------

  lemma {:induction false} ParseMoreAlternatives(ws: seq<string>, tail: string, multiple: nat, docs: string, slots: seq<Slot>)
    requires GoodWords(ws) && multiple > 1 && slots != []
    ensures var n := |slots| - 1;
      ParseFrom(MoreAlternatives(ws) + tail, multiple, docs, slots)
      == ParseFrom(")" + tail, multiple + |ws|, DocsLeft(docs, |ws|), slots[..n] + [slots[n] + Labelled(ws, docs)])
    decreases |ws|
  {
    hide ParseFrom, NextDoc, AddWord, Labelled, MoreAlternatives, DocsLeft, GoodWord;
    var n := |slots| - 1;
    AlternativesStep(ws, tail, docs, slots, multiple);
    if ws != [] {
      var rest := MoreAlternatives(ws[1..]) + tail;
      MoreEndsToken(ws[1..], tail);
      ParseAlternative(ws[0], rest, multiple, docs, slots);
      ParseWord(ws[0], rest, multiple, docs, slots);
      var added := AddWord(slots, multiple, Desc(ws[0], NextDoc(docs).0));
      ParseMoreAlternatives(ws[1..], tail, multiple + 1, NextDoc(docs).1, added);
    }
  }

  lemma AlternativesStep(ws: seq<string>, tail: string, docs: string, slots: seq<Slot>, multiple: nat)
    requires slots != [] && multiple > 1
    ensures var n := |slots| - 1;
      if ws == [] then
        && MoreAlternatives(ws) + tail == ")" + tail && DocsLeft(docs, 0) == docs
        && slots[..n] + [slots[n] + Labelled(ws, docs)] == slots
      else
        var added := AddWord(slots, multiple, Desc(ws[0], NextDoc(docs).0));
        && MoreAlternatives(ws) + tail == "|" + (ws[0] + (MoreAlternatives(ws[1..]) + tail))
        && DocsLeft(docs, |ws|) == DocsLeft(NextDoc(docs).1, |ws[1..]|)
        && |added| == n + 1 && added[..n] == slots[..n]
        && added[n] + Labelled(ws[1..], NextDoc(docs).1) == slots[n] + Labelled(ws, docs)
  {
    hide NextDoc;
    var n := |slots| - 1;
    if ws == [] {
      assert slots[n] + [] == slots[n] && slots[..n] + [slots[n]] == slots;
    } else {
      JoinLast(slots, multiple, Desc(ws[0], NextDoc(docs).0), Labelled(ws[1..], NextDoc(docs).1));
      hide AddWord;
      assert ("|" + (ws[0] + MoreAlternatives(ws[1..]))) + tail == "|" + (ws[0] + (MoreAlternatives(ws[1..]) + tail));
    }
  }

  lemma JoinLast(slots: seq<Slot>, multiple: nat, d: Desc, rest: Slot)
    requires slots != [] && multiple > 1
    ensures var n := |slots| - 1;
      var added := AddWord(slots, multiple, d);
      && |added| == n + 1 && added[..n] == slots[..n] && added[n] + rest == slots[n] + ([d] + rest)
  {}

  lemma MoreEndsToken(ws: seq<string>, tail: string)
    ensures TokenEndsAt(MoreAlternatives(ws) + tail) && MoreAlternatives(ws) != ""
  {}

  /** A group, read from its first word: for several words, after the parenthesis. */
  lemma ParseGroup(g: seq<string>, tail: string, docs: string, slots: seq<Slot>)
    requires g != [] && GoodWords(g)
    requires |g| == 1 ==> TokenEndsAt(tail)
    ensures |g| == 1 ==>
      ParseFrom(g[0] + tail, 0, docs, slots) == ParseFrom(tail, 0, DocsLeft(docs, 1), slots + [Labelled(g, docs)])
    ensures |g| > 1 ==>
      ParseFrom(g[0] + (MoreAlternatives(g[1..]) + tail), 1, docs, slots)
      == ParseFrom(")" + tail, |g| + 1, DocsLeft(docs, |g|), slots + [Labelled(g, docs)])
  {
    hide ParseFrom, NextDoc, MoreAlternatives;
    var d := Desc(g[0], NextDoc(docs).0);
    if |g| == 1 {
      ParseWord(g[0], tail, 0, docs, slots);
      assert Labelled(g, docs) == [d];
    } else {
      var rest := MoreAlternatives(g[1..]) + tail;
      MoreEndsToken(g[1..], tail);
      ParseWord(g[0], rest, 1, docs, slots);
      var added := slots + [[d]];
      ParseMoreAlternatives(g[1..], tail, 2, NextDoc(docs).1, added);
      assert added[..|slots|] == slots && added[|slots|] == [d];
      assert [d] + Labelled(g[1..], NextDoc(docs).1) == Labelled(g, docs);
    }
  }

  // ---------- All groups ----------

  /** At the blank before the groups still to come, or at the closing parenthesis before it. */
  lemma {:induction false} ParseMore(gs: seq<seq<string>>, closing: bool, multiple: nat, docs: string, slots: seq<Slot>)
    requires GoodGroups(gs) && (!closing ==> multiple == 0)
    ensures ParseFrom((if closing then ")" else "") + PrintMore(gs), multiple, docs, slots)
      == Parsed(slots + LabelledGroups(gs, docs))
    decreases |gs|
  {
    hide ParseFrom, NextDoc, MoreAlternatives;
    if gs == [] {
      ParseEnd(multiple, docs, slots);
      assert slots + [] == slots;
      assert ")" + "" == ")" && "" + "" == "";
    } else {
      var g, more := gs[0], PrintMore(gs[1..]);
      var now := slots + [Labelled(g, docs)];
      assert now + LabelledGroups(gs[1..], DocsLeft(docs, |g|)) == slots + LabelledGroups(gs, docs);
      MoreStartsBlank(gs[1..]);
      ParseGroup(g, more, docs, slots);
      if |g| == 1 {
        ParseAlternative(g[0], more, multiple, docs, slots);
        ParseMore(gs[1..], false, 0, DocsLeft(docs, 1), now);
        assert "" + more == more;
        assert "" + (" " + (g[0] + more)) == " " + (g[0] + more);
      } else {
        var rest := MoreAlternatives(g[1..]) + more;
        MoreEndsToken(g[1..], more);
        ParseAlternative(g[0], rest, multiple, docs, slots);
        ParseMore(gs[1..], true, |g| + 1, DocsLeft(docs, |g|), now);
        assert PrintGroup(g) + more == "(" + (g[0] + rest);
        assert "" + (" " + ("(" + (g[0] + rest))) == " " + ("(" + (g[0] + rest));
      }
    }
  }

  lemma ParseEnd(multiple: nat, docs: string, slots: seq<Slot>)
    ensures ParseFrom("", multiple, docs, slots) == Parsed(slots)
    ensures ParseFrom(")", multiple, docs, slots) == Parsed(slots)
  {
    PrepareEnd("", multiple);
    PrepareEnd(")", multiple);
    hide Prepare;
  }

  lemma PrepareEnd(s: string, multiple: nat)
    requires s == "" || s == ")"
    ensures Prepare(s, multiple).AtToken? && Prepare(s, multiple).rest == ""
  {
    NoBlanks(s);
    NoBlanks("");
    assert s != "" ==> s[1..] == "";
    hide DropSpaces;
  }

  lemma MoreStartsBlank(gs: seq<seq<string>>)
    requires GoodGroups(gs)
    ensures TokenEndsAt(PrintMore(gs))
  {}

  /** Main result: parsing what was printed returns the same groups, word by word. */
  lemma ParseUndoesPrint(gs: seq<seq<string>>, docs: string)
    requires GoodGroups(gs)
    ensures MakeDescvec(Print(gs), docs) == Parsed(LabelledGroups(gs, docs))
  {
    hide ParseFrom, LabelledGroups;
    if gs == [] {
      ParseEnd(0, docs, []);
      assert LabelledGroups([], docs) == [] by { NoGroups(docs); }
    } else {
      PrintStartsWord(gs);
      var text := Print(gs);
      ParseMore(gs, false, 0, docs, []);
      assert "" + PrintMore(gs) == [' '] + text;
      PrepareBlank(text, 0);
      SamePrepare([' '] + text, 0, text, 0, docs, []);
      assert [] + LabelledGroups(gs, docs) == LabelledGroups(gs, docs);
    }
  }

  lemma NoGroups(docs: string)
    ensures LabelledGroups([], docs) == []
  {}

  lemma PrintStartsWord(gs: seq<seq<string>>)
    requires GoodGroups(gs) && gs != []
    ensures Print(gs) != "" && !IsSpace(Print(gs)[0]) && PrintMore(gs) == " " + Print(gs)
  {
    hide MoreAlternatives, IsSpace;
    var g := gs[0];
    assert GoodWord(g[0]);
    assert !EndsToken(g[0][0]);
    assert PrintGroup(g)[0] == if |g| == 1 then g[0][0] else '(';
    assert !IsSpace('(') by { ParenIsNoSpace(); }
  }

  lemma ParenIsNoSpace()
    ensures !IsSpace('(')
  {}

  // ---------- Descriptions in order ----------

  function Flatten(slots: seq<Slot>): seq<Desc> {
    if slots == [] then [] else Flatten(slots[..|slots| - 1]) + slots[|slots| - 1]
  }

  lemma FlattenAddWord(slots: seq<Slot>, multiple: nat, d: Desc)
    ensures Flatten(AddWord(slots, multiple, d)) == Flatten(slots) + [d]
  {
    var r := AddWord(slots, multiple, d);
    var n := |r| - 1;
    if multiple > 1 && slots != [] {
      assert r[..n] == slots[..n];
      assert Flatten(slots[..n]) + (slots[n] + [d]) == Flatten(slots[..n]) + slots[n] + [d];
    } else {
      assert r[..n] == slots;
    }
  }

  lemma {:induction false} DocsGoInOrder(s: string, multiple: nat, docs: string, slots: seq<Slot>) returns (ws: seq<string>)
    requires ParseFrom(s, multiple, docs, slots).Parsed?
    ensures Flatten(ParseFrom(s, multiple, docs, slots).slots) == Flatten(slots) + Labelled(ws, docs)
    decreases |s|
  {
    hide ParseFrom, Prepare, AddWord, NextDoc, Flatten, TokenLength, Labelled;
    ParseRound(s, multiple, docs, slots);
    var AtToken(rest, m) := Prepare(s, multiple);
    if rest == "" {
      ws := [];
      assert Labelled([], docs) == [] by { LabelledNone(docs); }
      assert Flatten(slots) + [] == Flatten(slots);
    } else {
      var w, after := rest[..TokenLength(rest)], rest[TokenLength(rest)..];
      var (doc, left) := NextDoc(docs);
      var d := Desc(w, doc);
      var tail := DocsGoInOrder(after, if m > 0 then m + 1 else 0, left, AddWord(slots, m, d));
      ws := [w] + tail;
      FlattenAddWord(slots, m, d);
      LabelledCons(w, tail, docs);
      assert Flatten(slots) + [d] + Labelled(tail, left) == Flatten(slots) + ([d] + Labelled(tail, left));
    }
  }

  /** One round of a parse that succeeds. */
  lemma ParseRound(s: string, multiple: nat, docs: string, slots: seq<Slot>)
    requires ParseFrom(s, multiple, docs, slots).Parsed?
    ensures Prepare(s, multiple).AtToken?
    ensures var AtToken(rest, m) := Prepare(s, multiple);
      var w, after := rest[..TokenLength(rest)], rest[TokenLength(rest)..];
      if rest == "" then ParseFrom(s, multiple, docs, slots) == Parsed(slots)
      else
        |after| < |s|
        && ParseFrom(s, multiple, docs, slots)
           == ParseFrom(after, if m > 0 then m + 1 else 0, NextDoc(docs).1, AddWord(slots, m, Desc(w, NextDoc(docs).0)))
  {
    hide Prepare, AddWord, NextDoc, EndsToken;
  }

  lemma LabelledNone(docs: string)
    ensures Labelled([], docs) == []
  {}

  lemma LabelledCons(w: string, ws: seq<string>, docs: string)
    ensures Labelled([w] + ws, docs) == [Desc(w, NextDoc(docs).0)] + Labelled(ws, NextDoc(docs).1)
  {
    hide NextDoc;
    assert ([w] + ws)[1..] == ws;
  }

  lemma {:induction false} LabelledDocs(ws: seq<string>, docs: string)
    ensures forall k :: 0 <= k < |ws| ==>
      Labelled(ws, docs)[k].doc == if k < |DocLines(docs)| then Some(DocLines(docs)[k]) else None
    decreases |ws|
  {
    hide NextDoc, DocLines;
    if ws != [] {
      NextDocIsFirstLine(docs);
      LabelledDocs(ws[1..], NextDoc(docs).1);
    }
  }

  /** On any specification that parses, the k-th word gets the k-th non-blank line of the
      description text, and words beyond the last line get none. */
  lemma KthWordGetsKthDoc(spec: string, docs: string)
    requires MakeDescvec(spec, docs).Parsed?
    ensures var all := Flatten(MakeDescvec(spec, docs).slots);
      forall k :: 0 <= k < |all| ==> all[k].doc == if k < |DocLines(docs)| then Some(DocLines(docs)[k]) else None
  {
    hide ParseFrom, DocLines;
    var ws := DocsGoInOrder(spec, 0, docs, []);
    assert Flatten([]) == [];
    assert [] + Labelled(ws, docs) == Labelled(ws, docs);
    LabelledDocs(ws, docs);
  }
}
