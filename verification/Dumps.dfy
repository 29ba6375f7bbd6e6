/** The text that config_dump of vtysh_config.c prints, and what can be read back from it. */
module Dumps {
  /** A configuration: its name and its lines. */
  datatype Group = Group(name: string, lines: seq<string>)

  /** Every line followed by a line break. */
  function Flat(lines: seq<string>): string {
    if lines == [] then "" else lines[0] + "\n" + Flat(lines[1..])
  }

  function Indented(lines: seq<string>): (r: seq<string>)
    ensures |r| == |lines| && forall i :: 0 <= i < |lines| ==> r[i] == " " + lines[i]
  {
    if lines == [] then [] else Indented(lines[..|lines| - 1]) + [" " + lines[|lines| - 1]]
  }

  /** A configuration without lines is not printed. */
  function GroupLines(g: Group): seq<string> {
    if g.lines == [] then [] else [g.name] + Indented(g.lines) + ["!"]
  }

  function GroupText(g: Group): string {
    Flat(GroupLines(g))
  }

  function GroupsText(groups: seq<Group>): string {
    if groups == [] then "" else GroupText(groups[0]) + GroupsText(groups[1..])
  }

  const WRITED := "#Writed on "

  function TopText(date: string, top: seq<string>): string {
    Flat([WRITED + date] + top + ["!"])
  }

  function DumpText(date: string, top: seq<string>, groups: seq<Group>): string {
    TopText(date, top) + GroupsText(groups)
  }

  // ---------- Texts in a row ----------

  lemma {:induction false} FlatJoin(a: seq<string>, b: seq<string>)
    ensures Flat(a + b) == Flat(a) + Flat(b)
  {
    hide Flat;
    if a == [] {
      NothingFlat();
      assert a + b == b;
    } else {
      FlatJoin(a[1..], b);
      FlatFront(a);
      assert (a + b)[1..] == a[1..] + b && (a + b)[0] == a[0];
      FlatFront(a + b);
    }
  }

  lemma NothingFlat()
    ensures Flat([]) == ""
  {}

  lemma FlatFront(lines: seq<string>)
    requires lines != []
    ensures Flat(lines) == lines[0] + ("\n" + Flat(lines[1..]))
  {}

  lemma FlatOne(line: string)
    ensures Flat([line]) == line + "\n"
  {
    assert [line][1..] == [];
    assert Flat([]) == "";
  }

  lemma GroupsFront(groups: seq<Group>)
    requires groups != []
    ensures GroupsText(groups) == GroupText(groups[0]) + GroupsText(groups[1..])
  {}

  lemma NoGroupsText()
    ensures GroupsText([]) == ""
  {}

  /** Groups printed one after the other. */
  lemma {:induction false} TextsJoin(a: seq<Group>, b: seq<Group>)
    ensures GroupsText(a + b) == GroupsText(a) + GroupsText(b)
  {
    hide GroupText, GroupsText;
    if a == [] {
      NoGroupsText();
      assert a + b == b;
    } else {
      TextsJoin(a[1..], b);
      assert (a + b)[1..] == a[1..] + b && (a + b)[0] == a[0];
      GroupsFront(a);
      GroupsFront(a + b);
    }
  }

  lemma FrontText(g: Group, rest: seq<Group>)
    ensures GroupsText([g] + rest) == GroupText(g) + GroupsText(rest)
  {
    hide GroupText;
    assert ([g] + rest)[1..] == rest;
  }

  // ---------- The lines of a text ----------

  /** The place of the first line break, or the length. */
  function LineEnd(text: string): (n: nat)
    ensures n <= |text| && (n < |text| ==> text[n] == '\n')
    ensures forall i :: 0 <= i < n ==> text[i] != '\n'
  {
    if text == "" || text[0] == '\n' then 0 else 1 + LineEnd(text[1..])
  }

  predicate Unbroken(lines: seq<string>) {
    forall i :: 0 <= i < |lines| ==> '\n' !in lines[i]
  }

  /** The lines of a text, each ended by a line break. */
  function Lines(text: string): (r: seq<string>)
    ensures Unbroken(r)
    decreases |text|
  {
    var n := LineEnd(text);
    if n == |text| then [] else [text[..n]] + Lines(text[n + 1..])
  }

  lemma FirstLine(line: string, rest: string)
    requires '\n' !in line
    ensures LineEnd(line + "\n" + rest) == |line|
  {
    var text := line + "\n" + rest;
    assert text[|line|] == '\n';
    assert forall i :: 0 <= i < |line| ==> text[i] == line[i];
  }

  lemma {:induction false} LinesOfFlat(lines: seq<string>)
    requires Unbroken(lines)
    ensures Lines(Flat(lines)) == lines
  {
    hide LineEnd;
    if lines != [] {
      var line, rest := lines[0], Flat(lines[1..]);
      FirstLine(line, rest);
      LinesOfFlat(lines[1..]);
      assert (line + "\n" + rest)[|line| + 1..] == rest;
      assert (line + "\n" + rest)[..|line|] == line;
    } else {
      assert Flat(lines) == "";
    }
  }

  // ---------- Reading back ----------

  /** What the text shows. */
  datatype Dumped = Dumped(date: string, top: seq<string>, groups: seq<Group>)

  /** The place of the first "!", or the length. */
  function BangAt(lines: seq<string>): (n: nat)
    ensures n <= |lines| && (n < |lines| ==> lines[n] == "!")
    ensures forall i :: 0 <= i < n ==> lines[i] != "!"
  {
    if lines == [] || lines[0] == "!" then 0 else 1 + BangAt(lines[1..])
  }

  /** How many lines at the front are indented. */
  function IndentEnd(lines: seq<string>): (n: nat)
    ensures n <= |lines| && (n < |lines| ==> !(" " <= lines[n]))
    ensures forall i :: 0 <= i < n ==> " " <= lines[i]
  {
    if lines == [] || !(" " <= lines[0]) then 0 else 1 + IndentEnd(lines[1..])
  }

  /** The indented lines after the name. */
  function Body(lines: seq<string>): seq<string>
    requires lines != []
  {
    seq(IndentEnd(lines[1..]), i requires 0 <= i < IndentEnd(lines[1..]) => lines[i + 1][1..])
  }

  /** What follows the line that ends the configuration. */
  function Rest(lines: seq<string>): (r: seq<string>)
    requires lines != []
    ensures |r| < |lines|
  {
    var n := IndentEnd(lines[1..]);
    if n + 2 <= |lines| then lines[n + 2..] else []
  }

  /** A name, the indented lines after it, and one line that ends the configuration. */
  function ReadGroups(lines: seq<string>): seq<Group>
    decreases |lines|
  {
    if lines == [] then [] else [Group(lines[0], Body(lines))] + ReadGroups(Rest(lines))
  }

  /** The date is on the first line, and the first "!" ends the top lines. */
  function ReadLines(lines: seq<string>): Dumped {
    if lines == [] then Dumped("", [], [])
    else
      var date := if WRITED <= lines[0] then lines[0][|WRITED|..] else lines[0];
      var n := BangAt(lines[1..]);
      Dumped(date, lines[1..][..n], ReadGroups(if n + 2 <= |lines| then lines[n + 2..] else []))
  }

  function Read(text: string): Dumped {
    ReadLines(Lines(text))
  }

  // ---------- What the text determines ----------

  predicate AllPrinted(groups: seq<Group>) {
    forall i :: 0 <= i < |groups| ==> groups[i].lines != []
  }

  function Printed(groups: seq<Group>): (r: seq<Group>)
    ensures AllPrinted(r)
  {
    if groups == [] then [] else (if groups[0].lines == [] then [] else [groups[0]]) + Printed(groups[1..])
  }

  predicate UnbrokenGroups(groups: seq<Group>) {
    forall i :: 0 <= i < |groups| ==> '\n' !in groups[i].name && Unbroken(groups[i].lines)
  }

  /** No text that is printed holds a line break, and no top line is a lone "!". */
  predicate Clean(date: string, top: seq<string>, groups: seq<Group>) {
    '\n' !in date && Unbroken(top) && "!" !in top && UnbrokenGroups(Printed(groups))
  }

  lemma {:induction false} PrintedText(groups: seq<Group>)
    ensures GroupsText(Printed(groups)) == GroupsText(groups)
  {
    hide GroupText, GroupsText;
    if groups != [] {
      PrintedText(groups[1..]);
      GroupsFront(groups);
      if groups[0].lines != [] {
        FrontText(groups[0], Printed(groups[1..]));
      } else {
        assert Printed(groups) == Printed(groups[1..]);
        NothingPrinted(groups[0]);
      }
    }
  }

  lemma NothingPrinted(g: Group)
    requires g.lines == []
    ensures GroupText(g) == ""
  {}

  function GroupsLines(groups: seq<Group>): seq<string> {
    if groups == [] then [] else GroupLines(groups[0]) + GroupsLines(groups[1..])
  }

  lemma {:induction false} GroupsFlat(groups: seq<Group>)
    ensures GroupsText(groups) == Flat(GroupsLines(groups))
  {
    hide GroupLines;
    if groups != [] {
      GroupsFlat(groups[1..]);
      FlatJoin(GroupLines(groups[0]), GroupsLines(groups[1..]));
    }
  }

  lemma GroupUnbroken(g: Group)
    requires '\n' !in g.name && Unbroken(g.lines)
    ensures Unbroken(GroupLines(g))
  {
    hide Indented;
  }

  lemma UnbrokenJoin(a: seq<string>, b: seq<string>)
    requires Unbroken(a) && Unbroken(b)
    ensures Unbroken(a + b)
  {}

  lemma {:induction false} GroupsUnbroken(groups: seq<Group>)
    requires UnbrokenGroups(groups)
    ensures Unbroken(GroupsLines(groups))
  {
    hide GroupLines, Unbroken;
    if groups != [] {
      GroupUnbroken(groups[0]);
      GroupsUnbroken(groups[1..]);
      UnbrokenJoin(GroupLines(groups[0]), GroupsLines(groups[1..]));
    } else {
      NothingBroken();
    }
  }

  lemma NothingBroken()
    ensures Unbroken([])
  {}

  /** The lines of one configuration, with more lines after it. */
  lemma GroupAt(g: Group, a: seq<string>)
    requires g.lines != []
    ensures var s, m := GroupLines(g) + a, |g.lines|;
      && |s| == m + 2 + |a| && s[0] == g.name && s[m + 1] == "!" && s[m + 2..] == a
      && forall i :: 0 <= i < m ==> s[i + 1] == " " + g.lines[i]
  {
    hide Indented;
  }

  lemma IndentIs(lines: seq<string>, m: nat)
    requires m < |lines| && lines[m] == "!" && forall i :: 0 <= i < m ==> " " <= lines[i]
    ensures IndentEnd(lines) == m
  {
    hide IndentEnd;
    assert " "[0] != "!"[0];
  }

  lemma BangIs(top: seq<string>, rest: seq<string>)
    requires "!" !in top
    ensures BangAt(top + ["!"] + rest) == |top|
  {
    hide BangAt;
    var lines := top + ["!"] + rest;
    assert lines[|top|] == "!";
    assert forall i :: 0 <= i < |top| ==> lines[i] == top[i];
  }

  lemma ReadGroup(g: Group, a: seq<string>)
    requires g.lines != []
    ensures ReadGroups(GroupLines(g) + a) == [g] + ReadGroups(a)
  {
    var s, m := GroupLines(g) + a, |g.lines|;
    hide GroupLines, IndentEnd;
    GroupAt(g, a);
    assert forall i :: 0 <= i < m ==> s[1..][i] == " " + g.lines[i];
    IndentIs(s[1..], m);
    assert Body(s) == g.lines && Rest(s) == a;
    hide Body, Rest;
  }

  lemma {:induction false} ReadAllGroups(groups: seq<Group>)
    requires AllPrinted(groups)
    ensures ReadGroups(GroupsLines(groups)) == groups
  {
    hide GroupLines;
    if groups != [] {
      ReadAllGroups(groups[1..]);
      ReadGroup(groups[0], GroupsLines(groups[1..]));
      assert groups == [groups[0]] + groups[1..];
    }
  }

  lemma ReadDump(date: string, top: seq<string>, rest: seq<string>)
    requires "!" !in top
    ensures ReadLines([WRITED + date] + top + ["!"] + rest) == Dumped(date, top, ReadGroups(rest))
  {
    hide BangAt, ReadGroups;
    var lines := [WRITED + date] + top + ["!"] + rest;
    assert lines[1..] == top + ["!"] + rest;
    BangIs(top, rest);
    assert (WRITED + date)[|WRITED|..] == date;
    assert lines[|top| + 2..] == rest;
  }

  /** What was read has no line break in it, and no "!" among the top lines. */
  lemma {:induction false} GroupsReadUnbroken(lines: seq<string>)
    requires Unbroken(lines)
    ensures UnbrokenGroups(ReadGroups(lines))
    decreases |lines|
  {
    hide IndentEnd, Unbroken, Body;
    if lines != [] {
      assert '\n' !in lines[0] by { UnbrokenAt(lines, 0); }
      var rest := Rest(lines);
      RestUnbroken(lines);
      GroupsReadUnbroken(rest);
      assert ReadGroups(lines) == [Group(lines[0], Body(lines))] + ReadGroups(rest);
      hide ReadGroups, Rest;
    }
  }

  lemma UnbrokenAt(lines: seq<string>, i: nat)
    requires Unbroken(lines) && i < |lines|
    ensures '\n' !in lines[i]
  {}

  lemma RestUnbroken(lines: seq<string>)
    requires Unbroken(lines) && lines != []
    ensures Unbroken(Rest(lines)) && Unbroken(Body(lines))
  {
    hide IndentEnd;
  }

  lemma ReadUnbroken(lines: seq<string>)
    requires Unbroken(lines)
    ensures var d := ReadLines(lines);
      '\n' !in d.date && Unbroken(d.top) && "!" !in d.top && UnbrokenGroups(d.groups)
  {
    hide BangAt, ReadGroups;
    if lines != [] {
      var n := BangAt(lines[1..]);
      GroupsReadUnbroken(if n + 2 <= |lines| then lines[n + 2..] else []);
      GroupsReadUnbroken([]);
    }
  }

  /** The lines of the whole text. */
  lemma DumpFlat(date: string, top: seq<string>, groups: seq<Group>)
    ensures DumpText(date, top, groups) == Flat([WRITED + date] + top + ["!"] + GroupsLines(Printed(groups)))
  {
    hide Flat, GroupsText, GroupsLines;
    PrintedText(groups);
    GroupsFlat(Printed(groups));
    FlatJoin([WRITED + date] + top + ["!"], GroupsLines(Printed(groups)));
  }

  lemma CleanLines(date: string, top: seq<string>, groups: seq<Group>)
    requires Clean(date, top, groups)
    ensures Unbroken([WRITED + date] + top + ["!"] + GroupsLines(Printed(groups)))
  {
    hide GroupsLines, Printed;
    GroupsUnbroken(Printed(groups));
  }

  /** Main result: the top lines and the configurations that have lines are read back from the
      printed text exactly if no printed text holds a line break and no top line is a lone "!". */
  lemma ReadBackExactly(date: string, top: seq<string>, groups: seq<Group>)
    ensures Read(DumpText(date, top, groups)) == Dumped(date, top, Printed(groups)) <==> Clean(date, top, groups)
  {
    var text, lines := DumpText(date, top, groups), [WRITED + date] + top + ["!"] + GroupsLines(Printed(groups));
    DumpFlat(date, top, groups);
    hide DumpText, Flat, GroupsLines, Printed, ReadLines, Lines, Unbroken, UnbrokenGroups;
    ReadUnbroken(Lines(text));
    if Clean(date, top, groups) {
      CleanLines(date, top, groups);
      LinesOfFlat(lines);
      ReadDump(date, top, GroupsLines(Printed(groups)));
      ReadAllGroups(Printed(groups));
    }
  }

  /** Main result: under those conditions the printed characters lose nothing but the
      configurations without lines. */
  lemma DumpDetermines(date1: string, top1: seq<string>, groups1: seq<Group>,
      date2: string, top2: seq<string>, groups2: seq<Group>)
    requires Clean(date1, top1, groups1) && Clean(date2, top2, groups2)
    ensures DumpText(date1, top1, groups1) == DumpText(date2, top2, groups2) <==>
      date1 == date2 && top1 == top2 && Printed(groups1) == Printed(groups2)
  {
    hide Clean, Read, GroupsText, Printed, TopText;
    ReadBackExactly(date1, top1, groups1);
    ReadBackExactly(date2, top2, groups2);
    PrintedText(groups1);
    PrintedText(groups2);
  }

  // ---------- Where the text is ambiguous ----------

  /** Main result: a top line with a line break prints as two lines. */
  lemma BreakSplits(date: string, before: seq<string>, a: string, b: string, after: seq<string>, groups: seq<Group>)
    ensures DumpText(date, before + [a + "\n" + b] + after, groups) == DumpText(date, before + [a, b] + after, groups)
  {
    hide Flat, GroupsText;
    TopSplit(date, before, [a + "\n" + b], after);
    TopSplit(date, before, [a, b], after);
    FlatOne(a + "\n" + b);
    FlatOne(a);
    FlatOne(b);
    FlatJoin([a], [b]);
    assert [a] + [b] == [a, b];
    assert a + "\n" + b + "\n" == (a + "\n") + (b + "\n");
  }

  lemma TopSplit(date: string, before: seq<string>, middle: seq<string>, after: seq<string>)
    ensures TopText(date, before + middle + after) ==
      Flat([WRITED + date] + before) + Flat(middle) + Flat(after + ["!"])
  {
    hide Flat;
    var head, tail := [WRITED + date] + before, after + ["!"];
    FlatJoin(head, middle);
    FlatJoin(head + middle, tail);
    assert [WRITED + date] + (before + middle + after) + ["!"] == head + middle + tail;
  }

  /** Main result: a lone "!" among the top lines prints as the end of them, and the lines after it
      as a configuration. */
  lemma BangEndsTop(date: string, top: seq<string>, g: Group, rest: seq<Group>)
    requires g.lines != []
    ensures DumpText(date, top + ["!", g.name] + Indented(g.lines), rest) == DumpText(date, top, [g] + rest)
  {
    hide Flat, GroupsText, Indented;
    FrontText(g, rest);
    var head, middle := [WRITED + date] + top + ["!"], [g.name] + Indented(g.lines) + ["!"];
    FlatJoin(head, middle);
    assert [WRITED + date] + (top + ["!", g.name] + Indented(g.lines)) + ["!"] == head + middle;
  }

  /** One top line prints as two do. */
  lemma BreakExample(date: string)
    ensures DumpText(date, ["a\nb"], []) == DumpText(date, ["a", "b"], [])
  {
    hide DumpText;
    BreakSplits(date, [], "a", "b", [], []);
    assert "a" + "\n" + "b" == "a\nb";
    assert [] + ["a\nb"] + [] == ["a\nb"] && [] + ["a", "b"] + [] == ["a", "b"];
  }

  /** Three top lines print as a configuration does. */
  lemma BangExample(date: string)
    ensures DumpText(date, ["!", "a", " b"], []) == DumpText(date, [], [Group("a", ["b"])])
  {
    hide DumpText;
    var g := Group("a", ["b"]);
    BangEndsTop(date, [], g, []);
    assert " " + "b" == " b" && Indented(["b"])[0] == " " + "b";
    assert [] + ["!", "a"] + Indented(["b"]) == ["!", "a", " b"];
    assert [g] + [] == [g];
  }
}
