/** Splitting a line into words: cmd_make_strvec and cmd_make_strvec_old. */
module Tokens {
  import opened Options
  import opened CText
  import opened Vectors
  import opened Specs

  // ---------- Words ----------

  function WordLength(s: string): (n: nat)
    ensures n <= |s| && forall k :: 0 <= k < n ==> !IsSpace(s[k])
    ensures n < |s| ==> IsSpace(s[n])
  {
    if s == "" || IsSpace(s[0]) then 0 else 1 + WordLength(s[1..])
  }

  /** The words of a line, in order. */
  function WordsOf(s: string): seq<string>
    decreases |s|
  {
    var r := DropSpaces(s);
    if r == "" then [] else [r[..WordLength(r)]] + WordsOf(r[WordLength(r)..])
  }

  predicate IsComment(s: string) {
    var r := DropSpaces(s);
    r == "" || r[0] == '!' || r[0] == '#'
  }

  /** cmd_make_strvec_old: NULL for blank lines and comments. */
  function StrvecOld(s: string): Option<seq<string>> {
    if IsComment(s) then None else Some(WordsOf(s))
  }

  // ---------- Quotes ----------

  /** strchr() from `i` on; the length when the character does not occur. */
  function IndexFrom(s: string, c: char, i: nat): (n: nat)
    requires i <= |s|
    ensures i <= n <= |s| && forall k :: i <= k < n ==> s[k] != c
    ensures n < |s| ==> s[n] == c
    decreases |s| - i
  {
    if i == |s| || s[i] == c then i else IndexFrom(s, c, i + 1)
  }

  function Dash(c: char): char { if c == ' ' then '-' else c }

  /** The first two quotes become blanks and the blanks between them dashes. */
  function Unquote(s: string): (r: string)
    ensures |r| == |s|
  {
    var start := IndexFrom(s, '"', 0);
    if start == |s| then s
    else
      var end := IndexFrom(s, '"', start + 1);
      if end == |s| then s
      else
        seq(|s|, k requires 0 <= k < |s| =>
          if k == start || k == end then ' ' else if start < k < end then Dash(s[k]) else s[k])
  }

  /** cmd_make_strvec */
  function Strvec(s: string): Option<seq<string>> {
    StrvecOld(Unquote(s))
  }

  // ---------- The methods ----------

  function Slots(words: seq<string>): (r: seq<Option<string>>)
    ensures |r| == |words| && forall k :: 0 <= k < |r| ==> r[k] == Some(words[k])
  {
    seq(|words|, k requires 0 <= k < |words| => Some(words[k]))
  }

  lemma WordLengthIs(s: string, n: nat)
    requires n <= |s| && (forall k :: 0 <= k < n ==> !IsSpace(s[k])) && (n < |s| ==> IsSpace(s[n]))
    ensures WordLength(s) == n
  {
    hide IsSpace, WordLength;
  }

  method SkipWord(line: string, from: nat) returns (cp: nat)
    requires from <= |line|
    ensures from <= cp <= |line| && (cp < |line| ==> IsSpace(line[cp]))
    ensures forall k :: from <= k < cp ==> !IsSpace(line[k])
  {
    hide IsSpace;
    cp := from;
    while cp < |line| && !IsSpace(line[cp])
      invariant from <= cp <= |line|
      invariant forall k :: from <= k < cp ==> !IsSpace(line[k])
    {
      cp := cp + 1;
    }
  }

  /** vector_set of one more word on a vector without holes. */
  method AppendWord(strvec: Vector<string>, word: string, ghost words: seq<string>)
    requires strvec.Valid() && strvec.Slots() == Slots(words) && |words| < INDEX_LIMIT
    modifies strvec, strvec.index
    ensures strvec.Valid() && (strvec.index == old(strvec.index) || fresh(strvec.index))
    ensures strvec.Slots() == Slots(words + [word])
  {
    hide FirstEmpty;
    StoreAtFirstEmpty(strvec.Slots(), Some(word));
    var i := strvec.Set(Some(word));
  }

  /** The loop both functions share, from the first character of a word. */
  method SplitWords(line: string, start: nat) returns (strvec: Vector<string>)
    requires start < |line| < INDEX_LIMIT && !IsSpace(line[start])
    ensures fresh(strvec) && fresh(strvec.index) && strvec.Valid()
    ensures strvec.Slots() == Slots(WordsOf(line[start..]))
  {
    hide WordsOf, IsSpace, DropSpaces, Slots;
    strvec := new Vector<string>(1);
    ghost var words: seq<string> := [];
    assert Slots([]) == [] by { NoSlots(); }
    var cp := start;
    while true
      invariant start <= cp < |line| && !IsSpace(line[cp]) && |words| <= cp
      invariant strvec.Valid() && fresh(strvec) && fresh(strvec.index)
      invariant strvec.Slots() == Slots(words)
      invariant WordsOf(line[start..]) == words + WordsOf(line[cp..])
      decreases |line| - cp
    {
      var from := cp;
      var end := SkipWord(line, cp);
      AppendWord(strvec, line[from..end], words);
      cp := SkipSpaces(line, end);
      NextWord(line, from, end, cp);
      words := words + [line[from..end]];
      if cp == |line| {
        assert words + [] == words;
        return;
      }
      assert !IsSpace(line[cp]) by { assert line[cp] == line[cp..][0]; }
    }
  }

  lemma NoSlots()
    ensures Slots([]) == []
  {}

  /** One word and the blanks after it. */
  lemma NextWord(line: string, from: nat, end: nat, next: nat)
    requires from < |line| && from <= end <= next <= |line| && !IsSpace(line[from])
    requires (forall k :: from <= k < end ==> !IsSpace(line[k])) && (end < |line| ==> IsSpace(line[end]))
    requires line[next..] == DropSpaces(line[end..])
    ensures end > from
    ensures WordsOf(line[from..]) == [line[from..end]] + WordsOf(line[next..])
    ensures next == |line| ==> WordsOf(line[next..]) == []
  {
    hide IsSpace, WordLength, DropSpaces, WordsOf;
    var s := line[from..];
    FirstWordIs(line, s, from, end);
    WordsUnfolded(s);
    WordsAfterBlanks(line[end..]);
    if next == |line| {
      assert line[next..] == "";
      NothingSplit();
    }
  }

  lemma FirstWordIs(line: string, s: string, from: nat, end: nat)
    requires from < |line| && from <= end <= |line| && !IsSpace(line[from]) && s == line[from..]
    requires (forall k :: from <= k < end ==> !IsSpace(line[k])) && (end < |line| ==> IsSpace(line[end]))
    ensures DropSpaces(s) == s && WordLength(s) == end - from && end > from
    ensures s[..end - from] == line[from..end] && s[end - from..] == line[end..]
  {
    hide IsSpace, WordLength, DropSpaces;
    var n := end - from;
    assert s[0..] == s && s[..n] == line[from..end] && s[n..] == line[end..];
    DropSpacesIs(s, 0);
    forall k | 0 <= k < n ensures !IsSpace(s[k]) { assert s[k] == line[from + k]; }
    if n < |s| { assert s[n] == line[end]; }
    WordLengthIs(s, n);
  }

  lemma WordsAfterBlanks(s: string)
    ensures WordsOf(DropSpaces(s)) == WordsOf(s)
  {
    hide DropSpaces;
    var r := DropSpaces(s);
    DropSpacesIs(r, 0);
    assert r[0..] == r;
  }

  method CmdMakeStrvecOld(line: string) returns (strvec: Option<Vector<string>>)
    requires |line| < INDEX_LIMIT
    ensures strvec.None? <==> StrvecOld(line).None?
    ensures strvec.Some? ==> fresh(strvec.value) && fresh(strvec.value.index) && strvec.value.Valid()
    ensures strvec.Some? ==> strvec.value.Slots() == Slots(StrvecOld(line).value)
  {
    hide WordsOf, DropSpaces;
    var cp := SkipSpaces(line, 0);
    assert line[0..] == line;
    if cp == |line| { return None; }
    if line[cp] == '!' || line[cp] == '#' { return None; }
    WordsAfterBlanks(line);
    var words := SplitWords(line, cp);
    return Some(words);
  }

  /** The rewriting of quotes, on a duplicate of the line. */
  method RewriteQuotes(line: string) returns (string2: array<char>)
    ensures fresh(string2) && string2[..] == Unquote(line)
  {
    string2 := new char[|line|](k requires 0 <= k < |line| => line[k]);
    assert string2[..] == line;
    var start := IndexFrom(line, '"', 0);
    if start < |line| {
      var end := IndexFrom(line, '"', start + 1);
      if end < |line| {
        string2[start] := ' ';
        var t := start + 1;
        while t < end
          invariant start < t <= end
          invariant forall k :: 0 <= k < |line| ==>
            string2[k] == if k == start then ' ' else if start < k < t then Dash(line[k]) else line[k]
        {
          if string2[t] == ' ' { string2[t] := '-'; }
          t := t + 1;
        }
        string2[end] := ' ';
        assert string2[..] == Unquote(line);
      }
    }
  }

  method CmdMakeStrvec(line: string) returns (strvec: Option<Vector<string>>)
    requires |line| < INDEX_LIMIT
    ensures strvec.None? <==> Strvec(line).None?
    ensures strvec.Some? ==> fresh(strvec.value) && fresh(strvec.value.index) && strvec.value.Valid()
    ensures strvec.Some? ==> strvec.value.Slots() == Slots(Strvec(line).value)
  {
    hide WordsOf, DropSpaces, Unquote;
    var buffer := RewriteQuotes(line);
    var string2 := buffer[..];
    var cp := SkipSpaces(string2, 0);
    assert string2[0..] == string2;
    if cp == |string2| { return None; }
    if string2[cp] == '!' || string2[cp] == '#' { return None; }
    WordsAfterBlanks(string2);
    var words := SplitWords(string2, cp);
    return Some(words);
  }

  // ---------- Blank lines and comments ----------

  /** Space, tab, newline, vertical tab, form feed and carriage return, by their codes. */
  predicate Blank(c: char) {
    c as int == 32 || 9 <= c as int <= 13
  }

  lemma BlankExactly(c: char)
    ensures IsSpace(c) <==> Blank(c)
  {}

  /** All before position `n` are blanks. */
  predicate BlankBefore(s: string, n: nat) {
    n <= |s| && forall k :: 0 <= k < n ==> Blank(s[k])
  }

  /** Main result on comments: exactly the lines give NULL that are blank or whose first other character
      is '!' or '#'; the others give a word at least. */
  lemma CommentsExactly(s: string)
    ensures StrvecOld(s).None? <==>
      BlankBefore(s, |s|) || exists n :: 0 <= n < |s| && BlankBefore(s, n) && (s[n] == '!' || s[n] == '#')
    ensures StrvecOld(s).Some? ==> StrvecOld(s).value != []
  {
    hide IsSpace, DropSpaces, WordLength;
    forall c ensures IsSpace(c) <==> Blank(c) { BlankExactly(c); }
    hide Blank;
    var n := |s| - |DropSpaces(s)|;
    assert BlankBefore(s, n);
    if n < |s| {
      assert DropSpaces(s)[0] == s[n] && !Blank(s[n]);
      assert forall m :: 0 <= m < |s| && BlankBefore(s, m) ==> m <= n;
      assert !Blank('!') && !Blank('#') by { BlankExactly('!'); BlankExactly('#'); NoBlankComment(); }
      assert forall m :: 0 <= m < n ==> Blank(s[m]);
    }
  }

  lemma NoBlankComment()
    ensures !Blank('!') && !Blank('#')
  {}

  // ---------- Words are the maximal runs of non-blanks ----------

  predicate MaximalRun(s: string, a: nat, b: nat) {
    && a < b <= |s|
    && (forall k :: a <= k < b ==> !IsSpace(s[k]))
    && (a > 0 ==> IsSpace(s[a - 1]))
    && (b < |s| ==> IsSpace(s[b]))
  }

  /** The runs are in order and each is the text of the word at its position. */
  predicate RunsOf(s: string, runs: seq<(nat, nat)>, words: seq<string>) {
    && |runs| == |words|
    && (forall i :: 0 <= i < |runs| ==> MaximalRun(s, runs[i].0, runs[i].1) && words[i] == s[runs[i].0..runs[i].1])
    && (forall i, j :: 0 <= i < j < |runs| ==> runs[i].1 < runs[j].0)
  }

  /** Main result: the words are exactly the maximal runs of non-blank characters, in order. */
  lemma WordsAreMaximalRuns(s: string) returns (runs: seq<(nat, nat)>)
    ensures RunsOf(s, runs, WordsOf(s))
    ensures forall a: nat, b: nat :: MaximalRun(s, a, b) ==> (a, b) in runs
  {
    runs := RunsFrom(s, 0);
    assert s[0..] == s;
    forall a: nat, b: nat | MaximalRun(s, a, b) ensures (a, b) in runs {
      assert !IsSpace(s[a]);
      var i :| 0 <= i < |runs| && runs[i].0 <= a < runs[i].1;
      SameRun(s, a, b, runs[i].0, runs[i].1);
      assert runs[i] == (a, b);
    }
  }

  lemma SameRun(s: string, a: nat, b: nat, c: nat, d: nat)
    requires MaximalRun(s, a, b) && MaximalRun(s, c, d) && c <= a < d
    ensures a == c && b == d
  {
    hide IsSpace;
  }

  /** Every non-blank character from `i` on lies in a run. */
  predicate Covered(s: string, i: nat, runs: seq<(nat, nat)>) {
    forall k :: i <= k < |s| && !IsSpace(s[k]) ==> exists j :: 0 <= j < |runs| && runs[j].0 <= k < runs[j].1
  }

  /** The runs from position `i` on, a blank or the start of the line lying before it. */
  lemma {:induction false} RunsFrom(s: string, i: nat) returns (runs: seq<(nat, nat)>)
    requires i <= |s| && (0 < i < |s| ==> IsSpace(s[i]))
    ensures RunsOf(s, runs, WordsOf(s[i..]))
    ensures forall k :: 0 <= k < |runs| ==> runs[k].0 >= i && (i > 0 ==> runs[k].0 > i)
    ensures Covered(s, i, runs)
    decreases |s| - i, if i == 0 then 1 else 0
  {
    hide IsSpace, DropSpaces, WordLength, WordsOf, MaximalRun, RunsOf, Covered;
    var from := |s| - |DropSpaces(s[i..])|;
    DropFrom(s, i, from);
    if from == |s| {
      runs := [];
      NoMoreWords(s, i);
      NoRuns(s, i);
    } else {
      var end := from + WordLength(s[from..]);
      WordFrom(s, from, end);
      var rest := RunsFrom(s, end);
      WordsStep(s, i, from, end);
      FirstRun(s, i, from, end);
      runs := [(from, end)] + rest;
      PrependRun(s, i, from, end, rest, runs);
      PrependRunsOf(s, from, end, rest, WordsOf(s[end..]));
    }
  }

  lemma NoMoreWords(s: string, i: nat)
    requires i <= |s| && DropSpaces(s[i..]) == s[|s|..]
    ensures WordsOf(s[i..]) == []
  {}

  lemma WordsStep(s: string, i: nat, from: nat, end: nat)
    requires i <= from < end <= |s| && DropSpaces(s[i..]) == s[from..] && WordLength(s[from..]) == end - from
    requires s[from..][..end - from] == s[from..end] && s[from..][end - from..] == s[end..]
    ensures WordsOf(s[i..]) == [s[from..end]] + WordsOf(s[end..])
  {
    hide DropSpaces, WordLength, WordsOf;
    WordsUnfolded(s[i..]);
  }

  lemma WordsUnfolded(s: string)
    ensures var r := DropSpaces(s);
      WordsOf(s) == if r == "" then [] else [r[..WordLength(r)]] + WordsOf(r[WordLength(r)..])
  {
    hide DropSpaces, WordLength;
  }

  lemma FirstRun(s: string, i: nat, from: nat, end: nat)
    requires i <= from < end <= |s| && (forall k :: i <= k < from ==> IsSpace(s[k]))
    requires (forall k :: from <= k < end ==> !IsSpace(s[k])) && (end < |s| ==> IsSpace(s[end]))
    requires 0 < i < |s| ==> IsSpace(s[i])
    ensures MaximalRun(s, from, end) && (i > 0 ==> from > i)
  {
    hide IsSpace;
  }

  lemma NoRuns(s: string, i: nat)
    requires forall k :: i <= k < |s| ==> IsSpace(s[k])
    ensures RunsOf(s, [], []) && Covered(s, i, [])
  {}

  lemma PrependRunsOf(s: string, from: nat, end: nat, rest: seq<(nat, nat)>, words: seq<string>)
    requires MaximalRun(s, from, end) && RunsOf(s, rest, words)
    requires forall k :: 0 <= k < |rest| ==> rest[k].0 > end
    ensures RunsOf(s, [(from, end)] + rest, [s[from..end]] + words)
  {
    hide MaximalRun;
  }

  lemma PrependRun(s: string, i: nat, from: nat, end: nat, rest: seq<(nat, nat)>, runs: seq<(nat, nat)>)
    requires i <= from < end <= |s| && runs == [(from, end)] + rest
    requires forall k :: i <= k < from ==> IsSpace(s[k])
    requires Covered(s, end, rest)
    ensures Covered(s, i, runs)
  {
    hide IsSpace;
    forall k | i <= k < |s| && !IsSpace(s[k]) ensures exists j :: 0 <= j < |runs| && runs[j].0 <= k < runs[j].1 {
      if k >= end {
        var j :| 0 <= j < |rest| && rest[j].0 <= k < rest[j].1;
        assert runs[j + 1] == rest[j];
      } else {
        assert runs[0].0 <= k < runs[0].1;
      }
    }
  }

  lemma DropFrom(s: string, i: nat, from: nat)
    requires i <= |s| && from == |s| - |DropSpaces(s[i..])|
    ensures i <= from && DropSpaces(s[i..]) == s[from..]
    ensures (forall k :: i <= k < from ==> IsSpace(s[k])) && (from < |s| ==> !IsSpace(s[from]))
  {
    hide IsSpace, DropSpaces;
    var t := s[i..];
    assert t[from - i..] == s[from..];
    assert forall k :: i <= k < |s| ==> s[k] == t[k - i];
  }

  lemma WordFrom(s: string, from: nat, end: nat)
    requires from < |s| && !IsSpace(s[from]) && end == from + WordLength(s[from..])
    ensures from < end <= |s| && s[from..][..end - from] == s[from..end] && s[from..][end - from..] == s[end..]
    ensures (forall k :: from <= k < end ==> !IsSpace(s[k])) && (end < |s| ==> IsSpace(s[end]))
  {
    hide IsSpace, WordLength;
    var t := s[from..];
    assert forall k :: from <= k < |s| ==> s[k] == t[k - from];
  }

  // ---------- Joining and splitting again ----------

  predicate IsWord(w: string) {
    w != "" && forall k :: 0 <= k < |w| ==> !IsSpace(w[k])
  }

  function JoinBlanks(ws: seq<string>): string {
    if ws == [] then "" else if |ws| == 1 then ws[0] else ws[0] + (" " + JoinBlanks(ws[1..]))
  }

  lemma {:induction false} WordsAreWords(s: string)
    ensures forall k :: 0 <= k < |WordsOf(s)| ==> IsWord(WordsOf(s)[k])
    decreases |s|
  {
    hide DropSpaces, WordLength, IsSpace;
    var r := DropSpaces(s);
    if r != "" {
      var n := WordLength(r);
      assert n > 0;
      WordsAreWords(r[n..]);
      assert IsWord(r[..n]);
    }
  }

  /** A word followed by a blank or by nothing. */
  lemma WordFirst(w: string, rest: string)
    requires IsWord(w) && (rest == "" || IsSpace(rest[0]))
    ensures WordsOf(w + rest) == [w] + WordsOf(rest)
  {
    hide DropSpaces, WordLength, IsSpace;
    var s := w + rest;
    assert s[0] == w[0];
    DropSpacesIs(s, 0);
    assert s[0..] == s;
    WordLengthIs(s, |w|);
    assert s[..|w|] == w && s[|w|..] == rest;
  }

  lemma WordsSkipBlank(s: string)
    ensures WordsOf(" " + s) == WordsOf(s)
  {
    hide WordsOf, DropSpaces;
    var t := " " + s;
    assert t[0] == ' ' && t[1..] == s;
    DropOne(t);
    WordsAfterBlanks(t);
    WordsAfterBlanks(s);
  }

  lemma {:induction false} SplitJoined(ws: seq<string>)
    requires forall k :: 0 <= k < |ws| ==> IsWord(ws[k])
    ensures WordsOf(JoinBlanks(ws)) == ws
    decreases |ws|
  {
    hide WordsOf, IsWord;
    if ws == [] {
      NothingSplit();
    } else if |ws| == 1 {
      NothingSplit();
      WordFirst(ws[0], "");
      assert ws[0] + "" == ws[0];
    } else {
      var rest := JoinBlanks(ws[1..]);
      SplitJoined(ws[1..]);
      WordsSkipBlank(rest);
      WordFirst(ws[0], " " + rest);
    }
  }

  lemma NothingSplit()
    ensures WordsOf("") == []
  {}

  lemma NoQuotes(s: string)
    requires forall k :: 0 <= k < |s| ==> s[k] != '"'
    ensures Unquote(s) == s
  {}

  lemma {:induction false} JoinedHasNoQuotes(ws: seq<string>)
    requires forall i, k :: 0 <= i < |ws| && 0 <= k < |ws[i]| ==> ws[i][k] != '"'
    ensures forall k :: 0 <= k < |JoinBlanks(ws)| ==> JoinBlanks(ws)[k] != '"'
    decreases |ws|
  {
    if |ws| > 1 { JoinedHasNoQuotes(ws[1..]); }
  }

  lemma {:induction false} WordsHaveNoQuotes(s: string)
    requires forall k :: 0 <= k < |s| ==> s[k] != '"'
    ensures forall i, k :: 0 <= i < |WordsOf(s)| && 0 <= k < |WordsOf(s)[i]| ==> WordsOf(s)[i][k] != '"'
  {
    hide IsSpace, WordsOf;
    var runs := WordsAreMaximalRuns(s);
    forall i, k | 0 <= i < |WordsOf(s)| && 0 <= k < |WordsOf(s)[i]| ensures WordsOf(s)[i][k] != '"' {
      assert MaximalRun(s, runs[i].0, runs[i].1);
      assert WordsOf(s)[i][k] == s[runs[i].0 + k];
    }
  }

  /** Joining the words of a line by single blanks and splitting again returns the same words; the
      line must hold no quote, which splitting would rewrite. */
  lemma SplitJoinSplit(line: string)
    requires forall k :: 0 <= k < |line| ==> line[k] != '"'
    requires Strvec(line).Some?
    ensures Strvec(JoinBlanks(Strvec(line).value)) == Strvec(line)
  {
    hide WordsOf, Unquote, DropSpaces, JoinBlanks;
    NoQuotes(line);
    var ws := WordsOf(line);
    WordsAreWords(line);
    WordsHaveNoQuotes(line);
    JoinedHasNoQuotes(ws);
    NoQuotes(JoinBlanks(ws));
    SplitJoined(ws);
    JoinedStart(line);
  }

  lemma JoinedStart(line: string)
    requires !IsComment(line)
    ensures !IsComment(JoinBlanks(WordsOf(line)))
  {
    hide DropSpaces, WordLength, IsSpace;
    var r := DropSpaces(line);
    var n := WordLength(r);
    var ws := WordsOf(line);
    assert n > 0 && ws[0] == r[..n] && ws[0][0] == r[0];
    var joined := JoinBlanks(ws);
    assert joined[0] == ws[0][0];
    DropSpacesIs(joined, 0);
    assert joined[0..] == joined;
  }

  // ---------- A quoted phrase is one word ----------

  function Dashed(s: string): (r: string)
    ensures |r| == |s| && forall k :: 0 <= k < |s| ==> r[k] == Dash(s[k])
  {
    seq(|s|, k requires 0 <= k < |s| => Dash(s[k]))
  }

  predicate NoQuote(s: string) {
    forall k :: 0 <= k < |s| ==> s[k] != '"'
  }

  lemma UnquoteIs(pre: string, phrase: string, post: string)
    requires NoQuote(pre) && NoQuote(phrase)
    ensures Unquote(pre + "\"" + phrase + "\"" + post) == pre + " " + Dashed(phrase) + " " + post
  {
    hide IndexFrom;
    var s := pre + "\"" + phrase + "\"" + post;
    var start, end := |pre|, |pre| + 1 + |phrase|;
    assert forall k :: 0 <= k < |s| ==>
      s[k] == if k < start then pre[k] else if k == start || k == end then '"'
              else if k < end then phrase[k - start - 1] else post[k - end - 1];
    IndexFromIs(s, '"', 0, start);
    IndexFromIs(s, '"', start + 1, end);
    var r := pre + " " + Dashed(phrase) + " " + post;
    assert forall k :: 0 <= k < |s| ==>
      r[k] == if k == start || k == end then ' ' else if start < k < end then Dash(s[k]) else s[k];
    assert Unquote(s) == r;
  }

  lemma IndexFromIs(s: string, c: char, i: nat, n: nat)
    requires i <= n < |s| && s[n] == c && forall k :: i <= k < n ==> s[k] != c
    ensures IndexFrom(s, c, i) == n
  {
    hide IndexFrom;
  }

  lemma {:induction false} WordsOfParts(a: string, b: string)
    requires b == "" || IsSpace(b[0])
    ensures WordsOf(a + b) == WordsOf(a) + WordsOf(b)
    decreases |a|
  {
    hide IsSpace, WordLength, WordsOf, DropSpaces, IsWord;
    var r := DropSpaces(a);
    WordsAfterBlanks(a);
    WordsAfterBlanks(a + b);
    DropParts(a, b);
    if r == "" {
      NothingSplit();
      WordsAfterBlanks(b);
    } else {
      var w, tail := SplitWord(r);
      assert r + b == w + (tail + b);
      WordFirst(w, tail);
      WordFirst(w, tail + b);
      WordsOfParts(tail, b);
      assert [w] + WordsOf(tail) + WordsOf(b) == [w] + (WordsOf(tail) + WordsOf(b));
    }
  }

  lemma SplitWord(r: string) returns (w: string, tail: string)
    requires r != "" && !IsSpace(r[0])
    ensures r == w + tail && IsWord(w) && |tail| < |r| && (tail == "" || IsSpace(tail[0]))
  {
    hide IsSpace, WordLength;
    var n := WordLength(r);
    w, tail := r[..n], r[n..];
  }

  lemma DropParts(a: string, b: string)
    ensures DropSpaces(a + b) == if DropSpaces(a) == "" then DropSpaces(b) else DropSpaces(a) + b
  {
    hide IsSpace, DropSpaces;
    var m := |a| - |DropSpaces(a)|;
    var s := a + b;
    if DropSpaces(a) == "" {
      var n := |b| - |DropSpaces(b)|;
      assert forall k :: 0 <= k < |b| ==> s[|a| + k] == b[k];
      DropSpacesIs(s, |a| + n);
      assert s[|a| + n..] == b[n..];
    } else {
      assert s[m] == DropSpaces(a)[0];
      DropSpacesIs(s, m);
      assert s[m..] == a[m..] + b;
    }
  }

  /** Main result on quotes: the first quoted phrase, its blanks turned into dashes, is one word
      between the words before and after it. */
  lemma QuotedPhraseIsOneWord(pre: string, phrase: string, post: string)
    requires NoQuote(pre) && NoQuote(phrase) && phrase != ""
    requires forall k :: 0 <= k < |phrase| ==> phrase[k] == ' ' || !IsSpace(phrase[k])
    ensures WordsOf(Unquote(pre + "\"" + phrase + "\"" + post)) == WordsOf(pre) + [Dashed(phrase)] + WordsOf(post)
    ensures forall k :: 0 <= k < |phrase| ==> Dashed(phrase)[k] == if phrase[k] == ' ' then '-' else phrase[k]
  {
    hide WordsOf, Unquote, Dashed;
    UnquoteIs(pre, phrase, post);
    var w := Dashed(phrase);
    DashedIsWord(phrase);
    var after := " " + post;
    assert pre + " " + w + " " + post == pre + (" " + (w + after));
    WordsOfParts(pre, " " + (w + after));
    WordsSkipBlank(w + after);
    WordFirst(w, after);
    WordsSkipBlank(post);
    assert WordsOf(pre) + ([w] + WordsOf(post)) == WordsOf(pre) + [w] + WordsOf(post);
  }

  lemma DashedIsWord(phrase: string)
    requires phrase != "" && forall k :: 0 <= k < |phrase| ==> phrase[k] == ' ' || !IsSpace(phrase[k])
    ensures IsWord(Dashed(phrase))
  {}
}
