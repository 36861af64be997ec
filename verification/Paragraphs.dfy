/** What each kind of line does, said of its characters, and how blank lines cut a control file into paragraphs
    (tools/controlparse.c). */
module Paragraphs {
  import opened Chars
  import opened ControlParse
  import opened ControlFile

  // ---------- Kinds of lines ----------

  predicate AllSpace(s: string) { forall i :: 0 <= i < |s| ==> s[i] in {' ', '\t', '\n', 11 as char, 12 as char, '\r'} }

  /** A text between white space: not empty, and with something else at both ends. */
  predicate Solid(s: string) { s != "" && !AllSpace([s[0]]) && !AllSpace([s[|s| - 1]]) }

  lemma {:induction false} SpaceChar(c: char)
    ensures IsSpace(c) <==> c in {' ', '\t', '\n', 11 as char, 12 as char, '\r'}
  {
    assert c as int == 0x0b ==> c == 11 as char;
    assert c as int == 0x0c ==> c == 12 as char;
  }

  lemma {:induction false} SpaceMeans(s: string)
    ensures AllSpace(s) <==> forall i :: 0 <= i < |s| ==> IsSpace(s[i])
  {
    forall c: char ensures IsSpace(c) <==> c in {' ', '\t', '\n', 11 as char, 12 as char, '\r'} {
      SpaceChar(c);
    }
  }

  /** A line that starts with a number sign is a comment and changes nothing. */
  lemma {:induction false} CommentLine(st: State, line: string)
    requires Valid(st) && line != "" && line[0] == '#'
    ensures Step(st, line) == Some(st)
  {
  }

  /** A line of white space ends the paragraph. */
  lemma {:induction false} BlankLine(st: State, line: string)
    requires Valid(st) && AllSpace(line)
    ensures Step(st, line) == Some(State(st.paras, true))
  {
    SpaceMeans(line);
    SpanUnique(line, IsSpace, |line|);
  }

  lemma {:induction false} SolidTrimmed(s: string)
    requires Solid(s)
    ensures Trimmed(s) && !IsSpace(s[0])
  {
    SpaceMeans([s[0]]);
    SpaceMeans([s[|s| - 1]]);
    assert [s[0]][0] == s[0] && [s[|s| - 1]][0] == s[|s| - 1];
  }

  /** A text behind white space is one more line of the last field, without the white space around it; it is an error
      where a paragraph starts. */
  lemma {:induction false} IndentedLine(st: State, left: string, s: string, right: string)
    requires Valid(st) && left != "" && AllSpace(left) && Solid(s) && AllSpace(right)
    ensures Step(st, left + s + right) ==
            if st.inBreak || st.paras[|st.paras| - 1].fields == [] then None
            else
              var k := |st.paras| - 1;
              var fields := st.paras[k].fields;
              var f := fields[|fields| - 1];
              Some(State(st.paras[k := Para(fields[|fields| - 1 := Field(f.name, f.lines + [s])])], false))
  {
    hide Trim, TrimStart, TrimEnd, Span;
    SpaceMeans(left);
    SpaceMeans(right);
    SolidTrimmed(s);
    TrimPadded(left, s, right);
    assert (left + s + right)[0] == left[0];
  }

  lemma {:induction false} TrimSpace(s: string)
    requires forall i :: 0 <= i < |s| ==> IsSpace(s[i])
    ensures Trim(s) == ""
  {
    var a, b := TrimIs(s);
    SpanUnique(s, IsSpace, |s|);
  }

  lemma {:induction false} NamedLine(name: string, rest: string)
    requires name != "" && !IsSpace(name[0]) && name[0] != '#' && ':' !in name
    ensures var line := name + ":" + rest;
            && !IsComment(line) && !IsBlank(line) && !IsSpace(line[0])
            && Find(line, ':') == |name| < |line| && line[..|name|] == name && line[|name| + 1..] == rest
  {
    var line := name + ":" + rest;
    assert line[0] == name[0] && line[..|name|] == name;
    FindUnique(line, ':', |name|);
    SpanUnique(line, IsSpace, 0);
  }

  lemma {:induction false} NewField(paras: seq<Para>, name: string, s: string)
    requires paras != []
    ensures var k := |paras| - 1;
            AddLine(AddField(paras, name), s) == Some(paras[k := Para(paras[k].fields + [Field(name, [s])])])
  {
    var k := |paras| - 1;
    var fields := paras[k].fields;
    assert [] + [s] == [s];
    assert (fields + [Field(name, [])])[|fields| := Field(name, [s])] == fields + [Field(name, [s])];
    assert AddField(paras, name)[k] == Para(fields + [Field(name, [])]);
    var p := Para(fields + [Field(name, [s])]);
    assert AddField(paras, name)[k := p] == paras[k := p];
  }

  /** A name, a colon and a text start a new field with the text as its first line, in a new paragraph where the last
      one has ended. */
  lemma {:induction false} FieldStart(st: State, name: string, left: string, s: string, right: string)
    requires Valid(st) && name != "" && !AllSpace([name[0]]) && name[0] != '#' && ':' !in name
    requires AllSpace(left) && (s == "" || Solid(s)) && AllSpace(right)
    ensures var paras := if st.inBreak then st.paras + [Para([])] else st.paras;
            var k := |paras| - 1;
            Step(st, name + ":" + (left + s + right)) ==
            Some(State(paras[k := Para(paras[k].fields + [Field(name, [s])])], false))
  {
    hide Trim, TrimStart, TrimEnd, Span;
    var rest := left + s + right;
    var line := name + ":" + rest;
    SpaceMeans(left);
    SpaceMeans(right);
    SpaceMeans([name[0]]);
    assert [name[0]][0] == name[0];
    if s == "" {
      TrimSpace(rest);
    } else {
      SolidTrimmed(s);
      TrimPadded(left, s, right);
    }
    assert Trim(rest) == s;
    NamedLine(name, rest);
    var paras := Opened(st);
    NewField(paras, name, s);
  }

  /** Any other line, which has no colon, is an error. */
  lemma {:induction false} OtherLine(st: State, line: string)
    requires Valid(st) && line != "" && !AllSpace([line[0]]) && line[0] != '#' && ':' !in line
    ensures Step(st, line) == None
  {
    SpaceMeans([line[0]]);
    assert [line[0]][0] == line[0];
    FindUnique(line, ':', |line|);
    SpanUnique(line, IsSpace, 0);
  }

  // ---------- Blank lines between paragraphs ----------

  function Behind(paras: seq<Para>, st: State): State { State(paras + st.paras, st.inBreak) }

  lemma {:induction false} AddLineBehind(paras: seq<Para>, open: seq<Para>, value: string)
    requires open != []
    ensures AddLine(paras + open, value) ==
            if AddLine(open, value).None? then None else Some(paras + AddLine(open, value).value)
  {
    var all, k, n := paras + open, |open| - 1, |paras|;
    assert all[n + k] == open[k];
    if AddLine(open, value).Some? {
      var p := AddLine(open, value).value[k];
      assert all[n + k := p] == paras + open[k := p];
    }
  }

  lemma {:induction false} AddFieldBehind(paras: seq<Para>, open: seq<Para>, name: string)
    requires open != []
    ensures AddField(paras + open, name) == paras + AddField(open, name)
  {
    var all, k, n := paras + open, |open| - 1, |paras|;
    assert all[n + k] == open[k];
  }

  lemma {:induction false} ContentBehind(paras: seq<Para>, open: seq<Para>, line: string)
    requires open != []
    ensures line != "" ==>
              AddContent(paras + open, line) ==
              if AddContent(open, line).None? then None else Some(paras + AddContent(open, line).value)
  {
    hide Trim;
    if line != "" {
      var col := Find(line, ':');
      AddLineBehind(paras, open, Trim(line));
      if col < |line| {
        AddFieldBehind(paras, open, line[..col]);
        AddLineBehind(paras, AddField(open, line[..col]), Trim(line[col + 1..]));
      }
    }
  }

  /** What was read before a paragraph break stays as it is, whatever follows. */
  lemma {:induction false} StepBehind(paras: seq<Para>, st: State, line: string)
    requires Valid(st)
    ensures Valid(Behind(paras, st))
    ensures Step(Behind(paras, st), line) ==
            if Step(st, line).None? then None else Some(Behind(paras, Step(st, line).value))
  {
    hide Trim, Span, IsComment;
    var open := Opened(st);
    if open != [] {
      assert Opened(Behind(paras, st)) == paras + open;
      ContentBehind(paras, open, line);
    }
  }

  lemma {:induction false} StepStaysValid(st: State, line: string)
    requires Valid(st) && Step(st, line).Some?
    ensures Valid(Step(st, line).value)
  {
    hide Trim, Span, IsComment;
  }

  lemma {:induction false} RunBehind(paras: seq<Para>, st: State, lines: seq<string>)
    requires Valid(st)
    ensures Valid(Behind(paras, st))
    ensures Run(Behind(paras, st), lines) ==
            if Run(st, lines).None? then None else Some(Behind(paras, Run(st, lines).value))
    decreases |lines|
  {
    hide Step;
    StepBehind(paras, st, "");
    if lines == [] {
    } else {
      StepBehind(paras, st, lines[0]);
      if Step(st, lines[0]).Some? {
        StepStaysValid(st, lines[0]);
        RunBehind(paras, Step(st, lines[0]).value, lines[1..]);
      }
    }
  }

  /** A blank line separates what is in front of it from what is behind it: together they are accepted exactly if each
      is on its own, and then the paragraphs are those of the first followed by those of the second. */
  lemma {:induction false} BlankSeparates(xs: seq<string>, blank: string, ys: seq<string>)
    requires AllSpace(blank)
    ensures var x, y, all := Run(INIT, xs), Run(INIT, ys), Run(INIT, xs + ([blank] + ys));
            && (all.Some? <==> x.Some? && y.Some?)
            && (all.Some? ==> all.value.paras == x.value.paras + y.value.paras)
  {
    hide Step, AllSpace;
    RunConcat(INIT, xs, [blank] + ys);
    var x := Run(INIT, xs);
    if x.Some? {
      BlankLine(x.value, blank);
      assert ([blank] + ys)[0] == blank && ([blank] + ys)[1..] == ys;
      RunBehind(x.value.paras, INIT, ys);
      assert Behind(x.value.paras, INIT) == State(x.value.paras, true) by {
        assert x.value.paras + [] == x.value.paras;
      }
    }
  }

  lemma {:induction false} NotBlank(line: string)
    requires !AllSpace(line)
    ensures line != "" && !IsBlank(line)
  {
    SpaceMeans(line);
  }

  lemma {:induction false} OneStep(st: State, line: string)
    requires Valid(st) && |st.paras| <= 1 && (st.paras != [] ==> !st.inBreak) && line != "" && !IsBlank(line)
    requires Step(st, line).Some?
    ensures var next := Step(st, line).value;
            && Valid(next) && |next.paras| <= 1 && (next.paras != [] ==> !next.inBreak)
            && (next.paras == [] <==> st.paras == [] && IsComment(line))
  {
    hide Trim, IsBlank, Find;
  }

  /** Lines none of which is blank make at most one paragraph, and none only if all of them are comments. */
  lemma {:induction false} OneParagraph(st: State, lines: seq<string>)
    requires Valid(st) && |st.paras| <= 1 && (st.paras != [] ==> !st.inBreak)
    requires forall i :: 0 <= i < |lines| ==> !AllSpace(lines[i])
    requires Run(st, lines).Some?
    ensures var r := Run(st, lines).value;
            && |r.paras| <= 1
            && (r.paras == [] <==> st.paras == [] && forall i :: 0 <= i < |lines| ==> IsComment(lines[i]))
    decreases |lines|
  {
    hide Step, AllSpace;
    if lines == [] {
    } else {
      NotBlank(lines[0]);
      OneStep(st, lines[0]);
      OneParagraph(Step(st, lines[0]).value, lines[1..]);
      assert forall i :: 0 < i < |lines| ==> lines[i] == lines[1..][i - 1];
    }
  }

  // ---------- Texts ----------

  function Pieces(lines: seq<string>): string { if lines == [] then "" else lines[0] + Pieces(lines[1..]) }

  predicate EndsLine(s: string) { s != "" && s[|s| - 1] == '\n' }

  lemma {:induction false} NoText()
    ensures SplitLines("") == [] && Pieces([]) == ""
  {
  }

  lemma {:induction false} FirstLine(x: string) returns (line: string, rest: string)
    requires EndsLine(x)
    ensures x == line + "\n" + rest && '\n' !in line && (rest != "" ==> EndsLine(rest))
  {
    var n := Find(x, '\n');
    line, rest := x[..n], x[n + 1..];
    assert rest != "" ==> rest[|rest| - 1] == x[|x| - 1];
  }

  lemma {:induction false} LastLine(text: string)
    requires text != "" && '\n' !in text
    ensures SplitLines(text) == [text] && Pieces([text]) == text
  {
    FindUnique(text, '\n', |text|);
    assert [text][1..] == [] && text + "" == text;
  }

  lemma {:induction false} PiecesCons(line: string, lines: seq<string>)
    ensures Pieces([line] + lines) == line + Pieces(lines)
  {
    assert ([line] + lines)[0] == line && ([line] + lines)[1..] == lines;
  }

  /** The lines of a text are its pieces: put together they are the text, and each but the last ends with a newline. */
  lemma {:induction false} LinesOfText(text: string)
    ensures Pieces(SplitLines(text)) == text
    ensures forall i :: 0 <= i < |SplitLines(text)| - 1 ==> EndsLine(SplitLines(text)[i])
    decreases |text|
  {
    hide SplitLines, Pieces, Find;
    if text == "" {
      NoText();
    } else if '\n' !in text {
      LastLine(text);
    } else {
      var n := Find(text, '\n');
      var line, rest := text[..n], text[n + 1..];
      assert text == line + "\n" + rest;
      SplitCons(line, rest);
      PiecesCons(line + "\n", SplitLines(rest));
      LinesOfText(rest);
    }
  }

  /** A text that ends with a newline, or is empty, in front of another one. */
  lemma {:induction false} SplitTwo(x: string, y: string)
    requires x != "" ==> EndsLine(x)
    ensures SplitLines(x + y) == SplitLines(x) + SplitLines(y)
    decreases |x|
  {
    hide SplitLines;
    if x == "" {
      assert x + y == y;
      NoText();
    } else {
      var line, rest := FirstLine(x);
      assert x + y == line + "\n" + (rest + y);
      SplitCons(line, rest);
      SplitCons(line, rest + y);
      SplitTwo(rest, y);
    }
  }

  /** Two texts with a blank line between them parse to the paragraphs of the first and then those of the second. */
  lemma {:induction false} ParseSeparates(x: string, blank: string, y: string)
    requires x != "" ==> EndsLine(x)
    requires AllSpace(blank) && '\n' !in blank
    ensures var all := Parse(x + (blank + "\n" + y));
            && (all.Some? <==> Parse(x).Some? && Parse(y).Some?)
            && (all.Some? ==> all.value == Parse(x).value + Parse(y).value)
  {
    hide SplitLines, Run;
    SplitTwo(x, blank + "\n" + y);
    SplitCons(blank, y);
    assert AllSpace(blank + "\n");
    BlankSeparates(SplitLines(x), blank + "\n", SplitLines(y));
  }

  /** A text without a blank line has at most one paragraph. */
  lemma {:induction false} ParseOne(text: string)
    requires Parse(text).Some? && forall i :: 0 <= i < |SplitLines(text)| ==> !AllSpace(SplitLines(text)[i])
    ensures |Parse(text).value| <= 1
  {
    hide SplitLines, Run, AllSpace;
    OneParagraph(INIT, SplitLines(text));
  }
}
