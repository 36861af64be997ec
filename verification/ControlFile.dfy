/** Whole control files: what every accepted file looks like, which lines do not matter, and how
    a text is cut into lines (tools/controlparse.c). */
module ControlFile {
  import opened Chars
  import opened ControlParse
  import opened ControlNodes

  // ---------- Trimming ----------

  lemma {:induction false} TrimEndIs(s: string) returns (n: nat)
    ensures n <= |s| && TrimEnd(s) == s[..n]
    ensures n > 0 ==> !IsSpace(s[n - 1])
    ensures n == 0 <==> forall i :: 0 <= i < |s| ==> IsSpace(s[i])
  {
    if s != "" && IsSpace(s[|s| - 1]) {
      n := TrimEndIs(s[..|s| - 1]);
    } else {
      n := |s|;
      assert s[..n] == s;
    }
  }

  /** Trimming takes out a piece without white space at its ends; it is empty only for a blank string. */
  lemma {:induction false} TrimIs(s: string) returns (a: nat, b: nat)
    ensures a <= b <= |s| && Trim(s) == s[a..b] && Trimmed(Trim(s))
    ensures Trim(s) == "" <==> IsBlank(s)
  {
    a := Span(s, IsSpace);
    var n := TrimEndIs(s[a..]);
    b := a + n;
    assert s[a..][..n] == s[a..b];
    if a < |s| {
      assert s[a..][0] == s[a];
    }
  }

  lemma {:induction false} TrimEndPadded(s: string, right: string)
    requires s == "" || !IsSpace(s[|s| - 1])
    requires forall i :: 0 <= i < |right| ==> IsSpace(right[i])
    ensures TrimEnd(s + right) == s
  {
    if right == "" {
      assert s + right == s;
    } else {
      assert (s + right)[..|s + right| - 1] == s + right[..|right| - 1];
      TrimEndPadded(s, right[..|right| - 1]);
    }
  }

  /** White space around a trimmed string is what trimming removes. */
  lemma {:induction false} TrimPadded(left: string, s: string, right: string)
    requires s != "" && Trimmed(s)
    requires (forall i :: 0 <= i < |left| ==> IsSpace(left[i])) && (forall i :: 0 <= i < |right| ==> IsSpace(right[i]))
    ensures Trim(left + s + right) == s
    ensures !IsBlank(left + s + right)
  {
    var t := left + s + right;
    assert t[|left|] == s[0];
    SpanUnique(t, IsSpace, |left|);
    assert t[|left|..] == s + right;
    TrimEndPadded(s, right);
  }

  // ---------- What accepted lines build ----------

  /** A line as getline delivers it: a newline can only be its last character. */
  predicate OneLine(line: string)
  {
    forall i :: 0 <= i < |line| - 1 ==> line[i] != '\n'
  }

  predicate StoredLine(s: string) { Trimmed(s) && '\n' !in s }

  predicate StoredField(f: Field)
  {
    && f.lines != [] && ':' !in f.name
    && (forall i :: 0 <= i < |f.lines| ==> StoredLine(f.lines[i]))
    && (forall i :: 0 < i < |f.lines| ==> f.lines[i] != "")
  }

  predicate StoredPara(p: Para)
  {
    p.fields != [] && forall i :: 0 <= i < |p.fields| ==> StoredField(p.fields[i])
  }

  /** Every paragraph has a field, every field has a line, every line is trimmed and only a first line may be empty. */
  predicate Structured(st: State)
  {
    forall i :: 0 <= i < |st.paras| ==> StoredPara(st.paras[i])
  }

  lemma {:induction false} StoredTrim(line: string)
    requires OneLine(line)
    ensures StoredLine(Trim(line))
  {
    var a, b := TrimIs(line);
    var t := Trim(line);
    forall i | 0 <= i < |t| ensures t[i] != '\n' {
      assert t[i] == line[a + i];
      assert i == |t| - 1 ==> !IsSpace(t[i]);
    }
  }

  predicate AllStored(paras: seq<Para>) { forall i :: 0 <= i < |paras| ==> StoredPara(paras[i]) }

  /** A continuation line: it cannot be the first of a paragraph. */
  lemma {:induction false} AddLineStructured(paras: seq<Para>, inBreak: bool, value: string)
    requires AllStored(paras) && (paras == [] ==> inBreak)
    requires StoredLine(value) && value != ""
    ensures var open := Opened(State(paras, inBreak));
            AddLine(open, value).Some? ==> AllStored(AddLine(open, value).value)
  {
    hide StoredLine;
    if !inBreak {
      var p := paras[|paras| - 1];
      assert StoredPara(p) && StoredField(p.fields[|p.fields| - 1]);
    }
  }

  /** A line that starts a field. */
  lemma {:induction false} AddFieldStructured(open: seq<Para>, name: string, value: string)
    requires open != [] && AllStored(open[..|open| - 1]) && ':' !in name && StoredLine(value)
    requires var p := open[|open| - 1]; p.fields == [] || StoredPara(p)
    ensures AddLine(AddField(open, name), value).Some?
    ensures AllStored(AddLine(AddField(open, name), value).value)
  {
    hide StoredLine;
    var k := |open| - 1;
    var fields := open[k].fields;
    var p := Para(fields + [Field(name, [value])]);
    assert (fields + [Field(name, [])])[|fields| := Field(name, [value])] == fields + [Field(name, [value])];
    assert [] + [value] == [value];
    assert StoredPara(p);
    assert AddLine(AddField(open, name), value).value == open[k := p];
    var after := open[k := p];
    forall i | 0 <= i < |after| ensures StoredPara(after[i]) {
      assert i < k ==> open[..k][i] == after[i];
    }
  }

  lemma {:induction false} StepStructured(st: State, line: string)
    requires Valid(st) && Structured(st) && OneLine(line) && Step(st, line).Some?
    ensures Structured(Step(st, line).value)
  {
    hide StoredLine, Trim, AddLine, AddField;
    if !IsComment(line) && !IsBlank(line) {
      StoredTrim(line);
      var _, _ := TrimIs(line);
      if IsSpace(line[0]) {
        AddLineStructured(st.paras, st.inBreak, Trim(line));
      } else {
        var col := Find(line, ':');
        StoredTrim(line[col + 1..]);
        AddFieldStructured(Opened(st), line[..col], Trim(line[col + 1..]));
      }
    }
  }

  lemma {:induction false} RunStructured(st: State, lines: seq<string>)
    requires Valid(st) && Structured(st) && (forall i :: 0 <= i < |lines| ==> OneLine(lines[i]))
    requires Run(st, lines).Some?
    ensures Structured(Run(st, lines).value)
    decreases |lines|
  {
    if lines == [] {
    } else {
      StepStructured(st, lines[0]);
      RunStructured(Step(st, lines[0]).value, lines[1..]);
    }
  }

  // ---------- Lines that do not matter ----------

  /** The lines without comments, without blank lines after blank lines, and without leading blank lines. */
  function Squeeze(lines: seq<string>, inBreak: bool): seq<string>
  {
    if lines == [] then []
    else if IsComment(lines[0]) || (inBreak && IsBlank(lines[0])) then Squeeze(lines[1..], inBreak)
    else [lines[0]] + Squeeze(lines[1..], IsBlank(lines[0]))
  }

  /** Squeezing a file changes nothing: neither whether it is accepted nor the structure. */
  lemma {:induction false} SqueezeKeeps(st: State, lines: seq<string>)
    requires Valid(st)
    ensures Run(st, lines) == Run(st, Squeeze(lines, st.inBreak))
    decreases |lines|
  {
    if lines == [] {
    } else {
      var next := Step(st, lines[0]);
      if next.Some? {
        SqueezeKeeps(next.value, lines[1..]);
      }
    }
  }

  lemma {:induction false} RunConcat(st: State, a: seq<string>, b: seq<string>)
    requires Valid(st)
    ensures Run(st, a + b) == (var mid := Run(st, a); if mid.None? then None else Run(mid.value, b))
    decreases |a|
  {
    if a == [] {
      assert a + b == b;
    } else {
      assert (a + b)[0] == a[0] && (a + b)[1..] == a[1..] + b;
      if Step(st, a[0]).Some? {
        RunConcat(Step(st, a[0]).value, a[1..], b);
      }
    }
  }

  // ---------- Texts ----------

  /** getline: the lines of a text, each with its newline if it has one. */
  function SplitLines(text: string): seq<string>
    decreases |text|
  {
    if text == "" then [] else
    var n := Find(text, '\n');
    if n == |text| then [text] else [text[..n + 1]] + SplitLines(text[n + 1..])
  }

  lemma {:induction false} SplitOneLine(text: string)
    ensures forall i :: 0 <= i < |SplitLines(text)| ==> OneLine(SplitLines(text)[i])
    decreases |text|
  {
    if text == "" {
    } else {
      var n := Find(text, '\n');
      assert forall i :: 0 <= i < n ==> text[..n][i] == text[i];
      if n < |text| {
        SplitOneLine(text[n + 1..]);
      }
    }
  }

  /** A line in front of a text. */
  lemma {:induction false} SplitCons(line: string, text: string)
    requires '\n' !in line
    ensures SplitLines(line + "\n" + text) == [line + "\n"] + SplitLines(text)
  {
    var t := line + "\n" + text;
    assert t[..|line|] == line;
    FindUnique(t, '\n', |line|);
    assert t[..|line| + 1] == line + "\n" && t[|line| + 1..] == text;
  }

  function Parse(text: string): Option<seq<Para>>
  {
    var st := Run(INIT, SplitLines(text));
    if st.None? then None else Some(st.value.paras)
  }

  lemma {:induction false} ParseStructured(text: string)
    requires Parse(text).Some?
    ensures forall i :: 0 <= i < |Parse(text).value| ==> StoredPara(Parse(text).value[i])
  {
    SplitOneLine(text);
    RunStructured(INIT, SplitLines(text));
  }

  lemma {:induction false} ParaNotEmpty(x: ParaNode)
    requires x.Valid() && StoredPara(Para(x.value))
    ensures x.fieldFirst != null && x.fieldLast != null && x.fieldLast.next == null
    ensures forall f :: f in x.fields ==> f.lineFirst != null && f.lineLast != null && f.lineLast.next == null
  {
    forall f | f in x.fields ensures f.lineFirst != null && f.lineLast != null && f.lineLast.next == null {
      var i :| 0 <= i < |x.fields| && x.fields[i] == f;
      assert StoredField(x.value[i]);
    }
  }

  /** In the lists that accepted lines build no list of fields and no list of lines is empty. */
  lemma {:induction false} NoEmptyList(p: Parser)
    requires p.Valid() && Structured(p.Contents())
    ensures forall x :: x in p.paras ==> x.fieldFirst != null && x.fieldLast != null && x.fieldLast.next == null
    ensures forall x, f :: x in p.paras && f in x.fields ==>
              f.lineFirst != null && f.lineLast != null && f.lineLast.next == null
  {
    forall x | x in p.paras
      ensures x.fieldFirst != null && x.fieldLast != null && x.fieldLast.next == null
      ensures forall f :: f in x.fields ==> f.lineFirst != null && f.lineLast != null && f.lineLast.next == null
    {
      var i :| 0 <= i < |p.paras| && p.paras[i] == x;
      assert StoredPara(p.value[i]);
      ParaNotEmpty(x);
    }
  }

  /** controlparse_parsefd: the lines go to the parser one by one, up to the first error. */
  method ParseFd(text: string) returns (ok: bool, p: Parser)
    ensures p.Valid() && fresh(p.Repr)
    ensures ok <==> Parse(text).Some?
    ensures ok ==> p.value == Parse(text).value && Structured(p.Contents())
  {
    hide Step, StoredPara, Parser.Valid;
    p := new Parser();
    ok := true;
    var lines := SplitLines(text);
    var k := 0;
    while k < |lines|
      invariant 0 <= k <= |lines| && fresh(p.Repr) && p.Valid() && Valid(p.Contents())
      invariant Run(INIT, lines) == Run(p.Contents(), lines[k..])
    {
      assert lines[k..][0] == lines[k] && lines[k..][1..] == lines[k + 1..];
      ok := p.Line(lines[k]);
      p.HasPara();
      if !ok {
        return;
      }
      k := k + 1;
    }
    ParseStructured(text);
  }
}
