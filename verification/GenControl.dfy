/** The printer of tools/gencontrol.c, and its round trip through control_parsefd. */
module GenControl {
  import opened Chars
  import opened ControlParse
  import opened ControlFile
  import opened Control
  import opened SourceControl

  /** The strings that are printed. */
  datatype Printed = Printed(package: string, version: string, srcPackage: string, srcVersion: string,
                             runDepend: seq<string>, builtFroms: seq<BuiltFrom>)

  function AsRecord(p: Printed): Record
  {
    Record(Some(p.package), Some(p.version), Some(p.srcPackage), Some(p.srcVersion), p.runDepend, p.builtFroms)
  }

  // ---------- The printed text ----------

  /** Lines put together, each with its newline. */
  function Glue(lines: seq<string>): string
  {
    if lines == [] then "" else lines[0] + "\n" + Glue(lines[1..])
  }

  function PairText(b: BuiltFrom): string { b.package + " " + b.version }

  function PairTexts(bfs: seq<BuiltFrom>): seq<string> { seq(|bfs|, i requires 0 <= i < |bfs| => PairText(bfs[i])) }

  function Indented(items: seq<string>): seq<string> { seq(|items|, i requires 0 <= i < |items| => "  " + items[i]) }

  function HeadLines(p: Printed): seq<string>
  {
    ["Package: " + p.package, "Version: " + p.version, "Source: " + PairText(BuiltFrom(p.srcPackage, p.srcVersion)),
     "Depends-Run:"]
  }

  function TailLines(bfs: seq<BuiltFrom>): seq<string>
  {
    if bfs == [] then [] else ["Built-From:"] + Indented(PairTexts(bfs))
  }

  function Lines(p: Printed): seq<string> { HeadLines(p) + Indented(p.runDepend) + TailLines(p.builtFroms) }

  function Text(p: Printed): string { Glue(Lines(p)) }

  // ---------- Which records survive ----------

  /** A non-empty trimmed line. */
  predicate OkLine(s: string) { s != "" && StoredLine(s) }

  /** A name without spaces and a version that together make one such line. */
  predicate OkPair(b: BuiltFrom)
  {
    && b.package != "" && !IsSpace(b.package[0]) && ' ' !in b.package && '\n' !in b.package
    && b.version != "" && !IsSpace(b.version[|b.version| - 1]) && '\n' !in b.version
  }

  predicate Printable(p: Printed)
  {
    && OkLine(p.package) && OkLine(p.version) && OkPair(BuiltFrom(p.srcPackage, p.srcVersion))
    && (forall i :: 0 <= i < |p.runDepend| ==> OkLine(p.runDepend[i]))
    && (forall i :: 0 <= i < |p.builtFroms| ==> OkPair(p.builtFroms[i]))
  }

  // ---------- Everything that was read could be printed ----------

  predicate OkOption(s: Option<string>) { s.Some? ==> OkLine(s.value) }

  predicate OkLines(s: seq<string>) { forall i :: 0 <= i < |s| ==> OkLine(s[i]) }

  predicate OkPairs(s: seq<BuiltFrom>) { forall i :: 0 <= i < |s| ==> OkPair(s[i]) }

  predicate OkRecord(c: Record)
  {
    && OkOption(c.package) && OkOption(c.version) && (c.srcPackage.Some? <==> c.srcVersion.Some?)
    && (c.srcPackage.Some? ==> OkPair(BuiltFrom(c.srcPackage.value, c.srcVersion.value)))
    && OkLines(c.runDepend) && OkPairs(c.builtFroms)
  }

  lemma {:induction false} NonEmptyOk(lines: seq<string>)
    requires forall i :: 0 <= i < |lines| ==> StoredLine(lines[i])
    ensures OkLines(NonEmpty(lines))
  {
    if lines == [] {
    } else {
      NonEmptyOk(lines[1..]);
    }
  }

  lemma {:induction false} CutOk(line: string)
    requires OkLine(line) && CutLine(line).Some?
    ensures OkPair(CutLine(line).value)
  {
    var sp := Find(line, ' ');
    var b := CutLine(line).value;
    assert forall i :: 0 <= i < sp ==> b.package[i] == line[i];
    assert forall i :: 0 <= i < |line| - sp - 1 ==> b.version[i] == line[sp + 1 + i];
  }

  lemma {:induction false} CutAllOk(lines: seq<string>)
    requires OkLines(lines) && CutAll(lines).Some?
    ensures OkPairs(CutAll(lines).value)
  {
    if lines == [] {
    } else {
      CutOk(lines[0]);
      CutAllOk(lines[1..]);
    }
  }

  lemma {:induction false} SingleOk(f: Field)
    requires StoredField(f) && Single(f).Some?
    ensures OkLine(Single(f).value)
  {
  }

  lemma {:induction false} SetFieldOk(c: Record, f: Field)
    requires OkRecord(c) && StoredField(f) && SetField(c, f).Some?
    ensures OkRecord(SetField(c, f).value)
  {
    hide OkLine, OkPair, CutAll, CutLine, NonEmpty, Single;
    NonEmptyOk(f.lines);
    if CutAll(NonEmpty(f.lines)).Some? {
      CutAllOk(NonEmpty(f.lines));
    }
    if Single(f).Some? {
      SingleOk(f);
      if CutLine(Single(f).value).Some? {
        CutOk(Single(f).value);
      }
    }
  }

  lemma {:induction false} SetFieldsOk(c: Record, fields: seq<Field>)
    requires OkRecord(c) && (forall i :: 0 <= i < |fields| ==> StoredField(fields[i])) && SetFields(c, fields).Some?
    ensures OkRecord(SetFields(c, fields).value)
    decreases |fields|
  {
    if fields == [] {
    } else {
      SetFieldOk(c, fields[0]);
      SetFieldsOk(SetField(c, fields[0]).value, fields[1..]);
    }
  }

  /** Whatever control_parsefd reads from any text consists of strings that can be printed again. */
  lemma {:induction false} ParsedOk(text: string)
    requires ParseControl(text).Some?
    ensures OkRecord(ParseControl(text).value)
  {
    ParseStructured(text);
    var paras := Parse(text).value;
    assert StoredPara(paras[0]);
    SetFieldsOk(EMPTY_RECORD, paras[0].fields);
  }

  // ---------- Reading the printed text ----------

  function Ended(lines: seq<string>): seq<string> { seq(|lines|, i requires 0 <= i < |lines| => lines[i] + "\n") }

  lemma {:induction false} NothingToSplit()
    ensures SplitLines("") == [] && Glue([]) == "" && Ended([]) == []
  {
  }

  lemma {:induction false} SplitGlue(lines: seq<string>)
    requires forall i :: 0 <= i < |lines| ==> '\n' !in lines[i]
    ensures SplitLines(Glue(lines)) == Ended(lines)
  {
    hide SplitLines;
    if lines == [] {
      NothingToSplit();
    } else {
      SplitGlue(lines[1..]);
      SplitCons(lines[0], Glue(lines[1..]));
      assert Ended(lines) == [lines[0] + "\n"] + Ended(lines[1..]);
    }
  }

  /** The state while the only paragraph is being read. */
  function One(fields: seq<Field>): State { State([Para(fields)], false) }

  predicate IsFieldName(name: string)
  {
    name != "" && ':' !in name && name[0] != '#' && !IsSpace(name[0])
  }

  lemma {:induction false} FieldLineStarts(name: string, rest: string)
    requires IsFieldName(name)
    ensures var line := name + ":" + rest;
            && !IsComment(line) && !IsBlank(line) && !IsSpace(line[0]) && Find(line, ':') == |name|
            && line[..|name|] == name && line[|name| + 1..] == rest
  {
    var line := name + ":" + rest;
    assert line[0] == name[0];
    assert line[..|name|] == name;
    FindUnique(line, ':', |name|);
    SpanUnique(line, IsSpace, 0);
  }

  lemma {:induction false} AddToLast(fields: seq<Field>, f: Field, value: string)
    ensures AddLine([Para(fields + [f])], value) == Some([Para(fields + [Field(f.name, f.lines + [value])])])
  {
    var all, g := fields + [f], Field(f.name, f.lines + [value]);
    assert all[|all| - 1 := g] == fields + [g];
    assert [Para(all)][0 := Para(fields + [g])] == [Para(fields + [g])];
  }

  /** A line that starts a field of the paragraph; `before` is the state in front of it. */
  lemma {:induction false} FieldLine(st: State, fields: seq<Field>, name: string, rest: string)
    requires IsFieldName(name) && (if fields == [] then st == INIT else st == One(fields))
    ensures Step(st, name + ":" + rest) == Some(One(fields + [Field(name, [Trim(rest)])]))
  {
    FieldLineStarts(name, rest);
    assert Opened(st) == [Para(fields)];
    var paras := AddField([Para(fields)], name);
    assert paras == [Para(fields + [Field(name, [])])];
    AddToLast(fields, Field(name, []), Trim(rest));
    assert [] + [Trim(rest)] == [Trim(rest)];
  }

  lemma {:induction false} ValueLine(st: State, fields: seq<Field>, name: string, value: string)
    requires IsFieldName(name) && (if fields == [] then st == INIT else st == One(fields)) && OkLine(value)
    ensures Step(st, name + ": " + value + "\n") == Some(One(fields + [Field(name, [value])]))
  {
    assert name + ": " + value + "\n" == name + ":" + (" " + value + "\n");
    FieldLine(st, fields, name, " " + value + "\n");
    TrimPadded(" ", value, "\n");
  }

  lemma {:induction false} EmptyFieldLine(fields: seq<Field>, name: string)
    requires IsFieldName(name) && fields != []
    ensures Step(One(fields), name + ":" + "\n") == Some(One(fields + [Field(name, [""])]))
  {
    FieldLine(One(fields), fields, name, "\n");
    SpanUnique("\n", IsSpace, 1);
  }

  lemma {:induction false} MoreLine(fields: seq<Field>, f: Field, item: string)
    requires OkLine(item)
    ensures Step(One(fields + [f]), "  " + item + "\n") == Some(One(fields + [Field(f.name, f.lines + [item])]))
  {
    var line := "  " + item + "\n";
    TrimPadded("  ", item, "\n");
    assert line[0] == ' ';
    AddToLast(fields, f, item);
  }

  /** The indented lines behind a field. */
  lemma {:induction false} MoreLines(fields: seq<Field>, f: Field, items: seq<string>)
    requires OkLines(items)
    ensures Run(One(fields + [f]), Ended(Indented(items))) == Some(One(fields + [Field(f.name, f.lines + items)]))
    decreases |items|
  {
    var lines := Ended(Indented(items));
    if items == [] {
      assert f.lines + items == f.lines;
    } else {
      assert lines == ["  " + items[0] + "\n"] + Ended(Indented(items[1..]));
      MoreLine(fields, f, items[0]);
      var f' := Field(f.name, f.lines + [items[0]]);
      MoreLines(fields, f', items[1..]);
      assert f'.lines + items[1..] == f.lines + items;
    }
  }

  // ---------- The paragraph that is read back ----------

  function HeadFields(p: Printed): seq<Field>
  {
    [Field("Package", [p.package]), Field("Version", [p.version]),
     Field("Source", [PairText(BuiltFrom(p.srcPackage, p.srcVersion))])]
  }

  function DependField(p: Printed): Field { Field("Depends-Run", [""] + p.runDepend) }

  function TailFields(bfs: seq<BuiltFrom>): seq<Field>
  {
    if bfs == [] then [] else [Field("Built-From", [""] + PairTexts(bfs))]
  }

  lemma {:induction false} PairOk(b: BuiltFrom)
    requires OkPair(b)
    ensures OkLine(PairText(b)) && CutLine(PairText(b)) == Some(b)
  {
    var t := PairText(b);
    assert t[..|b.package|] == b.package && t[|b.package| + 1..] == b.version;
    FindUnique(t, ' ', |b.package|);
    assert t[0] == b.package[0] && t[|t| - 1] == b.version[|b.version| - 1];
  }

  lemma {:induction false} HeadEnded(p: Printed)
    ensures Ended(HeadLines(p)) ==
            ["Package" + ": " + p.package + "\n", "Version" + ": " + p.version + "\n",
             "Source" + ": " + PairText(BuiltFrom(p.srcPackage, p.srcVersion)) + "\n", "Depends-Run" + ":" + "\n"]
  {
    assert "Package: " == "Package" + ": " && "Version: " == "Version" + ": " && "Source: " == "Source" + ": ";
    assert "Depends-Run:" == "Depends-Run" + ":";
  }

  lemma {:induction false} RunFour(st: State, l0: string, s0: State, l1: string, s1: State, l2: string, s2: State,
                                   l3: string, s3: State)
    requires Valid(st) && Step(st, l0) == Some(s0) && Valid(s0) && Step(s0, l1) == Some(s1) && Valid(s1)
    requires Step(s1, l2) == Some(s2) && Valid(s2) && Step(s2, l3) == Some(s3) && Valid(s3)
    ensures Run(st, [l0, l1, l2, l3]) == Some(s3)
  {
    hide Step;
    assert [l0, l1, l2, l3][1..] == [l1, l2, l3] && [l1, l2, l3][1..] == [l2, l3] && [l2, l3][1..] == [l3];
    assert Run(s2, [l3]) == Some(s3);
    assert Run(s1, [l2, l3]) == Some(s3);
    assert Run(s0, [l1, l2, l3]) == Some(s3);
  }

  lemma {:induction false} RunHead(p: Printed)
    requires Printable(p)
    ensures Run(INIT, Ended(HeadLines(p))) == Some(One(HeadFields(p) + [Field("Depends-Run", [""])]))
  {
    hide Step, OkLine, OkPair, Ended, CutLine;
    var pair := BuiltFrom(p.srcPackage, p.srcVersion);
    PairOk(pair);
    var f0, f1, f2 := Field("Package", [p.package]), Field("Version", [p.version]), Field("Source", [PairText(pair)]);
    ValueLine(INIT, [], "Package", p.package);
    assert [] + [f0] == [f0];
    ValueLine(One([f0]), [f0], "Version", p.version);
    assert [f0] + [f1] == [f0, f1];
    ValueLine(One([f0, f1]), [f0, f1], "Source", PairText(pair));
    assert [f0, f1] + [f2] == [f0, f1, f2];
    EmptyFieldLine([f0, f1, f2], "Depends-Run");
    HeadEnded(p);
    RunFour(INIT, "Package" + ": " + p.package + "\n", One([f0]), "Version" + ": " + p.version + "\n", One([f0, f1]),
            "Source" + ": " + PairText(pair) + "\n", One([f0, f1, f2]), "Depends-Run" + ":" + "\n",
            One([f0, f1, f2] + [Field("Depends-Run", [""])]));
  }

  lemma {:induction false} PairTextsOk(bfs: seq<BuiltFrom>)
    requires OkPairs(bfs)
    ensures OkLines(PairTexts(bfs))
  {
    hide OkPair, OkLine;
    forall i | 0 <= i < |bfs| ensures OkLine(PairTexts(bfs)[i]) {
      PairOk(bfs[i]);
    }
  }

  lemma {:induction false} RunTail(fields: seq<Field>, bfs: seq<BuiltFrom>)
    requires fields != [] && OkPairs(bfs)
    ensures Run(One(fields), Ended(TailLines(bfs))) == Some(One(fields + TailFields(bfs)))
  {
    hide Step, OkLine, OkPair;
    if bfs == [] {
      assert fields + [] == fields;
    } else {
      var items := PairTexts(bfs);
      PairTextsOk(bfs);
      EmptyFieldLine(fields, "Built-From");
      var line := "Built-From" + ":" + "\n";
      assert Ended(TailLines(bfs)) == [line] + Ended(Indented(items)) by {
        assert "Built-From:" == "Built-From" + ":";
      }
      MoreLines(fields, Field("Built-From", [""]), items);
    }
  }

  // ---------- The round trip ----------

  lemma {:induction false} EndedConcat(a: seq<string>, b: seq<string>)
    ensures Ended(a + b) == Ended(a) + Ended(b)
  {
  }

  lemma {:induction false} HeadNoNewlines(p: Printed)
    requires OkLine(p.package) && OkLine(p.version) && OkPair(BuiltFrom(p.srcPackage, p.srcVersion))
    ensures forall i :: 0 <= i < |HeadLines(p)| ==> '\n' !in HeadLines(p)[i]
  {
    hide Find, OkPair;
    PairOk(BuiltFrom(p.srcPackage, p.srcVersion));
  }

  lemma {:induction false} IndentedNoNewlines(items: seq<string>)
    requires OkLines(items)
    ensures forall i :: 0 <= i < |Indented(items)| ==> '\n' !in Indented(items)[i]
  {
    forall i | 0 <= i < |items| ensures '\n' !in "  " + items[i] {
      assert OkLine(items[i]);
    }
  }

  lemma {:induction false} NoNewlines(p: Printed)
    requires Printable(p)
    ensures forall i :: 0 <= i < |Lines(p)| ==> '\n' !in Lines(p)[i]
  {
    hide OkPair, OkLine, HeadLines, Indented, PairTexts;
    HeadNoNewlines(p);
    IndentedNoNewlines(p.runDepend);
    PairTextsOk(p.builtFroms);
    IndentedNoNewlines(PairTexts(p.builtFroms));
  }

  function AllFields(p: Printed): seq<Field> { HeadFields(p) + [DependField(p)] + TailFields(p.builtFroms) }

  /** The printed text is parsed into one paragraph with the printed fields. */
  lemma {:induction false} ParsePrinted(p: Printed)
    requires Printable(p)
    ensures Parse(Text(p)) == Some([Para(AllFields(p))])
  {
    hide Run, OkPair, OkLine, Ended;
    var head, mid, tail := HeadLines(p), Indented(p.runDepend), TailLines(p.builtFroms);
    NoNewlines(p);
    SplitGlue(Lines(p));
    EndedConcat(head + mid, tail);
    EndedConcat(head, mid);
    var fields, depend := HeadFields(p), Field("Depends-Run", [""]);
    RunHead(p);
    RunConcat(INIT, Ended(head), Ended(mid));
    MoreLines(fields, depend, p.runDepend);
    RunConcat(INIT, Ended(head) + Ended(mid), Ended(tail));
    RunTail(fields + [DependField(p)], p.builtFroms);
  }

  lemma {:induction false} NonEmptyAll(lines: seq<string>)
    requires OkLines(lines)
    ensures NonEmpty(lines) == lines
  {
    if lines == [] {
    } else {
      NonEmptyAll(lines[1..]);
    }
  }

  lemma {:induction false} CutPairs(bfs: seq<BuiltFrom>)
    requires OkPairs(bfs)
    ensures CutAll(PairTexts(bfs)) == Some(bfs)
  {
    hide CutLine, OkPair;
    var texts := PairTexts(bfs);
    if bfs == [] {
    } else {
      PairOk(bfs[0]);
      CutPairs(bfs[1..]);
      assert texts[1..] == PairTexts(bfs[1..]) && bfs == [bfs[0]] + bfs[1..];
    }
  }

  lemma {:induction false} SetTail(c: Record, bfs: seq<BuiltFrom>)
    requires OkPairs(bfs) && c.builtFroms == []
    ensures SetFields(c, TailFields(bfs)) == Some(c.(builtFroms := bfs))
  {
    if bfs != [] {
      var texts := PairTexts(bfs);
      PairTextsOk(bfs);
      NonEmptyAll(texts);
      CutPairs(bfs);
      assert NonEmpty([""] + texts) == texts by {
        assert ([""] + texts)[1..] == texts;
      }
      var f := Field("Built-From", [""] + texts);
      assert SetField(c, f) == Some(c.(builtFroms := bfs));
      assert [f][1..] == [];
    }
  }

  /** Each of the first four fields sets its part of the record. */
  lemma {:induction false} SetSource(p: Printed, c: Record)
    requires OkPair(BuiltFrom(p.srcPackage, p.srcVersion)) && c.srcPackage.None?
    ensures SetField(c, HeadFields(p)[2])
         == Some(c.(srcPackage := Some(p.srcPackage), srcVersion := Some(p.srcVersion)))
  {
    hide OkPair, CutLine;
    PairOk(BuiltFrom(p.srcPackage, p.srcVersion));
  }

  lemma {:induction false} SetDepends(p: Printed, c: Record)
    requires OkLines(p.runDepend) && c.runDepend == []
    ensures SetField(c, DependField(p)) == Some(c.(runDepend := p.runDepend))
  {
    NonEmptyAll(p.runDepend);
    assert ([""] + p.runDepend)[1..] == p.runDepend;
    assert NonEmpty(DependField(p).lines) == p.runDepend;
  }

  lemma {:induction false} SetNames(p: Printed, c: Record)
    requires OkLine(p.package) && OkLine(p.version)
    ensures c.package.None? ==> SetField(c, HeadFields(p)[0]) == Some(c.(package := Some(p.package)))
    ensures c.version.None? ==> SetField(c, HeadFields(p)[1]) == Some(c.(version := Some(p.version)))
  {
    hide CutLine, CutAll, NonEmpty;
  }

  lemma {:induction false} SetCons(c: Record, f: Field, next: Record, rest: seq<Field>)
    requires SetField(c, f) == Some(next)
    ensures SetFields(c, [f] + rest) == SetFields(next, rest)
  {
    hide SetField;
    assert ([f] + rest)[0] == f && ([f] + rest)[1..] == rest;
  }

  lemma {:induction false} SetFour(p: Printed)
    requires Printable(p)
    ensures SetFields(EMPTY_RECORD, AllFields(p)) == SetFields(AsRecord(p.(builtFroms := [])), TailFields(p.builtFroms))
  {
    hide SetField, SetFields, OkLine, OkPair, DependField;
    var f, d, tail := HeadFields(p), DependField(p), TailFields(p.builtFroms);
    var c0 := EMPTY_RECORD.(package := Some(p.package));
    var c1 := c0.(version := Some(p.version));
    var c2 := c1.(srcPackage := Some(p.srcPackage), srcVersion := Some(p.srcVersion));
    var c3 := c2.(runDepend := p.runDepend);
    SetNames(p, EMPTY_RECORD);
    SetNames(p, c0);
    SetSource(p, c1);
    SetDepends(p, c2);
    assert AllFields(p) == [f[0]] + ([f[1]] + ([f[2]] + ([d] + tail)));
    SetCons(EMPTY_RECORD, f[0], c0, [f[1]] + ([f[2]] + ([d] + tail)));
    SetCons(c0, f[1], c1, [f[2]] + ([d] + tail));
    SetCons(c1, f[2], c2, [d] + tail);
    SetCons(c2, d, c3, tail);
  }

  /** Printing a record and reading it back returns it, when its strings can stand in the file at all. */
  lemma {:induction false} RoundTrip(p: Printed)
    requires Printable(p)
    ensures ParseControl(Text(p)) == Some(AsRecord(p))
  {
    hide OkPair, OkLine, Text;
    ParsePrinted(p);
    var pair := BuiltFrom(p.srcPackage, p.srcVersion);
    PairOk(pair);
    NonEmptyAll(p.runDepend);
    SetFour(p);
    SetTail(AsRecord(p.(builtFroms := [])), p.builtFroms);
  }

  /** Exactly the printable records survive the round trip. */
  lemma {:induction false} RoundTripExactly(p: Printed)
    ensures ParseControl(Text(p)) == Some(AsRecord(p)) <==> Printable(p)
  {
    if ParseControl(Text(p)) == Some(AsRecord(p)) {
      ParsedOk(Text(p));
    }
    if Printable(p) {
      RoundTrip(p);
    }
  }

  // ---------- The printer as it runs ----------

  datatype VersionMode = VERSION_KEEP | VERSION_OVERRIDE | VERSION_APPEND

  function VersionText(mode: VersionMode, version: string, param: string): string
  {
    match mode
    case VERSION_KEEP => version
    case VERSION_OVERRIDE => param
    case VERSION_APPEND => version + param
  }

  /** What is printed for one package of a source; `nullText` is what the C library prints for a null pointer. */
  function PrintedOf(c: Source, b: Bin, mode: VersionMode, param: string, bfExtra: seq<BuiltFrom>,
                     nullText: string): Printed
    requires b.package.Some?
  {
    Printed(b.package.value, VersionText(mode, c.version.GetOr(nullText), param),
            c.source.GetOr(nullText), c.version.GetOr(nullText), b.runDepend, bfExtra)
  }

  lemma {:induction false} GlueSnoc(lines: seq<string>, line: string)
    ensures Glue(lines + [line]) == Glue(lines) + line + "\n"
  {
    if lines == [] {
      assert [] + [line] == [line] && [line][1..] == [];
    } else {
      assert (lines + [line])[1..] == lines[1..] + [line];
      GlueSnoc(lines[1..], line);
      assert lines[0] + "\n" + (Glue(lines[1..]) + line + "\n") == lines[0] + "\n" + Glue(lines[1..]) + line + "\n";
    }
  }

  /** The loops that print one indented line for each item behind what has been written. */
  method PrintItems(outf: string, items: seq<string>, ghost before: seq<string>) returns (out: string)
    requires outf == Glue(before)
    ensures out == Glue(before + Indented(items))
  {
    out := outf;
    var k := 0;
    assert before + Indented(items[..0]) == before;
    while k < |items|
      invariant 0 <= k <= |items|
      invariant out == Glue(before + Indented(items[..k]))
    {
      GlueSnoc(before + Indented(items[..k]), "  " + items[k]);
      assert before + Indented(items[..k + 1]) == before + Indented(items[..k]) + ["  " + items[k]];
      out := out + ("  " + items[k]) + "\n";
      k := k + 1;
    }
    assert items[..k] == items;
  }

  /** The first four lines. */
  method PrintHead(p: Printed) returns (out: string)
    ensures out == Glue(HeadLines(p))
  {
    var lines := HeadLines(p);
    out := "Package: " + p.package + "\n";
    assert Glue([lines[0]]) == out by {
      assert [] + [lines[0]] == [lines[0]];
      GlueSnoc([], lines[0]);
    }
    GlueSnoc([lines[0]], lines[1]);
    out := out + ("Version: " + p.version) + "\n";
    GlueSnoc([lines[0]] + [lines[1]], lines[2]);
    out := out + ("Source: " + (p.srcPackage + " " + p.srcVersion)) + "\n";
    GlueSnoc([lines[0]] + [lines[1]] + [lines[2]], lines[3]);
    out := out + "Depends-Run:" + "\n";
    assert [lines[0]] + [lines[1]] + [lines[2]] + [lines[3]] == lines;
  }

  /** The search for the package: earlier paragraphs need a name, since a null one would be compared as a string. */
  predicate Searchable(bins: seq<Bin>, name: string)
  {
    forall i :: 0 <= i < |bins| && (forall j :: 0 <= j < i ==> bins[j].package != Some(name)) ==> bins[i].package.Some?
  }

  predicate FirstNamed(bins: seq<Bin>, name: string, k: nat)
  {
    k < |bins| && bins[k].package == Some(name) && forall j :: 0 <= j < k ==> bins[j].package != Some(name)
  }

  method Generate(c: Source, name: string, mode: VersionMode, param: string, bfExtra: seq<BuiltFrom>, nullText: string)
    returns (out: Option<string>)
    requires Searchable(c.bins, name)
    ensures out.None? <==> forall k :: 0 <= k < |c.bins| ==> c.bins[k].package != Some(name)
    ensures out.Some? ==>
              exists k: nat ::
                && FirstNamed(c.bins, name, k)
                && out.value == Text(PrintedOf(c, c.bins[k], mode, param, bfExtra, nullText))
  {
    hide Glue;
    var k := 0;
    while k < |c.bins| && c.bins[k].package.value != name
      invariant 0 <= k <= |c.bins|
      invariant forall j :: 0 <= j < k ==> c.bins[j].package != Some(name)
    {
      k := k + 1;
    }
    if k == |c.bins| {
      return None;
    }
    assert FirstNamed(c.bins, name, k);
    var p := PrintedOf(c, c.bins[k], mode, param, bfExtra, nullText);
    var outf := PrintHead(p);
    ghost var lines := HeadLines(p);
    outf := PrintItems(outf, p.runDepend, lines);
    lines := lines + Indented(p.runDepend);
    if bfExtra != [] {
      GlueSnoc(lines, "Built-From:");
      outf := outf + "Built-From:" + "\n";
      outf := PrintItems(outf, PairTexts(bfExtra), lines + ["Built-From:"]);
      assert lines + ["Built-From:"] + Indented(PairTexts(bfExtra)) == lines + TailLines(bfExtra);
    } else {
      assert lines + TailLines(bfExtra) == lines;
    }
    return Some(outf);
  }
}
