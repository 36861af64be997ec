/** Control records read from parsed control files (tools/control.c). */
module Control {
  import opened Chars
  import opened ControlParse
  import opened ControlNodes
  import opened ControlFile

  datatype BuiltFrom = BuiltFrom(package: string, version: string)

  /** The control file of a binary package; None is a null pointer. */
  datatype Record = Record(package: Option<string>, version: Option<string>,
                           srcPackage: Option<string>, srcVersion: Option<string>,
                           runDepend: seq<string>, builtFroms: seq<BuiltFrom>)

  const EMPTY_RECORD := Record(None, None, None, None, [], [])

  // ---------- Field contents ----------

  function NonEmpty(lines: seq<string>): seq<string>
  {
    if lines == [] then []
    else (if lines[0] != "" then [lines[0]] else []) + NonEmpty(lines[1..])
  }

  /** A line is cut at its first space. */
  function CutLine(line: string): Option<BuiltFrom>
  {
    var sp := Find(line, ' ');
    if sp == |line| then None else Some(BuiltFrom(line[..sp], line[sp + 1..]))
  }

  function CutAll(lines: seq<string>): Option<seq<BuiltFrom>>
  {
    if lines == [] then Some([]) else
    var head := CutLine(lines[0]);
    var rest := CutAll(lines[1..]);
    if head.None? || rest.None? then None else Some([head.value] + rest.value)
  }

  function Single(f: Field): Option<string>
  {
    if |f.lines| == 1 && f.lines[0] != "" then Some(f.lines[0]) else None
  }

  lemma {:induction false} SingleIs(f: Field)
    ensures Single(f).Some? <==> exists s :: s != "" && f.lines == [s]
    ensures Single(f).Some? ==> Single(f).value != "" && f.lines == [Single(f).value]
  {
    if Single(f).Some? {
      assert f.lines == [f.lines[0]];
    }
  }

  // ---------- Binary packages ----------

  /** The record after one more field; None for an unknown, repeated or malformed one. */
  function SetField(c: Record, f: Field): Option<Record>
  {
    if f.name == "Depends-Run" then
      if c.runDepend != [] then None else Some(c.(runDepend := NonEmpty(f.lines)))
    else if f.name == "Built-From" then
      var cut := CutAll(NonEmpty(f.lines));
      if c.builtFroms != [] || cut.None? then None else Some(c.(builtFroms := cut.value))
    else if f.name == "Package" then
      if c.package.Some? || Single(f).None? then None else Some(c.(package := Single(f)))
    else if f.name == "Version" then
      if c.version.Some? || Single(f).None? then None else Some(c.(version := Single(f)))
    else if f.name == "Source" then
      if c.srcPackage.Some? || Single(f).None? then None else
      var cut := CutLine(Single(f).value);
      if cut.None? then None
      else Some(c.(srcPackage := Some(cut.value.package), srcVersion := Some(cut.value.version)))
    else None
  }

  function SetFields(c: Record, fields: seq<Field>): Option<Record>
    decreases |fields|
  {
    if fields == [] then Some(c) else
    var next := SetField(c, fields[0]);
    if next.None? then None else SetFields(next.value, fields[1..])
  }

  function ParseControl(text: string): Option<Record>
  {
    var paras := Parse(text);
    if paras.None? || |paras.value| != 1 then None else SetFields(EMPTY_RECORD, paras.value[0].fields)
  }

  // ---------- The helpers that append to lists ----------

  lemma {:induction false} NonEmptyCons(line: string, lines: seq<string>)
    ensures NonEmpty([]) == []
    ensures NonEmpty([line] + lines) == (if line != "" then [line] else []) + NonEmpty(lines)
  {
    assert ([line] + lines)[0] == line && ([line] + lines)[1..] == lines;
  }

  lemma {:induction false} NonEmptySnoc(lines: seq<string>, line: string)
    ensures NonEmpty(lines + [line]) == NonEmpty(lines) + if line != "" then [line] else []
    decreases |lines|
  {
    hide NonEmpty;
    if lines == [] {
      NonEmptyCons(line, []);
      assert lines + [line] == [line] + [];
    } else {
      var x, rest := lines[0], lines[1..];
      NonEmptyCons(x, rest);
      NonEmptyCons(x, rest + [line]);
      assert lines == [x] + rest && lines + [line] == [x] + (rest + [line]);
      NonEmptySnoc(rest, line);
    }
  }

  lemma {:induction false} CutAllSnoc(lines: seq<string>, line: string)
    ensures CutAll(lines + [line]) ==
            if CutAll(lines).None? || CutLine(line).None? then None
            else Some(CutAll(lines).value + [CutLine(line).value])
  {
    if lines == [] {
      assert [] + [line] == [line] && [line][1..] == [];
      if CutLine(line).Some? {
        assert [CutLine(line).value] + [] == [] + [CutLine(line).value];
      }
    } else {
      assert (lines + [line])[1..] == lines[1..] + [line];
      CutAllSnoc(lines[1..], line);
      var head, rest := CutLine(lines[0]), CutAll(lines[1..]);
      if head.Some? && rest.Some? && CutLine(line).Some? {
        var x := CutLine(line).value;
        assert [head.value] + (rest.value + [x]) == ([head.value] + rest.value) + [x];
      }
    }
  }

  /** A line that cannot be cut spoils the whole list. */
  lemma {:induction false} CutAllPrefix(lines: seq<string>, k: nat)
    requires k <= |lines| && CutAll(lines[..k]).None?
    ensures CutAll(lines).None?
    decreases |lines| - k
  {
    if k < |lines| {
      assert lines[..k + 1] == lines[..k] + [lines[k]];
      CutAllSnoc(lines[..k], lines[k]);
      CutAllPrefix(lines, k + 1);
    } else {
      assert lines[..k] == lines;
    }
  }

  /** parse_deplist and parse_sourcelist: every non-empty line of the list is appended to the list at `pcd`. */
  method ParseDeplist(pf: FieldNode, pcd: seq<string>) returns (ok: bool, out: seq<string>)
    requires pf.Valid()
    ensures ok <==> pcd == []
    ensures ok ==> out == NonEmpty(pf.value)
  {
    out := pcd;
    if pcd != [] {
      return false, out;
    }
    var pl := pf.lineFirst;
    ghost var k := 0;
    while pl != null
      invariant 0 <= k <= |pf.lines| && pl == if k < |pf.lines| then pf.lines[k] else null
      invariant out == NonEmpty(pf.value[..k])
      decreases |pf.lines| - k
    {
      NonEmptySnoc(pf.value[..k], pf.value[k]);
      assert pf.value[..k + 1] == pf.value[..k] + [pf.value[k]];
      if pl.line != "" {
        out := out + [pl.line];
      }
      pl, k := pl.next, k + 1;
    }
    assert pf.value[..k] == pf.value;
    return true, out;
  }

  lemma {:induction false} CutNothing()
    ensures CutAll(NonEmpty([])) == Some([])
  {
  }

  lemma {:induction false} NonEmptyPrefix(lines: seq<string>, k: nat)
    requires k <= |lines|
    ensures NonEmpty(lines[..k]) <= NonEmpty(lines)
    decreases |lines| - k
  {
    if k < |lines| {
      assert lines[..k + 1] == lines[..k] + [lines[k]];
      NonEmptySnoc(lines[..k], lines[k]);
      NonEmptyPrefix(lines, k + 1);
    } else {
      assert lines[..k] == lines;
    }
  }

  /** One more line of the field: it is skipped, cut, or spoils the list. */
  lemma {:induction false} NextCut(lines: seq<string>, k: nat)
    requires k < |lines| && CutAll(NonEmpty(lines[..k])).Some?
    ensures var was, now, cut := CutAll(NonEmpty(lines[..k])), CutAll(NonEmpty(lines[..k + 1])), CutLine(lines[k]);
            if lines[k] == "" then now == was
            else if cut.None? then CutAll(NonEmpty(lines)).None?
            else now == Some(was.value + [cut.value])
  {
    hide CutLine;
    assert lines[..k + 1] == lines[..k] + [lines[k]];
    NonEmptySnoc(lines[..k], lines[k]);
    CutAllSnoc(NonEmpty(lines[..k]), lines[k]);
    if lines[k] == "" {
      assert NonEmpty(lines[..k]) + [] == NonEmpty(lines[..k]);
    } else if CutLine(lines[k]).None? {
      NonEmptyPrefix(lines, k + 1);
      var some := NonEmpty(lines[..k + 1]);
      assert NonEmpty(lines)[..|some|] == some;
      CutAllPrefix(NonEmpty(lines), |some|);
    }
  }

  method ParseBuiltFromList(pf: FieldNode, pbf: seq<BuiltFrom>) returns (ok: bool, out: seq<BuiltFrom>)
    requires pf.Valid()
    ensures ok <==> pbf == [] && CutAll(NonEmpty(pf.value)).Some?
    ensures ok ==> out == CutAll(NonEmpty(pf.value)).value
  {
    hide CutAll;
    out := pbf;
    if pbf != [] {
      return false, out;
    }
    CutNothing();
    var pl := pf.lineFirst;
    ghost var k := 0;
    while pl != null
      invariant 0 <= k <= |pf.lines| && pl == if k < |pf.lines| then pf.lines[k] else null
      invariant CutAll(NonEmpty(pf.value[..k])) == Some(out)
      decreases |pf.lines| - k
    {
      NextCut(pf.value, k);
      if pl.line != "" {
        var space := Find(pl.line, ' ');
        if space == |pl.line| {
          return false, out;
        }
        out := out + [BuiltFrom(pl.line[..space], pl.line[space + 1..])];
      }
      pl, k := pl.next, k + 1;
    }
    assert pf.value[..k] == pf.value;
    return true, out;
  }

  // ---------- The record as it is filled in ----------

  /** The list must consist of one non-empty line. */
  method ParseSingleLine(pf: FieldNode, ps: Option<string>) returns (ok: bool, out: Option<string>)
    requires pf.Valid()
    ensures ok <==> ps.None? && exists s :: s != "" && pf.value == [s]
    ensures ok ==> out.Some? && out.value != "" && pf.value == [out.value]
  {
    assert |pf.lines| > 1 ==> pf.lines[0].next == pf.lines[1];
    if ps.Some? || pf.lineFirst == null || pf.lineFirst.next != null || pf.lineFirst.line == "" {
      return false, ps;
    }
    assert pf.value == [pf.lineFirst.line];
    return true, Some(pf.lineFirst.line);
  }

  class ControlData {
    var package: Option<string>
    var version: Option<string>
    var srcPackage: Option<string>
    var srcVersion: Option<string>
    var runDepend: seq<string>
    var builtFroms: seq<BuiltFrom>

    function Value(): Record
      reads this
    {
      Record(package, version, srcPackage, srcVersion, runDepend, builtFroms)
    }

    constructor ()
      ensures Value() == EMPTY_RECORD
    {
      package, version, srcPackage, srcVersion, runDepend, builtFroms := None, None, None, None, [], [];
    }

    /** One field: each of the branches of the C code calls the parser for its kind of field. */
    method Set(pf: FieldNode) returns (ok: bool)
      requires pf.Valid()
      modifies this
      ensures ok <==> SetField(old(Value()), pf.AsField()).Some?
      ensures ok ==> Value() == SetField(old(Value()), pf.AsField()).value
    {
      hide FieldNode.Valid, Single;
      SingleIs(pf.AsField());
      if pf.name == "Depends-Run" {
        ok, runDepend := ParseDeplist(pf, runDepend);
      } else if pf.name == "Built-From" {
        ok, builtFroms := ParseBuiltFromList(pf, builtFroms);
      } else if pf.name == "Package" {
        ok, package := ParseSingleLine(pf, package);
      } else if pf.name == "Version" {
        ok, version := ParseSingleLine(pf, version);
      } else if pf.name == "Source" {
        var line;
        ok, line := ParseSingleLine(pf, srcPackage);
        if ok {
          var space := Find(line.value, ' ');
          if space == |line.value| {
            return false;
          }
          srcPackage, srcVersion := Some(line.value[..space]), Some(line.value[space + 1..]);
        }
      } else {
        ok := false;
      }
    }

    /** The loop over the fields of a paragraph. */
    method SetAll(pp: ParaNode) returns (ok: bool)
      requires pp.Valid() && this !in pp.nodes
      modifies this
      ensures ok <==> SetFields(old(Value()), pp.value).Some?
      ensures ok ==> Value() == SetFields(old(Value()), pp.value).value
    {
      hide SetField, FieldNode.Valid;
      var pf := pp.fieldFirst;
      ghost var k := 0;
      while pf != null
        invariant 0 <= k <= |pp.fields| && pf == if k < |pp.fields| then pp.fields[k] else null
        invariant pp.Valid()
        invariant SetFields(old(Value()), pp.value) == SetFields(Value(), pp.value[k..])
        decreases |pp.fields| - k
      {
        assert pp.value[k..][0] == pf.AsField() && pp.value[k..][1..] == pp.value[k + 1..];
        ok := Set(pf);
        if !ok {
          return;
        }
        pf, k := pf.next, k + 1;
      }
      return true;
    }
  }

  /** control_parsefd: exactly one paragraph, whose fields are set one by one. */
  method ControlParseFd(text: string) returns (ok: bool, c: ControlData)
    ensures fresh(c)
    ensures ok <==> ParseControl(text).Some?
    ensures ok ==> c.Value() == ParseControl(text).value
  {
    hide SetFields, ParaNode.Valid;
    c := new ControlData();
    var p;
    ok, p := ParseFd(text);
    if !ok {
      return;
    }
    var pp := p.paraFirst;
    assert |p.paras| > 1 ==> p.paras[0].next == p.paras[1];
    if pp == null || pp.next != null {
      return false, c;
    }
    ok := c.SetAll(pp);
  }

  // ---------- Where the parts of a record come from ----------

  /** The fields of one name. */
  function Named(fields: seq<Field>, name: string): seq<Field>
  {
    if fields == [] then []
    else (if fields[0].name == name then [fields[0]] else []) + Named(fields[1..], name)
  }

  /** All non-empty lines of the fields of one name, in order. */
  function LinesOf(fields: seq<Field>, name: string): seq<string>
  {
    if fields == [] then []
    else (if fields[0].name == name then NonEmpty(fields[0].lines) else []) + LinesOf(fields[1..], name)
  }

  /** No field of the name, or one that consists of this single line. */
  predicate OnlyLine(fields: seq<Field>, name: string, s: Option<string>)
  {
    && Named(fields, name) == (if s.None? then [] else [Field(name, [s.value])])
    && (s.Some? ==> s.value != "")
  }

  /** The line is the pair with a space in between, and has no space before that. */
  predicate IsPair(line: string, b: BuiltFrom)
  {
    line == b.package + " " + b.version && ' ' !in b.package
  }

  predicate ArePairs(lines: seq<string>, bfs: seq<BuiltFrom>)
  {
    |lines| == |bfs| && forall i :: 0 <= i < |bfs| ==> IsPair(lines[i], bfs[i])
  }

  /** No field of the name Source, or one that consists of a single line with the pair. */
  predicate OnlyPair(fields: seq<Field>, srcPackage: Option<string>, srcVersion: Option<string>)
  {
    if srcPackage.Some? && srcVersion.Some? then
      && OnlyLine(fields, "Source", Some(srcPackage.value + " " + srcVersion.value))
      && ' ' !in srcPackage.value
    else srcPackage == srcVersion == None && Named(fields, "Source") == []
  }

  lemma {:induction false} CutIsPair(line: string)
    requires CutLine(line).Some?
    ensures IsPair(line, CutLine(line).value)
  {
    var sp := Find(line, ' ');
    assert line == line[..sp] + " " + line[sp + 1..];
  }

  lemma {:induction false} CutArePairs(lines: seq<string>)
    requires CutAll(lines).Some?
    ensures ArePairs(lines, CutAll(lines).value)
  {
    hide CutLine, IsPair;
    if lines == [] {
    } else {
      CutIsPair(lines[0]);
      CutArePairs(lines[1..]);
    }
  }

  /** Each field sets the one part of the record that it names; the parts with a single line only once. */
  lemma {:induction false} SetPart(c: Record, f: Field)
    requires SetField(c, f).Some?
    ensures var r := SetField(c, f).value;
            && (if f.name == "Package" then c.package.None? && r.package == Single(f) && Single(f).Some?
                else r.package == c.package)
            && (if f.name == "Version" then c.version.None? && r.version == Single(f) && Single(f).Some?
                else r.version == c.version)
            && (if f.name == "Depends-Run" then c.runDepend == [] && r.runDepend == NonEmpty(f.lines)
                else r.runDepend == c.runDepend)
  {
    hide CutLine, CutAll, NonEmpty, Single;
  }

  lemma {:induction false} SetPairs(c: Record, f: Field)
    requires SetField(c, f).Some?
    ensures var r := SetField(c, f).value;
            && (if f.name == "Source" then
                  && c.srcPackage.None? && Single(f).Some? && r.srcPackage.Some? && r.srcVersion.Some?
                  && CutLine(Single(f).value) == Some(BuiltFrom(r.srcPackage.value, r.srcVersion.value))
                else r.srcPackage == c.srcPackage && r.srcVersion == c.srcVersion)
            && (if f.name == "Built-From" then c.builtFroms == [] && CutAll(NonEmpty(f.lines)) == Some(r.builtFroms)
                else r.builtFroms == c.builtFroms)
  {
    hide CutLine, CutAll, NonEmpty, Single;
  }

  lemma {:induction false} PackageOnce(c: Record, fields: seq<Field>)
    requires SetFields(c, fields).Some?
    ensures var r := SetFields(c, fields).value;
            if c.package.Some? then r.package == c.package && Named(fields, "Package") == []
            else OnlyLine(fields, "Package", r.package)
    decreases |fields|
  {
    hide SetField, Single;
    if fields == [] {
    } else {
      SetPart(c, fields[0]);
      SingleIs(fields[0]);
      PackageOnce(SetField(c, fields[0]).value, fields[1..]);
    }
  }

  lemma {:induction false} VersionOnce(c: Record, fields: seq<Field>)
    requires SetFields(c, fields).Some?
    ensures var r := SetFields(c, fields).value;
            if c.version.Some? then r.version == c.version && Named(fields, "Version") == []
            else OnlyLine(fields, "Version", r.version)
    decreases |fields|
  {
    hide SetField, Single;
    if fields == [] {
    } else {
      SetPart(c, fields[0]);
      SingleIs(fields[0]);
      VersionOnce(SetField(c, fields[0]).value, fields[1..]);
    }
  }

  lemma {:induction false} SourceOnce(c: Record, fields: seq<Field>)
    requires SetFields(c, fields).Some? && (c.srcPackage.Some? <==> c.srcVersion.Some?)
    ensures var r := SetFields(c, fields).value;
            if c.srcPackage.Some? then
              r.srcPackage == c.srcPackage && r.srcVersion == c.srcVersion && Named(fields, "Source") == []
            else OnlyPair(fields, r.srcPackage, r.srcVersion)
    decreases |fields|
  {
    hide SetField, Single, CutLine;
    if fields == [] {
    } else {
      SetPairs(c, fields[0]);
      SingleIs(fields[0]);
      if fields[0].name == "Source" {
        CutIsPair(Single(fields[0]).value);
      }
      SourceOnce(SetField(c, fields[0]).value, fields[1..]);
    }
  }

  lemma {:induction false} NoLines(name: string)
    ensures LinesOf([], name) == []
  {
  }

  /** One field in front of the others: only a field of the name adds lines, and only to an empty list. */
  lemma {:induction false} NextLines(was: seq<string>, fields: seq<Field>, name: string, next: seq<string>)
    requires fields != []
    requires if fields[0].name == name then was == [] && next == NonEmpty(fields[0].lines) else next == was
    ensures next + LinesOf(fields[1..], name) == was + LinesOf(fields, name)
  {
    hide NonEmpty;
  }

  lemma {:induction false} DependsInOrder(c: Record, fields: seq<Field>)
    requires SetFields(c, fields).Some?
    ensures SetFields(c, fields).value.runDepend == c.runDepend + LinesOf(fields, "Depends-Run")
    decreases |fields|
  {
    hide SetField, NonEmpty, LinesOf;
    if fields == [] {
      NoLines("Depends-Run");
    } else {
      var next := SetField(c, fields[0]).value;
      SetPart(c, fields[0]);
      NextLines(c.runDepend, fields, "Depends-Run", next.runDepend);
      DependsInOrder(next, fields[1..]);
    }
  }

  lemma {:induction false} BuiltFromsInOrder(c: Record, fields: seq<Field>)
    requires SetFields(c, fields).Some?
    ensures c.builtFroms == [] ==> ArePairs(LinesOf(fields, "Built-From"), SetFields(c, fields).value.builtFroms)
    ensures c.builtFroms != [] ==>
              LinesOf(fields, "Built-From") == [] && SetFields(c, fields).value.builtFroms == c.builtFroms
    decreases |fields|
  {
    hide SetField, NonEmpty, CutAll, IsPair;
    if fields == [] {
    } else {
      var next := SetField(c, fields[0]).value;
      SetPairs(c, fields[0]);
      BuiltFromsInOrder(next, fields[1..]);
      if fields[0].name == "Built-From" {
        CutArePairs(NonEmpty(fields[0].lines));
      }
    }
  }

  /** Where everything in an accepted record comes from: package and version are the one non-empty line of the one field
      of that name, the source pair is the line of the Source field cut at its first space, and a part is missing only
      if there is no such field; the lists are all non-empty lines of the fields of their name, in order, those of
      the built-from list cut at their first spaces. */
  lemma {:induction false} RecordParts(text: string)
    requires ParseControl(text).Some?
    ensures var c, fields := ParseControl(text).value, Parse(text).value[0].fields;
            && OnlyLine(fields, "Package", c.package) && OnlyLine(fields, "Version", c.version)
            && OnlyPair(fields, c.srcPackage, c.srcVersion)
            && c.runDepend == LinesOf(fields, "Depends-Run")
            && ArePairs(LinesOf(fields, "Built-From"), c.builtFroms)
  {
    hide SetFields, OnlyLine, OnlyPair, ArePairs, LinesOf;
    var fields := Parse(text).value[0].fields;
    PackageOnce(EMPTY_RECORD, fields);
    VersionOnce(EMPTY_RECORD, fields);
    SourceOnce(EMPTY_RECORD, fields);
    DependsInOrder(EMPTY_RECORD, fields);
    BuiltFromsInOrder(EMPTY_RECORD, fields);
    assert [] + LinesOf(fields, "Depends-Run") == LinesOf(fields, "Depends-Run");
  }
}
