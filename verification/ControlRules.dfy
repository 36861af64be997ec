/** Exactly which control files are accepted, and where everything in a source control file comes from
    (tools/control.c). */
module ControlRules {
  import opened Chars
  import opened ControlParse
  import opened ControlFile
  import opened Control
  import opened SourceControl

  // ---------- Kinds of fields ----------

  /** One non-empty line; one line with a space in it; lines; lines each of which is empty or has a space in it. */
  datatype Kind = SingleLine | PairLine | LineList | PairList

  /** The fields that a paragraph may have. */
  type Spec = map<string, Kind>

  const BINARY: Spec := map["Package" := SingleLine, "Version" := SingleLine, "Source" := PairLine,
                            "Depends-Run" := LineList, "Built-From" := PairList]

  const SOURCE: Spec := map["Source" := SingleLine, "Version" := SingleLine, "Depends-Build" := LineList,
                            "Depends-Unpack" := LineList, "Depends-Run" := LineList, "Sources" := LineList]

  const PACKAGE: Spec := map["Package" := SingleLine, "Depends-Run" := LineList]

  predicate HasForm(kind: Kind, lines: seq<string>)
  {
    match kind
    case SingleLine => |lines| == 1 && lines[0] != ""
    case PairLine => |lines| == 1 && ' ' in lines[0]
    case LineList => true
    case PairList => forall i :: 0 <= i < |lines| ==> lines[i] == "" || ' ' in lines[i]
  }

  /** Behind such a field no other one of the same name is accepted. */
  predicate Fills(kind: Kind, lines: seq<string>)
  {
    kind == SingleLine || kind == PairLine || exists i :: 0 <= i < |lines| && lines[i] != ""
  }

  /** Every field is known and well-formed, and only lists that are still empty may be given again. */
  predicate AcceptedFields(spec: Spec, fields: seq<Field>)
  {
    && (forall i :: 0 <= i < |fields| ==> fields[i].name in spec && HasForm(spec[fields[i].name], fields[i].lines))
    && (forall i, j :: 0 <= i < j < |fields| && fields[i].name == fields[j].name ==>
          !Fills(spec[fields[i].name], fields[i].lines))
  }

  /** The same where the fields named in `filled` have been given already. */
  predicate AcceptedBehind(spec: Spec, filled: set<string>, fields: seq<Field>)
  {
    AcceptedFields(spec, fields) && forall i :: 0 <= i < |fields| ==> fields[i].name !in filled
  }

  lemma {:induction false} NextAccepted(spec: Spec, filled: set<string>, fields: seq<Field>, next: set<string>)
    requires fields != [] && fields[0].name in spec
    requires next == if Fills(spec[fields[0].name], fields[0].lines) then filled + {fields[0].name} else filled
    ensures AcceptedBehind(spec, filled, fields) <==>
            && HasForm(spec[fields[0].name], fields[0].lines) && fields[0].name !in filled
            && AcceptedBehind(spec, next, fields[1..])
  {
    hide HasForm, Fills;
    var f, rest := fields[0], fields[1..];
    assert forall i :: 0 <= i < |rest| ==> rest[i] == fields[i + 1];
    if AcceptedBehind(spec, next, rest) && HasForm(spec[f.name], f.lines) && f.name !in filled {
      forall i | 0 <= i < |fields|
        ensures fields[i].name in spec && HasForm(spec[fields[i].name], fields[i].lines) && fields[i].name !in filled
      {
        assert i > 0 ==> fields[i] == rest[i - 1];
      }
      forall i, j | 0 <= i < j < |fields| && fields[i].name == fields[j].name
        ensures !Fills(spec[fields[i].name], fields[i].lines)
      {
        assert fields[j] == rest[j - 1];
        assert i > 0 ==> fields[i] == rest[i - 1];
      }
    }
  }

  // ---------- What the helpers accept ----------

  lemma {:induction false} CutForm(line: string)
    ensures CutLine(line).Some? <==> ' ' in line
  {
  }

  lemma {:induction false} SingleForm(f: Field)
    ensures Single(f).Some? <==> HasForm(SingleLine, f.lines)
    ensures HasForm(PairLine, f.lines) <==> Single(f).Some? && CutLine(Single(f).value).Some?
  {
    if |f.lines| == 1 {
      CutForm(f.lines[0]);
    }
  }

  lemma {:induction false} NonEmptyForm(lines: seq<string>)
    ensures NonEmpty(lines) == [] <==> !Fills(LineList, lines)
  {
    if lines == [] {
    } else {
      NonEmptyForm(lines[1..]);
      assert forall i :: 0 < i < |lines| ==> lines[i] == lines[1..][i - 1];
    }
  }

  lemma {:induction false} CutAllForm(lines: seq<string>)
    ensures CutAll(NonEmpty(lines)).Some? <==> HasForm(PairList, lines)
    ensures CutAll(NonEmpty(lines)).Some? ==> (CutAll(NonEmpty(lines)).value == [] <==> NonEmpty(lines) == [])
  {
    hide CutLine;
    if lines == [] {
    } else {
      CutForm(lines[0]);
      CutAllForm(lines[1..]);
      assert forall i :: 0 < i < |lines| ==> lines[i] == lines[1..][i - 1];
      if lines[0] != "" {
        var all := [lines[0]] + NonEmpty(lines[1..]);
        assert all[0] == lines[0] && all[1..] == NonEmpty(lines[1..]);
      } else {
        assert [] + NonEmpty(lines[1..]) == NonEmpty(lines[1..]);
      }
    }
  }

  // ---------- Binary packages ----------

  function Given(c: Record): set<string>
  {
    (if c.package.Some? then {"Package"} else {}) + (if c.version.Some? then {"Version"} else {})
    + (if c.srcPackage.Some? then {"Source"} else {}) + (if c.runDepend != [] then {"Depends-Run"} else {})
    + (if c.builtFroms != [] then {"Built-From"} else {})
  }

  lemma {:induction false} SameFills(lines: seq<string>)
    ensures Fills(SingleLine, lines) && Fills(PairLine, lines)
    ensures Fills(PairList, lines) <==> Fills(LineList, lines)
  {
  }

  lemma {:induction false} FieldAccepted(c: Record, f: Field)
    ensures SetField(c, f).Some? <==>
            f.name in BINARY && HasForm(BINARY[f.name], f.lines) && f.name !in Given(c)
  {
    hide CutLine, CutAll, NonEmpty, Single, Fills;
    SingleForm(f);
    CutAllForm(f.lines);
  }

  lemma {:induction false} FieldAcceptedGiven(c: Record, f: Field)
    requires SetField(c, f).Some? && f.name in BINARY
    ensures Given(SetField(c, f).value) == if Fills(BINARY[f.name], f.lines) then Given(c) + {f.name} else Given(c)
  {
    hide CutLine, CutAll, NonEmpty, Single, Fills, HasForm, SetField;
    NonEmptyForm(f.lines);
    CutAllForm(f.lines);
    SameFills(f.lines);
    SetPart(c, f);
    SetPairs(c, f);
  }

  lemma {:induction false} FieldsAccepted(c: Record, fields: seq<Field>)
    ensures SetFields(c, fields).Some? <==> AcceptedBehind(BINARY, Given(c), fields)
    decreases |fields|
  {
    hide SetField, HasForm, Fills, Given;
    if fields == [] {
    } else {
      FieldAccepted(c, fields[0]);
      if fields[0].name in BINARY {
        var f := fields[0];
        var next := if Fills(BINARY[f.name], f.lines) then Given(c) + {f.name} else Given(c);
        NextAccepted(BINARY, Given(c), fields, next);
        if SetField(c, fields[0]).Some? {
          FieldAcceptedGiven(c, fields[0]);
          FieldsAccepted(SetField(c, fields[0]).value, fields[1..]);
        }
      }
    }
  }

  /** A control file of a binary package is accepted exactly if it is a file of one paragraph with fields of the five
      names, each of its form, and none given again behind one with content. */
  lemma {:induction false} BinaryAccepted(text: string)
    ensures ParseControl(text).Some? <==>
            Parse(text).Some? && |Parse(text).value| == 1 && AcceptedFields(BINARY, Parse(text).value[0].fields)
  {
    hide SetFields, AcceptedFields;
    var paras := Parse(text);
    if paras.Some? && |paras.value| == 1 {
      FieldsAccepted(EMPTY_RECORD, paras.value[0].fields);
    }
  }

  // ---------- Source control files ----------

  function HeadGiven(h: Head): set<string>
  {
    (if h.rec.source.Some? then {"Source"} else {}) + (if h.rec.version.Some? then {"Version"} else {})
    + (if h.rec.buildDepend != [] then {"Depends-Build"} else {})
    + (if h.rec.unpackDepend != [] then {"Depends-Unpack"} else {})
    + (if h.runDeps != [] then {"Depends-Run"} else {}) + (if h.rec.sources != [] then {"Sources"} else {})
  }

  lemma {:induction false} HeadListAccepted(h: Head, f: Field)
    requires f.name !in {"Source", "Version"}
    ensures SetHead(h, f).Some? <==>
            f.name in SOURCE && HasForm(SOURCE[f.name], f.lines) && f.name !in HeadGiven(h)
  {
    hide NonEmpty, Single, Fills;
    assert HasForm(LineList, f.lines);
  }

  lemma {:induction false} HeadAccepted(h: Head, f: Field)
    ensures SetHead(h, f).Some? <==>
            f.name in SOURCE && HasForm(SOURCE[f.name], f.lines) && f.name !in HeadGiven(h)
  {
    hide NonEmpty, Single, Fills;
    SingleForm(f);
    if f.name !in {"Source", "Version"} {
      HeadListAccepted(h, f);
    }
  }

  lemma {:induction false} SetHeadPart(h: Head, f: Field)
    requires SetHead(h, f).Some?
    ensures var c, r := h.rec, SetHead(h, f).value.rec;
            && (if f.name == "Source" then c.source.None? && r.source == Single(f) && Single(f).Some?
                else r.source == c.source)
            && (if f.name == "Version" then c.version.None? && r.version == Single(f) && Single(f).Some?
                else r.version == c.version)
            && (if f.name == "Depends-Build" then c.buildDepend == [] && r.buildDepend == NonEmpty(f.lines)
                else r.buildDepend == c.buildDepend)
            && (if f.name == "Depends-Unpack" then c.unpackDepend == [] && r.unpackDepend == NonEmpty(f.lines)
                else r.unpackDepend == c.unpackDepend)
            && (if f.name == "Sources" then c.sources == [] && r.sources == NonEmpty(f.lines)
                else r.sources == c.sources)
  {
    hide NonEmpty, Single;
  }

  lemma {:induction false} HeadAcceptedGiven(h: Head, f: Field)
    requires SetHead(h, f).Some? && f.name in SOURCE
    ensures HeadGiven(SetHead(h, f).value)
         == if Fills(SOURCE[f.name], f.lines) then HeadGiven(h) + {f.name} else HeadGiven(h)
  {
    hide NonEmpty, Single, Fills, HasForm, SetHead;
    NonEmptyForm(f.lines);
    SameFills(f.lines);
    SetHeadPart(h, f);
    HeadRunDeps(h, f);
  }

  lemma {:induction false} HeadsAccepted(h: Head, fields: seq<Field>)
    ensures SetHeads(h, fields).Some? <==> AcceptedBehind(SOURCE, HeadGiven(h), fields)
    decreases |fields|
  {
    hide SetHead, HasForm, Fills, HeadGiven;
    if fields == [] {
    } else {
      HeadAccepted(h, fields[0]);
      if fields[0].name in SOURCE {
        var f := fields[0];
        var next := if Fills(SOURCE[f.name], f.lines) then HeadGiven(h) + {f.name} else HeadGiven(h);
        NextAccepted(SOURCE, HeadGiven(h), fields, next);
        if SetHead(h, fields[0]).Some? {
          HeadAcceptedGiven(h, fields[0]);
          HeadsAccepted(SetHead(h, fields[0]).value, fields[1..]);
        }
      }
    }
  }

  function BinGiven(b: Bin): set<string>
  {
    (if b.package.Some? then {"Package"} else {}) + (if b.runDepend != [] then {"Depends-Run"} else {})
  }

  lemma {:induction false} BinAccepted(b: Bin, f: Field)
    ensures SetBin(b, f).Some? <==>
            f.name in PACKAGE && HasForm(PACKAGE[f.name], f.lines) && f.name !in BinGiven(b)
  {
    hide NonEmpty, Single, Fills;
    SingleForm(f);
    assert HasForm(LineList, f.lines);
  }

  lemma {:induction false} BinAcceptedGiven(b: Bin, f: Field)
    requires SetBin(b, f).Some? && f.name in PACKAGE
    ensures BinGiven(SetBin(b, f).value)
         == if Fills(PACKAGE[f.name], f.lines) then BinGiven(b) + {f.name} else BinGiven(b)
  {
    hide NonEmpty, Single, Fills, HasForm;
    NonEmptyForm(f.lines);
    SameFills(f.lines);
    var was, next := BinGiven(b), BinGiven(SetBin(b, f).value);
    forall n ensures n in next <==> n in was || (n == f.name && Fills(PACKAGE[f.name], f.lines)) {
    }
  }

  lemma {:induction false} BinsAccepted(b: Bin, fields: seq<Field>)
    ensures SetBins(b, fields).Some? <==> AcceptedBehind(PACKAGE, BinGiven(b), fields)
    decreases |fields|
  {
    hide SetBin, HasForm, Fills, BinGiven;
    if fields == [] {
    } else {
      BinAccepted(b, fields[0]);
      if fields[0].name in PACKAGE {
        var f := fields[0];
        var next := if Fills(PACKAGE[f.name], f.lines) then BinGiven(b) + {f.name} else BinGiven(b);
        NextAccepted(PACKAGE, BinGiven(b), fields, next);
        if SetBin(b, fields[0]).Some? {
          BinAcceptedGiven(b, fields[0]);
          BinsAccepted(SetBin(b, fields[0]).value, fields[1..]);
        }
      }
    }
  }

  lemma {:induction false} AllBinsAccepted(paras: seq<Para>, runDeps: seq<string>)
    ensures BinsOf(paras, runDeps).Some? <==>
            forall k :: 0 <= k < |paras| ==> AcceptedFields(PACKAGE, paras[k].fields)
  {
    hide SetBins, AcceptedFields;
    if paras == [] {
    } else {
      var k := |paras| - 1;
      AllBinsAccepted(paras[..k], runDeps);
      BinsAccepted(Bin(None, []), paras[k].fields);
      assert BinOf(paras[k], runDeps).Some? <==> AcceptedFields(PACKAGE, paras[k].fields);
      assert forall i :: 0 <= i < k ==> paras[i] == paras[..k][i];
    }
  }

  /** A source control file is accepted exactly if its first paragraph has fields of the six names, the others, if any,
      have fields of the two, each of its form, and none is given again behind one with content. */
  lemma {:induction false} SourceAccepted(text: string)
    ensures ParseSource(text).Some? <==>
            && Parse(text).Some? && Parse(text).value != []
            && AcceptedFields(SOURCE, Parse(text).value[0].fields)
            && forall k :: 0 < k < |Parse(text).value| ==> AcceptedFields(PACKAGE, Parse(text).value[k].fields)
  {
    hide SetHeads, BinsOf, AcceptedFields;
    var paras := Parse(text);
    if paras.Some? && paras.value != [] {
      var h := SetHeads(EMPTY_HEAD, paras.value[0].fields);
      HeadsAccepted(EMPTY_HEAD, paras.value[0].fields);
      assert AcceptedBehind(SOURCE, HeadGiven(EMPTY_HEAD), paras.value[0].fields)
        <==> AcceptedFields(SOURCE, paras.value[0].fields);
      if h.Some? {
        var rest := paras.value[1..];
        AllBinsAccepted(rest, h.value.runDeps);
        assert forall k :: 0 < k < |paras.value| ==> paras.value[k] == rest[k - 1];
        assert forall k :: 0 <= k < |rest| ==> rest[k] == paras.value[k + 1];
      }
    }
  }

  // ---------- Where the parts of a source record come from ----------

  lemma {:induction false} HeadLists(h: Head, fields: seq<Field>)
    requires SetHeads(h, fields).Some?
    ensures var r := SetHeads(h, fields).value.rec;
            && r.buildDepend == h.rec.buildDepend + LinesOf(fields, "Depends-Build")
            && r.unpackDepend == h.rec.unpackDepend + LinesOf(fields, "Depends-Unpack")
            && r.sources == h.rec.sources + LinesOf(fields, "Sources")
    decreases |fields|
  {
    hide SetHead, NonEmpty, LinesOf, Single;
    if fields == [] {
      NoLines("Depends-Build");
      NoLines("Depends-Unpack");
      NoLines("Sources");
    } else {
      var next := SetHead(h, fields[0]).value;
      SetHeadPart(h, fields[0]);
      NextLines(h.rec.buildDepend, fields, "Depends-Build", next.rec.buildDepend);
      NextLines(h.rec.unpackDepend, fields, "Depends-Unpack", next.rec.unpackDepend);
      NextLines(h.rec.sources, fields, "Sources", next.rec.sources);
      HeadLists(next, fields[1..]);
    }
  }

  lemma {:induction false} HeadSource(h: Head, fields: seq<Field>)
    requires SetHeads(h, fields).Some?
    ensures var r := SetHeads(h, fields).value.rec;
            if h.rec.source.Some? then r.source == h.rec.source && Named(fields, "Source") == []
            else OnlyLine(fields, "Source", r.source)
    decreases |fields|
  {
    hide SetHead, Single, NonEmpty;
    if fields == [] {
    } else {
      SetHeadPart(h, fields[0]);
      SingleIs(fields[0]);
      HeadSource(SetHead(h, fields[0]).value, fields[1..]);
    }
  }

  lemma {:induction false} HeadVersion(h: Head, fields: seq<Field>)
    requires SetHeads(h, fields).Some?
    ensures var r := SetHeads(h, fields).value.rec;
            if h.rec.version.Some? then r.version == h.rec.version && Named(fields, "Version") == []
            else OnlyLine(fields, "Version", r.version)
    decreases |fields|
  {
    hide SetHead, Single, NonEmpty;
    if fields == [] {
    } else {
      SetHeadPart(h, fields[0]);
      SingleIs(fields[0]);
      HeadVersion(SetHead(h, fields[0]).value, fields[1..]);
    }
  }

  lemma {:induction false} BinPackage(b: Bin, fields: seq<Field>)
    requires SetBins(b, fields).Some?
    ensures var r := SetBins(b, fields).value;
            if b.package.Some? then r.package == b.package && Named(fields, "Package") == []
            else OnlyLine(fields, "Package", r.package)
    decreases |fields|
  {
    hide Single, NonEmpty;
    if fields == [] {
    } else {
      SingleIs(fields[0]);
      BinPackage(SetBin(b, fields[0]).value, fields[1..]);
    }
  }

  lemma {:induction false} BinsLength(paras: seq<Para>, runDeps: seq<string>)
    requires BinsOf(paras, runDeps).Some?
    ensures |BinsOf(paras, runDeps).value| == |paras|
  {
    if paras == [] {
    } else {
      BinsOfAt(paras, runDeps, 0);
    }
  }

  /** Source and version are the one non-empty line of the one field of that name in the first paragraph, the lists are
      all non-empty lines of its fields of their names, and there is one package for each further paragraph, in order,
      named by the one line of its one Package field. */
  lemma {:induction false} SourceParts(text: string)
    requires ParseSource(text).Some?
    ensures var s, paras := ParseSource(text).value, Parse(text).value;
            var fields := paras[0].fields;
            && OnlyLine(fields, "Source", s.source) && OnlyLine(fields, "Version", s.version)
            && s.buildDepend == LinesOf(fields, "Depends-Build")
            && s.unpackDepend == LinesOf(fields, "Depends-Unpack")
            && s.sources == LinesOf(fields, "Sources")
            && |s.bins| == |paras| - 1
            && forall k :: 0 <= k < |s.bins| ==> OnlyLine(paras[k + 1].fields, "Package", s.bins[k].package)
  {
    hide SetHeads, SetBins, BinsOf, OnlyLine, LinesOf;
    var s, paras := ParseSource(text).value, Parse(text).value;
    var fields := paras[0].fields;
    var head := SetHeads(EMPTY_HEAD, fields).value;
    HeadSource(EMPTY_HEAD, fields);
    HeadVersion(EMPTY_HEAD, fields);
    HeadLists(EMPTY_HEAD, fields);
    assert forall name :: [] + LinesOf(fields, name) == LinesOf(fields, name);
    HeadRunLines(EMPTY_HEAD, fields);
    BinsLength(paras[1..], head.runDeps);
    forall k | 0 <= k < |s.bins| ensures OnlyLine(paras[k + 1].fields, "Package", s.bins[k].package) {
      BinsOfAt(paras[1..], head.runDeps, k);
      BinPackage(Bin(None, []), paras[k + 1].fields);
    }
  }
}
