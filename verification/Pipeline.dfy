/** From a source control file through gencontrol to the control file of one of its packages:
    what control_parsefd reads back is what source_control_parsefd read. */
module Pipeline {
  import opened Chars
  import opened ControlParse
  import opened ControlFile
  import opened Control
  import opened SourceControl
  import opened GenControl

  predicate OkBin(b: Bin) { OkOption(b.package) && OkLines(b.runDepend) }

  predicate OkHead(h: Head)
  {
    && OkOption(h.rec.source) && OkOption(h.rec.version) && OkLines(h.runDeps)
    && OkLines(h.rec.unpackDepend) && OkLines(h.rec.buildDepend) && OkLines(h.rec.sources)
  }

  /** Every string of the record is a non-empty trimmed line. */
  predicate OkSource(s: Source)
  {
    && OkHead(Head(s, [])) && forall k :: 0 <= k < |s.bins| ==> OkBin(s.bins[k])
  }

  lemma {:induction false} SetHeadOk(h: Head, f: Field)
    requires OkHead(h) && StoredField(f) && SetHead(h, f).Some?
    ensures OkHead(SetHead(h, f).value)
  {
    hide OkLine, NonEmpty, Single;
    NonEmptyOk(f.lines);
    if Single(f).Some? {
      SingleOk(f);
    }
  }

  lemma {:induction false} SetHeadsOk(h: Head, fields: seq<Field>)
    requires OkHead(h) && (forall i :: 0 <= i < |fields| ==> StoredField(fields[i])) && SetHeads(h, fields).Some?
    ensures OkHead(SetHeads(h, fields).value)
    decreases |fields|
  {
    hide OkHead, StoredField, SetHead;
    if fields == [] {
    } else {
      SetHeadOk(h, fields[0]);
      SetHeadsOk(SetHead(h, fields[0]).value, fields[1..]);
    }
  }

  lemma {:induction false} StoredLines(f: Field)
    requires StoredField(f)
    ensures forall i :: 0 <= i < |f.lines| ==> StoredLine(f.lines[i])
  {
  }

  lemma {:induction false} SetBinsOk(b: Bin, fields: seq<Field>)
    requires OkBin(b) && (forall i :: 0 <= i < |fields| ==> StoredField(fields[i])) && SetBins(b, fields).Some?
    ensures OkBin(SetBins(b, fields).value)
    decreases |fields|
  {
    hide OkLine, NonEmpty, Single, StoredField;
    if fields == [] {
    } else {
      var f := fields[0];
      assert StoredField(f);
      StoredLines(f);
      NonEmptyOk(f.lines);
      if Single(f).Some? {
        SingleOk(f);
      }
      SetBinsOk(SetBin(b, f).value, fields[1..]);
    }
  }

  lemma {:induction false} NothingIsOk()
    ensures OkHead(EMPTY_HEAD) && OkLines([])
  {
  }

  lemma {:induction false} BinIsOk(para: Para, runDeps: seq<string>)
    requires StoredPara(para) && OkLines(runDeps) && BinOf(para, runDeps).Some?
    ensures OkBin(BinOf(para, runDeps).value)
  {
    hide OkLine, SetBins;
    SetBinsOk(Bin(None, []), para.fields);
  }

  /** Every string of an accepted source control file is a non-empty trimmed line. */
  lemma {:induction false} ParsedSourceOk(text: string)
    requires ParseSource(text).Some?
    ensures OkSource(ParseSource(text).value)
  {
    hide OkLines, OkOption, SetHeads, SetBins, Parse, BinsOf, BinOf;
    ParseStructured(text);
    var paras := Parse(text).value;
    var head := SetHeads(EMPTY_HEAD, paras[0].fields).value;
    assert StoredPara(paras[0]);
    NothingIsOk();
    SetHeadsOk(EMPTY_HEAD, paras[0].fields);
    var bins := ParseSource(text).value.bins;
    forall k | 0 <= k < |bins| ensures OkBin(bins[k]) {
      BinDepends(text, k);
      BinsOfAt(paras[1..], head.runDeps, k);
      assert StoredPara(paras[k + 1]);
      BinIsOk(paras[k + 1], head.runDeps);
    }
  }

  /** Two trimmed lines make a pair that can be cut at its space exactly if the first one has no space in it. */
  lemma {:induction false} PairOfLines(name: string, version: string)
    requires OkLine(name) && OkLine(version)
    ensures OkPair(BuiltFrom(name, version)) <==> ' ' !in name
  {
  }

  /** Printing package `k` of an accepted source control file and reading the result back returns the same strings,
      with the run dependencies of its own paragraph followed by those of the first one, exactly if the source makes a
      pair and the strings given on the command line can stand in the file. A source with a name and a version makes a
      pair exactly if the name has no space in it. */
  lemma {:induction false} GeneratedReadsBack(text: string, k: nat, mode: VersionMode, param: string,
                                              bfExtra: seq<BuiltFrom>, nullText: string)
    requires ParseSource(text).Some?
    requires k < |ParseSource(text).value.bins| && ParseSource(text).value.bins[k].package.Some?
    ensures var s, paras := ParseSource(text).value, Parse(text).value;
            var p := PrintedOf(s, s.bins[k], mode, param, bfExtra, nullText);
            && (ParseControl(Text(p)) == Some(AsRecord(p)) <==>
                OkPair(BuiltFrom(p.srcPackage, p.srcVersion)) && OkLine(p.version) && OkPairs(bfExtra))
            && (s.source.Some? && s.version.Some? ==>
                  && (OkPair(BuiltFrom(p.srcPackage, p.srcVersion)) <==> ' ' !in s.source.value)
                  && (mode == VERSION_KEEP ==> OkLine(p.version)))
            && k + 1 < |paras|
            && p.runDepend == LinesOf(paras[k + 1].fields, "Depends-Run") + LinesOf(paras[0].fields, "Depends-Run")
  {
    hide OkLine, OkPair, ParseControl, Text, Parse, ParseSource;
    var s := ParseSource(text).value;
    var p := PrintedOf(s, s.bins[k], mode, param, bfExtra, nullText);
    ParsedSourceOk(text);
    assert OkBin(s.bins[k]);
    if s.source.Some? && s.version.Some? {
      PairOfLines(s.source.value, s.version.value);
    }
    RoundTripExactly(p);
    BinDepends(text, k);
  }

  /** The version of the generated package: the one from the command line, the source's with that behind it, or the
      source's own. */
  predicate IsVersion(mode: VersionMode, version: string, param: string, v: string)
  {
    && (mode == VERSION_OVERRIDE ==> v == param)
    && (mode == VERSION_APPEND ==> v == version + param)
    && (mode == VERSION_KEEP ==> v == version)
  }

  /** What reading a generated file yields, said of the source control file and the command line alone. */
  lemma {:induction false} GeneratedRecord(text: string, k: nat, mode: VersionMode, param: string,
                                           bfExtra: seq<BuiltFrom>, nullText: string, v: string)
    requires ParseSource(text).Some?
    requires k < |ParseSource(text).value.bins| && ParseSource(text).value.bins[k].package.Some?
    requires ParseSource(text).value.source.Some? && ParseSource(text).value.version.Some?
    requires ' ' !in ParseSource(text).value.source.value
    requires IsVersion(mode, ParseSource(text).value.version.value, param, v) && OkLine(v) && OkPairs(bfExtra)
    ensures var s, paras := ParseSource(text).value, Parse(text).value;
            && k + 1 < |paras|
            && ParseControl(Text(PrintedOf(s, s.bins[k], mode, param, bfExtra, nullText))) ==
               Some(Record(s.bins[k].package, Some(v), s.source, s.version,
                           LinesOf(paras[k + 1].fields, "Depends-Run") + LinesOf(paras[0].fields, "Depends-Run"),
                           bfExtra))
  {
    hide OkLine, OkPair, ParseControl, Text, Parse, ParseSource, LinesOf;
    GeneratedReadsBack(text, k, mode, param, bfExtra, nullText);
    assert VersionText(mode, ParseSource(text).value.version.value, param) == v;
  }

  lemma {:induction false} SourceIsParsed(text: string)
    requires ParseSource(text).Some?
    ensures Parse(text).Some?
  {
  }

  /** main of gencontrol behind its option parsing. It writes a control file exactly if the source control file is
      accepted and has a package of the name. If the source has a name without spaces and a version, and the strings
      from the command line can stand in the file, reading it yields the first such package with the version that was
      asked for, the source pair, its own run dependencies followed by the common ones, and the extra built-from
      list. */
  method GenControlFile(text: string, name: string, mode: VersionMode, param: string, bfExtra: seq<BuiltFrom>,
                        nullText: string)
    returns (out: Option<string>)
    requires ParseSource(text).Some? ==> Searchable(ParseSource(text).value.bins, name)
    ensures out.Some? <==>
            ParseSource(text).Some? && exists b :: b in ParseSource(text).value.bins && b.package == Some(name)
    ensures out.Some? ==>
              var s, paras := ParseSource(text).value, Parse(text).value;
              exists k: nat ::
                && k < |s.bins| && k + 1 < |paras| && s.bins[k].package == Some(name)
                && (forall j :: 0 <= j < k ==> s.bins[j].package != Some(name))
                && forall v ::
                     s.source.Some? && s.version.Some? && ' ' !in s.source.value && OkPairs(bfExtra) && OkLine(v)
                     && IsVersion(mode, s.version.value, param, v) ==>
                       ParseControl(out.value) ==
                       Some(Record(Some(name), Some(v), s.source, s.version,
                                   LinesOf(paras[k + 1].fields, "Depends-Run")
                                   + LinesOf(paras[0].fields, "Depends-Run"),
                                   bfExtra))
  {
    hide OkLine, OkPairs, ParseControl, Text, Parse, ParseSource, LinesOf, IsVersion, Searchable;
    var ok, c := SourceControlParseFd(text);
    if !ok {
      return None;
    }
    var s := c.Value();
    out := Generate(s, name, mode, param, bfExtra, nullText);
    if out.Some? {
      SourceIsParsed(text);
      ghost var paras := Parse(text).value;
      ghost var k: nat :| FirstNamed(s.bins, name, k)
                          && out.value == Text(PrintedOf(s, s.bins[k], mode, param, bfExtra, nullText));
      assert s.bins[k] in s.bins;
      BinDepends(text, k);
      forall v | s.source.Some? && s.version.Some? && ' ' !in s.source.value && OkPairs(bfExtra) && OkLine(v)
                 && IsVersion(mode, s.version.value, param, v)
        ensures ParseControl(out.value) ==
                Some(Record(Some(name), Some(v), s.source, s.version,
                            LinesOf(paras[k + 1].fields, "Depends-Run") + LinesOf(paras[0].fields, "Depends-Run"),
                            bfExtra))
      {
        GeneratedRecord(text, k, mode, param, bfExtra, nullText, v);
      }
    }
  }
}
