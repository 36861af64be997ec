/** Source control files: one paragraph for the source and one for each binary package (tools/control.c). */
module SourceControl {
  import opened Chars
  import opened ControlParse
  import opened ControlNodes
  import opened ControlFile
  import opened Control

  datatype Bin = Bin(package: Option<string>, runDepend: seq<string>)

  datatype Source = Source(source: Option<string>, version: Option<string>, unpackDepend: seq<string>,
                           buildDepend: seq<string>, sources: seq<string>, bins: seq<Bin>)

  /** What the first paragraph yields: the record without packages, and the run dependencies common to all of them. */
  datatype Head = Head(rec: Source, runDeps: seq<string>)

  const EMPTY_HEAD := Head(Source(None, None, [], [], [], []), [])

  function SetHead(h: Head, f: Field): Option<Head>
  {
    var c := h.rec;
    if f.name == "Depends-Build" then
      if c.buildDepend != [] then None else Some(h.(rec := c.(buildDepend := NonEmpty(f.lines))))
    else if f.name == "Depends-Unpack" then
      if c.unpackDepend != [] then None else Some(h.(rec := c.(unpackDepend := NonEmpty(f.lines))))
    else if f.name == "Depends-Run" then
      if h.runDeps != [] then None else Some(h.(runDeps := NonEmpty(f.lines)))
    else if f.name == "Sources" then
      if c.sources != [] then None else Some(h.(rec := c.(sources := NonEmpty(f.lines))))
    else if f.name == "Source" then
      if c.source.Some? || Single(f).None? then None else Some(h.(rec := c.(source := Single(f))))
    else if f.name == "Version" then
      if c.version.Some? || Single(f).None? then None else Some(h.(rec := c.(version := Single(f))))
    else None
  }

  function SetHeads(h: Head, fields: seq<Field>): Option<Head>
    decreases |fields|
  {
    if fields == [] then Some(h) else
    var next := SetHead(h, fields[0]);
    if next.None? then None else SetHeads(next.value, fields[1..])
  }

  function SetBin(b: Bin, f: Field): Option<Bin>
  {
    if f.name == "Depends-Run" then
      if b.runDepend != [] then None else Some(b.(runDepend := NonEmpty(f.lines)))
    else if f.name == "Package" then
      if b.package.Some? || Single(f).None? then None else Some(b.(package := Single(f)))
    else None
  }

  function SetBins(b: Bin, fields: seq<Field>): Option<Bin>
    decreases |fields|
  {
    if fields == [] then Some(b) else
    var next := SetBin(b, fields[0]);
    if next.None? then None else SetBins(next.value, fields[1..])
  }

  /** The package of one paragraph, with the common run dependencies behind its own. */
  function BinOf(para: Para, runDeps: seq<string>): Option<Bin>
  {
    var b := SetBins(Bin(None, []), para.fields);
    if b.None? then None else Some(b.value.(runDepend := b.value.runDepend + runDeps))
  }

  function BinsOf(paras: seq<Para>, runDeps: seq<string>): Option<seq<Bin>>
  {
    if paras == [] then Some([]) else
    var rest := BinsOf(paras[..|paras| - 1], runDeps);
    var b := BinOf(paras[|paras| - 1], runDeps);
    if rest.None? || b.None? then None else Some(rest.value + [b.value])
  }

  function ParseSource(text: string): Option<Source>
  {
    var paras := Parse(text);
    if paras.None? || paras.value == [] then None else
    var head := SetHeads(EMPTY_HEAD, paras.value[0].fields);
    if head.None? then None else
    var bins := BinsOf(paras.value[1..], head.value.runDeps);
    if bins.None? then None else Some(head.value.rec.(bins := bins.value))
  }

  // ---------- Where the run dependencies of a package come from ----------

  lemma {:induction false} HeadRunDeps(h: Head, f: Field)
    requires SetHead(h, f).Some?
    ensures var next := SetHead(h, f).value;
            && next.rec.bins == h.rec.bins
            && (if f.name == "Depends-Run" then h.runDeps == [] && next.runDeps == NonEmpty(f.lines)
                else next.runDeps == h.runDeps)
  {
    hide NonEmpty, Single;
  }

  lemma {:induction false} HeadRunLines(h: Head, fields: seq<Field>)
    requires SetHeads(h, fields).Some?
    ensures SetHeads(h, fields).value.runDeps == h.runDeps + LinesOf(fields, "Depends-Run")
    ensures SetHeads(h, fields).value.rec.bins == h.rec.bins
    decreases |fields|
  {
    hide NonEmpty, LinesOf, SetHead;
    if fields == [] {
      NoLines("Depends-Run");
    } else {
      var next := SetHead(h, fields[0]).value;
      HeadRunDeps(h, fields[0]);
      NextLines(h.runDeps, fields, "Depends-Run", next.runDeps);
      HeadRunLines(next, fields[1..]);
    }
  }

  lemma {:induction false} BinRunLines(b: Bin, fields: seq<Field>)
    requires SetBins(b, fields).Some?
    ensures SetBins(b, fields).value.runDepend == b.runDepend + LinesOf(fields, "Depends-Run")
    decreases |fields|
  {
    hide NonEmpty, LinesOf;
    if fields == [] {
      NoLines("Depends-Run");
    } else {
      var next := SetBin(b, fields[0]).value;
      NextLines(b.runDepend, fields, "Depends-Run", next.runDepend);
      BinRunLines(next, fields[1..]);
    }
  }

  lemma {:induction false} BinsOfAt(paras: seq<Para>, runDeps: seq<string>, i: nat)
    requires BinsOf(paras, runDeps).Some? && i < |paras|
    ensures |BinsOf(paras, runDeps).value| == |paras|
    ensures BinOf(paras[i], runDeps) == Some(BinsOf(paras, runDeps).value[i])
  {
    var k := |paras| - 1;
    if i < k {
      BinsOfAt(paras[..k], runDeps, i);
    } else if k > 0 {
      BinsOfAt(paras[..k], runDeps, k - 1);
    }
  }

  /** Every package of an accepted file has as run dependencies its own paragraph's list followed by the list
      of the first paragraph. */
  lemma {:induction false} BinDepends(text: string, i: nat)
    requires ParseSource(text).Some? && i < |ParseSource(text).value.bins|
    ensures i + 1 < |Parse(text).value|
    ensures ParseSource(text).value.bins[i].runDepend
         == LinesOf(Parse(text).value[i + 1].fields, "Depends-Run")
          + LinesOf(Parse(text).value[0].fields, "Depends-Run")
  {
    var paras := Parse(text).value;
    var head := SetHeads(EMPTY_HEAD, paras[0].fields).value;
    HeadRunLines(EMPTY_HEAD, paras[0].fields);
    assert head.runDeps == LinesOf(paras[0].fields, "Depends-Run");
    if |paras| > 1 {
      BinsOfAt(paras[1..], head.runDeps, 0);
    }
    BinsOfAt(paras[1..], head.runDeps, i);
    var b := SetBins(Bin(None, []), paras[i + 1].fields).value;
    BinRunLines(Bin(None, []), paras[i + 1].fields);
    assert b.runDepend == LinesOf(paras[i + 1].fields, "Depends-Run");
  }

  // ---------- The parser as it runs ----------

  method SetBinField(pf: FieldNode, b: Bin) returns (ok: bool, out: Bin)
    requires pf.Valid()
    ensures ok <==> SetBin(b, pf.AsField()).Some?
    ensures ok ==> out == SetBin(b, pf.AsField()).value
  {
    hide FieldNode.Valid, Single;
    SingleIs(pf.AsField());
    if pf.name == "Depends-Run" {
      var deps;
      ok, deps := ParseDeplist(pf, b.runDepend);
      return ok, b.(runDepend := deps);
    } else if pf.name == "Package" {
      var package;
      ok, package := ParseSingleLine(pf, b.package);
      return ok, b.(package := package);
    }
    return false, b;
  }

  /** One paragraph of a binary package, and the copy of the common run dependencies behind its own. */
  method ParseBin(pp: ParaNode, runDeps: seq<string>) returns (ok: bool, b: Bin)
    requires pp.Valid()
    ensures ok <==> BinOf(Para(pp.value), runDeps).Some?
    ensures ok ==> b == BinOf(Para(pp.value), runDeps).value
  {
    hide FieldNode.Valid, Single;
    b := Bin(None, []);
    var pf := pp.fieldFirst;
    ghost var k := 0;
    while pf != null
      invariant 0 <= k <= |pp.fields| && pf == if k < |pp.fields| then pp.fields[k] else null
      invariant SetBins(Bin(None, []), pp.value) == SetBins(b, pp.value[k..])
      decreases |pp.fields| - k
    {
      assert pp.value[k..][0] == pf.AsField() && pp.value[k..][1..] == pp.value[k + 1..];
      ok, b := SetBinField(pf, b);
      if !ok {
        return;
      }
      pf, k := pf.next, k + 1;
    }
    ghost var own := b;
    var r := 0;
    while r < |runDeps|
      invariant 0 <= r <= |runDeps|
      invariant b == own.(runDepend := own.runDepend + runDeps[..r])
    {
      b := b.(runDepend := b.runDepend + [runDeps[r]]);
      r := r + 1;
    }
    assert runDeps[..r] == runDeps;
    ok := true;
  }

  lemma {:induction false} NoBins(runDeps: seq<string>)
    ensures BinsOf([], runDeps) == Some([])
  {
  }

  lemma {:induction false} BinsPrefix(paras: seq<Para>, runDeps: seq<string>, k: nat)
    requires k <= |paras| && BinsOf(paras[..k], runDeps).None?
    ensures BinsOf(paras, runDeps).None?
    decreases |paras| - k
  {
    if k < |paras| {
      assert paras[..k + 1][..k] == paras[..k];
      BinsPrefix(paras, runDeps, k + 1);
    } else {
      assert paras[..k] == paras;
    }
  }

  /** One more package, or a paragraph that spoils the file. */
  lemma {:induction false} NextBin(paras: seq<Para>, runDeps: seq<string>, k: nat)
    requires k < |paras| && BinsOf(paras[..k], runDeps).Some?
    ensures var b := BinOf(paras[k], runDeps);
            if b.None? then BinsOf(paras, runDeps).None?
            else BinsOf(paras[..k + 1], runDeps) == Some(BinsOf(paras[..k], runDeps).value + [b.value])
  {
    hide BinOf;
    assert paras[..k + 1][..k] == paras[..k];
    if BinOf(paras[k], runDeps).None? {
      BinsPrefix(paras, runDeps, k + 1);
    }
  }

  class SourceData {
    var source: Option<string>
    var version: Option<string>
    var unpackDepend: seq<string>
    var buildDepend: seq<string>
    var sources: seq<string>
    var bins: seq<Bin>

    function Value(): Source
      reads this
    {
      Source(source, version, unpackDepend, buildDepend, sources, bins)
    }

    constructor ()
      ensures Value() == EMPTY_HEAD.rec
    {
      source, version, unpackDepend, buildDepend, sources, bins := None, None, [], [], [], [];
    }

    method Set(pf: FieldNode, runDeps: seq<string>) returns (ok: bool, out: seq<string>)
      requires pf.Valid()
      modifies this
      ensures ok <==> SetHead(Head(old(Value()), runDeps), pf.AsField()).Some?
      ensures ok ==> Head(Value(), out) == SetHead(Head(old(Value()), runDeps), pf.AsField()).value
    {
      hide FieldNode.Valid, Single;
      SingleIs(pf.AsField());
      out := runDeps;
      if pf.name == "Depends-Build" {
        ok, buildDepend := ParseDeplist(pf, buildDepend);
      } else if pf.name == "Depends-Unpack" {
        ok, unpackDepend := ParseDeplist(pf, unpackDepend);
      } else if pf.name == "Depends-Run" {
        ok, out := ParseDeplist(pf, runDeps);
      } else if pf.name == "Sources" {
        ok, sources := ParseDeplist(pf, sources);
      } else if pf.name == "Source" {
        ok, source := ParseSingleLine(pf, source);
      } else if pf.name == "Version" {
        ok, version := ParseSingleLine(pf, version);
      } else {
        ok := false;
      }
    }

    /** The loop over the fields of the first paragraph. */
    method SetAll(pp: ParaNode) returns (ok: bool, runDeps: seq<string>)
      requires pp.Valid() && this !in pp.nodes
      modifies this
      ensures ok <==> SetHeads(Head(old(Value()), []), pp.value).Some?
      ensures ok ==> Head(Value(), runDeps) == SetHeads(Head(old(Value()), []), pp.value).value
    {
      hide SetHead, FieldNode.Valid;
      runDeps := [];
      var pf := pp.fieldFirst;
      ghost var k := 0;
      while pf != null
        invariant 0 <= k <= |pp.fields| && pf == if k < |pp.fields| then pp.fields[k] else null
        invariant pp.Valid()
        invariant SetHeads(Head(old(Value()), []), pp.value) == SetHeads(Head(Value(), runDeps), pp.value[k..])
        decreases |pp.fields| - k
      {
        assert pp.value[k..][0] == pf.AsField() && pp.value[k..][1..] == pp.value[k + 1..];
        ok, runDeps := Set(pf, runDeps);
        if !ok {
          return;
        }
        pf, k := pf.next, k + 1;
      }
      ok := true;
    }

    /** The loop over the other paragraphs. */
    method AddBins(p: Parser, runDeps: seq<string>) returns (ok: bool)
      requires p.Valid() && p.paraFirst != null && this !in p.Repr && bins == []
      modifies this`bins
      ensures ok <==> BinsOf(p.value[1..], runDeps).Some?
      ensures ok ==> bins == BinsOf(p.value[1..], runDeps).value
    {
      hide ParaNode.Valid, ParasApart, BinOf, BinsOf;
      NoBins(runDeps);
      ghost var paras := p.value[1..];
      var pp := p.paraFirst.next;
      ghost var k := 0;
      while pp != null
        invariant 0 <= k <= |paras| && pp == if k < |paras| then p.paras[k + 1] else null
        invariant p.Valid() && BinsOf(paras[..k], runDeps) == Some(bins)
        decreases |paras| - k
      {
        assert paras[k] == Para(pp.value);
        NextBin(paras, runDeps, k);
        var b;
        ok, b := ParseBin(pp, runDeps);
        if !ok {
          return;
        }
        bins := bins + [b];
        pp, k := pp.next, k + 1;
      }
      assert paras[..k] == paras;
      return true;
    }
  }

  /** source_control_parsefd. */
  method SourceControlParseFd(text: string) returns (ok: bool, c: SourceData)
    ensures fresh(c)
    ensures ok <==> ParseSource(text).Some?
    ensures ok ==> c.Value() == ParseSource(text).value
  {
    hide SetHeads, BinsOf, ParaNode.Valid, Structured;
    c := new SourceData();
    var p;
    ok, p := ParseFd(text);
    if !ok {
      return;
    }
    var pp := p.paraFirst;
    if pp == null {
      return false, c;
    }
    var runDeps;
    ok, runDeps := c.SetAll(pp);
    if !ok {
      return;
    }
    HeadRunLines(EMPTY_HEAD, pp.value);
    assert SetHeads(EMPTY_HEAD, pp.value) == Some(Head(c.Value(), runDeps));
    ok := c.AddBins(p, runDeps);
  }
}
