/** The linked lists of tools/controlparse.c, and the parser that builds them line by line. */
module ControlNodes {
  import opened Chars
  import opened ControlParse

  // ---------- Paragraphs, fields and lines ----------

  class LineNode {
    const line: string
    var next: LineNode?

    constructor (line: string)
      ensures this.line == line && next == null
    {
      this.line, next := line, null;
    }
  }

  class FieldNode {
    const name: string
    var lineFirst: LineNode?
    var lineLast: LineNode?
    var next: FieldNode?
    ghost var lines: seq<LineNode>
    ghost var nodes: set<LineNode>
    ghost var value: seq<string>

    /** `lines` is the list from `lineFirst` along `next`: it has no node twice, so it has no cycle,
        `lineLast` is its end, and both pointers are null if it is empty. */
    ghost predicate Linked()
      reads this`lineFirst, this`lineLast, this`lines, lines`next
    {
      && lineFirst == (if lines == [] then null else lines[0])
      && lineLast == (if lines == [] then null else lines[|lines| - 1])
      && (forall i :: 0 <= i < |lines| - 1 ==> lines[i].next == lines[i + 1])
      && (lines != [] ==> lines[|lines| - 1].next == null)
      && (forall i, j :: 0 <= i < j < |lines| ==> lines[i] != lines[j])
    }

    /** All of `lines` are nodes of this field, and they hold its value. */
    ghost predicate Valid()
      reads this`lineFirst, this`lineLast, this`lines, this`nodes, this`value, nodes`next
    {
      && (forall i :: 0 <= i < |lines| ==> lines[i] in nodes)
      && Linked()
      && |value| == |lines| && (forall i :: 0 <= i < |lines| ==> value[i] == lines[i].line)
    }

    constructor (name: string)
      ensures this.name == name && next == null
      ensures Valid() && value == [] && nodes == {}
    {
      this.name := name;
      lineFirst, lineLast, next, lines, nodes, value := null, null, null, [], {}, [];
    }

    ghost function AsField(): Field
      reads this`value
    {
      Field(name, value)
    }

    method Link(cl: LineNode)
      requires Linked() && cl !in lines && cl.next == null
      modifies this`lineFirst, this`lineLast, this`lines, lines`next
      ensures Linked() && lines == old(lines) + [cl]
    {
      if lineLast == null {
        lineFirst, lineLast := cl, cl;
      } else {
        lineLast.next := cl;
        lineLast := cl;
      }
      lines := lines + [cl];
    }

    method Append(line: string)
      requires Valid()
      modifies this`lineFirst, this`lineLast, this`lines, this`nodes, this`value, nodes`next
      ensures Valid() && fresh(nodes - old(nodes)) && value == old(value) + [line]
    {
      hide Linked;
      var cl := new LineNode(line);
      Link(cl);
      nodes, value := nodes + {cl}, value + [line];
    }
  }

  /** The fields have nodes of their own: no two of them share a line. */
  ghost predicate FieldsApart(fields: seq<FieldNode>, nodes: set<object>)
    reads fields`nodes
  {
    && (forall i :: 0 <= i < |fields| ==> fields[i] in nodes && fields[i].nodes <= nodes)
    && (forall i, j :: 0 <= i < j < |fields| ==> fields[i].nodes !! fields[j].nodes)
  }

  lemma {:induction false} NewFieldApart(fields: seq<FieldNode>, nodes: set<object>, cf: FieldNode)
    requires FieldsApart(fields, nodes) && cf !in nodes && cf.nodes == {}
    ensures FieldsApart(fields + [cf], nodes + {cf})
  {
  }

  class ParaNode {
    var fieldFirst: FieldNode?
    var fieldLast: FieldNode?
    var next: ParaNode?
    ghost var fields: seq<FieldNode>
    ghost var nodes: set<object>
    ghost var value: seq<Field>

    /** The same for the list of fields. */
    ghost predicate Linked()
      reads this`fieldFirst, this`fieldLast, this`fields, fields`next
    {
      && fieldFirst == (if fields == [] then null else fields[0])
      && fieldLast == (if fields == [] then null else fields[|fields| - 1])
      && (forall i :: 0 <= i < |fields| - 1 ==> fields[i].next == fields[i + 1])
      && (fields != [] ==> fields[|fields| - 1].next == null)
      && (forall i, j :: 0 <= i < j < |fields| ==> fields[i] != fields[j])
    }

    /** No two fields share a line, and each field's list is intact. */
    ghost predicate Nodes()
      reads this`fieldFirst, this`fieldLast, this`fields, this`nodes, nodes
    {
      && this !in nodes && (forall i :: 0 <= i < |fields| ==> fields[i] in nodes)
      && FieldsApart(fields, nodes) && Linked()
      && (forall i :: 0 <= i < |fields| ==> fields[i].Valid())
    }

    /** The nodes hold the value of the paragraph. */
    ghost predicate Valid()
      reads this`fieldFirst, this`fieldLast, this`fields, this`nodes, this`value, nodes
    {
      && Nodes()
      && |value| == |fields| && (forall i :: 0 <= i < |fields| ==> value[i] == Field(fields[i].name, fields[i].value))
    }

    constructor ()
      ensures next == null && value == [] && nodes == {} && Valid()
    {
      fieldFirst, fieldLast, next, fields, nodes, value := null, null, null, [], {}, [];
    }

    lemma {:induction false} LastOf()
      requires Linked() && fieldLast != null
      ensures fields != [] && fieldLast == fields[|fields| - 1]
      ensures forall i :: 0 <= i < |fields| - 1 ==> fields[i] != fieldLast
    {
    }

    method Link(cf: FieldNode)
      requires Linked() && cf !in fields && cf.next == null
      modifies this`fieldFirst, this`fieldLast, this`fields, fields`next
      ensures Linked() && fields == old(fields) + [cf]
    {
      if fieldLast == null {
        fieldFirst, fieldLast := cf, cf;
      } else {
        fieldLast.next := cf;
        fieldLast := cf;
      }
      fields := fields + [cf];
    }

    method NewField(name: string)
      requires Nodes()
      modifies this`fieldFirst, this`fieldLast, this`fields, this`nodes, fields`next
      ensures Nodes() && fresh(nodes - old(nodes))
      ensures |fields| == |old(fields)| + 1 && old(fields) <= fields
      ensures fields[|fields| - 1].name == name && fields[|fields| - 1].value == []
    {
      hide Linked, FieldsApart, FieldNode.Valid;
      var cf := new FieldNode(name);
      Link(cf);
      NewFieldApart(old(fields), nodes, cf);
      nodes := nodes + {cf};
    }

    method Append(name: string)
      requires Valid()
      modifies this`fieldFirst, this`fieldLast, this`fields, this`nodes, this`value, nodes
      ensures Valid() && fresh(nodes - old(nodes)) && value == old(value) + [Field(name, [])]
    {
      hide Linked, FieldsApart, FieldNode.Valid;
      NewField(name);
      value := value + [Field(name, [])];
    }

    /** There is a last field exactly if there is a field. */
    lemma {:induction false} HasField()
      requires Valid()
      ensures fieldLast != null <==> value != []
    {
    }

    method NewLine(line: string)
      requires Nodes() && fieldLast != null
      modifies this`nodes, nodes
      ensures Nodes() && fresh(nodes - old(nodes)) && fields != []
      ensures forall i :: 0 <= i < |fields| - 1 ==> fields[i].value == old(fields[i].value)
      ensures fields[|fields| - 1].value == old(fields[|fields| - 1].value) + [line]
    {
      hide Linked, FieldNode.Valid;
      LastOf();
      var last := fieldLast;
      last.Append(line);
      nodes := nodes + last.nodes;
    }

    /** The last field gets one more line. */
    method AppendLine(line: string)
      requires Valid() && fieldLast != null
      modifies this`nodes, this`value, nodes
      ensures Valid() && fresh(nodes - old(nodes)) && |value| == |old(value)|
      ensures var k := |value| - 1;
              value == old(value)[k := Field(old(value)[k].name, old(value)[k].lines + [line])]
    {
      hide Linked, FieldsApart, FieldNode.Valid;
      HasField();
      ghost var k := |value| - 1;
      NewLine(line);
      value := value[k := Field(value[k].name, value[k].lines + [line])];
    }
  }

  // ---------- The parser as it runs ----------

  /** The loops that step over white space. */
  method SkipSpaces(line: string, from: nat) returns (off: nat)
    requires from <= |line|
    ensures off == from + Span(line[from..], IsSpace) && off <= |line|
    ensures line[off..] == TrimStart(line[from..])
  {
    off := from;
    while off < |line| && IsSpace(line[off])
      invariant from <= off <= |line|
      invariant forall i :: from <= i < off ==> IsSpace(line[i])
    {
      off := off + 1;
    }
    SpanUnique(line[from..], IsSpace, off - from);
  }

  /** The loop that trims white space off the end. */
  method DropSpaces(line: string, off: nat) returns (end: nat)
    requires off <= |line|
    ensures off <= end <= |line| && line[off..end] == TrimEnd(line[off..])
  {
    end := |line|;
    assert line[off..end] == line[off..];
    while end > off && IsSpace(line[end - 1])
      invariant off <= end <= |line|
      invariant TrimEnd(line[off..]) == TrimEnd(line[off..end])
    {
      assert line[off..end][..end - off - 1] == line[off..end - 1];
      end := end - 1;
    }
  }

  /** No two paragraphs share a node. */
  ghost predicate ParasApart(paras: seq<ParaNode>, nodes: set<object>)
    reads paras`nodes
  {
    && (forall i :: 0 <= i < |paras| ==> paras[i] in nodes && paras[i].nodes <= nodes)
    && (forall i, j :: 0 <= i < |paras| && 0 <= j < |paras| ==> paras[i] !in paras[j].nodes)
    && (forall i, j :: 0 <= i < j < |paras| ==> paras[i].nodes !! paras[j].nodes)
  }

  lemma {:induction false} NewParaApart(paras: seq<ParaNode>, nodes: set<object>, cp: ParaNode)
    requires ParasApart(paras, nodes) && cp !in nodes && cp.nodes == {}
    ensures ParasApart(paras + [cp], nodes + {cp})
  {
  }

  lemma {:induction false} NoParaInside(paras: seq<ParaNode>, nodes: set<object>)
    requires ParasApart(paras, nodes)
    ensures forall i, j :: 0 <= i < |paras| && 0 <= j < |paras| ==> paras[i] !in paras[j].nodes
  {
  }

  class Parser {
    var paraFirst: ParaNode?
    var paraLast: ParaNode?
    var inBreak: bool
    ghost var paras: seq<ParaNode>
    ghost var value: seq<Para>
    ghost var Repr: set<object>

    ghost predicate Linked()
      reads this`paraFirst, this`paraLast, this`paras, paras`next
    {
      && paraFirst == (if paras == [] then null else paras[0])
      && paraLast == (if paras == [] then null else paras[|paras| - 1])
      && (forall i :: 0 <= i < |paras| - 1 ==> paras[i].next == paras[i + 1])
      && (paras != [] ==> paras[|paras| - 1].next == null)
      && (forall i, j :: 0 <= i < j < |paras| ==> paras[i] != paras[j])
    }

    /** The list of paragraphs and all lists in it are free of cycles and sharing, and all `last` pointers are
        the ends of their lists. */
    ghost predicate Nodes()
      reads this, Repr
    {
      && this in Repr && (forall i :: 0 <= i < |paras| ==> paras[i] in Repr && this !in paras[i].nodes)
      && ParasApart(paras, Repr) && Linked()
      && (forall i :: 0 <= i < |paras| ==> paras[i].Valid())
    }

    /** The nodes hold the value of the parser. */
    ghost predicate Valid()
      reads this, Repr
    {
      && Nodes()
      && |value| == |paras| && (forall i :: 0 <= i < |paras| ==> value[i] == Para(paras[i].value))
      && (paras == [] ==> inBreak)
    }

    ghost function Contents(): State
      reads this
    {
      State(value, inBreak)
    }

    constructor ()
      ensures Valid() && fresh(Repr) && Contents() == INIT
    {
      paraFirst, paraLast, inBreak := null, null, true;
      paras, value, Repr := [], [], {this};
    }

    lemma {:induction false} LastOf()
      requires Nodes() && paraLast != null
      ensures paras != [] && paraLast == paras[|paras| - 1]
      ensures paraLast in Repr && paraLast.nodes <= Repr && paraLast !in paraLast.nodes
      ensures forall i :: 0 <= i < |paras| - 1 ==>
                paras[i] != paraLast && paraLast !in paras[i].nodes && paras[i].nodes !! paraLast.nodes
      ensures forall i :: 0 <= i < |paras| ==> paras[i] !in paraLast.nodes
    {
    }

    method Link(cp: ParaNode)
      requires Linked() && cp !in paras && cp.next == null
      modifies this`paraFirst, this`paraLast, this`paras, paras`next
      ensures Linked() && paras == old(paras) + [cp]
    {
      if paraLast == null {
        paraFirst, paraLast := cp, cp;
      } else {
        paraLast.next := cp;
        paraLast := cp;
      }
      paras := paras + [cp];
    }

    /** A new paragraph at the end of the list. */
    method NewPara()
      requires Nodes()
      modifies this`paraFirst, this`paraLast, this`paras, this`Repr, paras`next
      ensures Nodes() && fresh(Repr - old(Repr)) && |paras| == |old(paras)| + 1 && old(paras) <= paras
      ensures paras[|paras| - 1].value == []
    {
      hide Linked, ParasApart, ParaNode.Valid;
      NoParaInside(paras, Repr);
      var cp := new ParaNode();
      Link(cp);
      NewParaApart(old(paras), Repr, cp);
      Repr := Repr + {cp};
    }

    method OpenPara()
      requires Valid()
      modifies Repr
      ensures Valid() && fresh(Repr - old(Repr)) && paraLast != null
      ensures Contents() == State(old(value) + [Para([])], false)
    {
      hide ParasApart, ParaNode.Valid;
      NewPara();
      inBreak, value := false, value + [Para([])];
    }

    /** A new field at the end of the last paragraph. */
    method NewField(name: string)
      requires Nodes() && paraLast != null
      modifies Repr
      ensures Nodes() && fresh(Repr - old(Repr))
      ensures paras == old(paras) != [] && value == old(value) && inBreak == old(inBreak)
      ensures forall i :: 0 <= i < |paras| - 1 ==> paras[i].value == old(paras[i].value)
      ensures paras[|paras| - 1].value == old(paras[|paras| - 1].value) + [Field(name, [])]
    {
      hide Linked, ParaNode.Valid;
      LastOf();
      var last := paraLast;
      last.Append(name);
      Repr := Repr + last.nodes;
    }

    lemma {:induction false} HasPara()
      requires Valid()
      ensures this in Repr && (paraLast != null <==> value != []) && (value == [] ==> inBreak)
    {
    }

    method OpenField(name: string)
      requires Valid() && paraLast != null
      modifies Repr
      ensures Valid() && fresh(Repr - old(Repr)) && paraLast != null
      ensures Contents() == State(AddField(old(value), name), old(inBreak))
    {
      hide ParasApart, ParaNode.Valid;
      HasPara();
      NewField(name);
      value := AddField(value, name);
    }

    /** A new line at the end of the last field of the last paragraph. */
    method NewLine(line: string)
      requires Nodes() && paraLast != null && paraLast.fieldLast != null
      modifies Repr
      ensures Nodes() && fresh(Repr - old(Repr))
      ensures paras == old(paras) != [] && value == old(value) && inBreak == old(inBreak)
      ensures forall i :: 0 <= i < |paras| - 1 ==> paras[i].value == old(paras[i].value)
      ensures var was, k := old(paras[|paras| - 1].value), |paras[|paras| - 1].value| - 1;
              k == |was| - 1 >= 0 && paras[|paras| - 1].value == was[k := Field(was[k].name, was[k].lines + [line])]
    {
      hide Linked, ParaNode.Valid;
      LastOf();
      var last := paraLast;
      last.HasField();
      last.AppendLine(line);
      Repr := Repr + last.nodes;
    }

    method AppendLine(line: string)
      requires Valid() && paraLast != null && paraLast.fieldLast != null
      modifies Repr
      ensures Valid() && fresh(Repr - old(Repr))
      ensures AddLine(old(value), line) == Some(value) && inBreak == old(inBreak)
    {
      hide ParasApart, ParaNode.Valid;
      HasPara();
      ghost var k := |paras| - 1;
      NewLine(line);
      value := value[k := Para(paras[k].value)];
    }

    /** A blank line ends the paragraph. */
    method EndPara()
      requires Valid()
      modifies this`inBreak
      ensures Valid() && Contents() == State(old(value), true)
    {
      hide ParasApart, Linked, ParaNode.Valid;
      inBreak := true;
    }

    /** Without a last field there is nothing that a line could be added to. */
    lemma {:induction false} NoField(line: string)
      requires Valid() && paraLast != null
      ensures value != [] && (paraLast.fieldLast == null ==> AddLine(value, line) == None)
    {
      paraLast.HasField();
    }

    /** Adding a new field if necessary, and a line to the last field. */
    method Content(line: string, indent: nat) returns (ok: bool)
      requires Valid() && paraLast != null
      requires indent == Span(line, IsSpace) < |line| && line[indent..] == TrimStart(line)
      modifies Repr
      ensures Valid() && fresh(Repr - old(Repr)) && inBreak == old(inBreak) && old(value) != []
      ensures ok <==> AddContent(old(value), line).Some?
      ensures value == if ok then AddContent(old(value), line).value else old(value)
    {
      hide Valid, Nodes, TrimStart, TrimEnd, AddLine, AddField;
      HasPara();
      var off := indent;
      if off == 0 {
        var col := Find(line, ':');
        if col == |line| {
          return false;
        }
        NewFieldTakesLine(value, line[..col], Trim(line[col + 1..]));
        OpenField(line[..col]);
        off := SkipSpaces(line, col + 1);
      }
      var end := DropSpaces(line, off);
      HasPara();
      NoField(line[off..end]);
      if paraLast.fieldLast == null {
        return false;
      }
      AppendLine(line[off..end]);
      return true;
    }

    /** controlparse_line: every line keeps the lists intact, also one that is refused. */
    method Line(line: string) returns (ok: bool)
      requires Valid()
      modifies Repr
      ensures Valid() && fresh(Repr - old(Repr))
      ensures ok <==> Step(old(Contents()), line).Some?
      ensures Contents() == if ok then Step(old(Contents()), line).value else State(Opened(old(Contents())), false)
    {
      hide Valid, Nodes, AddContent;
      HasPara();
      if |line| > 0 && line[0] == '#' {
        return true;
      }
      var off := SkipSpaces(line, 0);
      assert line[0..] == line;
      if off == |line| {
        EndPara();
        return true;
      }
      if inBreak {
        OpenPara();
      }
      ok := Content(line, off);
    }
  }
}
