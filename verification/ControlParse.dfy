/** The line-driven parser of tools/controlparse.c: paragraphs of fields of lines. */
module ControlParse {
  import opened Chars

  datatype Field = Field(name: string, lines: seq<string>)

  datatype Para = Para(fields: seq<Field>)

  datatype State = State(paras: seq<Para>, inBreak: bool)

  const INIT := State([], true)

  // ---------- Lines ----------

  predicate IsComment(line: string) { line != "" && line[0] == '#' }

  predicate IsBlank(line: string) { Span(line, IsSpace) == |line| }

  function TrimStart(s: string): string { s[Span(s, IsSpace)..] }

  function TrimEnd(s: string): string
  {
    if s != "" && IsSpace(s[|s| - 1]) then TrimEnd(s[..|s| - 1]) else s
  }

  function Trim(s: string): string { TrimEnd(TrimStart(s)) }

  /** No white space at either end. */
  predicate Trimmed(s: string) { s != "" ==> !IsSpace(s[0]) && !IsSpace(s[|s| - 1]) }

  // ---------- What one line does ----------

  /** The last field of the last paragraph gets one more line; a paragraph without fields is an error. */
  function AddLine(paras: seq<Para>, value: string): Option<seq<Para>>
    requires paras != []
  {
    var fields := paras[|paras| - 1].fields;
    if fields == [] then None else
    var f := fields[|fields| - 1];
    Some(paras[|paras| - 1 := Para(fields[|fields| - 1 := Field(f.name, f.lines + [value])])])
  }

  /** The last paragraph gets a new field without lines. */
  function AddField(paras: seq<Para>, name: string): seq<Para>
    requires paras != []
  {
    paras[|paras| - 1 := Para(paras[|paras| - 1].fields + [Field(name, [])])]
  }

  lemma {:induction false} NewFieldTakesLine(paras: seq<Para>, name: string, value: string)
    requires paras != []
    ensures AddField(paras, name) != [] && AddLine(AddField(paras, name), value).Some?
  {
  }

  /** The list of paragraphs with a new one if the last line ended a paragraph. */
  function Opened(st: State): seq<Para> { if st.inBreak then st.paras + [Para([])] else st.paras }

  predicate Valid(st: State) { st.paras == [] ==> st.inBreak }

  function Wrap(paras: Option<seq<Para>>): Option<State>
  {
    if paras.Some? then Some(State(paras.value, false)) else None
  }

  /** A line with content continues the last field if it starts with white space, and starts a new field otherwise. */
  function AddContent(paras: seq<Para>, line: string): Option<seq<Para>>
    requires paras != [] && line != ""
  {
    if IsSpace(line[0]) then AddLine(paras, Trim(line)) else
    var col := Find(line, ':');
    if col == |line| then None else AddLine(AddField(paras, line[..col]), Trim(line[col + 1..]))
  }

  /** The state after a line, or None where the parser reports an error. */
  function Step(st: State, line: string): Option<State>
    requires Valid(st)
  {
    if IsComment(line) then Some(st)
    else if IsBlank(line) then Some(State(st.paras, true))
    else Wrap(AddContent(Opened(st), line))
  }

  function Run(st: State, lines: seq<string>): (r: Option<State>)
    requires Valid(st)
    ensures r.Some? ==> Valid(r.value)
    decreases |lines|
  {
    if lines == [] then Some(st) else
    var next := Step(st, lines[0]);
    if next.None? then None else Run(next.value, lines[1..])
  }
}
