/** `ParseShader` of meGraphics/src/Application.cpp: splits a shader file into its
    vertex and fragment sections.

    The file is read line by line. A line containing "#shader" is a marker: it
    selects the section that receives the following lines ("vertex" is tested
    first, then "fragment"; a marker with neither keeps the current section) and is
    not copied. Every other line is written, followed by '\n', into the buffer of
    the current section. Before the first recognised marker the current section is
    NONE (-1), and writing into `ss[-1]` is out of bounds: the model reports that
    as `OutOfBounds`. */
module ShaderParser {
  import opened Text

  /** `enum class ShaderType { NONE = -1, VERTEX = 0, FRAGMENT = 1 }`. */
  datatype ShaderType = None | Vertex | Fragment {
    /** The enumerator's integer value, which the parser uses as an index into its
        two buffers: NONE's value lies outside the two slots. */
    function Value(): (v: int)
      ensures this == None <==> !(0 <= v < 2)
    {
      match this
      case None => -1
      case Vertex => 0
      case Fragment => 1
    }
  }

  /** Distinct sections write into distinct slots of the buffer array. */
  lemma DistinctSlots(t: ShaderType, u: ShaderType)
    ensures t.Value() == u.Value() ==> t == u
  {
  }

  /** `struct ShaderProgramSource { VertexSource; FragmentSource; }`. */
  datatype ShaderProgramSource = ShaderProgramSource(vertexSource: string, fragmentSource: string)

  /** What `ParseShader` produces: the two sections, or the index of the first
      content line that was read while no section was active (the write into
      `ss[-1]`, which is undefined behaviour in the source). */
  datatype ParseResult =
    | Parsed(source: ShaderProgramSource)
    | OutOfBounds(line: nat)

  /** The shader file as the parser's `std::ifstream` sees it: a file that cannot be
      opened yields no line at all. */
  datatype ShaderFile = Unreadable | Readable(text: string)

  const Marker := "#shader"
  const VertexKeyword := "vertex"
  const FragmentKeyword := "fragment"

  /** The lines that the `getline` loop reads from the file. */
  function FileLines(file: ShaderFile): (r: seq<string>)
    ensures file.Unreadable? ==> r == []
    ensures file.Readable? ==> Join(r) == Terminated(file.text)
    ensures forall k :: 0 <= k < |r| ==> '\n' !in r[k]
  {
    match file
    case Unreadable => []
    case Readable(text) => JoinLines(text); Lines(text)
  }

  /** The contract of `FileLines` fixes the split: any newline-free lines whose
      re-terminated text is the file's text are exactly the lines `getline` reads. */
  lemma FileLinesDetermined(file: ShaderFile, r: seq<string>)
    requires file.Readable? && Join(r) == Terminated(file.text)
    requires forall k :: 0 <= k < |r| ==> '\n' !in r[k]
    ensures r == FileLines(file)
  {
    var text := file.text;
    LinesJoin(r);
    if text != [] && text[|text| - 1] != '\n' {
      TrailingNewlineIgnored(text);
    }
  }

  /** A line is a marker when "#shader" occurs anywhere in it. */
  predicate IsMarker(line: string) {
    Contains(line, Marker)
  }

  /** The section that is active after the marker line `line` when `mode` was. */
  function Select(mode: ShaderType, line: string): ShaderType {
    if Contains(line, VertexKeyword) then Vertex
    else if Contains(line, FragmentKeyword) then Fragment
    else mode
  }

  /** The parser's state between two lines: the active section and the text written
      into each of the two buffers so far. */
  datatype Scan = Scan(mode: ShaderType, vertex: string, fragment: string)

  /** The state after a prefix of the lines, or the index of the line whose write
      went out of bounds. */
  datatype Progress = Running(scan: Scan) | Faulted(line: nat)

  /** The result of processing one line in state `s`; `at` is the line's index. */
  function Step(s: Scan, line: string, at: nat): Progress {
    if IsMarker(line) then Running(s.(mode := Select(s.mode, line)))
    else match s.mode
      case None => Faulted(at)
      case Vertex => Running(s.(vertex := s.vertex + line + "\n"))
      case Fragment => Running(s.(fragment := s.fragment + line + "\n"))
  }

  /** The state after the loop has read `lines`, one after the other from the start. */
  function Execute(lines: seq<string>): (p: Progress)
    ensures p.Faulted? ==> p.line < |lines|
  {
    if lines == [] then Running(Scan(None, "", ""))
    else
      match Execute(lines[..|lines| - 1])
      case Faulted(k) => Faulted(k)
      case Running(s) => Step(s, lines[|lines| - 1], |lines| - 1)
  }

  /** Reading one more line is one more `Step`, unless the parse already faulted. */
  lemma ExecuteSnoc(ls: seq<string>, l: string)
    ensures Execute(ls + [l]) == match Execute(ls)
      case Faulted(k) => Faulted(k)
      case Running(s) => Step(s, l, |ls|)
  {
    assert (ls + [l])[..|ls|] == ls;
  }

  /** Once a write has gone out of bounds, the lines after it change nothing. */
  lemma {:induction false} FaultPersists(lines: seq<string>, j: nat)
    requires j <= |lines| && Execute(lines[..j]).Faulted?
    ensures Execute(lines) == Execute(lines[..j])
  {
    if j < |lines| {
      var init := lines[..|lines| - 1];
      assert init[..j] == lines[..j];
      FaultPersists(init, j);
    } else {
      assert lines[..j] == lines;
    }
  }

  /** What `ParseShader` returns for a file made of `lines`. */
  function Parse(lines: seq<string>): ParseResult {
    match Execute(lines)
    case Faulted(k) => OutOfBounds(k)
    case Running(s) => Parsed(ShaderProgramSource(s.vertex, s.fragment))
  }

  /** `ParseShader(filepath)`: the `while (getline(stream, line))` loop with its mode
      variable `type` and its two buffers `ss[2]`, indexed by the value of `type`. */
  method ParseShader(file: ShaderFile) returns (r: ParseResult)
    ensures r == Parse(FileLines(file))
  {
    var lines := FileLines(file);
    var ss := new string[2](_ => "");
    var mode := None;
    var i := 0;
    while i < |lines|
      invariant 0 <= i <= |lines|
      invariant Execute(lines[..i]) == Running(Scan(mode, ss[0], ss[1]))
    {
      var line := lines[i];
      ghost var before := Scan(mode, ss[0], ss[1]);
      assert lines[..i + 1] == lines[..i] + [line];
      ExecuteSnoc(lines[..i], line);
      if Contains(line, Marker) {
        if Contains(line, VertexKeyword) {
          mode := Vertex;
        } else if Contains(line, FragmentKeyword) {
          mode := Fragment;
        }
      } else {
        var index := mode.Value();
        if index < 0 || index >= ss.Length {
          FaultPersists(lines, i + 1);
          return OutOfBounds(i);
        }
        ss[index] := ss[index] + line + "\n";
      }
      assert Step(before, line, i) == Running(Scan(mode, ss[0], ss[1]));
      i := i + 1;
    }
    assert lines[..i] == lines;
    r := Parsed(ShaderProgramSource(ss[0], ss[1]));
  }
}
