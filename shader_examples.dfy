/** Worked inputs for `ParseShader`: the two-section example file, as lines and as
    raw text, a marker with an unknown keyword, a marker naming both sections, and
    the empty and unopenable files. */
module ShaderExamples {
  import opened Text
  import opened ShaderParser
  import opened ShaderProperties

  /** The marker "#shader vertex" opens the vertex section. */
  lemma VertexMarker(mode: ShaderType)
    ensures IsMarker("#shader vertex") && Select(mode, "#shader vertex") == Vertex
  {
    MarkerAnywhere("#shader vertex", 0);
    VertexTestedFirst(mode, "#shader vertex", 8);
  }

  /** The marker "#shader fragment" opens the fragment section. */
  lemma FragmentMarker(mode: ShaderType)
    ensures IsMarker("#shader fragment") && Select(mode, "#shader fragment") == Fragment
  {
    MarkerAnywhere("#shader fragment", 0);
    NoVertexInFragmentMarker();
    FragmentInFragmentMarker();
  }

  /** "vertex" does not occur in "#shader fragment". */
  lemma NoVertexInFragmentMarker()
    ensures !Contains("#shader fragment", VertexKeyword)
  {
    NotFound("#shader fragment", VertexKeyword);
  }

  /** "fragment" occurs in "#shader fragment", at index 8. */
  lemma FragmentInFragmentMarker()
    ensures Contains("#shader fragment", FragmentKeyword)
  {
    assert OccursAt("#shader fragment", FragmentKeyword, 8);
    ContainsIffOccurs("#shader fragment", FragmentKeyword);
  }

  /** Two markers, each followed by one content line, where the first marker opens
      the vertex section and the second selects `t`. */
  lemma MarkerLineMarkerLine(m1: string, a: string, m2: string, b: string, t: ShaderType)
    requires IsMarker(m1) && Select(None, m1) == Vertex && !IsMarker(a)
    requires IsMarker(m2) && Select(Vertex, m2) == t && t != None && !IsMarker(b)
    ensures Parse([m1, a, m2, b]) == if t == Vertex
      then Parsed(ShaderProgramSource(a + "\n" + b + "\n", ""))
      else Parsed(ShaderProgramSource(a + "\n", b + "\n"))
  {
    var l1 := [m1];
    var l2 := l1 + [a];
    var l3 := l2 + [m2];
    var l4 := l3 + [b];
    ExecuteSnoc([], m1);
    assert [] + [m1] == l1;
    assert Execute(l1) == Running(Scan(Vertex, "", ""));
    ExecuteSnoc(l1, a);
    assert Execute(l2) == Running(Scan(Vertex, a + "\n", ""));
    ExecuteSnoc(l2, m2);
    assert Execute(l3) == Running(Scan(t, a + "\n", ""));
    ExecuteSnoc(l3, b);
    assert l4 == [m1, a, m2, b];
  }

  /** The two-section file: each section gets exactly its one line and a '\n'. */
  lemma TwoSections(a: string, b: string)
    requires !IsMarker(a) && !IsMarker(b)
    ensures Parse(["#shader vertex", a, "#shader fragment", b])
         == Parsed(ShaderProgramSource(a + "\n", b + "\n"))
  {
    VertexMarker(None);
    FragmentMarker(Vertex);
    MarkerLineMarkerLine("#shader vertex", a, "#shader fragment", b, Fragment);
  }

  /** The text of four lines, each re-terminated. */
  lemma JoinFour(l1: string, l2: string, l3: string, l4: string)
    ensures Join([l1, l2, l3, l4]) == l1 + "\n" + l2 + "\n" + l3 + "\n" + l4 + "\n"
  {
    var ls := [l1, l2, l3, l4];
    assert ls[1..] == [l2, l3, l4] && ls[1..][1..] == [l3, l4] && [l3, l4][1..] == [l4];
    assert Join([l4]) == l4 + "\n" by {
      assert [l4][1..] == [];
    }
    assert Join([l3, l4]) == l3 + "\n" + (l4 + "\n");
    assert Join([l2, l3, l4]) == l2 + "\n" + (l3 + "\n" + (l4 + "\n"));
    assert Join(ls) == l1 + "\n" + (l2 + "\n" + (l3 + "\n" + (l4 + "\n")));
  }

  /** The same file as raw text: `getline` splits it into the four lines above. */
  lemma TwoSectionsText(a: string, b: string)
    requires !IsMarker(a) && !IsMarker(b) && '\n' !in a && '\n' !in b
    ensures Parse(FileLines(Readable("#shader vertex\n" + a + "\n#shader fragment\n" + b + "\n")))
         == Parsed(ShaderProgramSource(a + "\n", b + "\n"))
  {
    var ls := ["#shader vertex", a, "#shader fragment", b];
    JoinFour("#shader vertex", a, "#shader fragment", b);
    assert "#shader vertex\n" + a + "\n#shader fragment\n" + b + "\n" == Join(ls);
    NoNewlineInMarkers();
    LinesJoin(ls);
    TwoSections(a, b);
  }

  /** The two marker lines contain no '\n'. */
  lemma NoNewlineInMarkers()
    ensures '\n' !in "#shader vertex" && '\n' !in "#shader fragment"
  {
  }

  /** A marker with an unknown keyword does not drop what follows: it keeps going to
      the section opened before. */
  lemma UnknownKeywordKeepsSection(a: string, b: string)
    requires !IsMarker(a) && !IsMarker(b)
    ensures Parse(["#shader vertex", a, "#shader geometry", b])
         == Parsed(ShaderProgramSource(a + "\n" + b + "\n", ""))
  {
    VertexMarker(None);
    GeometryMarker();
    MarkerLineMarkerLine("#shader vertex", a, "#shader geometry", b, Vertex);
  }

  /** "#shader geometry" is a marker that names neither section. */
  lemma GeometryMarker()
    ensures IsMarker("#shader geometry") && Select(Vertex, "#shader geometry") == Vertex
  {
    MarkerAnywhere("#shader geometry", 0);
    NoVertexInGeometryMarker();
    NoFragmentInGeometryMarker();
  }

  /** "fragment" does not occur in "#shader geometry". */
  lemma NoFragmentInGeometryMarker()
    ensures !Contains("#shader geometry", FragmentKeyword)
  {
    NotFound("#shader geometry", FragmentKeyword);
  }

  /** "vertex" does not occur in "#shader geometry". */
  lemma NoVertexInGeometryMarker()
    ensures !Contains("#shader geometry", VertexKeyword)
  {
    NotFound("#shader geometry", VertexKeyword);
  }

  /** A marker naming both sections selects VERTEX. */
  lemma BothKeywordsSelectVertex(a: string)
    requires !IsMarker(a)
    ensures Parse(["#shader fragment vertex", a]) == Parsed(ShaderProgramSource(a + "\n", ""))
  {
    var m := "#shader fragment vertex";
    MarkerAnywhere(m, 0);
    VertexTestedFirst(None, m, 17);
    var l1 := [m];
    ExecuteSnoc([], m);
    assert [] + [m] == l1;
    assert Execute(l1) == Running(Scan(Vertex, "", ""));
    ExecuteSnoc(l1, a);
    assert l1 + [a] == [m, a];
  }

  /** A content line before any marker is the out-of-bounds write at line 0. */
  lemma ContentBeforeMarker(ls: seq<string>)
    requires ls != [] && !IsMarker(ls[0])
    ensures Parse(ls) == OutOfBounds(0)
  {
    ParseMatchesReference(ls);
    assert Orphan(ls, 0);
  }

  /** An unopenable file and an empty file both give two empty sources. */
  lemma EmptyInput()
    ensures Parse(FileLines(Unreadable)) == Parsed(ShaderProgramSource("", ""))
    ensures Parse(FileLines(Readable(""))) == Parsed(ShaderProgramSource("", ""))
  {
  }
}
