/** What `ParseShader` promises, stated against a reference description of the
    routing that does not follow the loop: a line belongs to the section named by
    the nearest recognised marker above it, each section is the in-order list of the
    content lines that belong to it, each re-terminated with '\n', and a content line
    with no recognised marker above it is the out-of-bounds write. */
module ShaderProperties {
  import opened Text
  import opened ShaderParser

  /** A marker line that names a section. */
  predicate Selects(line: string) {
    IsMarker(line) && (Contains(line, VertexKeyword) || Contains(line, FragmentKeyword))
  }

  /** The section a selecting marker names; "vertex" wins over "fragment". */
  function Keyword(line: string): ShaderType {
    if Contains(line, VertexKeyword) then Vertex else Fragment
  }

  /** The section active when line `k` of `ls` is read: the one named by the nearest
      selecting marker above it, or `None` when there is none. */
  function ModeBefore(ls: seq<string>, k: nat): ShaderType
    requires k <= |ls|
  {
    if k == 0 then None
    else if Selects(ls[k - 1]) then Keyword(ls[k - 1])
    else ModeBefore(ls, k - 1)
  }

  /** Line `k` is copied into section `t`. */
  predicate RoutedTo(ls: seq<string>, k: nat, t: ShaderType)
    requires k < |ls|
  {
    !IsMarker(ls[k]) && ModeBefore(ls, k) == t
  }

  /** The lines among the first `n` of `ls` that are copied into section `t`, in the
      order they appear. */
  function RoutedUpTo(ls: seq<string>, n: nat, t: ShaderType): seq<string>
    requires n <= |ls|
  {
    if n == 0 then []
    else RoutedUpTo(ls, n - 1, t) + (if RoutedTo(ls, n - 1, t) then [ls[n - 1]] else [])
  }

  /** All lines of `ls` copied into section `t`; for `None`, the lines that would be
      written into `ss[-1]`. */
  function Routed(ls: seq<string>, t: ShaderType): seq<string> {
    RoutedUpTo(ls, |ls|, t)
  }

  /** The non-marker lines among the first `n` of `ls`, in order. */
  function ContentUpTo(ls: seq<string>, n: nat): seq<string>
    requires n <= |ls|
  {
    if n == 0 then []
    else ContentUpTo(ls, n - 1) + ContentAt(ls, n - 1)
  }

  /** Line `k` itself when it is a content line, nothing when it is a marker. */
  function ContentAt(ls: seq<string>, k: nat): seq<string>
    requires k < |ls|
  {
    if IsMarker(ls[k]) then [] else [ls[k]]
  }

  /** Line `k` is a content line read while no section is active. */
  predicate Orphan(ls: seq<string>, k: nat)
    requires k < |ls|
  {
    RoutedTo(ls, k, None)
  }

  /** No line of `ls` is written out of bounds. */
  predicate NoOrphan(ls: seq<string>) {
    forall k :: 0 <= k < |ls| ==> !Orphan(ls, k)
  }

  /** `k` is the first line of `ls` written out of bounds. */
  predicate FirstOrphan(ls: seq<string>, k: nat) {
    k < |ls| && Orphan(ls, k) && forall j :: 0 <= j < k ==> !Orphan(ls, j)
  }

  /** A marker's effect on the active section, as the loop applies it, is the
      reference's "nearest selecting marker". */
  lemma ModeStep(ls: seq<string>, n: nat)
    requires n < |ls|
    ensures ModeBefore(ls, n + 1) == if IsMarker(ls[n]) then Select(ModeBefore(ls, n), ls[n]) else ModeBefore(ls, n)
  {
  }

  /** Appending one line to a section adds that line and one '\n'. */
  lemma JoinSnoc(a: seq<string>, l: string)
    ensures Join(a + [l]) == Join(a) + l + "\n"
  {
    JoinAppend(a, [l]);
    assert Join([l]) == l + "\n" + Join([]);
  }

  /** The loop invariant, stated once and for all prefixes: after the first `n` lines
      the parser either has faulted at the first orphan line, or holds the section
      named by the nearest marker and, in each buffer, exactly the lines routed to
      that section. */
  lemma {:induction false} ExecuteMatchesReference(ls: seq<string>, n: nat)
    requires n <= |ls|
    ensures Execute(ls[..n]).Running? ==>
      (forall k :: 0 <= k < n ==> !Orphan(ls, k)) &&
      Execute(ls[..n]).scan == Scan(ModeBefore(ls, n), Join(RoutedUpTo(ls, n, Vertex)), Join(RoutedUpTo(ls, n, Fragment)))
    ensures Execute(ls[..n]).Faulted? ==> FirstOrphan(ls, Execute(ls[..n]).line) && Execute(ls[..n]).line < n
  {
    if n == 0 {
      assert ls[..0] == [];
    } else {
      var p := ls[..n];
      assert p[..n - 1] == ls[..n - 1];
      ExecuteMatchesReference(ls, n - 1);
      if Execute(ls[..n - 1]).Running? {
        RunningStep(ls, n, Execute(ls[..n - 1]).scan);
      }
    }
  }

  /** One iteration of the loop from a state that agrees with the reference. */
  lemma RunningStep(ls: seq<string>, n: nat, s: Scan)
    requires 0 < n <= |ls|
    requires Execute(ls[..n - 1]) == Running(s)
    requires forall k :: 0 <= k < n - 1 ==> !Orphan(ls, k)
    requires s == Scan(ModeBefore(ls, n - 1), Join(RoutedUpTo(ls, n - 1, Vertex)), Join(RoutedUpTo(ls, n - 1, Fragment)))
    ensures Execute(ls[..n]).Running? ==>
      (forall k :: 0 <= k < n ==> !Orphan(ls, k)) &&
      Execute(ls[..n]).scan == Scan(ModeBefore(ls, n), Join(RoutedUpTo(ls, n, Vertex)), Join(RoutedUpTo(ls, n, Fragment)))
    ensures Execute(ls[..n]).Faulted? ==> FirstOrphan(ls, Execute(ls[..n]).line) && Execute(ls[..n]).line < n
  {
    var p := ls[..n];
    assert p[..n - 1] == ls[..n - 1];
    assert Execute(p) == Step(s, ls[n - 1], n - 1);
    if IsMarker(ls[n - 1]) {
      MarkerStep(ls, n, s);
    } else {
      ContentLineStep(ls, n, s);
    }
  }

  /** A marker line changes the section as the reference does, and no buffer. */
  lemma MarkerStep(ls: seq<string>, n: nat, s: Scan)
    requires 0 < n <= |ls| && IsMarker(ls[n - 1])
    requires s == Scan(ModeBefore(ls, n - 1), Join(RoutedUpTo(ls, n - 1, Vertex)), Join(RoutedUpTo(ls, n - 1, Fragment)))
    ensures Step(s, ls[n - 1], n - 1)
         == Running(Scan(ModeBefore(ls, n), Join(RoutedUpTo(ls, n, Vertex)), Join(RoutedUpTo(ls, n, Fragment))))
    ensures !Orphan(ls, n - 1)
  {
    ModeStep(ls, n - 1);
    assert RoutedUpTo(ls, n, Vertex) == RoutedUpTo(ls, n - 1, Vertex);
    assert RoutedUpTo(ls, n, Fragment) == RoutedUpTo(ls, n - 1, Fragment);
  }

  /** A content line faults exactly when it is an orphan, and otherwise is appended
      to the buffer of the active section. */
  lemma ContentLineStep(ls: seq<string>, n: nat, s: Scan)
    requires 0 < n <= |ls| && !IsMarker(ls[n - 1])
    requires s == Scan(ModeBefore(ls, n - 1), Join(RoutedUpTo(ls, n - 1, Vertex)), Join(RoutedUpTo(ls, n - 1, Fragment)))
    ensures Orphan(ls, n - 1) ==> Step(s, ls[n - 1], n - 1) == Faulted(n - 1)
    ensures !Orphan(ls, n - 1) ==>
      Step(s, ls[n - 1], n - 1) == Running(Scan(ModeBefore(ls, n), Join(RoutedUpTo(ls, n, Vertex)), Join(RoutedUpTo(ls, n, Fragment))))
  {
    ModeStep(ls, n - 1);
    var l := ls[n - 1];
    var vs, fs := RoutedUpTo(ls, n - 1, Vertex), RoutedUpTo(ls, n - 1, Fragment);
    match s.mode
    case None =>
    case Vertex =>
      assert RoutedUpTo(ls, n, Vertex) == vs + [l];
      assert RoutedUpTo(ls, n, Fragment) == fs;
      JoinSnoc(vs, l);
    case Fragment =>
      assert RoutedUpTo(ls, n, Vertex) == vs;
      assert RoutedUpTo(ls, n, Fragment) == fs + [l];
      JoinSnoc(fs, l);
  }

  /** `Parse` succeeds exactly when no content line precedes every recognised marker;
      then the vertex and fragment sources are the lines routed to each section,
      each followed by '\n', in their original order; otherwise it reports the first
      line that would be written out of bounds. */
  lemma ParseMatchesReference(ls: seq<string>)
    ensures Parse(ls).Parsed? <==> NoOrphan(ls)
    ensures Parse(ls).Parsed? ==>
      Parse(ls).source == ShaderProgramSource(Join(Routed(ls, Vertex)), Join(Routed(ls, Fragment)))
    ensures Parse(ls).OutOfBounds? ==> FirstOrphan(ls, Parse(ls).line)
  {
    ExecuteMatchesReference(ls, |ls|);
    assert ls[..|ls|] == ls;
  }

  /** Once a section is active, no later line is read with no section active. */
  lemma {:induction false} ModeNeverReturnsToNone(ls: seq<string>, j: nat, k: nat)
    requires j <= k <= |ls| && ModeBefore(ls, j) != None
    ensures ModeBefore(ls, k) != None
    decreases k
  {
    if k > j {
      ModeNeverReturnsToNone(ls, j, k - 1);
    }
  }

  /** No section is active exactly until the first selecting marker has been read. */
  lemma {:induction false} ModeNoneIff(ls: seq<string>, k: nat)
    requires k <= |ls|
    ensures ModeBefore(ls, k) == None <==> forall j :: 0 <= j < k ==> !Selects(ls[j])
  {
    if k > 0 {
      ModeNoneIff(ls, k - 1);
    }
  }

  /** Lines that contain "#shader" (such as unrecognised markers) leave the active
      section where it was: across a stretch with no selecting marker, the content
      keeps going to the section active before it. */
  lemma {:induction false} ModeCarriesOver(ls: seq<string>, j: nat, k: nat)
    requires j <= k <= |ls|
    requires forall m :: j <= m < k ==> !Selects(ls[m])
    ensures ModeBefore(ls, k) == ModeBefore(ls, j)
    decreases k
  {
    if k > j {
      ModeCarriesOver(ls, j, k - 1);
    }
  }

  /** Lines that contain "#shader" are never copied: every routed line is a
      non-marker line of the input. (That every non-marker line is routed to exactly
      one section, `None` included, is `ContentPartition`.) */
  lemma {:induction false} RoutedLinesAreContent(ls: seq<string>, n: nat, t: ShaderType)
    requires n <= |ls|
    ensures forall l :: l in RoutedUpTo(ls, n, t) ==> !IsMarker(l) && l in ls
  {
    if n > 0 {
      RoutedLinesAreContent(ls, n - 1, t);
    }
  }

  /** Section lists only grow as more lines are read. */
  lemma {:induction false} RoutedPrefix(ls: seq<string>, m: nat, n: nat, t: ShaderType)
    requires m <= n <= |ls|
    ensures RoutedUpTo(ls, m, t) <= RoutedUpTo(ls, n, t)
    decreases n
  {
    if m < n {
      RoutedPrefix(ls, m, n - 1, t);
    }
  }

  /** Line `k`, routed to `t`, is the entry of section `t` that follows the lines
      routed there before it. */
  lemma RoutedAt(ls: seq<string>, k: nat, t: ShaderType)
    requires k < |ls| && RoutedTo(ls, k, t)
    ensures |RoutedUpTo(ls, k, t)| < |Routed(ls, t)|
    ensures Routed(ls, t)[|RoutedUpTo(ls, k, t)|] == ls[k]
  {
    RoutedPrefix(ls, k + 1, |ls|, t);
  }

  /** Two lines routed to the same section keep their relative order there. */
  lemma RoutedInOrder(ls: seq<string>, k1: nat, k2: nat, t: ShaderType)
    requires k1 < k2 < |ls| && RoutedTo(ls, k1, t) && RoutedTo(ls, k2, t)
    ensures |RoutedUpTo(ls, k1, t)| < |RoutedUpTo(ls, k2, t)| < |Routed(ls, t)|
    ensures Routed(ls, t)[|RoutedUpTo(ls, k1, t)|] == ls[k1]
    ensures Routed(ls, t)[|RoutedUpTo(ls, k2, t)|] == ls[k2]
  {
    RoutedPrefix(ls, k1 + 1, k2, t);
    RoutedAt(ls, k1, t);
    RoutedAt(ls, k2, t);
  }

  /** The number of occurrences of `l` in `s`. */
  function Count(s: seq<string>, l: string): nat {
    if s == [] then 0 else Count(s[..|s| - 1], l) + (if s[|s| - 1] == l then 1 else 0)
  }

  /** Occurrences in a concatenation add up. */
  lemma {:induction false} CountAppend(a: seq<string>, b: seq<string>, l: string)
    ensures Count(a + b, l) == Count(a, l) + Count(b, l)
  {
    if b == [] {
      assert a + b == a;
    } else {
      assert (a + b)[..|a + b| - 1] == a + b[..|b| - 1];
      CountAppend(a, b[..|b| - 1], l);
    }
  }

  /** `Count` is the multiplicity of `l` in the multiset of `s`. */
  lemma {:induction false} CountIsMultiplicity(s: seq<string>, l: string)
    ensures Count(s, l) == multiset(s)[l]
  {
    if s != [] {
      var init := s[..|s| - 1];
      assert s == init + [s[|s| - 1]];
      CountIsMultiplicity(init, l);
    }
  }

  /** Every non-marker line goes to exactly one of the three destinations: each
      line occurs as often among the content lines as in the three destinations
      together. */
  lemma {:induction false} ContentPartition(ls: seq<string>, n: nat, l: string)
    requires n <= |ls|
    ensures Count(ContentUpTo(ls, n), l)
         == Count(RoutedUpTo(ls, n, None), l) + Count(RoutedUpTo(ls, n, Vertex), l) + Count(RoutedUpTo(ls, n, Fragment), l)
  {
    if n > 0 {
      ContentPartition(ls, n - 1, l);
      RoutedStep(ls, n, None, l);
      RoutedStep(ls, n, Vertex, l);
      RoutedStep(ls, n, Fragment, l);
      CountAppend(ContentUpTo(ls, n - 1), ContentAt(ls, n - 1), l);
    }
  }

  /** How line `n - 1` extends the list of section `t`: by the line itself when `t`
      is the active section and the line is content, by nothing otherwise. */
  lemma RoutedStep(ls: seq<string>, n: nat, t: ShaderType, l: string)
    requires 0 < n <= |ls|
    ensures Count(RoutedUpTo(ls, n, t), l) == Count(RoutedUpTo(ls, n - 1, t), l)
      + if ModeBefore(ls, n - 1) == t then Count(ContentAt(ls, n - 1), l) else 0
  {
    var added := if RoutedTo(ls, n - 1, t) then [ls[n - 1]] else [];
    CountAppend(RoutedUpTo(ls, n - 1, t), added, l);
    assert ModeBefore(ls, n - 1) == t ==> added == ContentAt(ls, n - 1);
  }

  /** There is no orphan exactly when nothing is routed to `None`. */
  lemma {:induction false} NoOrphanIff(ls: seq<string>, n: nat)
    requires n <= |ls|
    ensures RoutedUpTo(ls, n, None) == [] <==> forall k :: 0 <= k < n ==> !Orphan(ls, k)
  {
    if n > 0 {
      NoOrphanIff(ls, n - 1);
      var ns := RoutedUpTo(ls, n - 1, None);
      if Orphan(ls, n - 1) {
        assert RoutedUpTo(ls, n, None) == ns + [ls[n - 1]];
      } else {
        assert RoutedUpTo(ls, n, None) == ns;
      }
    }
  }

  /** A parse that succeeds copies every non-marker line exactly once, into one of the
      two sections: together they are a permutation of the content lines. */
  lemma ParsedIsPartition(ls: seq<string>)
    requires Parse(ls).Parsed?
    ensures multiset(Routed(ls, Vertex)) + multiset(Routed(ls, Fragment)) == multiset(ContentUpTo(ls, |ls|))
  {
    ParseMatchesReference(ls);
    NoOrphanIff(ls, |ls|);
    forall l: string
      ensures multiset(Routed(ls, Vertex))[l] + multiset(Routed(ls, Fragment))[l] == multiset(ContentUpTo(ls, |ls|))[l]
    {
      ContentPartition(ls, |ls|, l);
      CountIsMultiplicity(Routed(ls, Vertex), l);
      CountIsMultiplicity(Routed(ls, Fragment), l);
      CountIsMultiplicity(ContentUpTo(ls, |ls|), l);
    }
  }

  /** Each output is as long as the sum of `|line| + 1` over the lines routed to it,
      and when it is not empty it ends in '\n'. */
  lemma OutputShape(ls: seq<string>)
    requires Parse(ls).Parsed?
    ensures var src := Parse(ls).source;
      |src.vertexSource| == TextSize(Routed(ls, Vertex)) &&
      |src.fragmentSource| == TextSize(Routed(ls, Fragment)) &&
      (src.vertexSource != [] ==> src.vertexSource[|src.vertexSource| - 1] == '\n') &&
      (src.fragmentSource != [] ==> src.fragmentSource[|src.fragmentSource| - 1] == '\n')
  {
    ParseMatchesReference(ls);
    JoinLength(Routed(ls, Vertex));
    JoinLength(Routed(ls, Fragment));
  }

  // Which marker selects which section.

  /** "#shader" is found anywhere on the line, not only at its start. */
  lemma MarkerAnywhere(line: string, i: nat)
    requires OccursAt(line, Marker, i)
    ensures IsMarker(line)
  {
    ContainsIffOccurs(line, Marker);
  }

  /** "vertex" anywhere on a marker line selects VERTEX, whatever else the line holds. */
  lemma VertexTestedFirst(mode: ShaderType, line: string, i: nat)
    requires OccursAt(line, VertexKeyword, i)
    ensures Select(mode, line) == Vertex
  {
    ContainsIffOccurs(line, VertexKeyword);
  }

  /** "fragment" selects FRAGMENT only on a line without "vertex". */
  lemma FragmentTestedSecond(mode: ShaderType, line: string, i: nat)
    requires OccursAt(line, FragmentKeyword, i)
    requires forall j: nat :: !OccursAt(line, VertexKeyword, j)
    ensures Select(mode, line) == Fragment
  {
    ContainsIffOccurs(line, VertexKeyword);
    ContainsIffOccurs(line, FragmentKeyword);
  }

  /** A marker with neither keyword keeps the active section. */
  lemma UnrecognisedKeepsMode(mode: ShaderType, line: string)
    requires forall j: nat :: !OccursAt(line, VertexKeyword, j) && !OccursAt(line, FragmentKeyword, j)
    ensures Select(mode, line) == mode
  {
    ContainsIffOccurs(line, VertexKeyword);
    ContainsIffOccurs(line, FragmentKeyword);
  }

  /** A pattern whose first character does not occur in `s` is not found in `s`. */
  lemma NotFound(s: string, pat: string)
    requires pat != [] && pat[0] !in s
    ensures !Contains(s, pat)
  {
    ContainsIffOccurs(s, pat);
    forall i: nat | i + |pat| <= |s|
      ensures s[i..i + |pat|][0] == s[i] != pat[0]
    {
    }
  }
}
