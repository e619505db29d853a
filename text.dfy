/** The three standard-library string operations that the shader parser relies on,
    as functions over `string` (= `seq<char>`):
    - `std::string::find(pat) != npos`, as `Contains`;
    - splitting a stream into lines with `std::getline`, as `Lines`;
    - writing `line << '\n'` into a `std::stringstream` and reading back `str()`,
      as `Join`. */
module Text {

  /** `pat` occurs in `s` starting at index `i`. */
  predicate OccursAt(s: string, pat: string, i: nat) {
    i + |pat| <= |s| && s[i..i + |pat|] == pat
  }

  /** `s.find(pat) != std::string::npos`: `pat` occurs somewhere in `s`, at any
      position (a substring search, not a prefix test). The empty pattern is found
      in every string, as `find` finds it at position 0. */
  predicate Contains(s: string, pat: string)
    decreases |s|
  {
    |pat| <= |s| && (s[..|pat|] == pat || Contains(s[1..], pat))
  }

  /** Dropping the first character shifts every occurrence one place left. */
  lemma OccursShift(s: string, pat: string, i: nat)
    requires s != []
    ensures OccursAt(s[1..], pat, i) <==> OccursAt(s, pat, i + 1)
  {
    if i + 1 + |pat| <= |s| {
      assert s[1..][i..i + |pat|] == s[i + 1..i + 1 + |pat|];
    }
  }

  /** `Contains` agrees with the positional definition of an occurrence. */
  lemma {:induction false} ContainsIffOccurs(s: string, pat: string)
    ensures Contains(s, pat) <==> exists i: nat :: OccursAt(s, pat, i)
    decreases |s|
  {
    if |pat| > |s| {
      assert forall i: nat :: !OccursAt(s, pat, i);
    } else if s[..|pat|] == pat {
      assert OccursAt(s, pat, 0);
    } else {
      assert !OccursAt(s, pat, 0);
      assert s != [];
      ContainsIffOccurs(s[1..], pat);
      if Contains(s[1..], pat) {
        var i: nat :| OccursAt(s[1..], pat, i);
        OccursShift(s, pat, i);
      } else {
        forall i: nat | i > 0
          ensures !OccursAt(s, pat, i)
        {
          OccursShift(s, pat, i - 1);
        }
      }
    }
  }

  /** Index of the first '\n' in `s`, or `|s|` when there is none. */
  function FirstNewline(s: string): (k: nat)
    ensures k <= |s|
    ensures forall j :: 0 <= j < k ==> s[j] != '\n'
    ensures k < |s| ==> s[k] == '\n'
    decreases |s|
  {
    if s == [] || s[0] == '\n' then 0 else 1 + FirstNewline(s[1..])
  }

  /** The lines that successive `std::getline(stream, line)` calls yield from the
      text `text`: it is split at each '\n', which is not part of any line; a final
      line without a trailing '\n' is still yielded; a trailing '\n' does not yield
      an extra empty line; an empty text yields no line at all. */
  function Lines(text: string): (r: seq<string>)
    ensures forall k :: 0 <= k < |r| ==> '\n' !in r[k]
    ensures r == [] <==> text == []
    decreases |text|
  {
    if text == [] then []
    else
      var k := FirstNewline(text);
      assert forall j :: 0 <= j < k ==> text[..k][j] != '\n';
      if k == |text| then [text] else [text[..k]] + Lines(text[k + 1..])
  }

  /** The text a `std::stringstream` holds after `ss << line << '\n'` for each of
      `ls` in order: every line followed by exactly one '\n'. It is empty exactly
      when there are no lines, and otherwise ends in '\n'. */
  function Join(ls: seq<string>): (r: string)
    ensures r == [] <==> ls == []
    ensures r != [] ==> r[|r| - 1] == '\n'
  {
    if ls == [] then [] else ls[0] + "\n" + Join(ls[1..])
  }

  /** The sum of `|l| + 1` over the lines `l` of `ls`. */
  function TextSize(ls: seq<string>): nat {
    if ls == [] then 0 else |ls[0]| + 1 + TextSize(ls[1..])
  }

  /** Each line contributes its own length plus one newline to the joined text. */
  lemma {:induction false} JoinLength(ls: seq<string>)
    ensures |Join(ls)| == TextSize(ls)
  {
    if ls != [] {
      JoinLength(ls[1..]);
    }
  }

  /** Writing two batches of lines one after the other gives the concatenation. */
  lemma {:induction false} JoinAppend(a: seq<string>, b: seq<string>)
    ensures Join(a + b) == Join(a) + Join(b)
  {
    if a == [] {
      assert a + b == b;
    } else {
      assert (a + b)[1..] == a[1..] + b;
      JoinAppend(a[1..], b);
    }
  }

  /** `text` with a '\n' added when its last line lacks one. */
  function Terminated(text: string): string {
    if text == [] || text[|text| - 1] == '\n' then text else text + "\n"
  }

  /** Re-terminating the lines that `getline` yields gives back the text, except that
      a text whose last line had no '\n' gains one. */
  lemma {:induction false} JoinLines(text: string)
    ensures Join(Lines(text)) == Terminated(text)
    decreases |text|
  {
    if text != [] {
      var k := FirstNewline(text);
      if k < |text| {
        JoinLinesStep(text, k);
      } else {
        assert Lines(text) == [text];
        assert Join(Lines(text)) == text + "\n";
      }
    }
  }

  /** The inductive step of `JoinLines`: the first line ends at a newline `k`. */
  lemma {:induction false} JoinLinesStep(text: string, k: nat)
    requires k == FirstNewline(text) < |text|
    ensures Join(Lines(text)) == Terminated(text)
    decreases |text|, 0
  {
    var rest := text[k + 1..];
    var first := text[..k];
    assert text == first + "\n" + rest;
    assert Lines(text) == [first] + Lines(rest);
    JoinLines(rest);
    assert ([first] + Lines(rest))[1..] == Lines(rest);
    assert Join(Lines(text)) == first + "\n" + Terminated(rest);
    TerminatedAfterLine(first, rest);
  }

  /** Terminating the text after a complete first line terminates the whole text. */
  lemma TerminatedAfterLine(first: string, rest: string)
    ensures first + "\n" + Terminated(rest) == Terminated(first + "\n" + rest)
  {
    var text := first + "\n" + rest;
    if rest != [] {
      assert rest[|rest| - 1] == text[|text| - 1];
      if text[|text| - 1] != '\n' {
        assert first + "\n" + (rest + "\n") == text + "\n";
      }
    }
  }

  /** The first newline of `a + "\n" + b` is the one after `a` when `a` has none. */
  lemma FirstNewlineAfter(a: string, b: string)
    requires '\n' !in a
    ensures FirstNewline(a + "\n" + b) == |a|
  {
    var text := a + "\n" + b;
    var k := FirstNewline(text);
    assert text[|a|] == '\n';
    assert forall j :: 0 <= j < |a| ==> text[j] == a[j];
  }

  /** Splitting the joined text of newline-free lines gives back exactly those lines. */
  lemma {:induction false} LinesJoin(ls: seq<string>)
    requires forall k :: 0 <= k < |ls| ==> '\n' !in ls[k]
    ensures Lines(Join(ls)) == ls
  {
    if ls != [] {
      var rest := Join(ls[1..]);
      var text := ls[0] + "\n" + rest;
      assert Join(ls) == text;
      FirstNewlineAfter(ls[0], rest);
      assert text[..|ls[0]|] == ls[0];
      assert text[|ls[0]| + 1..] == rest;
      assert Lines(text) == [ls[0]] + Lines(rest);
      LinesJoin(ls[1..]);
    }
  }

  /** A trailing '\n' after the last line does not change what `getline` yields. */
  lemma TrailingNewlineIgnored(text: string)
    requires text != [] && text[|text| - 1] != '\n'
    ensures Lines(text + "\n") == Lines(text)
  {
    JoinLines(text);
    LinesJoin(Lines(text));
  }
}
