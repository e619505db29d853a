# ParseShader of meGraphics, modelled in Dafny

meGraphics keeps its vertex shader and its fragment shader in one text file. Marker
lines split the file into sections. `ParseShader` reads the file with `std::getline`.
Every line that contains `#shader` is a marker:

- if the marker contains `vertex`, the VERTEX section becomes active;
- otherwise, if it contains `fragment`, the FRAGMENT section becomes active;
- otherwise the active section does not change.

Each other line is appended, followed by `'\n'`, to `ss[(int)type]`. `ss` is an array
of two `std::stringstream` buffers. The result is the struct `ShaderProgramSource`,
which holds the text of both buffers.

The project has four modules:

- `Text` (`text.dfy`) models the standard-library operations the parser uses:
  - `Contains` is `find(...) != npos`, a substring search;
  - `Lines` is the sequence of lines that the `getline` loop reads from a text;
  - `Join` is what a `stringstream` holds after `<< line << '\n'` for each line.

  It proves two round trips. `Lines` undoes `Join` on lines that contain no '\n'
  (`LinesJoin`). `Join` undoes `Lines` up to a final '\n', which is added when the
  text lacked one (`JoinLines`).
- `ShaderParser` (`shader_parser.dfy`) holds:
  - the entities `ShaderType` (with its values -1, 0 and 1) and `ShaderProgramSource`;
  - the parser method `ParseShader`;
  - the pure function `Execute`, which specifies it.

  `ParseShader` is a `while` loop over the lines. It keeps a mode variable and a
  two-element `array<string>` for `ss`, and writes into that array through the mode's
  integer value. The loop invariant ties it to `Execute`.
- `ShaderProperties` (`shader_properties.dfy`) gives an independent reference
  description of the routing that does not follow the loop. A line belongs to the
  section named by the nearest recognised marker above it (`ModeBefore`). Each
  section is the in-order list of the content lines that belong to it (`Routed`).
  The module proves that the parser agrees with this description, plus the
  properties that follow from it: partition, order, the mode never returning to
  NONE, and the output shape.
- `ShaderExamples` (`shader_examples.dfy`) covers concrete files:
  - the two-section file, as lines and as raw text;
  - an unknown marker keyword;
  - a marker naming both sections;
  - content before the first marker;
  - an empty file and a file that cannot be opened.

Writing to `ss[-1]` is undefined behaviour. A content line that is read while the
mode is still NONE does exactly that, at Application.cpp line 81. The model does not
guess what the program then does. `ParseShader` returns `OutOfBounds(k)` instead,
where `k` is the index of that first line. Two behaviours are easy to misread in
the loop. One might expect it to drop lines before the first marker, or the lines
after a marker with an unrecognised keyword. The code does neither, and the model
follows the code:

- a marker with an unrecognised keyword keeps the previous mode, so its lines go to
  the previous section (`UnknownKeywordKeepsSection`);
- a line before the first marker is the out-of-bounds write (`ContentBeforeMarker`).

A file that cannot be opened yields no line at all, as a failed `std::ifstream`
makes the first `getline` fail.

The text of a `Readable` file is the character sequence that the opened stream
delivers. That is after any text-mode translation, such as the conversion of each
"\r\n" into "\n" that the MSVC runtime performs for a stream opened without
`std::ios::binary`. One Dafny `char` stands for one byte of a `std::string`, so the
length `|s|` of a string in the model is the `size()` of its `std::string`.

## Model

| member | source | states |
|---|---|---|
| ShaderParser.ParseShader | meGraphics/src/Application.cpp:51-88 | the loop returns exactly `Parse` of the lines that `getline` reads from the file; the invariant is that after `i` lines the mode and the two buffers are the state `Execute` gives for those lines |
| ShaderParser.ShaderType.Value | meGraphics/src/Application.cpp:55-59 | the enumerator values NONE = -1, VERTEX = 0, FRAGMENT = 1, which the `(int)type` cast at line 81 turns into the slot of `ss` that the loop writes through; NONE's value lies outside the two slots `[0, 2)`, so it is the out-of-bounds write; `ParseShader`'s invariant forces the slot written to be the buffer `Execute` appends to (0 for VERTEX, 1 for FRAGMENT) |
| ShaderParser.DistinctSlots | meGraphics/src/Application.cpp:55-59 | two sections with the same slot are the same section, so the two buffers never alias |
| ShaderParser.ShaderType | meGraphics/src/Application.cpp:55-59 | the enum `ShaderType` with its three enumerators |
| ShaderParser.ShaderProgramSource | meGraphics/src/Application.cpp:45-48 | the pair of vertex and fragment source strings that `ParseShader` returns |
| ShaderParser.FileLines | meGraphics/src/Application.cpp:53-65 | an unopenable file yields no lines; no line read contains '\n'; re-terminating the lines read gives back the text the stream delivers, with a final '\n' added when it lacked one |
| ShaderParser.FileLinesDetermined | meGraphics/src/Application.cpp:65 | those facts fix the lines: any newline-free lines whose re-terminated text is the file's text are exactly the lines `getline` reads |
| ShaderParser.ExecuteSnoc | meGraphics/src/Application.cpp:65-85 | reading one more line applies one more loop iteration (`Step`) to the state, unless a write already went out of bounds |
| ShaderParser.Step | meGraphics/src/Application.cpp:66-84 | one loop iteration; described by `ShaderProperties.MarkerStep` and `ShaderProperties.ContentLineStep`, and by `ShaderProperties.ExecuteMatchesReference` over all prefixes |
| ShaderParser.Parse | meGraphics/src/Application.cpp:87 | the value `ParseShader` returns for given lines; described by `ShaderProperties.ParseMatchesReference` |
| ShaderParser.IsMarker | meGraphics/src/Application.cpp:66 | the marker test `find("#shader") != npos`; described by `ShaderProperties.MarkerAnywhere` and `Text.ContainsIffOccurs` |
| ShaderParser.Select | meGraphics/src/Application.cpp:68-73 | the keyword chain on a marker line; described by `ShaderProperties.VertexTestedFirst`, `ShaderProperties.FragmentTestedSecond` and `ShaderProperties.UnrecognisedKeepsMode` |
| Text.Contains | meGraphics/src/Application.cpp:66-71 | `find(pat) != npos`, as used in the three tests; described by `Text.ContainsIffOccurs` |
| ShaderParser.Execute | meGraphics/src/Application.cpp:61-85 | an out-of-bounds write is reported at the index of a line that was actually read |
| ShaderParser.FaultPersists | meGraphics/src/Application.cpp:81 | once a write has gone out of bounds, the lines after it do not change the reported result |
| ShaderProperties.MarkerStep | meGraphics/src/Application.cpp:66-75 | a marker line changes the mode to the nearest-marker mode of the reference, and leaves both buffers as they were |
| ShaderProperties.ContentLineStep | meGraphics/src/Application.cpp:76-84 | a content line faults exactly when no section is active; otherwise it is appended, with '\n', to the buffer of the active section only |
| ShaderProperties.ExecuteMatchesReference | meGraphics/src/Application.cpp:61-85 | after any prefix of the lines, either the parser holds the reference mode and exactly the reference section lists in its buffers and no orphan line came before, or it faulted at the first orphan line |
| ShaderProperties.ParseMatchesReference | meGraphics/src/Application.cpp:51-88 | the parse succeeds if and only if no content line comes before every recognised marker; the sources are then the lines routed to each section, each followed by '\n'; otherwise the reported line is the first orphan |
| ShaderProperties.ModeNeverReturnsToNone | meGraphics/src/Application.cpp:63-72 | once a section is active, every later line is read with some section active |
| ShaderProperties.ModeNoneIff | meGraphics/src/Application.cpp:63-72 | no section is active before line `k` if and only if no line before `k` is a marker naming a section |
| ShaderProperties.ModeCarriesOver | meGraphics/src/Application.cpp:66-75 | across lines with no section-naming marker, the active section stays the one active before them |
| ShaderProperties.RoutedLinesAreContent | meGraphics/src/Application.cpp:66-81 | every line copied into a section is a line of the input that does not contain "#shader" |
| ShaderProperties.RoutedPrefix | meGraphics/src/Application.cpp:65-81 | a section's list of lines only grows as more lines are read: the list after `m` lines is a prefix of the list after `n >= m` lines |
| ShaderProperties.RoutedAt | meGraphics/src/Application.cpp:81 | a line routed to a section sits in that section's list right after the lines routed there before it |
| ShaderProperties.RoutedInOrder | meGraphics/src/Application.cpp:65-81 | two lines routed to the same section appear there in their input order |
| ShaderProperties.ContentPartition | meGraphics/src/Application.cpp:76-81 | each content line is counted exactly once among NONE, VERTEX and FRAGMENT: for every line value, its number of occurrences among the content lines equals the sum over the three sections |
| ShaderProperties.NoOrphanIff | meGraphics/src/Application.cpp:81 | nothing is routed to NONE (written to `ss[-1]`) if and only if no line is an orphan |
| ShaderProperties.ParsedIsPartition | meGraphics/src/Application.cpp:65-87 | when the parse succeeds, the vertex and fragment lines together are a permutation of the content lines (multiset equality) |
| ShaderProperties.OutputShape | meGraphics/src/Application.cpp:81-87 | each output's length is the sum of `length + 1` over the lines routed to it, and a non-empty output ends in '\n' |
| ShaderProperties.MarkerAnywhere | meGraphics/src/Application.cpp:66 | a line with "#shader" at any position, not only at its start, is a marker |
| ShaderProperties.VertexTestedFirst | meGraphics/src/Application.cpp:68-70 | a marker containing "vertex" anywhere selects VERTEX, whatever else it contains |
| ShaderProperties.FragmentTestedSecond | meGraphics/src/Application.cpp:68-73 | a marker containing "fragment" but not "vertex" selects FRAGMENT |
| ShaderProperties.UnrecognisedKeepsMode | meGraphics/src/Application.cpp:66-75 | a marker with neither keyword keeps the current mode |
| Text.ContainsIffOccurs | meGraphics/src/Application.cpp:66 | `Contains(s, pat)` holds if and only if `pat` occurs in `s` at some position |
| Text.FirstNewline | meGraphics/src/Application.cpp:65 | the result is the index of the first '\n', or the length when there is none |
| Text.Lines | meGraphics/src/Application.cpp:65 | no line that `getline` yields contains '\n'; there are no lines exactly when the text is empty |
| Text.Join | meGraphics/src/Application.cpp:81-87 | a buffer is empty exactly when no line was written to it, and otherwise ends in '\n' |
| Text.JoinLength | meGraphics/src/Application.cpp:81 | each written line adds its length plus one to the buffer |
| Text.JoinAppend | meGraphics/src/Application.cpp:81 | writing two batches of lines one after the other gives the concatenation of their texts |
| Text.JoinLines | meGraphics/src/Application.cpp:65 | re-terminating the lines that `getline` yields gives back the text, with a final '\n' when it lacked one |
| Text.LinesJoin | meGraphics/src/Application.cpp:65 | reading back the joined text of newline-free lines gives exactly those lines |
| Text.TrailingNewlineIgnored | meGraphics/src/Application.cpp:65 | a final '\n' does not add an empty line |
| ShaderExamples.TwoSections | meGraphics/src/Application.cpp:51-88 | for the lines `#shader vertex`, A, `#shader fragment`, B the outputs are exactly A + '\n' and B + '\n' |
| ShaderExamples.TwoSectionsText | meGraphics/src/Application.cpp:51-88 | the same for the raw file text, split by `getline` |
| ShaderExamples.UnknownKeywordKeepsSection | meGraphics/src/Application.cpp:66-81 | after `#shader geometry`, content keeps going to the vertex section opened before it |
| ShaderExamples.BothKeywordsSelectVertex | meGraphics/src/Application.cpp:68-72 | `#shader fragment vertex` selects VERTEX |
| ShaderExamples.ContentBeforeMarker | meGraphics/src/Application.cpp:63-81 | a content line before any marker is the out-of-bounds write at line 0 |
| ShaderExamples.EmptyInput | meGraphics/src/Application.cpp:53-87 | an unopenable file and an empty file both yield two empty sources |

## Left out

- `CompileShader` and `CreateShader` (Application.cpp:91-135) are not modelled. They are sequences of OpenGL driver calls whose results depend on the GPU driver.
- `GLClearError`, `GLLogCall` and the `GLCall`/`ASSERT` macros (Application.cpp:17-42) are not modelled. They poll the driver's error queue and break into the debugger.
- `main` (Application.cpp:137-271) is not modelled. It covers windowing, buffer upload, uniforms and the render loop, and its colour animation is floating-point arithmetic.
- The console output of the sources (Application.cpp:210-213) is not modelled.
- Opening the file (Application.cpp:53) is reduced to `ShaderFile`: the file either cannot be opened or has a given text. Read errors in mid-file, file names and the file system are not modelled.
- `std::getline` is modelled as splitting at '\n' only, on the text after the stream's text-mode translation. A '\r' left in that text stays part of its line, as it does with `getline`. The translation itself is the runtime's, not part of the model. The `max_size` limit on a line's length is not modelled.
- `std::stringstream` is modelled as the string it accumulates. Its formatting state and its failure bits are not modelled.
- ParseShader: what the program does after the write into `ss[-1]` is undefined behaviour. The model reports the index of the first such line and ignores the rest of the file.
