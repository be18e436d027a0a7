# htmecho line-to-HTML converter, modelled in Dafny

`www.py` turns the lines of a text stream into an HTML page: every input
line is escaped (`text_to_html`), wrapped in a `<div>`, and written in
place of the template line that holds the `<!-- OUTPUT -->` marker
(`handle_input`); all other template lines are copied verbatim. Two small
argument lookups (`get_flag`, `get_option`) decide how the tool runs.
This project models those three parts as pure Dafny functions over
strings and sequences and proves their properties.

Files and modules:

- `wrappers.dfy` — `Wrappers.Option`, for the `None` that `get_option` returns.
- `strings.dfy` — `Strings`: the Python `str` built-ins the converter uses —
  `find`, `rstrip` with `isspace`, one-character `replace`, `split`, and the
  line cutting of `readlines()` — each with a contract that characterises it,
  plus `Join` as the partner of `Split`.
- `html.dfy` — `Html`: the escaper as written (`TextToHtml`, six
  replace passes in order) and as a per-character map (`Escape`), proved
  equal; its output alphabet, distribution over concatenation, non-idempotence,
  and a decoder (`Unescape`) showing that only tab-versus-four-spaces is lost.
- `renderer.dfy` — `Renderer`: `handle_input` as a fold of one loop
  iteration (`Step`) over the template lines, with a state holding the
  written lines, the three counters and the input not yet read; the lemmas
  describe the whole run without the state. The loop takes the per-line
  renderer as a parameter, so its lemmas hold whatever a line renders to;
  `Render` passes `Fragment`.
- `commandline.dfy` — `CommandLine`: `args.index`, `get_flag`, `get_option`.

Behaviour of the code that the model follows, where a reading of the
program's intent might suggest otherwise:

- A template line is an insertion point when it *contains* the marker
  (`find(...) != -1`), not only when it equals it.
- The input is read by one `readlines()` call at the first marker line, so
  a second marker line expands to nothing (`RunAfterRead`), rather than
  repeating the fragments. This holds for a file or a pipe, whose stream is
  exhausted by the first call; on an interactive terminal a second
  `readlines()` would read afresh, which the model does not cover (see
  "Left out").
- `rstrip()` removes all trailing whitespace, tabs included, so a tab-only
  line renders as a single `&nbsp;` (`BlankLineFragment`, `TabLineFragment`),
  not four.
- `total_lines_generated` equals the template length less one plus the
  fetched lines exactly when one template line holds the marker
  (`RenderOneMarker`, and both directions in `RenderOneMarkerIff`); in
  general it is the number of non-marker template lines plus the fetched
  lines (`RenderStats`).

## Model

| member | source | states |
|---|---|---|
| `Strings.Find` | www.py:33 | `find` yields -1 or an index inside the line; which one is fixed by `FindSpec` |
| `Strings.FindSpec` | www.py:33 | `find` yields -1 exactly when the marker does not occur in the line, otherwise the lowest index where it occurs |
| `Strings.RStrip` | www.py:40 | `rstrip()` yields a prefix of the line that does not end in whitespace, and everything it removed is whitespace |
| `Strings.ReplaceChar` | www.py:19-24 | one `replace` pass grows the text by the number of occurrences times the extra length of the replacement |
| `Strings.ReplaceCharChars` | www.py:19-24 | after one `replace` pass the text holds exactly its other characters plus, when the character occurred, those of the replacement |
| `Strings.ReplaceCharAppend` | www.py:19-24 | one `replace` pass distributes over concatenation |
| `Strings.ReplaceCharAbsent` | www.py:19-24 | a pass for a character that does not occur leaves the text unchanged |
| `Strings.Split` | www.py:32 | `template.split("\n")` yields one more part than there are newlines, none holding a newline |
| `Strings.Join` | www.py:32 | the partner of `split`: joining one or more parts puts one separator between neighbours, so the result is the parts' total length plus one per separator |
| `Strings.JoinSplit` | www.py:32 | joining the split template with newlines gives back the template text |
| `Strings.SplitJoin` | www.py:32 | splitting a newline-join of newline-free parts gives back the parts |
| `Strings.ReadLines` | www.py:37 | `readlines()` cuts the text into non-empty lines that concatenate to the text, each ending in its only newline except possibly the last |
| `Strings.SumLenConcat` | www.py:39 | the per-line lengths added up equal the length of the concatenated lines |
| `Html.TextToHtml` | www.py:18-25 | `text_to_html` as written, six passes in order; no pass shortens the text, and the result equals the per-character map `Escape` (`TextToHtmlIsEscape`) |
| `Html.EscapeChar` | www.py:19-24 | each character's image is non-empty, holds none of `<`, `>`, `"`, space, tab, and is the character itself exactly when it is none of `&`, `<`, `>`, `"`, space, tab |
| `Html.Escape` | www.py:18-25 | the escaped text is never shorter than the input, is empty exactly when the input is, and holds no `<`, `>`, `"`, space or tab |
| `Html.EscapeAppend` | www.py:18-25 | the per-character escaper distributes over concatenation |
| `Html.TextToHtmlAppend` | www.py:18-25 | the six-pass chain distributes over concatenation |
| `Html.TextToHtmlChar` | www.py:18-25 | on one character the six passes yield that character's image, because no pass emits a character a later pass rewrites |
| `Html.TextToHtmlIsEscape` | www.py:18-25 | `text_to_html` as written equals the per-character map for every text |
| `Html.EscapeIdentity` | www.py:18-25 | text holding none of the six rewritten characters is its own escape |
| `Html.EscapeAmpEntity` | www.py:19 | in `&amp;` only the ampersand is rewritten |
| `Html.TextToHtmlNotIdempotent` | www.py:19 | escaping is not idempotent: `&` becomes `&amp;`, which becomes `&amp;amp;` |
| `Html.ExpandTabs` | www.py:24 | the displayed text has no tab and three more characters per tab |
| `Html.Unescape` | www.py:19-24 | the decoder that partners the escaper: it reads the five entities back and is never longer than the text it decodes |
| `Html.UnescapeEntity` | www.py:19-23 | each of the five entities decodes back to the character it replaced |
| `Html.UnescapeEscapeChar` | www.py:19-24 | decoding one escaped character gives the character back, a tab as four spaces |
| `Html.UnescapeEscape` | www.py:18-25 | decoding the escaped text gives the input back with each tab shown as four spaces |
| `Html.EscapeTabAsSpaces` | www.py:23-24 | a tab and four spaces escape to the same four `&nbsp;`, so the escaper is not injective |
| `Renderer.IsMarkerLine` | www.py:33 | a template line is an insertion point exactly when the marker occurs in it |
| `Renderer.DisplayText` | www.py:40-42 | the shown text is never empty; it is a single space exactly when the raw line is all whitespace, and otherwise the raw line without its trailing whitespace |
| `Renderer.Fragment` | www.py:43 | a fragment is `<div>`, the per-character escape of the shown text, `</div>` |
| `Renderer.NonMarkers` | www.py:33-35 | the copied template lines are marker-free, no more than the template, and the whole template exactly when no line holds the marker |
| `Renderer.FetchLines` | www.py:37-45 | reading lines appends one rendered line per input line in order, adds the line count to fetched and generated, adds the raw lengths to the character count, and leaves the unread input alone |
| `Renderer.Step` | www.py:33-45 | one pass of the template loop only appends to the output, counts every line it writes as generated and every input line it reads as fetched, and reads either all unread input or none |
| `Renderer.Run` | www.py:32-45 | over the whole template loop the output only grows, every written line is counted as generated, every line read is counted as fetched, and the input is read whole or not at all |
| `Renderer.Render` | www.py:27-46 | `handle_input`: the generated count is the number of lines written, the fetched count is 0 or all input lines, and never exceeds the generated count; the page itself is given by `RenderShape` |
| `Renderer.HandleInput` | www.py:27-46 | `handle_input` on the template text split at "\n": the generated count is the number of lines written and the fetched count is 0 or all input lines |
| `Renderer.RunAppend` | www.py:32 | the template loop over two pieces is the loop over the first then the second |
| `Renderer.RunNoMarker` | www.py:32-35 | marker-free template lines are copied in order with "\n", counted as generated, and read nothing |
| `Renderer.MarkerLineReads` | www.py:36-45 | at a marker line all unread input is fetched, rendered and counted, and nothing is left unread |
| `Renderer.RunAfterRead` | www.py:36-37 | once the input is read, marker lines contribute nothing and the other lines are copied |
| `Renderer.FirstMarker` | www.py:33 | a template with a marker line has a first one, before which no line holds the marker |
| `Renderer.SplitAtMarker` | www.py:32-35 | the copied lines of a template are those before its first marker followed by the copied lines after it |
| `Renderer.NonMarkersAppend` | www.py:33-35 | choosing the copied lines distributes over concatenation |
| `Renderer.RunFirstMarker` | www.py:32-45 | from any state, the loop appends the lines before the first marker, the rendered lines of all unread input, then the non-marker lines after it, with the counters advanced to match |
| `Renderer.RenderShape` | www.py:27-46 | the page is the template lines before the first marker, one fragment per input line in input order, then the later non-marker lines; fetched lines equal the input lines and fetched characters their raw lengths |
| `Renderer.RenderWithoutMarker` | www.py:32-35 | a template without a marker is copied whole and nothing is fetched |
| `Renderer.RenderEmptyInput` | www.py:37 | with empty input the page is the non-marker template lines alone |
| `Renderer.RenderStats` | www.py:28-46 | lines generated equal copied template lines plus lines fetched; lines and characters are fetched only when some template line holds the marker |
| `Renderer.RenderOneMarker` | www.py:31-46 | with exactly one marker line every input line is fetched and the generated count is the template length less one plus the fetched count |
| `Renderer.NonMarkersKeepsAll` | www.py:33-35 | every template line is copied only when no line holds the marker |
| `Renderer.NonMarkersOnlyMarker` | www.py:33-35 | with a single marker line, all lines but that one are copied |
| `Renderer.NonMarkersOneLess` | www.py:33-35 | exactly one template line is left uncopied exactly when exactly one holds the marker |
| `Renderer.RenderOneMarkerIff` | www.py:28-46 | the generated count is the template length less one plus the fetched count if and only if exactly one template line holds the marker |
| `Renderer.RenderCharsFetched` | www.py:37-39 | the characters fetched from `readlines()` of a text are the text's length |
| `Renderer.ConcatEmit` | www.py:32-34 | the copied lines written in turn rebuild the newline-joined lines plus a final newline |
| `Renderer.HandleInputWithoutMarker` | www.py:31-35 | a template text without a marker is written back unchanged with one trailing newline |
| `Renderer.RenderLinesAt` | www.py:43-44 | the i-th line written for the input renders the i-th input line, followed by "\n" |
| `Renderer.FragmentsAt` | www.py:43-44 | the i-th fragment written is the escape of the i-th input line's shown text in a `<div>`, followed by "\n" |
| `Renderer.EmitAt` | www.py:34 | the i-th copied line is the i-th template line followed by "\n" |
| `Renderer.BlankLineFragment` | www.py:40-43 | an empty or all-whitespace line renders as `<div>&nbsp;</div>` |
| `Renderer.TabLineFragment` | www.py:40-43 | a tab-only line renders as a single `&nbsp;` |
| `Renderer.TemplateMarkerLineIsMarker` | www.py:174 | the template's marker line is an insertion point, the marker found at index 1 |
| `CommandLine.Index` | www.py:192 | `args.index` finds the first position of the value, and fails exactly when the value is absent |
| `CommandLine.GetFlag` | www.py:190-195 | `get_flag` is true exactly when the flag is among the arguments |
| `CommandLine.GetOption` | www.py:197-202 | `get_option` is None when the option is absent, and otherwise the argument after its first occurrence, or None when that occurrence is last |
| `CommandLine.OptionLastHasNoValue` | www.py:199-202 | an option appearing only as the last argument yields None |
| `CommandLine.FirstOptionWins` | www.py:199-200 | the value after the first occurrence of the option is returned |

## Left out

- `htmlize` (www.py:213-239): opening the input file with a `codecs`
  reader, the `--input` existence assertion, `tempfile.mkstemp`, `exit`, and assembling
  the printed lines are I/O; its only logic is the flag and option reads,
  modelled by `CommandLine`.
- `shell_open_file` (www.py:180-188): platform dispatch to `os.startfile` or
  an `xdg-open` subprocess, calls into the operating system.
- `selftest` and the `__main__` block (www.py:241-269): directory listing,
  `re` file-name matching and exception reporting around repeated runs.
- `get_help_msg` (www.py:204-211): a constant text only printed.
- The page template's HTML, CSS and JavaScript filter (www.py:49-178): it
  runs in the browser; the template is a parameter (a line sequence, or the
  text that `HandleInput` splits), and only its marker line (www.py:174) is
  kept, as `TemplateMarkerLine`.
- The file objects: the output file is the sequence of strings passed to
  `write`, and the input is the list `readlines()` returns. `ReadLines`
  models cutting already decoded text at "\n"; newline translation of `\r`
  and `\r\n`, and the extra line boundaries of `codecs` readers, are not
  modelled.
- Exceptions inside `handle_input` (www.py:34, 37, 44): a `codecs` reader
  decodes lazily, so with `--input` and `--encoding` the `readlines()` call
  can raise `UnicodeDecodeError` after the template lines before the marker
  have been written, and `write` can raise an encoding error under a locale
  that cannot encode the page. The source then leaves a partial page and
  the exception propagates (`selftest` reports it, www.py:259-260). The
  model takes the input as already decoded lines and the output as strings,
  so `Render` always yields a whole page and neither failure is modelled.
- Reading again after the input is exhausted: on an interactive terminal a
  second marker line's `readlines()` would read further input; the model
  reads the input as one finite list, as a file or pipe delivers it.
- The `args=sys.argv` default of `get_flag` and `get_option`: the argument
  list is always passed explicitly.
- `Strings.ReplaceChar`: models `str.replace` for a one-character pattern
  only, which is every use in `text_to_html`.
