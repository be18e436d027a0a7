/**
 The renderer `handle_input`: it walks the template line by line, copies
 every line that does not contain the output marker, and at a line that
 does contain it reads the whole input with one `readlines()` call and
 emits one `<div>` fragment per input line. Because that call consumes the
 input, any later marker line finds nothing left to read.

 The loop is modelled as a left fold of `Step` over the template lines,
 threading a `State` that holds the lines written so far, the three
 counters and the input not yet read. The lemmas then describe the whole
 fold without reference to the state.
 */
module Renderer {
  import opened Strings
  import opened Html

  /** The substring whose presence marks the insertion line. */
  const Marker: string := "<!-- OUTPUT -->"

  /** The one template line of `get_html_template` holding the marker. */
  const TemplateMarkerLine: string := "\t<!-- OUTPUT -->"

  /** The three counters `handle_input` returns. */
  datatype Stats = Stats(linesFetched: nat, linesGenerated: nat, charsFetched: nat)

  /** The loop's state: lines written, counters, input still unread. */
  datatype State = State(out: seq<string>, stats: Stats, unread: seq<string>)

  /** What a run of `handle_input` produces: the written lines and the counters. */
  datatype Page = Page(out: seq<string>, stats: Stats)

  /** True iff the template line is an insertion point (its `find` is not -1),
      that is, iff the marker occurs in it. */
  predicate IsMarkerLine(line: string): (b: bool)
    ensures b <==> Contains(line, Marker)
  {
    FindSpec(line, Marker);
    Find(line, Marker) != -1
  }

  /** The text shown for a raw input line: trailing whitespace removed, and a
      single space in place of a line that is left empty. */
  function DisplayText(raw: string): (t: string)
    ensures t != []
    ensures (forall i :: 0 <= i < |raw| ==> IsSpace(raw[i])) <==> t == " "
    ensures t != " " ==> t <= raw && !IsSpace(t[|t| - 1])
                         && forall i :: |t| <= i < |raw| ==> IsSpace(raw[i])
  {
    var line := RStrip(raw);
    if |line| == 0 then " " else line
  }

  /** The HTML written for one raw input line (without its "\n"). */
  function Fragment(raw: string): (h: string)
    ensures h == "<div>" + Escape(DisplayText(raw)) + "</div>"
  {
    TextToHtmlIsEscape(DisplayText(raw));
    "<div>" + TextToHtml(DisplayText(raw)) + "</div>"
  }

  /** Template lines written verbatim, each followed by "\n". */
  function Emit(lines: seq<string>): (r: seq<string>)
    ensures |r| == |lines|
  {
    if lines == [] then [] else [lines[0] + "\n"] + Emit(lines[1..])
  }

  /** The lines written for raw input lines by a per-line renderer, in order. */
  function RenderLines(lines: seq<string>, render: string -> string): (r: seq<string>)
    ensures |r| == |lines|
  {
    if lines == [] then [] else [render(lines[0]) + "\n"] + RenderLines(lines[1..], render)
  }

  /** The fragments written for a sequence of raw input lines, in order. */
  function Fragments(lines: seq<string>): seq<string>
  {
    RenderLines(lines, Fragment)
  }

  /** The template lines that are not insertion points, in their order. */
  function NonMarkers(t: seq<string>): (r: seq<string>)
    ensures |r| <= |t|
    ensures forall i :: 0 <= i < |r| ==> !IsMarkerLine(r[i])
    ensures (forall i :: 0 <= i < |t| ==> !IsMarkerLine(t[i])) <==> r == t
  {
    if t == [] then []
    else if IsMarkerLine(t[0]) then NonMarkers(t[1..])
    else [t[0]] + NonMarkers(t[1..])
  }

  /** The inner `for line in i_f.readlines()` loop over the lines just read.
      The loop and the fold below take the per-line renderer as `render`,
      `Fragment` in the source, so that their lemmas hold for any renderer. */
  function FetchLines(st: State, lines: seq<string>, render: string -> string): (r: State)
    ensures r.out == st.out + RenderLines(lines, render)
    ensures r.stats == Stats(st.stats.linesFetched + |lines|,
                             st.stats.linesGenerated + |lines|,
                             st.stats.charsFetched + SumLen(lines))
    ensures r.unread == st.unread
    decreases |lines|
  {
    if lines == [] then st
    else
      var line := lines[0];
      var s := st.stats;
      var next := st.(out := st.out + [render(line) + "\n"],
                      stats := Stats(s.linesFetched + 1, s.linesGenerated + 1, s.charsFetched + |line|));
      FetchLines(next, lines[1..], render)
  }

  /** One iteration of the outer loop over the template lines. It only ever
      appends, counts every line it writes as generated and every line it reads
      as fetched, and either reads all unread input or none of it. */
  function Step(st: State, line: string, render: string -> string): (r: State)
    ensures st.out <= r.out
    ensures r.stats.linesGenerated - st.stats.linesGenerated == |r.out| - |st.out|
    ensures r.stats.linesFetched - st.stats.linesFetched == |st.unread| - |r.unread|
    ensures r.stats.linesFetched - st.stats.linesFetched
         <= r.stats.linesGenerated - st.stats.linesGenerated
    ensures r.unread == st.unread || r.unread == []
  {
    if !IsMarkerLine(line) then
      st.(out := st.out + [line + "\n"],
          stats := st.stats.(linesGenerated := st.stats.linesGenerated + 1))
    else
      FetchLines(st.(unread := []), st.unread, render)
  }

  /** The outer loop: `Step` folded over the template lines from the first.
      Over the whole loop, too, the written lines only grow, each is counted
      as generated, and each input line read is counted as fetched. */
  function Run(template: seq<string>, st: State, render: string -> string): (r: State)
    ensures st.out <= r.out
    ensures r.stats.linesGenerated - st.stats.linesGenerated == |r.out| - |st.out|
    ensures r.stats.linesFetched - st.stats.linesFetched == |st.unread| - |r.unread|
    ensures r.stats.linesFetched - st.stats.linesFetched
         <= r.stats.linesGenerated - st.stats.linesGenerated
    ensures r.unread == st.unread || r.unread == []
    decreases |template|
  {
    if template == [] then st else Run(template[1..], Step(st, template[0], render), render)
  }

  /** `handle_input` on an already split template and the lines `readlines()` returns. */
  function Render(template: seq<string>, input: seq<string>): (p: Page)
    ensures |p.out| == p.stats.linesGenerated
    ensures p.stats.linesFetched == 0 || p.stats.linesFetched == |input|
    ensures p.stats.linesFetched <= p.stats.linesGenerated
  {
    var st := Run(template, State([], Stats(0, 0, 0), input), Fragment);
    Page(st.out, st.stats)
  }

  /** `handle_input` on the template text, split on "\n" as the source does. */
  function HandleInput(templateText: string, input: seq<string>): (p: Page)
    ensures |p.out| == p.stats.linesGenerated
    ensures p.stats.linesFetched == 0 || p.stats.linesFetched == |input|
  {
    Render(Split(templateText, '\n'), input)
  }

  // ---------------------------------------------------------------------
  // The fold, described without its state
  // ---------------------------------------------------------------------

  /** Folding over two template pieces is folding over the first, then the second. */
  lemma {:induction false} RunAppend(a: seq<string>, b: seq<string>, st: State, render: string -> string)
    ensures Run(a + b, st, render) == Run(b, Run(a, st, render), render)
    decreases |a|
  {
    if a == [] {
      assert a + b == b;
    } else {
      assert (a + b)[0] == a[0];
      assert (a + b)[1..] == a[1..] + b;
      RunAppend(a[1..], b, Step(st, a[0], render), render);
    }
  }

  /** Without a marker line the template is copied and the input left unread. */
  lemma {:induction false} RunNoMarker(t: seq<string>, st: State, render: string -> string)
    requires forall i :: 0 <= i < |t| ==> !IsMarkerLine(t[i])
    ensures Run(t, st, render).out == st.out + Emit(t)
    ensures Run(t, st, render).stats == st.stats.(linesGenerated := st.stats.linesGenerated + |t|)
    ensures Run(t, st, render).unread == st.unread
    decreases |t|
  {
    if t != [] {
      var x := t[0] + "\n";
      var next := Step(st, t[0], render);
      assert next.out == st.out + [x] && next.unread == st.unread;
      assert forall i :: 0 <= i < |t[1..]| ==> t[1..][i] == t[i + 1];
      RunNoMarker(t[1..], next, render);
      assert Emit(t) == [x] + Emit(t[1..]);
      assert st.out + [x] + Emit(t[1..]) == st.out + ([x] + Emit(t[1..]));
    }
  }

  /** Once the input has been read, every marker line expands to nothing. */
  lemma {:induction false} RunAfterRead(t: seq<string>, st: State, render: string -> string)
    requires st.unread == []
    ensures Run(t, st, render).out == st.out + Emit(NonMarkers(t))
    ensures Run(t, st, render).stats == st.stats.(linesGenerated := st.stats.linesGenerated + |NonMarkers(t)|)
    ensures Run(t, st, render).unread == []
    decreases |t|
  {
    if t != [] {
      var next := Step(st, t[0], render);
      RunAfterRead(t[1..], next, render);
      if !IsMarkerLine(t[0]) {
        assert NonMarkers(t) == [t[0]] + NonMarkers(t[1..]);
        assert Emit(NonMarkers(t)) == [t[0] + "\n"] + Emit(NonMarkers(t[1..])) by {
          assert NonMarkers(t)[1..] == NonMarkers(t[1..]);
        }
      } else {
        assert RenderLines([], render) == [];
      }
    }
  }

  /** The template lines before the first marker contain no marker. */
  ghost predicate FirstMarkerAt(t: seq<string>, k: int)
  {
    0 <= k < |t| && IsMarkerLine(t[k]) && forall j :: 0 <= j < k ==> !IsMarkerLine(t[j])
  }

  /** The template with its first marker line at `k` is cut in three around it. */
  lemma SplitAtMarker(t: seq<string>, k: int)
    requires FirstMarkerAt(t, k)
    ensures t == t[..k] + [t[k]] + t[k + 1..]
    ensures NonMarkers(t) == t[..k] + NonMarkers(t[k + 1..])
  {
    var pre, post := t[..k], t[k + 1..];
    assert t == pre + ([t[k]] + post);
    NonMarkersAppend(pre, [t[k]] + post);
    assert forall i :: 0 <= i < |pre| ==> !IsMarkerLine(pre[i]);
    assert NonMarkers(pre) == pre;
    assert ([t[k]] + post)[1..] == post;
    assert NonMarkers([t[k]] + post) == NonMarkers(post);
  }

  /** Filtering distributes over concatenation. */
  lemma {:induction false} NonMarkersAppend(a: seq<string>, b: seq<string>)
    ensures NonMarkers(a + b) == NonMarkers(a) + NonMarkers(b)
    decreases |a|
  {
    if a == [] {
      assert a + b == b;
    } else {
      assert (a + b)[1..] == a[1..] + b;
      NonMarkersAppend(a[1..], b);
    }
  }

  /** The shape of a run: template lines before the first marker verbatim, then
      one fragment per input line in input order, then the remaining template
      lines that are not markers; every input line counted once. */
  lemma RenderShape(template: seq<string>, input: seq<string>, k: int)
    requires FirstMarkerAt(template, k)
    ensures Render(template, input).out
         == Emit(template[..k]) + Fragments(input) + Emit(NonMarkers(template[k + 1..]))
    ensures Render(template, input).stats
         == Stats(|input|, k + |input| + |NonMarkers(template[k + 1..])|, SumLen(input))
  {
    var st0 := State([], Stats(0, 0, 0), input);
    RunFirstMarker(template, st0, k, Fragment);
    var pre := Emit(template[..k]);
    assert st0.out + pre == pre;
    var r := Run(template, st0, Fragment);
    assert r.stats.linesFetched == |input|;
    assert r.stats.linesGenerated == k + |input| + |NonMarkers(template[k + 1..])|;
    assert r.stats.charsFetched == SumLen(input);
  }

  /** The fold from any state over a template whose first marker line is at `k`. */
  lemma RunFirstMarker(t: seq<string>, st: State, k: int, render: string -> string)
    requires FirstMarkerAt(t, k)
    ensures Run(t, st, render).out
         == st.out + Emit(t[..k]) + RenderLines(st.unread, render) + Emit(NonMarkers(t[k + 1..]))
    ensures Run(t, st, render).stats
         == Stats(st.stats.linesFetched + |st.unread|,
                  st.stats.linesGenerated + k + |st.unread| + |NonMarkers(t[k + 1..])|,
                  st.stats.charsFetched + SumLen(st.unread))
  {
    SplitAtMarker(t, k);
    var pre, post := t[..k], t[k + 1..];
    var m := t[k];
    RunAppend(pre + [m], post, st, render);
    RunAppend(pre, [m], st, render);
    var st1 := Run(pre, st, render);
    RunNoMarker(pre, st, render);
    var st2 := Run([m], st1, render);
    MarkerLineReads(st1, m, render);
    RunAfterRead(post, st2, render);
  }

  /** At a marker line the whole unread input is fetched and rendered. */
  lemma MarkerLineReads(st: State, m: string, render: string -> string)
    requires IsMarkerLine(m)
    ensures Run([m], st, render).out == st.out + RenderLines(st.unread, render)
    ensures Run([m], st, render).stats == Stats(st.stats.linesFetched + |st.unread|,
                                                st.stats.linesGenerated + |st.unread|,
                                                st.stats.charsFetched + SumLen(st.unread))
    ensures Run([m], st, render).unread == []
  {
    assert Run([m], st, render) == Run([], Step(st, m, render), render);
  }

  /** A template without a marker line is copied and nothing is read. */
  lemma RenderWithoutMarker(template: seq<string>, input: seq<string>)
    requires forall i :: 0 <= i < |template| ==> !IsMarkerLine(template[i])
    ensures Render(template, input) == Page(Emit(template), Stats(0, |template|, 0))
  {
    RunNoMarker(template, State([], Stats(0, 0, 0), input), Fragment);
  }

  /** With empty input the page is the non-marker template lines alone. */
  lemma RenderEmptyInput(template: seq<string>)
    ensures Render(template, []) == Page(Emit(NonMarkers(template)), Stats(0, |NonMarkers(template)|, 0))
  {
    RunAfterRead(template, State([], Stats(0, 0, 0), []), Fragment);
  }

  /** The counters: generated lines are the copied template lines plus the
      fetched ones, and input is fetched, with its raw lengths summed, exactly
      when some template line holds the marker. */
  lemma RenderStats(template: seq<string>, input: seq<string>)
    ensures var s := Render(template, input).stats;
      && s.linesGenerated == |NonMarkers(template)| + s.linesFetched
      && s.linesFetched == (if template != NonMarkers(template) then |input| else 0)
      && s.charsFetched == (if template != NonMarkers(template) then SumLen(input) else 0)
  {
    if forall i :: 0 <= i < |template| ==> !IsMarkerLine(template[i]) {
      RenderWithoutMarker(template, input);
    } else {
      var k := FirstMarker(template);
      RenderShape(template, input, k);
      SplitAtMarker(template, k);
    }
  }

  /** The index of the first marker line of a template that has one. */
  function FirstMarker(t: seq<string>): (k: int)
    requires exists i :: 0 <= i < |t| && IsMarkerLine(t[i])
    ensures FirstMarkerAt(t, k)
    decreases |t|
  {
    if IsMarkerLine(t[0]) then 0
    else
      assert exists i :: 0 <= i < |t[1..]| && IsMarkerLine(t[1..][i]) by {
        var i :| 0 <= i < |t| && IsMarkerLine(t[i]);
        assert i != 0 && t[1..][i - 1] == t[i];
      }
      1 + FirstMarker(t[1..])
  }

  /** With exactly one marker line, as in the shipped template, the generated
      line count is the template length less one plus the fetched lines. */
  lemma RenderOneMarker(template: seq<string>, input: seq<string>, k: int)
    requires 0 <= k < |template| && IsMarkerLine(template[k])
    requires forall j :: 0 <= j < |template| && j != k ==> !IsMarkerLine(template[j])
    ensures Render(template, input).stats.linesFetched == |input|
    ensures Render(template, input).stats.linesGenerated == |template| - 1 + |input|
  {
    RenderShape(template, input, k);
    var post := template[k + 1..];
    assert forall i :: 0 <= i < |post| ==> !IsMarkerLine(post[i]) by {
      forall i | 0 <= i < |post|
        ensures !IsMarkerLine(post[i])
      {
        assert post[i] == template[k + 1 + i];
      }
    }
  }

  /** `k` is the one and only marker line of the template. */
  ghost predicate OnlyMarkerAt(t: seq<string>, k: int)
  {
    0 <= k < |t| && IsMarkerLine(t[k]) && forall j :: 0 <= j < |t| && j != k ==> !IsMarkerLine(t[j])
  }

  /** Filtering keeps every line only when no line holds the marker. */
  lemma {:induction false} NonMarkersKeepsAll(t: seq<string>)
    ensures |NonMarkers(t)| == |t| ==> forall i :: 0 <= i < |t| ==> !IsMarkerLine(t[i])
    decreases |t|
  {
    if t != [] && !IsMarkerLine(t[0]) {
      NonMarkersKeepsAll(t[1..]);
      assert forall i :: 1 <= i < |t| ==> t[i] == t[1..][i - 1];
    }
  }

  /** With a single marker line, filtering drops exactly that line. */
  lemma NonMarkersOnlyMarker(t: seq<string>, k: int)
    requires OnlyMarkerAt(t, k)
    ensures |NonMarkers(t)| == |t| - 1
  {
    SplitAtMarker(t, k);
    var post := t[k + 1..];
    assert forall i :: 0 <= i < |post| ==> !IsMarkerLine(post[i]) by {
      forall i | 0 <= i < |post|
        ensures !IsMarkerLine(post[i])
      {
        assert post[i] == t[k + 1 + i];
      }
    }
  }

  /** Filtering drops exactly one line exactly when one line holds the marker. */
  lemma {:induction false} NonMarkersOneLess(t: seq<string>)
    ensures |NonMarkers(t)| == |t| - 1 <==> exists k :: OnlyMarkerAt(t, k)
    decreases |t|
  {
    if exists k :: OnlyMarkerAt(t, k) {
      var k :| OnlyMarkerAt(t, k);
      NonMarkersOnlyMarker(t, k);
    }
    if |NonMarkers(t)| == |t| - 1 {
      assert t != [];
      var rest := t[1..];
      assert forall i :: 1 <= i < |t| ==> t[i] == rest[i - 1];
      if IsMarkerLine(t[0]) {
        NonMarkersKeepsAll(rest);
        assert OnlyMarkerAt(t, 0);
      } else {
        NonMarkersOneLess(rest);
        var k :| OnlyMarkerAt(rest, k);
        assert OnlyMarkerAt(t, k + 1);
      }
    }
  }

  /** The generated count is the template length less one plus the fetched
      count exactly when the template has exactly one marker line. */
  lemma RenderOneMarkerIff(template: seq<string>, input: seq<string>)
    ensures var s := Render(template, input).stats;
      s.linesGenerated == |template| - 1 + s.linesFetched <==> exists k :: OnlyMarkerAt(template, k)
  {
    RenderStats(template, input);
    NonMarkersOneLess(template);
  }

  /** The characters counted are those of the raw text `readlines()` cut up. */
  lemma RenderCharsFetched(template: seq<string>, text: string, k: int)
    requires FirstMarkerAt(template, k)
    ensures Render(template, ReadLines(text)).stats.charsFetched == |text|
  {
    RenderShape(template, ReadLines(text), k);
    SumLenConcat(ReadLines(text));
  }

  /** The copied lines, written one after another, rebuild the text they were
      split from, plus the "\n" written after the last one. */
  lemma {:induction false} ConcatEmit(parts: seq<string>)
    requires |parts| >= 1
    ensures Concat(Emit(parts)) == Join(parts, '\n') + "\n"
    decreases |parts|
  {
    if |parts| > 1 {
      ConcatEmit(parts[1..]);
      assert Emit(parts) == [parts[0] + "\n"] + Emit(parts[1..]);
      assert Concat(Emit(parts)) == parts[0] + "\n" + Concat(Emit(parts[1..]));
    } else {
      assert Emit(parts) == [parts[0] + "\n"];
      assert Concat(Emit(parts)) == parts[0] + "\n" + Concat([]);
    }
  }

  /** A template text without a marker is written back unchanged, with one more
      "\n" at the end, whatever the input. */
  lemma HandleInputWithoutMarker(templateText: string, input: seq<string>)
    requires forall i :: 0 <= i < |Split(templateText, '\n')| ==> !IsMarkerLine(Split(templateText, '\n')[i])
    ensures Concat(HandleInput(templateText, input).out) == templateText + "\n"
  {
    var lines := Split(templateText, '\n');
    RenderWithoutMarker(lines, input);
    ConcatEmit(lines);
    JoinSplit(templateText, '\n');
  }

  // ---------------------------------------------------------------------
  // Fragments
  // ---------------------------------------------------------------------

  /** The `i`-th line written renders the `i`-th raw input line. */
  lemma {:induction false} RenderLinesAt(lines: seq<string>, render: string -> string, i: int)
    requires 0 <= i < |lines|
    ensures RenderLines(lines, render)[i] == render(lines[i]) + "\n"
    decreases i
  {
    if i > 0 {
      RenderLinesAt(lines[1..], render, i - 1);
    }
  }

  /** The `i`-th written fragment is the escaped `i`-th raw input line in a `<div>`. */
  lemma FragmentsAt(lines: seq<string>, i: int)
    requires 0 <= i < |lines|
    ensures Fragments(lines)[i] == "<div>" + Escape(DisplayText(lines[i])) + "</div>\n"
  {
    RenderLinesAt(lines, Fragment, i);
  }

  /** The `i`-th copied template line is the `i`-th line given, with its "\n". */
  lemma {:induction false} EmitAt(lines: seq<string>, i: int)
    requires 0 <= i < |lines|
    ensures Emit(lines)[i] == lines[i] + "\n"
    decreases i
  {
    if i > 0 {
      EmitAt(lines[1..], i - 1);
    }
  }

  /** An empty or whitespace-only line, a tab-only one included, renders as one
      non-breaking space. */
  lemma BlankLineFragment(raw: string)
    requires forall i :: 0 <= i < |raw| ==> IsSpace(raw[i])
    ensures Fragment(raw) == "<div>&nbsp;</div>"
  {
    assert " " == [' '] + [];
  }

  /** A tab-only line with its terminator renders as one non-breaking space. */
  lemma TabLineFragment()
    ensures Fragment("\t\n") == "<div>&nbsp;</div>"
  {
    BlankLineFragment("\t\n");
  }

  /** The fixture's marker line is an insertion point. */
  lemma TemplateMarkerLineIsMarker()
    ensures IsMarkerLine(TemplateMarkerLine)
    ensures Find(TemplateMarkerLine, Marker) == 1
  {
    assert OccursAt(TemplateMarkerLine, Marker, 1);
    assert TemplateMarkerLine[0] != Marker[0];
    assert !OccursAt(TemplateMarkerLine, Marker, 0);
  }
}
