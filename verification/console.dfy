/** Console mode (src/main.rs, lines 167-171): each result printed as its
    title, link and description on three lines followed by a blank line. */
module Console {
  import opened Text
  import opened Effects
  import opened Results

  /** The text printed for one result: title, link and description, each on
      its own line, then an empty line. */
  function Block(r: SearchResult): (b: string)
    ensures r.title + "\n" <= b
    ensures |b| == |r.title| + |r.link| + |r.description| + 4
    ensures b[|b| - 2..] == "\n\n"
  {
    r.title + "\n" + r.link + "\n" + r.description + "\n\n"
  }

  /** The effects of the printing loop: one block per result, in order, and
      nothing written to disk. */
  function ConsoleEffects(results: seq<SearchResult>): (effects: seq<Effect>)
    ensures |effects| == |results|
    ensures forall i :: 0 <= i < |results| ==> effects[i] == Stdout(Block(results[i]))
    ensures forall i :: 0 <= i < |effects| ==> !effects[i].TouchesFile()
    decreases |results|
  {
    if |results| == 0 then []
    else [Stdout(Block(results[0]))] + ConsoleEffects(results[1..])
  }

  /** All of standard output in console mode. */
  function Render(results: seq<SearchResult>): string
    decreases |results|
  {
    if |results| == 0 then "" else Block(results[0]) + Render(results[1..])
  }

  /** Standard output in console mode is exactly the rendered results. */
  lemma {:induction false} ConsoleStdout(results: seq<SearchResult>)
    ensures StdoutText(ConsoleEffects(results)) == Render(results)
    decreases |results|
  {
    if |results| > 0 {
      ConsoleStdout(results[1..]);
      assert ConsoleEffects(results)[1..] == ConsoleEffects(results[1..]);
    }
  }

  /** The output lines of the results: title, link, description, blank. */
  function Lines(results: seq<SearchResult>): (lines: seq<string>)
    ensures |lines| == 4 * |results|
    decreases |results|
  {
    if |results| == 0 then []
    else
      var r := results[0];
      [r.title, r.link, r.description, ""] + Lines(results[1..])
  }

  /** Regroups output lines four by four into results. */
  function Group(lines: seq<string>): seq<SearchResult>
    decreases |lines|
  {
    if |lines| < 4 then [] else [SearchResult(lines[0], lines[1], lines[2])] + Group(lines[4..])
  }

  /** Reads console output back into results. */
  function ParseConsole(out: string): seq<SearchResult>
  {
    var fields := Split(out, '\n');
    Group(fields[..|fields| - 1])
  }

  /** A block is its four lines, each ended by a newline. */
  lemma BlockAsLines(r: SearchResult)
    ensures Block(r) == Join([r.title, r.link, r.description, ""], '\n') + "\n"
  {
    var ls := [r.title, r.link, r.description, ""];
    assert ls[1..][1..][1..] == [""];
    assert ls[1..][1..] == [r.description, ""];
    assert ls[1..] == [r.link, r.description, ""];
    assert Join([r.description, ""], '\n') == r.description + "\n";
    assert Join(ls[1..], '\n') == r.link + "\n" + r.description + "\n";
    assert Join(ls, '\n') == r.title + "\n" + (r.link + "\n" + r.description + "\n");
  }

  /** The rendered output is the lines joined by newlines, with a final one. */
  lemma {:induction false} RenderAsLines(results: seq<SearchResult>)
    ensures Render(results) == Join(Lines(results) + [""], '\n')
    decreases |results|
  {
    if |results| > 0 {
      var r := results[0];
      var head := [r.title, r.link, r.description, ""];
      RenderAsLines(results[1..]);
      BlockAsLines(r);
      JoinAppend(head, Lines(results[1..]) + [""], '\n');
      assert Lines(results) + [""] == head + (Lines(results[1..]) + [""]);
    }
  }

  /** Regrouping undoes the line layout. */
  lemma {:induction false} GroupLines(results: seq<SearchResult>)
    ensures Group(Lines(results)) == results
    decreases |results|
  {
    if |results| > 0 {
      GroupLines(results[1..]);
      assert Lines(results)[4..] == Lines(results[1..]);
      assert [results[0]] + results[1..] == results;
    }
  }

  /** No field of a result holds a line break. */
  predicate SingleLine(r: SearchResult)
  {
    '\n' !in r.title && '\n' !in r.link && '\n' !in r.description
  }

  /** Console output loses nothing: when no field holds a line break, the
      printed text reads back as the same results in the same order. */
  lemma {:induction false} ConsoleRoundTrip(results: seq<SearchResult>)
    requires forall i :: 0 <= i < |results| ==> SingleLine(results[i])
    ensures ParseConsole(Render(results)) == results
  {
    var lines := Lines(results) + [""];
    SplitRender(results);
    assert lines[..|lines| - 1] == Lines(results);
    GroupLines(results);
  }

  /** Splitting the output of single-line results at newlines gives their
      lines and one empty field after the final newline. */
  lemma {:induction false} SplitRender(results: seq<SearchResult>)
    requires forall i :: 0 <= i < |results| ==> SingleLine(results[i])
    ensures Split(Render(results), '\n') == Lines(results) + [""]
  {
    var lines := Lines(results) + [""];
    LinesSingleLine(results);
    SplitJoin(lines, '\n');
    RenderAsLines(results);
  }

  /** The lines of single-line results, and the empty field after the final
      newline, hold no line break. */
  lemma {:induction false} LinesSingleLine(results: seq<SearchResult>)
    requires forall i :: 0 <= i < |results| ==> SingleLine(results[i])
    ensures forall i :: 0 <= i < |Lines(results) + [""]| ==> '\n' !in (Lines(results) + [""])[i]
    decreases |results|
  {
    if |results| > 0 {
      LinesSingleLine(results[1..]);
      assert SingleLine(results[0]);
      var r := results[0];
      assert Lines(results) + [""] == [r.title, r.link, r.description, ""] + (Lines(results[1..]) + [""]);
    }
  }
}
