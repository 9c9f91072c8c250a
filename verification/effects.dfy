/** What a run does to the outside world, in the order it does it. */
module Effects {
  import opened Text

  /** A `println!` to standard output (the text includes its final newline),
      a `File::create` that creates or truncates `path`, or a `write_all` of
      `content` into the file created at `path`. */
  datatype Effect =
    | Stdout(text: string)
    | CreateFile(path: string)
    | WriteFile(path: string, content: seq<byte>)
  {
    /** Whether the effect touches the filesystem. */
    predicate TouchesFile() {
      !Stdout?
    }
  }

  /** Everything printed on standard output, in order. */
  function StdoutText(effects: seq<Effect>): string
    decreases |effects|
  {
    if |effects| == 0 then ""
    else (if effects[0].Stdout? then effects[0].text else "") + StdoutText(effects[1..])
  }

  /** The printed text of two runs of effects is the two texts in order. */
  lemma {:induction false} StdoutTextAppend(a: seq<Effect>, b: seq<Effect>)
    ensures StdoutText(a + b) == StdoutText(a) + StdoutText(b)
    decreases |a|
  {
    if |a| > 0 {
      StdoutTextAppend(a[1..], b);
      assert (a + b)[0] == a[0];
      assert (a + b)[1..] == a[1..] + b;
    } else {
      assert a + b == b;
    }
  }
}
