/** Strings, bytes and the field splitting that Rust's `str::split` performs
    with a single-character pattern. */
module Text {

  /** One octet of an HTTP header value or response body. */
  newtype byte = x: int | 0 <= x < 256

  /** Glues `fields` together with `sep` between neighbours. */
  function Join(fields: seq<string>, sep: char): string
    requires |fields| >= 1
    decreases |fields|
  {
    if |fields| == 1 then fields[0] else fields[0] + [sep] + Join(fields[1..], sep)
  }

  /** The fields of `s` between occurrences of `sep`, as `s.split(sep)`
      yields them: always at least one field, possibly empty ones. */
  function Split(s: string, sep: char): (fields: seq<string>)
    ensures |fields| >= 1
    ensures Join(fields, sep) == s
    ensures forall i :: 0 <= i < |fields| ==> sep !in fields[i]
    decreases |s|
  {
    if |s| == 0 then [""]
    else
      var rest := Split(s[1..], sep);
      if s[0] == sep then
        assert s == [sep] + s[1..];
        [""] + rest
      else
        var fields := [[s[0]] + rest[0]] + rest[1..];
        assert fields[1..] == rest[1..];
        assert s == [s[0]] + s[1..];
        fields
  }

  /** Splitting a field that holds no separator gives that field alone. */
  lemma {:induction false} SplitNoSeparator(a: string, sep: char)
    requires sep !in a
    ensures Split(a, sep) == [a]
    decreases |a|
  {
    if |a| > 0 {
      SplitNoSeparator(a[1..], sep);
      assert [a[0]] + a[1..] == a;
    }
  }

  /** A leading separator-free field followed by `sep` becomes the first
      field of the split, and the rest is split independently. */
  lemma {:induction false} SplitPrefix(a: string, sep: char, t: string)
    requires sep !in a
    ensures Split(a + [sep] + t, sep) == [a] + Split(t, sep)
    decreases |a|
  {
    var s := a + [sep] + t;
    if |a| == 0 {
      assert s[1..] == t;
    } else {
      assert s[1..] == a[1..] + [sep] + t;
      SplitPrefix(a[1..], sep, t);
      assert [a[0]] + a[1..] == a;
    }
  }

  /** Splitting undoes joining, provided no field holds the separator. */
  lemma {:induction false} SplitJoin(fields: seq<string>, sep: char)
    requires |fields| >= 1
    requires forall i :: 0 <= i < |fields| ==> sep !in fields[i]
    ensures Split(Join(fields, sep), sep) == fields
    decreases |fields|
  {
    if |fields| == 1 {
      SplitNoSeparator(fields[0], sep);
    } else {
      SplitJoin(fields[1..], sep);
      SplitPrefix(fields[0], sep, Join(fields[1..], sep));
      assert [fields[0]] + fields[1..] == fields;
    }
  }

  /** In a join of two or more fields, the second field sits right after the
      first separator and is followed by the next separator or the end. */
  lemma SecondField(fields: seq<string>, sep: char)
    requires |fields| >= 2
    ensures var s, i := Join(fields, sep), |fields[0]| + 1;
      && i + |fields[1]| <= |s|
      && s[..i - 1] == fields[0] && s[i - 1] == sep
      && s[i..i + |fields[1]|] == fields[1]
      && (i + |fields[1]| == |s| || s[i + |fields[1]|] == sep)
  {
    var tail := Join(fields[1..], sep);
    assert Join(fields, sep) == fields[0] + [sep] + tail;
    if |fields| > 2 {
      assert tail == fields[1] + [sep] + Join(fields[2..], sep);
    }
  }

  /** Joining two non-empty field lists is joining their two results. */
  lemma {:induction false} JoinAppend(a: seq<string>, b: seq<string>, sep: char)
    requires |a| >= 1 && |b| >= 1
    ensures Join(a + b, sep) == Join(a, sep) + [sep] + Join(b, sep)
    decreases |a|
  {
    if |a| == 1 {
      assert (a + b)[1..] == b;
    } else {
      assert (a + b)[1..] == a[1..] + b;
      JoinAppend(a[1..], b, sep);
    }
  }
}
