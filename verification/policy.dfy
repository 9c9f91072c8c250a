/** The download policy applied to one fetched response (src/main.rs,
    lines 138 and 143-151): the extension taken from the Content-Type header,
    the fixed allow-list, the `--unsafe` override and the target file name. */
module Policy {
  import opened Wrappers
  import opened Text

  /** The header byte check of the `http` crate's `HeaderValue::to_str`:
      a tab or a printable ASCII character. */
  predicate IsVisibleAscii(b: byte)
  {
    b == 9 || (32 <= b < 127)
  }

  /** The same check on a character of header text; such a character fits
      in one byte. */
  predicate IsVisibleChar(c: char): (visible: bool)
    ensures visible ==> c as int < 127
  {
    c == '\t' || (' ' <= c <= '~')
  }

  /** A header text made only of such characters; each of them fits in one byte. */
  predicate IsVisibleText(text: string): (visible: bool)
    ensures visible ==> forall i :: 0 <= i < |text| ==> text[i] as int < 127
  {
    forall i :: 0 <= i < |text| ==> IsVisibleChar(text[i])
  }

  /** The header value as text, or `None` when some byte is not visible ASCII
      (the case in which the second `unwrap` on line 143 panics). */
  function HeaderText(value: seq<byte>): (text: Option<string>)
    ensures text.Some? <==> forall i :: 0 <= i < |value| ==> IsVisibleAscii(value[i])
    ensures text.Some? ==> |text.value| == |value|
    ensures text.Some? ==> forall i :: 0 <= i < |value| ==> text.value[i] as int == value[i] as int
    decreases |value|
  {
    if |value| == 0 then Some("")
    else if !IsVisibleAscii(value[0]) then None
    else
      var rest := HeaderText(value[1..]);
      if rest.None? then
        assert !forall i :: 0 <= i < |value[1..]| ==> IsVisibleAscii(value[1..][i]);
        None
      else
        Some([value[0] as int as char] + rest.value)
  }

  /** The octets that carry a header text on the wire. */
  function HeaderBytes(text: string): (value: seq<byte>)
    requires forall i :: 0 <= i < |text| ==> text[i] as int < 256
    ensures |value| == |text|
    decreases |text|
  {
    if |text| == 0 then [] else [text[0] as int as byte] + HeaderBytes(text[1..])
  }

  /** Every header made of tabs and printable ASCII reads back as itself. */
  lemma {:induction false} HeaderTextRoundTrip(text: string)
    requires IsVisibleText(text)
    ensures HeaderText(HeaderBytes(text)) == Some(text)
    decreases |text|
  {
    if |text| > 0 {
      HeaderTextRoundTrip(text[1..]);
      assert HeaderBytes(text)[1..] == HeaderBytes(text[1..]);
      assert [text[0]] + text[1..] == text;
    }
  }

  /** The extension as line 145 derives it: the second `/`-separated field
      of the content type, or `"unknown"` when there is no second field. */
  function Extension(contentType: string): string
  {
    var fields := Split(contentType, '/');
    if |fields| >= 2 then fields[1] else "unknown"
  }

  /** Where the extension sits in the header: a header without a slash has
      extension `"unknown"`; otherwise the extension is the text right after
      the first slash, running to the next slash or to the end. Either way it
      holds no slash. */
  lemma ExtensionShape(contentType: string)
    ensures '/' !in Extension(contentType)
    ensures '/' !in contentType ==> Extension(contentType) == "unknown"
    ensures '/' in contentType ==> exists i :: FollowsFirstSlash(contentType, i, Extension(contentType))
  {
    var fields := Split(contentType, '/');
    if |fields| == 1 {
      assert contentType == fields[0];
    } else {
      SecondField(fields, '/');
      assert Extension(contentType) == fields[1];
      assert FollowsFirstSlash(contentType, |fields[0]| + 1, fields[1]);
    }
  }

  /** `ext` starts at position `i`, right after the first slash of `s`, and
      runs to the next slash or to the end of `s`. */
  predicate FollowsFirstSlash(s: string, i: int, ext: string)
  {
    && 0 < i && i + |ext| <= |s|
    && s[i - 1] == '/' && '/' !in s[..i - 1]
    && s[i..i + |ext|] == ext
    && (i + |ext| == |s| || s[i + |ext|] == '/')
  }

  /** The first position of `c` in `s`, if any. */
  function IndexOf(s: string, c: char): (r: Option<nat>)
    ensures r.None? <==> c !in s
    ensures r.Some? ==> r.value < |s| && s[r.value] == c && c !in s[..r.value]
    decreases |s|
  {
    if |s| == 0 then None
    else if s[0] == c then Some(0)
    else
      var r := IndexOf(s[1..], c);
      assert s == [s[0]] + s[1..];
      if r.None? then None
      else
        assert s[..r.value + 1] == [s[0]] + s[1..][..r.value];
        Some(r.value + 1)
  }

  /** The extension as a reader of the header would describe it: the text
      after the first `/` up to the next `/` or to the end, and `"unknown"`
      when the header holds no `/` at all. */
  function ExtensionByIndex(contentType: string): string
  {
    match IndexOf(contentType, '/')
    case None => "unknown"
    case Some(i) =>
      var tail := contentType[i + 1..];
      match IndexOf(tail, '/')
      case None => tail
      case Some(j) => tail[..j]
  }

  /** The first field of a split is the text before the first separator. */
  lemma {:induction false} SplitHead(s: string, c: char)
    ensures Split(s, c)[0] == (match IndexOf(s, c) case None => s case Some(j) => s[..j])
    decreases |s|
  {
    if |s| > 0 && s[0] != c {
      SplitHead(s[1..], c);
      assert s == [s[0]] + s[1..];
      assert Split(s, c)[0] == [s[0]] + Split(s[1..], c)[0];
      match IndexOf(s[1..], c)
      case None =>
      case Some(j) =>
        assert s[..j + 1] == [s[0]] + s[1..][..j];
    }
  }

  /** The source's split-based extension is the index-based description. */
  lemma {:induction false} ExtensionMatchesIndex(contentType: string)
    ensures Extension(contentType) == ExtensionByIndex(contentType)
    decreases |contentType|
  {
    var s := contentType;
    if |s| > 0 {
      if s[0] == '/' {
        ExtensionAfterLeadingSlash(s);
      } else {
        ExtensionMatchesIndex(s[1..]);
        ExtensionSkipsFirst(s);
        ExtensionByIndexSkipsFirst(s);
      }
    }
  }

  /** After a leading slash, both descriptions take the first field of the rest. */
  lemma ExtensionAfterLeadingSlash(s: string)
    requires |s| > 0 && s[0] == '/'
    ensures Extension(s) == Split(s[1..], '/')[0]
    ensures ExtensionByIndex(s) == Split(s[1..], '/')[0]
  {
    assert s == ['/'] + s[1..];
    assert Split(s, '/') == [""] + Split(s[1..], '/');
    assert IndexOf(s, '/') == Some(0);
    SplitHead(s[1..], '/');
  }

  /** A first character other than a slash does not change the split-based extension. */
  lemma ExtensionSkipsFirst(s: string)
    requires |s| > 0 && s[0] != '/'
    ensures Extension(s) == Extension(s[1..])
  {
    var rest := Split(s[1..], '/');
    assert Split(s, '/') == [[s[0]] + rest[0]] + rest[1..];
  }

  /** A first character other than a slash does not change the index-based extension. */
  lemma ExtensionByIndexSkipsFirst(s: string)
    requires |s| > 0 && s[0] != '/'
    ensures ExtensionByIndex(s) == ExtensionByIndex(s[1..])
  {
    match IndexOf(s[1..], '/')
    case None =>
      assert IndexOf(s, '/') == None;
    case Some(i) =>
      assert IndexOf(s, '/') == Some(i + 1);
      assert s[i + 2..] == s[1..][i + 1..];
  }

  /** A header `a/b` or `a/b/rest`, with `a` and `b` free of slashes, has
      extension `b`; a header without a slash has extension `"unknown"`. */
  lemma {:induction false} ExtensionOfParts(a: string, b: string, rest: string)
    requires '/' !in a && '/' !in b
    ensures Extension(a + "/" + b) == b
    ensures Extension(a + "/" + b + "/" + rest) == b
    ensures Extension(a) == "unknown"
  {
    SplitNoSeparator(b, '/');
    SplitPrefix(a, '/', b);
    SplitPrefix(b, '/', rest);
    SplitPrefix(a, '/', b + "/" + rest);
    assert a + "/" + b + "/" + rest == a + ['/'] + (b + ['/'] + rest);
    SplitNoSeparator(a, '/');
  }

  /** Two slashes: the extension is the middle field. */
  lemma ExtensionOfTwoSlashes()
    ensures Extension("a/b/c") == "b"
  {
  }

  /** A trailing slash: the extension is empty. */
  lemma ExtensionOfTrailingSlash()
    ensures Extension("application/") == ""
  {
    ExtensionOfParts("application", "", "");
    assert "application/" == "application" + "/" + "";
  }

  /** Parameters after the subtype stay part of the extension: for
      `text/plain; charset=utf-8` it is `plain; charset=utf-8`. */
  lemma {:induction false} ExtensionKeepsParameters(parameters: string)
    requires '/' !in parameters
    ensures Extension("text/plain" + parameters) == "plain" + parameters
  {
    assert "text/plain" + parameters == "text" + "/" + ("plain" + parameters);
    ExtensionOfParts("text", "plain" + parameters, "");
  }

  /** `image/jpeg` gives `jpeg`, which the allow-list does not hold. */
  lemma ExtensionOfJpeg()
    ensures Extension("image/jpeg") == "jpeg"
  {
    ExtensionOfParts("image", "jpeg", "");
    assert "image/jpeg" == "image" + "/" + "jpeg";
  }

  /** The empty header has no slash. */
  lemma ExtensionOfEmpty()
    ensures Extension("") == "unknown"
  {
  }

  /** The allow-list, in the source's order; comparison is exact, so case matters. */
  const AllowedExtensions: seq<string> := ["pdf", "txt", "md", "jpg", "png", "gif", "mp3", "mp4", "wav"]

  /** Whether some allow-list entry equals the extension exactly, as the
      iterator's `any` on line 147 tests. */
  function IsAllowed(ext: string): (allowed: bool)
    ensures allowed <==> exists i :: 0 <= i < |AllowedExtensions| && AllowedExtensions[i] == ext
  {
    ext in AllowedExtensions
  }

  /** Whether the response is written to disk: always under `--unsafe`,
      otherwise only for an allowed extension. */
  function ShouldWrite(ext: string, unsafeMode: bool): (write: bool)
    ensures unsafeMode ==> write
    ensures !unsafeMode ==> (write <==> ext in AllowedExtensions)
  {
    unsafeMode || IsAllowed(ext)
  }

  /** Common extensions that are rejected without `--unsafe`. */
  lemma RejectedExtensions()
    ensures !ShouldWrite("unknown", false)
    ensures !ShouldWrite("jpeg", false)
    ensures !ShouldWrite("html", false)
    ensures !ShouldWrite("PDF", false)
    ensures !ShouldWrite("octet-stream", false)
  {
  }

  /** The path a response is written to: the output directory, a slash, the
      result's title, a dot and the extension (line 151). */
  function TargetPath(outputDir: string, title: string, ext: string): (path: string)
    ensures |path| == |outputDir| + |title| + |ext| + 2
    ensures path[..|outputDir| + 1] == outputDir + "/"
    ensures path[|outputDir| + 1..|outputDir| + 1 + |title|] == title
    ensures path[|outputDir| + 1 + |title|..] == "." + ext
  {
    outputDir + "/" + title + "." + ext
  }

  /** Within one directory and for one extension, the path strings
      coincide iff the titles do. */
  lemma TargetPathInjective(outputDir: string, title1: string, title2: string, ext: string)
    ensures TargetPath(outputDir, title1, ext) == TargetPath(outputDir, title2, ext) <==> title1 == title2
  {
    if TargetPath(outputDir, title1, ext) == TargetPath(outputDir, title2, ext) {
      var p := TargetPath(outputDir, title1, ext);
      assert title1 == p[|outputDir| + 1..|outputDir| + 1 + |title1|];
    }
  }
}
