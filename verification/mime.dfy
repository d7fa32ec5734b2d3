/** The extension-based MIME guesser: the text after a file name's last dot
    is looked up, exactly and case-sensitively, in a table of known
    extensions. */
module Mime {
  import opened Wrappers
  import opened Conversion

  const Pdf: string := "application/pdf"

  /** The known extensions and their MIME types. */
  const Extensions: map<string, string> := map["pdf" := Pdf]

  /** `lastIndexOf(c)`: the index of the last `c`, or -1 when there is none. */
  function LastIndexOf(s: string, c: char): (r: int)
    ensures -1 <= r < |s|
    ensures r >= 0 ==> s[r] == c
    ensures forall j :: r < j < |s| ==> s[j] != c
    decreases |s|
  {
    if |s| == 0 then -1
    else if s[|s| - 1] == c then |s| - 1
    else LastIndexOf(s[..|s| - 1], c)
  }

  /** The text after the last dot; the whole name when it has no dot. */
  function Extension(name: string): (e: string)
    ensures '.' !in e
    ensures |e| <= |name| && e == name[|name| - |e|..]
    ensures |e| < |name| ==> name[|name| - |e| - 1] == '.'
  {
    name[LastIndexOf(name, '.') + 1..]
  }

  /** `guess`: no type for a missing file or file name; otherwise the type
      registered for the file name's extension, if any. */
  function Guess(file: Option<Attachment>): (r: Option<string>)
    ensures file.None? || file.value.filename.None? ==> r.None?
    ensures r == Some(Pdf) <==> file.Some? && file.value.filename.Some? && Extension(file.value.filename.value) == "pdf"
    ensures r.Some? ==> r == Some(Pdf)
  {
    if file.None? || file.value.filename.None? then None
    else
      var ext := Extension(file.value.filename.value);
      if ext in Extensions then Some(Extensions[ext]) else None
  }

  /** A name without a dot is its own extension. */
  lemma ExtensionOfDotFree(name: string)
    requires '.' !in name
    ensures Extension(name) == name
  {
  }

  /** The extension of `stem.ext` is `ext` whenever `ext` has no dot: the
      inverse of splitting a name at its last dot. */
  lemma {:induction false} ExtensionOfJoin(stem: string, ext: string)
    requires '.' !in ext
    ensures Extension(stem + "." + ext) == ext
  {
    var name := stem + "." + ext;
    assert name[|stem|] == '.';
    assert forall j :: |stem| < j < |name| ==> name[j] == ext[j - |stem| - 1];
    var i := LastIndexOf(name, '.');
    assert i == |stem|;
    assert name[i + 1..] == ext;
  }

  /** Any `.pdf` file is a PDF, whatever its stem. */
  lemma GuessPdf(stem: string, display: string)
    ensures Guess(Some(Attachment(Some(stem + ".pdf"), display))) == Some(Pdf)
  {
    assert stem + ".pdf" == stem + "." + "pdf";
    ExtensionOfJoin(stem, "pdf");
  }

  /** The lookup is case-sensitive: `x.PDF` has no registered type. */
  lemma GuessIsCaseSensitive(display: string)
    ensures Guess(Some(Attachment(Some("x.PDF"), display))).None?
  {
    assert "x.PDF" == "x" + "." + "PDF";
    ExtensionOfJoin("x", "PDF");
    assert "PDF"[0] != "pdf"[0];
  }

  /** A trailing dot leaves an empty extension, which nothing is
      registered for. */
  lemma GuessTrailingDot(stem: string, display: string)
    ensures Guess(Some(Attachment(Some(stem + "."), display))).None?
  {
    assert stem + "." == stem + "." + "";
    ExtensionOfJoin(stem, "");
  }

  /** A name without a dot is looked up whole: `pdf` alone is a PDF. */
  lemma GuessWholeName(display: string)
    ensures Guess(Some(Attachment(Some("pdf"), display))) == Some(Pdf)
  {
    ExtensionOfDotFree("pdf");
  }
}
