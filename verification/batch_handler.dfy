/** The `run-batch` handler of the host process (main.js): it builds the
    command line for the download script from the URL, and when the script
    completes turns its (error, stdout) outcome into the `batch-complete`
    message `{ response, file }`, or into no message at all.

    Running the script is not modelled: the handler's completion callback
    receives the script's outcome, and `HandleCompletion` takes that outcome
    as its input. */
module BatchHandler {
  import opened Options
  import opened JsString
  import opened PathPattern

  /** The script the handler runs. */
  const BatchFile: string := "thuis.bat"

  /** The `batch-complete` message: the trimmed script output and the
      extracted path, `None` standing for JavaScript's `null`. */
  datatype BatchResult = BatchResult(response: string, file: Option<string>)

  /** The command line `${batFilePath} ${mpdUrl}`: the script name, one
      space, then the URL exactly as received, with no quoting or escaping. */
  function BuildCommand(url: string): (cmd: string)
    ensures |cmd| == |BatchFile| + 1 + |url|
    ensures cmd[..|BatchFile|] == BatchFile
    ensures cmd[|BatchFile|] == ' '
    ensures cmd[|BatchFile| + 1..] == url
  {
    BatchFile + " " + url
  }

  /** No two URLs give the same command line. */
  lemma BuildCommandInjective(url1: string, url2: string)
    requires BuildCommand(url1) == BuildCommand(url2)
    ensures url1 == url2
  {
  }

  /** JavaScript truthiness of a string: only the empty string is falsy. */
  predicate Truthy(s: string) {
    s != []
  }

  /** The completion callback of `exec`. When it reports an error, nothing
      is sent (`None`). Otherwise the message carries the trimmed output and
      the capture of the path pattern on that trimmed output, kept only when
      the capture is truthy (`match && match[1]`). */
  function HandleCompletion(failed: bool, stdout: string): (r: Option<BatchResult>)
    ensures r.None? <==> failed
    ensures r.Some? ==> IsTrimOf(stdout, r.value.response, IsTrimmable)
    ensures r.Some? ==> (r.value.file.None? <==> !HasMatch(r.value.response))
    ensures r.Some? && r.value.file.Some? ==>
              exists i, j :: Selected(r.value.response, i, j)
                          && r.value.file.value == r.value.response[i + |Phrase|..j]
  {
    if failed then
      None
    else
      var outputPath := Trim(stdout, IsTrimmable);
      var m := ExtractPath(outputPath);
      var file := if m.Some? && Truthy(m.value) then m else None;
      Some(BatchResult(outputPath, file))
  }

  /** The `match[1]` truthiness test never discards a match, and the path
      extracted from the trimmed output is the path in the raw output. */
  lemma FileIsExtractedPath(stdout: string)
    ensures HandleCompletion(false, stdout).Some?
    ensures HandleCompletion(false, stdout).value.file == ExtractPath(stdout)
  {
    ExtractPathIgnoresTrim(stdout, IsTrimmable);
  }

  /** No message carries a path when the output lacks the phrase. */
  lemma NoPhraseNoFile(stdout: string)
    requires forall i :: !PhraseAt(stdout, i)
    ensures HandleCompletion(false, stdout).value.file == None
  {
    FileIsExtractedPath(stdout);
  }

  /** The message carries no path exactly when no occurrence of the phrase
      in the output is followed, on the same line, by ".mp4". */
  lemma FileAbsentIffNoPathLine(stdout: string)
    ensures HandleCompletion(false, stdout).value.file.None? <==>
      !exists i, q :: && OccursAt(stdout, Phrase, i) && OccursAt(stdout, Extension, q)
                      && i + |Phrase| <= q && NoLineTerminator(stdout[i + |Phrase|..q])
  {
    FileIsExtractedPath(stdout);
    PathIffPhraseThenExtensionOnLine(stdout);
  }

  /** Output that opens with the phrase followed by a well-formed path (one
      line, ending in ".mp4" and containing ".mp4" nowhere else) yields that
      path, whatever follows it. */
  lemma PhraseThenPathYieldsPath(path: string, rest: string)
    requires NoLineTerminator(path)
    requires OccursAt(path, Extension, |path| - |Extension|)
    requires forall k :: OccursAt(path, Extension, k) ==> k == |path| - |Extension|
    ensures HandleCompletion(false, Phrase + path + rest).value.file == Some(path)
  {
    var s := Phrase + path + rest;
    var j := |Phrase| + |path|;
    assert s[..|Phrase|] == Phrase;
    assert s[|Phrase|..j] == path;
    assert s[|Phrase|..j - |Extension|] == path[..|path| - |Extension|];
    assert s[j - |Extension|..j] == path[|path| - |Extension|..];
    assert MatchAt(s, 0, j);
    forall j' | MatchAt(s, 0, j')
      ensures j <= j'
    {
      if j' < j {
        assert path[j' - |Phrase| - |Extension|..j' - |Phrase|] == s[j' - |Extension|..j'];
        assert OccursAt(path, Extension, j' - |Phrase| - |Extension|);
      }
    }
    SelectedGivesPath(s, 0, j);
    FileIsExtractedPath(s);
  }

  /** The usual shape of the script's output: lines with no match (progress
      output, or the phrase without ".mp4"), a line terminator, then the
      success line with a well-formed path. The message carries that path,
      whatever follows it. */
  lemma LaterLineYieldsPath(pre: string, c: char, path: string, rest: string)
    requires IsLineTerminator(c)
    requires !HasMatch(pre)
    requires NoLineTerminator(path)
    requires OccursAt(path, Extension, |path| - |Extension|)
    requires forall k :: OccursAt(path, Extension, k) ==> k == |path| - |Extension|
    ensures HandleCompletion(false, pre + [c] + Phrase + path + rest).value.file == Some(path)
  {
    var line := Phrase + path + rest;
    assert pre + [c] + Phrase + path + rest == pre + [c] + line;
    PhraseThenPathYieldsPath(path, rest);
    FileIsExtractedPath(line);
    ExtractPathFirstLine(pre, c, line);
    FileIsExtractedPath(pre + [c] + line);
  }
}
