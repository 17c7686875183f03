/** `ErrorService.throwError`: the HTTP layer's failure translation. The raw
    error is rendered to text (the rendering of the error object is a parameter
    here), the first occurrence of "Error: " is removed wherever it stands, and
    the result fails with an `ErrorInfo` carrying that message.
 */
module ErrorService {
  import opened Wrappers
  import opened JsStrings

  const ErrorPrefix: string := "Error: "

  /** The domain error surfaced to callers of the HTTP wrapper. */
  datatype ErrorInfo = ErrorInfo(message: string)

  /** `rendered.replace('Error: ', '')`: removes the leftmost "Error: " only. */
  function CleanMessage(rendered: string): (r: string)
    ensures !Contains(rendered, ErrorPrefix) ==> r == rendered
    ensures Contains(rendered, ErrorPrefix) ==> |r| == |rendered| - 7
    ensures forall i: nat :: FirstOccurrence(rendered, ErrorPrefix, i) ==>
              |r| >= i && rendered == r[..i] + ErrorPrefix + r[i..]
  {
    ReplaceFirst(rendered, ErrorPrefix, "")
  }

  /** `throwError(errorResponse)`: always a failure, never a value. The
      failure's message is the rendered error without its first "Error: ";
      putting that occurrence back gives the rendered error again. */
  function ThrowError<T>(rendered: string): (r: Result<T, ErrorInfo>)
    ensures r.Failure?
    ensures match IndexOf(rendered, ErrorPrefix)
            case None => r.error.message == rendered
            case Some(i) => |r.error.message| >= i &&
                            rendered == r.error.message[..i] + ErrorPrefix + r.error.message[i..]
  {
    Failure(ErrorInfo(CleanMessage(rendered)))
  }

  // ---------------------------------------------------------------------------
  // Lemmas

  /** A message that starts with "Error: " loses exactly that prefix. */
  lemma CleanLeadingPrefix(rest: string)
    ensures CleanMessage(ErrorPrefix + rest) == rest
  {
  }

  /** The removed occurrence need not be at the start: the first "Error: "
      after a prefix free of 'E' is removed, wherever it stands. */
  lemma CleanInnerOccurrence(before: string, after: string)
    requires 'E' !in before
    ensures CleanMessage(before + ErrorPrefix + after) == before + after
  {
    IndexOfAfterFree(before, ErrorPrefix, after);
    var s := before + ErrorPrefix + after;
    assert s[..|before|] == before;
    assert s[|before| + 7..] == after;
  }

  lemma CleanTimeoutExample()
    ensures CleanMessage("Error: timeout") == "timeout"
  {
  }

  lemma CleanPlainExample()
    ensures CleanMessage("timeout") == "timeout"
  {
    FreeOfFirstChar("timeout", ErrorPrefix);
  }

  lemma CleanInnerExample()
    ensures CleanMessage("HTTP Error: 500") == "HTTP 500"
  {
    var s := "HTTP Error: 500";
    IndexOfAfterFree("HTTP ", ErrorPrefix, "500");
    assert "HTTP " + ErrorPrefix + "500" == s;
    assert s[..5] == "HTTP " && s[12..] == "500";
  }

  /** Only the first occurrence goes, so cleaning is not idempotent: a
      doubled prefix loses one copy per cleaning. */
  lemma CleanNotIdempotent(rest: string)
    ensures CleanMessage(ErrorPrefix + ErrorPrefix + rest) == ErrorPrefix + rest
    ensures CleanMessage(CleanMessage(ErrorPrefix + ErrorPrefix + rest)) == rest
    ensures CleanMessage(CleanMessage(ErrorPrefix + ErrorPrefix + rest)) != CleanMessage(ErrorPrefix + ErrorPrefix + rest)
  {
    CleanLeadingPrefix(ErrorPrefix + rest);
    assert ErrorPrefix + ErrorPrefix + rest == ErrorPrefix + (ErrorPrefix + rest);
    CleanLeadingPrefix(rest);
  }
}
