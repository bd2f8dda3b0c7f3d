/**
 * The request-line of section 3 of RFC 9112, as the engine reads it:
 * `method SP request-target SP HTTP-version`, split on single spaces, with an
 * upper-case method and the version fixed to `HTTP/1.1`.  Pure validators.
 */
module StartLine {
  import opened Text

  datatype RequestLine = RequestLine(httpVersion: string, requestTarget: string, requestMethod: string)

  /** Why a request-line was refused; each carries the text the message names. */
  datatype LineError =
    | PoorlyFormatted(line: string)       // not exactly three space-separated parts
    | InvalidMethod(name: string)         // a method character outside 'A'..'Z'
    | MalformedStartLine(line: string)    // the version part is not exactly two '/'-separated parts
    | UnrecognizedVersion(part: string)   // the protocol is not HTTP or the version not 1.1

  datatype LineResult = Ok(line: RequestLine) | Err(err: LineError)

  /** Every character is an upper-case ASCII letter; the empty method qualifies. */
  predicate IsMethod(s: string) {
    forall i :: 0 <= i < |s| ==> 'A' <= s[i] <= 'Z'
  }

  /** The wire form of a request-line, without its CRLF. */
  function FormatRequestLine(rl: RequestLine): string {
    rl.requestMethod + " " + rl.requestTarget + " HTTP/" + rl.httpVersion
  }

  /** `requestLineFromString`: validate the three parts and the version. */
  function RequestLineFromString(str: string): (r: LineResult)
    ensures r.Ok? ==> r.line.httpVersion == "1.1" && IsMethod(r.line.requestMethod)
  {
    var parts := Split(str, ' ');
    if |parts| != 3 then Err(PoorlyFormatted(str))
    else if !IsMethod(parts[0]) then Err(InvalidMethod(parts[0]))
    else
      var versionParts := Split(parts[2], '/');
      if |versionParts| != 2 then Err(MalformedStartLine(str))
      else if versionParts[0] != "HTTP" then Err(UnrecognizedVersion(versionParts[0]))
      else if versionParts[1] != "1.1" then Err(UnrecognizedVersion(versionParts[1]))
      else Ok(RequestLine(versionParts[1], parts[1], parts[0]))
  }

  /** The join of three pieces, written out. */
  lemma JoinThree(a: string, b: string, c: string, sep: char)
    ensures Join([a, b, c], sep) == a + [sep] + b + [sep] + c
  {
    assert [a, b, c][1..] == [b, c];
    JoinTwo(b, c, sep);
  }

  /** The join of two pieces, written out. */
  lemma JoinTwo(a: string, b: string, sep: char)
    ensures Join([a, b], sep) == a + [sep] + b
  {
    assert [a, b][1..] == [b];
  }

  /**
   * An accepted line is exactly `method SP target SP HTTP/1.1`, with no space in
   * the method or the target.
   */
  lemma RequestLineAccepted(str: string)
    requires RequestLineFromString(str).Ok?
    ensures var rl := RequestLineFromString(str).line;
            str == FormatRequestLine(rl) && ' ' !in rl.requestMethod && ' ' !in rl.requestTarget
  {
    var parts := Split(str, ' ');
    var versionParts := Split(parts[2], '/');
    assert parts == [parts[0], parts[1], parts[2]];
    JoinThree(parts[0], parts[1], parts[2], ' ');
    assert versionParts == [versionParts[0], versionParts[1]];
    JoinTwo(versionParts[0], versionParts[1], '/');
  }

  /**
   * Conversely, every upper-case method and space-free target form a line that
   * is accepted and read back unchanged.
   */
  lemma RequestLineRoundTrip(rl: RequestLine)
    requires IsMethod(rl.requestMethod) && ' ' !in rl.requestTarget && rl.httpVersion == "1.1"
    ensures RequestLineFromString(FormatRequestLine(rl)) == Ok(rl)
  {
    var m, t := rl.requestMethod, rl.requestTarget;
    assert ' ' !in m by {
      forall i | 0 <= i < |m| ensures m[i] != ' ' { }
    }
    var v := "HTTP/1.1";
    JoinThree(m, t, v, ' ');
    assert FormatRequestLine(rl) == Join([m, t, v], ' ');
    SplitJoin([m, t, v], ' ');
    JoinTwo("HTTP", "1.1", '/');
    assert v == Join(["HTTP", "1.1"], '/');
    SplitJoin(["HTTP", "1.1"], '/');
  }

  /** What `parseRequestLine` finds at the front of its input. */
  datatype StartParse =
    | LinePending                                  // no CRLF yet
    | Parsed(line: RequestLine, consumed: nat)
    | Failed(err: LineError)

  /** `parseRequestLine`: nothing before a CRLF arrives; then the line and its CRLF. */
  function ParseRequestLine(data: string): (r: StartParse)
    ensures r.LinePending? <==> IndexOfCrlf(data) == -1
    ensures r.Parsed? ==> r.consumed == IndexOfCrlf(data) + 2 <= |data|
    ensures r.Parsed? ==> RequestLineFromString(data[..IndexOfCrlf(data)]) == Ok(r.line)
    ensures r.Failed? ==> RequestLineFromString(data[..IndexOfCrlf(data)]) == Err(r.err)
  {
    var idx := IndexOfCrlf(data);
    if idx == -1 then LinePending
    else
      match RequestLineFromString(data[..idx])
      case Err(e) => Failed(e)
      case Ok(rl) => Parsed(rl, idx + 2)
  }

  /** Bytes after the CRLF do not change what `parseRequestLine` finds. */
  lemma ParseRequestLineExtend(d: string, e: string)
    requires IndexOfCrlf(d) >= 0
    ensures ParseRequestLine(d + e) == ParseRequestLine(d)
  {
    IndexOfCrlfExtend(d, e);
    var idx := IndexOfCrlf(d);
    assert (d + e)[..idx] == d[..idx];
  }

  /** A well-formed line followed by CRLF is parsed back, consuming the line and the CRLF. */
  lemma ParseRequestLineRoundTrip(rl: RequestLine, rest: string)
    requires IsMethod(rl.requestMethod) && ' ' !in rl.requestTarget && '\n' !in rl.requestTarget
    requires rl.httpVersion == "1.1"
    ensures var line := FormatRequestLine(rl);
            ParseRequestLine(line + CRLF + rest) == Parsed(rl, |line| + 2)
  {
    var line := FormatRequestLine(rl);
    assert '\n' !in rl.requestMethod by {
      forall i | 0 <= i < |rl.requestMethod| ensures rl.requestMethod[i] != '\n' { }
    }
    assert '\n' !in line;
    IndexOfCrlfAfterLine(line, rest);
    assert (line + CRLF + rest)[..|line|] == line;
    RequestLineRoundTrip(rl);
  }
}
