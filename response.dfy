/**
 * The response side of the engine: the status line, the default header table
 * and the header block, written to a sink that only grows.  A status line is
 * read back as its code, and a header block written here is read back by the
 * request parser's header stage as the same table.
 */
module Response {
  import opened Text
  import Headers
  import opened Parser

  /** `StatusCode`: a Go `int`, of which the engine names three values. */
  type StatusCode = int

  const StatusOK: StatusCode := 200
  const StatusBadRequest: StatusCode := 400
  const StatusInternalServerError: StatusCode := 500

  // ---------------------------------------------------------------------------
  // The status line

  /** `%d` never writes a blank or a line break. */
  lemma ItoaIsOneWord(n: int)
    ensures ' ' !in Itoa(n) && '\r' !in Itoa(n) && '\n' !in Itoa(n)
  {
    var d := NatToDigits(if n < 0 then -n else n, 10);
    forall i | 0 <= i < |d| ensures d[i] != ' ' && d[i] != '\r' && d[i] != '\n' {
      assert DigitValue(d[i], 10) >= 0;
    }
    if n < 0 {
      assert Itoa(n) == "-" + d;
    }
  }

  /** The phrases of the three named codes: the numeral, a blank, the text. */
  lemma PhraseOK()
    ensures ReasonPhrase(StatusOK) == Itoa(StatusOK) + " " + "OK"
  {
    assert Itoa(StatusOK) == "200" by {
      assert NatToDigits(2, 10) == "2";
      assert NatToDigits(20, 10) == "20";
    }
  }

  lemma PhraseBadRequest()
    ensures ReasonPhrase(StatusBadRequest) == Itoa(StatusBadRequest) + " " + "Bad Request"
  {
    assert Itoa(StatusBadRequest) == "400" by {
      assert NatToDigits(4, 10) == "4";
      assert NatToDigits(40, 10) == "40";
    }
  }

  lemma PhraseInternalServerError()
    ensures ReasonPhrase(StatusInternalServerError) == Itoa(StatusInternalServerError) + " " + "Internal Server Error"
  {
    assert Itoa(StatusInternalServerError) == "500" by {
      assert NatToDigits(5, 10) == "5";
      assert NatToDigits(50, 10) == "50";
    }
  }

  /**
   * The reason phrase as `WriteStatusLine` builds it: for the three codes the
   * engine names, the code, a blank and their standard text; for any other
   * code just its decimal numeral.  It is one line.
   */
  function ReasonPhrase(code: StatusCode): (r: string)
    ensures '\r' !in r && '\n' !in r
  {
    ItoaIsOneWord(code);
    if code == StatusOK then "200 OK"
    else if code == StatusBadRequest then "400 Bad Request"
    else if code == StatusInternalServerError then "500 Internal Server Error"
    else Itoa(code)
  }

  /** The status line `HTTP/1.1 <reason phrase>` CRLF: one line, ended by its only CRLF. */
  function StatusLine(code: StatusCode): (r: string)
    ensures |r| >= 11 && r[..9] == "HTTP/1.1 " && IndexOfCrlf(r) == |r| - 2
  {
    var line := "HTTP/1.1 " + ReasonPhrase(code);
    IndexOfCrlfAfterLine(line, "");
    assert line + CRLF + "" == line + CRLF;
    line + CRLF
  }

  /**
   * How a client reads the code off a status line: the first line must start
   * with `HTTP/1.1 `, and the code is the word after it, up to a blank or the
   * end of the line.
   */
  function ReadStatusCode(data: string): (r: Option<StatusCode>)
    ensures r.Some? ==> IndexOfCrlf(data) >= 9 && data[..9] == "HTTP/1.1 "
  {
    var i := IndexOfCrlf(data);
    if i < 9 || data[..9] != "HTTP/1.1 " then None
    else
      var line := data[9..i];
      var blank := IndexOfChar(line, ' ');
      Atoi(if blank == -1 then line else line[..blank])
  }

  /** Every status line the engine writes, whatever follows it, is read back as its code. */
  lemma StatusLineRoundTrip(code: StatusCode, rest: string)
    requires MinInt64 <= code <= MaxInt64
    ensures ReadStatusCode(StatusLine(code) + rest) == Some(code)
  {
    var phrase := ReasonPhrase(code);
    var line := "HTTP/1.1 " + phrase;
    var data := StatusLine(code) + rest;
    assert data == line + CRLF + rest;
    assert IndexOfCrlf(data) == |line| by {
      IndexOfCrlfAfterLine(line, rest);
    }
    assert data[..9] == "HTTP/1.1 " && data[9..|line|] == phrase;
    PhraseWord(code);
    AtoiItoa(code);
  }

  /**
   * The word a client takes from a reason phrase, up to its first blank, is the
   * decimal code; a blank follows it exactly for the three named codes.
   */
  lemma PhraseWord(code: StatusCode)
    ensures var phrase := ReasonPhrase(code);
            var blank := IndexOfChar(phrase, ' ');
            (if blank == -1 then phrase else phrase[..blank]) == Itoa(code)
            && (blank != -1 <==> code in {StatusOK, StatusBadRequest, StatusInternalServerError})
  {
    var phrase := ReasonPhrase(code);
    ItoaIsOneWord(code);
    if code == StatusOK {
      PhraseOK();
      WordThenText(Itoa(code), "OK");
    } else if code == StatusBadRequest {
      PhraseBadRequest();
      WordThenText(Itoa(code), "Bad Request");
    } else if code == StatusInternalServerError {
      PhraseInternalServerError();
      WordThenText(Itoa(code), "Internal Server Error");
    }
  }

  /** In a word, a blank and a text, the first blank ends the word. */
  lemma WordThenText(word: string, text: string)
    requires ' ' !in word
    ensures var p := word + " " + text;
            IndexOfChar(p, ' ') == |word| && p[..|word|] == word
  {
    var p := word + " " + text;
    assert p[..|word|] == word;
    IndexOfCharIs(p, ' ', |word|);
  }

  // ---------------------------------------------------------------------------
  // The sink

  /** An `io.Writer` whose writes always succeed: everything written, in order. */
  class Sink {
    var data: string

    constructor ()
      ensures data == []
    {
      data := [];
    }

    /** `Write`: append p. */
    method Write(p: string)
      modifies this
      ensures data == old(data) + p
    {
      data := data + p;
    }
  }

  /** `WriteStatusLine`: write the status line of code to w. */
  method WriteStatusLine(w: Sink, code: StatusCode)
    modifies w
    ensures w.data == old(w.data) + StatusLine(code)
  {
    w.Write(StatusLine(code));
  }

  // ---------------------------------------------------------------------------
  // Default headers

  /**
   * The table `GetDefaultHeaders(n)` builds: exactly content-length (the
   * decimal n), connection and content-type, each under its lower-cased key.
   */
  function DefaultFields(contentLen: int): (m: map<string, string>)
    ensures m == map["content-length" := Itoa(contentLen), "connection" := "close", "content-type" := "text/plain"]
    ensures Headers.LowerKeys(m)
  {
    assert ToLower("Content-Length") == "content-length";
    assert ToLower("Connection") == "connection";
    assert ToLower("Content-Type") == "content-type";
    var m0: map<string, string> := map[];
    var m1 := Headers.SetField(m0, "Content-Length", Itoa(contentLen));
    var m2 := Headers.SetField(m1, "Connection", "close");
    Headers.SetField(m2, "Content-Type", "text/plain")
  }

  /** `GetDefaultHeaders`: a fresh table, filled by three calls of `Set`. */
  method GetDefaultHeaders(contentLen: int) returns (h: Headers.Headers)
    ensures fresh(h) && h.Valid() && h.fields == DefaultFields(contentLen)
  {
    h := new Headers.Headers();
    h.Set("Content-Length", Itoa(contentLen));
    h.Set("Connection", "close");
    h.Set("Content-Type", "text/plain");
  }

  /** The Content-Length of the default table reads back as the body length. */
  lemma DefaultContentLength(contentLen: int)
    requires MinInt64 <= contentLen <= MaxInt64
    ensures Atoi(DefaultFields(contentLen)["content-length"]) == Some(contentLen)
  {
    AtoiItoa(contentLen);
  }

  // ---------------------------------------------------------------------------
  // The header block

  /**
   * `WriteHeaders`: one `key: value` line per entry of hdrs, in the map's
   * iteration order (any order; `order` is the one taken), then an empty line.
   */
  method WriteHeaders(w: Sink, hdrs: map<string, string>) returns (ghost order: seq<string>)
    modifies w
    ensures Headers.IsOrdering(order, hdrs.Keys)
    ensures w.data == old(w.data) + Headers.FieldLines(hdrs, order) + CRLF
  {
    var rest := hdrs.Keys;
    order := [];
    while rest != {}
      invariant rest <= hdrs.Keys
      invariant forall i :: 0 <= i < |order| ==> order[i] in hdrs && order[i] !in rest
      invariant forall i, j :: 0 <= i < j < |order| ==> order[i] != order[j]
      invariant forall k :: k in hdrs.Keys ==> k in rest || k in order
      invariant w.data == old(w.data) + Headers.FieldLines(hdrs, order)
      decreases rest
    {
      var key :| key in rest;
      w.Write(Headers.FieldLine(key, hdrs[key]));
      FieldLinesSnoc(hdrs, order, key);
      order := order + [key];
      rest := rest - {key};
    }
    w.Write(CRLF);
  }

  /** Writing one more line after the lines of order gives the lines of order + [key]. */
  lemma {:induction false} FieldLinesSnoc(m: map<string, string>, order: seq<string>, key: string)
    requires forall i :: 0 <= i < |order| ==> order[i] in m
    requires key in m
    ensures Headers.FieldLines(m, order + [key]) == Headers.FieldLines(m, order) + Headers.FieldLine(key, m[key])
    decreases |order|
  {
    if order == [] {
      assert [key][1..] == [];
    } else {
      assert (order + [key])[1..] == order[1..] + [key];
      FieldLinesSnoc(m, order[1..], key);
    }
  }

  /** Lines with names the parser keeps and values it reads back unchanged. */
  predicate Writable(m: map<string, string>) {
    forall k :: k in m ==> Headers.IsFieldName(k) && Headers.IsFieldValue(m[k])
  }

  /**
   * A header block written by `WriteHeaders` is read back by the request
   * parser's header stage: starting from an empty table, it stores exactly the
   * written table, consumes the whole block and goes on to the body.
   */
  lemma HeaderBlockReadBack(v: Snapshot, m: map<string, string>, order: seq<string>, body: string)
    requires v.state == ParsingHeaders && v.fields == map[]
    requires Headers.IsOrdering(order, m.Keys) && Writable(m)
    ensures Drive(v, Headers.FieldLines(m, order) + CRLF + body)
              == Extend(|Headers.FieldLines(m, order)| + 2, StepBody(v.(fields := m, state := ParsingBody), body))
  {
    var block := Headers.FieldLines(m, order);
    var w := v.(fields := m);
    var b := StepBody(w.(state := ParsingBody), body);
    AppendAssoc(block, CRLF, body);
    BlockFields(v, m, order, CRLF + body);
    DriveEndOfHeaders(w, body);
    ExtendExtend(|block|, 2, |block| + 2, b);
  }

  /** The field lines of the block store the table. */
  lemma BlockFields(v: Snapshot, m: map<string, string>, order: seq<string>, rest: string)
    requires v.state == ParsingHeaders && v.fields == map[]
    requires Headers.IsOrdering(order, m.Keys) && Writable(m)
    ensures Drive(v, Headers.FieldLines(m, order) + rest)
              == Extend(|Headers.FieldLines(m, order)|, Drive(v.(fields := m), rest))
  {
    DriveFieldLines(v, m, order, rest);
    Headers.SetFieldsRebuilds(m, order);
  }
}
