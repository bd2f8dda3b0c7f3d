/**
 * The header table of the HTTP/1.1 engine: a map from lower-cased field name to
 * field value, in which a repeated name folds its values with ", ", and the
 * parser of one `name: value` field line, which checks the name against the
 * token characters of section 5.6.2 of RFC 9110.
 */
module Headers {
  import opened Text

  /** The punctuation that a token may contain besides letters and digits. */
  const TokenChars: string := "!#$%&'*+-.^_`|~"

  /** Membership in TokenChars, written out (`#` to `'` is the run # $ % & '). */
  predicate IsTokenPunct(c: char) {
    c == '!' || ('#' <= c <= '\'') || c == '*' || c == '+' || c == '-' || c == '.'
    || c == '^' || c == '_' || c == '`' || c == '|' || c == '~'
  }

  lemma TokenCharsArePunct(c: char)
    ensures c in TokenChars <==> IsTokenPunct(c)
  {
    if IsTokenPunct(c) {
      assert c in TokenChars by {
        if c == '!' { assert TokenChars[0] == c; }
        else if c == '#' { assert TokenChars[1] == c; }
        else if c == '$' { assert TokenChars[2] == c; }
        else if c == '%' { assert TokenChars[3] == c; }
        else if c == '&' { assert TokenChars[4] == c; }
        else if c == '\'' { assert TokenChars[5] == c; }
        else if c == '*' { assert TokenChars[6] == c; }
        else if c == '+' { assert TokenChars[7] == c; }
        else if c == '-' { assert TokenChars[8] == c; }
        else if c == '.' { assert TokenChars[9] == c; }
        else if c == '^' { assert TokenChars[10] == c; }
        else if c == '_' { assert TokenChars[11] == c; }
        else if c == '`' { assert TokenChars[12] == c; }
        else if c == '|' { assert TokenChars[13] == c; }
        else { assert TokenChars[14] == c; }
      }
    }
  }

  predicate IsTokenChar(c: char) {
    ('A' <= c <= 'Z') || ('a' <= c <= 'z') || ('0' <= c <= '9') || IsTokenPunct(c)
  }

  /** Every character of s is a token character (the empty string included). */
  predicate IsToken(s: string) {
    forall i :: 0 <= i < |s| ==> IsTokenChar(s[i])
  }

  /** What the header table may hold: keys without upper-case letters. */
  predicate LowerKeys(m: map<string, string>) {
    forall k :: k in m ==> NoUpper(k)
  }

  /** `validTokens`: true exactly when every byte of data is a token character. */
  method ValidTokens(data: string) returns (ok: bool)
    ensures ok <==> IsToken(data)
  {
    for i := 0 to |data|
      invariant IsToken(data[..i])
    {
      var c := data[i];
      TokenCharsArePunct(c);
      if !(('A' <= c <= 'Z') || ('a' <= c <= 'z') || ('0' <= c <= '9') || c in TokenChars) {
        return false;
      }
      assert data[..i + 1] == data[..i] + [data[i]];
    }
    assert data[..|data|] == data;
    return true;
  }

  /** The table after `Set(key, value)`: the value is stored under the lower-cased key, folded onto an existing one. */
  function SetField(m: map<string, string>, key: string, value: string): (r: map<string, string>)
    ensures r.Keys == m.Keys + {ToLower(key)}
    ensures forall k :: k in m && k != ToLower(key) ==> r[k] == m[k]
    ensures LowerKeys(m) ==> LowerKeys(r)
  {
    var k := ToLower(key);
    m[k := if k in m then m[k] + ", " + value else value]
  }

  /** `Get(key)`: the value stored under the lower-cased key, or "" when there is none. */
  function Lookup(m: map<string, string>, key: string): string {
    if ToLower(key) in m then m[ToLower(key)] else ""
  }

  /** Lookup ignores the case of the key it is given. */
  lemma LookupCaseInsensitive(m: map<string, string>, key: string)
    ensures Lookup(m, key) == Lookup(m, ToLower(key))
  {
    ToLowerIdempotent(key);
  }

  /** Setting an absent key makes every casing of it look up the new value. */
  lemma LookupAfterSetAbsent(m: map<string, string>, key: string, value: string, other: string)
    requires ToLower(key) !in m
    requires ToLower(other) == ToLower(key)
    ensures Lookup(SetField(m, key, value), other) == value
  {
  }

  /** Setting a present key appends ", " and the new value to the stored one. */
  lemma LookupAfterSetPresent(m: map<string, string>, key: string, value: string, other: string)
    requires ToLower(key) in m
    requires ToLower(other) == ToLower(key)
    ensures Lookup(SetField(m, key, value), other) == m[ToLower(key)] + ", " + value
  {
  }

  /** Setting one key does not change what any other key looks up. */
  lemma LookupAfterSetOther(m: map<string, string>, key: string, value: string, other: string)
    requires ToLower(other) != ToLower(key)
    ensures Lookup(SetField(m, key, value), other) == Lookup(m, other)
  {
  }

  datatype HeaderError =
    | InvalidName(name: string)     // a space right before the colon
    | InvalidToken(name: string)    // a character outside the token set
    | MissingColon(line: string)    // the source panics here (see README)

  /** What one call of `Parse` finds at the front of its input. */
  datatype LineParse =
    | NeedMore                                         // no CRLF yet
    | EndOfHeaders                                     // the blank line
    | Field(name: string, value: string, consumed: nat)
    | Malformed(err: HeaderError)

  /** The part of a field line that `SplitN(line, ":", 2)` puts before the first colon. */
  function NamePart(line: string): string {
    var colon := IndexOfChar(line, ':');
    if colon == -1 then line else line[..colon]
  }

  /** The name part ends in a blank, so that trimming blanks on the right would change it. */
  predicate EndsInSpace(s: string) {
    |s| > 0 && s[|s| - 1] == ' '
  }

  /** Whether data begins with a field line, the blank line, or nothing complete yet. */
  function ParseFieldLine(data: string): (r: LineParse)
    ensures r.NeedMore? <==> IndexOfCrlf(data) == -1
    ensures r.EndOfHeaders? <==> IndexOfCrlf(data) == 0
    ensures r.Field? ==> r.consumed == IndexOfCrlf(data) + 2 <= |data|
  {
    var idx := IndexOfCrlf(data);
    if idx == -1 then NeedMore
    else if idx == 0 then EndOfHeaders
    else ParseLine(data[..idx])
  }

  /** A complete, non-empty field line (without its CRLF): the name is checked before the colon is required. */
  function ParseLine(line: string): (r: LineParse)
    ensures !r.NeedMore? && !r.EndOfHeaders?
    ensures r.Field? ==> r.consumed == |line| + 2
  {
    var key := ToLower(NamePart(line));
    if EndsInSpace(key) then Malformed(InvalidName(key))
    else
      var colon := IndexOfChar(line, ':');
      if colon == -1 then Malformed(MissingColon(line))
      else CheckName(TrimSpace(key), TrimSpace(line[colon + 1..]), |line| + 2)
  }

  /** The last step of a field line: the trimmed name must be a token. */
  function CheckName(name: string, value: string, consumed: nat): (r: LineParse)
    ensures r.Field? <==> IsToken(name)
    ensures r.Field? ==> r == Field(name, value, consumed)
    ensures r.Malformed? ==> r.err == InvalidToken(name)
  {
    if IsToken(name) then Field(name, value, consumed) else Malformed(InvalidToken(name))
  }

  /** A line with its CRLF past the front is judged by ParseLine alone. */
  lemma ParseFieldLineIsLine(data: string)
    requires IndexOfCrlf(data) > 0
    ensures ParseFieldLine(data) == ParseLine(data[..IndexOfCrlf(data)])
  {
  }

  /** An accepted line has a lower-case token for a name and a trimmed value. */
  lemma ParseLineField(line: string)
    requires ParseLine(line).Field?
    ensures var r := ParseLine(line);
            IsToken(r.name) && NoUpper(r.name) && Trimmed(r.value)
  {
    NoUpperTrim(ToLower(NamePart(line)));
  }

  /** So an accepted field line has a lower-case token for a name and a trimmed value. */
  lemma ParseFieldLineField(data: string)
    requires ParseFieldLine(data).Field?
    ensures var r := ParseFieldLine(data);
            IsToken(r.name) && NoUpper(r.name) && Trimmed(r.value)
  {
    ParseFieldLineIsLine(data);
    ParseLineField(data[..IndexOfCrlf(data)]);
  }

  /** Trimming keeps a string free of upper-case letters. */
  lemma NoUpperTrim(s: string)
    requires NoUpper(s)
    ensures NoUpper(TrimSpace(s))
  {
    var left := s[LeadingSpace(s)..];
    assert forall i :: 0 <= i < |left| ==> left[i] == s[LeadingSpace(s) + i];
  }

  /** A name of token characters contains no colon, no white space and no line break. */
  lemma TokenHasNoSeparators(name: string)
    requires IsToken(name)
    ensures ':' !in name && ' ' !in name && '\n' !in name
    ensures |name| == 0 || (!IsSpace(name[0]) && !IsSpace(name[|name| - 1]))
  {
    forall i | 0 <= i < |name| ensures name[i] != ':' && name[i] != '\n' && !IsSpace(name[i]) {
      assert IsTokenChar(name[i]);
    }
  }

  /** Lower-casing keeps a token a token. */
  lemma ToLowerToken(name: string)
    requires IsToken(name)
    ensures IsToken(ToLower(name))
  {
    var l := ToLower(name);
    forall i | 0 <= i < |l| ensures IsTokenChar(l[i]) {
      assert IsTokenChar(name[i]);
    }
  }

  /**
   * A field line `pad name ":" value CRLF`, with blanks before a non-empty token
   * name, is accepted: the lower-cased name and the trimmed value are stored and
   * exactly the line and its CRLF are consumed.
   */
  lemma ParseFieldLineAccepts(pad: string, name: string, value: string, rest: string)
    requires forall i :: 0 <= i < |pad| ==> pad[i] == ' '
    requires IsToken(name) && (|pad| > 0 ==> |name| > 0)
    requires '\n' !in value
    ensures var line := pad + name + ":" + value;
            ParseFieldLine(line + CRLF + rest) == Field(ToLower(name), TrimSpace(value), |line| + 2)
  {
    var line := pad + name + ":" + value;
    TokenHasNoSeparators(name);
    assert ':' !in pad && '\n' !in pad by {
      forall i | 0 <= i < |pad| ensures pad[i] != ':' && pad[i] != '\n' { }
    }
    assert '\n' !in line;
    IndexOfCrlfAfterLine(line, rest);
    assert (line + CRLF + rest)[..|line|] == line;
    ParseFieldLineIsLine(line + CRLF + rest);
    ParseLineAccepts(pad, name, value);
  }

  /** The line part of ParseFieldLineAccepts. */
  lemma ParseLineAccepts(pad: string, name: string, value: string)
    requires forall i :: 0 <= i < |pad| ==> pad[i] == ' '
    requires IsToken(name) && (|pad| > 0 ==> |name| > 0)
    requires ':' !in pad
    ensures var line := pad + name + ":" + value;
            ParseLine(line) == Field(ToLower(name), TrimSpace(value), |line| + 2)
  {
    var line := pad + name + ":" + value;
    TokenHasNoSeparators(name);
    var colon := |pad| + |name|;
    assert line[..colon] == pad + name;
    IndexOfCharIs(line, ':', colon);
    ToLowerAppend(pad, name);
    ToLowerFixed(pad);
    ToLowerToken(name);
    var key := ToLower(name);
    TokenHasNoSeparators(key);
    assert ToLower(line[..colon]) == pad + key;
    assert line[colon + 1..] == value;
    TrimSpaceAfterPad(pad, key);
    ParseLineSplit(line, colon, key, TrimSpace(value));
  }

  /** A line whose first colon is at colon, with no blank right before it, goes to CheckName. */
  lemma ParseLineSplit(line: string, colon: nat, name: string, value: string)
    requires IndexOfChar(line, ':') == colon
    requires !EndsInSpace(ToLower(line[..colon]))
    requires TrimSpace(ToLower(line[..colon])) == name && TrimSpace(line[colon + 1..]) == value
    ensures ParseLine(line) == CheckName(name, value, |line| + 2)
  {
    assert NamePart(line) == line[..colon];
  }

  /** A space right before the colon makes the line malformed, whatever the rest. */
  lemma {:induction false} ParseFieldLineRejectsSpaceBeforeColon(name: string, value: string, rest: string)
    requires ':' !in name && '\n' !in name && '\n' !in value
    ensures var line := name + " :" + value;
            ParseFieldLine(line + CRLF + rest) == Malformed(InvalidName(ToLower(name + " ")))
  {
    var line := name + " :" + value;
    assert '\n' !in line;
    IndexOfCrlfAfterLine(line, rest);
    assert (line + CRLF + rest)[..|line|] == line;
    assert line[..|name| + 1] == name + " ";
    IndexOfCharIs(line, ':', |name| + 1);
    assert NamePart(line) == name + " ";
  }

  /** Bytes after the CRLF do not change what Parse finds at the front. */
  lemma ParseFieldLineExtend(d: string, e: string)
    requires IndexOfCrlf(d) >= 0
    ensures ParseFieldLine(d + e) == ParseFieldLine(d)
  {
    IndexOfCrlfExtend(d, e);
    var idx := IndexOfCrlf(d);
    if idx > 0 {
      assert (d + e)[..idx] == d[..idx];
      ParseFieldLineIsLine(d);
      ParseFieldLineIsLine(d + e);
    }
  }

  // ---------------------------------------------------------------------------
  // The wire form of a header table

  /** One field as the writers put it on the wire: `name: value` CRLF. */
  function FieldLine(name: string, value: string): string {
    name + ": " + value + CRLF
  }

  /** The fields of m, one line each, in the given order. */
  function FieldLines(m: map<string, string>, order: seq<string>): string
    requires forall i :: 0 <= i < |order| ==> order[i] in m
  {
    if order == [] then "" else FieldLine(order[0], m[order[0]]) + FieldLines(m, order[1..])
  }

  /** order lists every key of keys exactly once: one possible iteration order of a Go map. */
  predicate IsOrdering(order: seq<string>, keys: set<string>) {
    (forall i, j :: 0 <= i < j < |order| ==> order[i] != order[j])
    && (forall i :: 0 <= i < |order| ==> order[i] in keys)
    && (forall k :: k in keys ==> k in order)
  }

  /** The table after `Set(k, src[k])` for each k of order, in turn. */
  function SetFields(m: map<string, string>, src: map<string, string>, order: seq<string>): map<string, string>
    requires forall i :: 0 <= i < |order| ==> order[i] in src
    decreases |order|
  {
    if order == [] then m else SetFields(SetField(m, order[0], src[order[0]]), src, order[1..])
  }

  /** A name the parser stores unchanged: a token without upper-case letters. */
  predicate IsFieldName(name: string) {
    IsToken(name) && NoUpper(name)
  }

  /** A value the parser reads back unchanged: trimmed, and without a line feed. */
  predicate IsFieldValue(value: string) {
    Trimmed(value) && '\n' !in value
  }

  /** A field line written by FieldLine is parsed back into the same name and value. */
  lemma FieldLineRoundTrip(name: string, value: string, rest: string)
    requires IsFieldName(name) && IsFieldValue(value)
    ensures ParseFieldLine(FieldLine(name, value) + rest) == Field(name, value, |FieldLine(name, value)|)
  {
    var line := name + ": " + value;
    var data := FieldLine(name, value) + rest;
    assert data == line + CRLF + rest;
    TokenHasNoSeparators(name);
    assert '\n' !in line;
    IndexOfCrlfAfterLine(line, rest);
    assert data[..|line|] == line;
    ParseFieldLineIsLine(data);
    FieldLineBody(name, value);
  }

  /** The line part of FieldLineRoundTrip. */
  lemma FieldLineBody(name: string, value: string)
    requires IsFieldName(name) && IsFieldValue(value)
    ensures var line := name + ": " + value;
            ParseLine(line) == Field(name, value, |line| + 2)
  {
    var line := name + ": " + value;
    FieldLineName(name, value);
    assert line[|name| + 1..] == " " + value;
    ParseLineOfField(line, name, value);
  }

  /** A line whose first colon follows a field name and a blank, then a field value. */
  lemma ParseLineOfField(line: string, name: string, value: string)
    requires IsFieldName(name) && IsFieldValue(value) && !EndsInSpace(name)
    requires IndexOfChar(line, ':') == |name| && ToLower(line[..|name|]) == name
    requires line[|name| + 1..] == " " + value
    ensures ParseLine(line) == Field(name, value, |line| + 2)
  {
    var n := |name|;
    assert TrimSpace(line[n + 1..]) == value by { TrimSpaceAfterPad(" ", value); }
    assert TrimSpace(ToLower(line[..n])) == name by { TokenTrimmed(name); }
    ParseLineSplit(line, n, name, value);
  }

  /** In `name: value` the first colon ends the name, which lower-casing leaves alone. */
  lemma FieldLineName(name: string, value: string)
    requires IsFieldName(name)
    ensures var line := name + ": " + value;
            IndexOfChar(line, ':') == |name| && ToLower(line[..|name|]) == name && !EndsInSpace(name)
  {
    var line := name + ": " + value;
    TokenHasNoSeparators(name);
    assert line[..|name|] == name;
    IndexOfCharIs(line, ':', |name|);
    ToLowerFixed(name);
  }

  /** A token has no white space to trim. */
  lemma TokenTrimmed(name: string)
    requires IsToken(name)
    ensures TrimSpace(name) == name
  {
    TokenHasNoSeparators(name);
    TrimSpaceAfterPad("", name);
    assert "" + name == name;
  }

  /** Setting the keys of an ordering one by one, onto a table without them, adds exactly those entries. */
  lemma {:induction false} SetFieldsFresh(m: map<string, string>, src: map<string, string>, order: seq<string>)
    requires forall i :: 0 <= i < |order| ==> order[i] in src && NoUpper(order[i]) && order[i] !in m
    requires forall i, j :: 0 <= i < j < |order| ==> order[i] != order[j]
    ensures var r := SetFields(m, src, order);
            (forall k :: k in r <==> k in m || k in order)
            && (forall k :: k in m ==> r[k] == m[k])
            && (forall i :: 0 <= i < |order| ==> r[order[i]] == src[order[i]])
    decreases |order|
  {
    if order != [] {
      var k := order[0];
      ToLowerFixed(k);
      var m' := m[k := src[k]];
      assert SetField(m, k, src[k]) == m';
      var tail := order[1..];
      assert forall i :: 0 <= i < |tail| ==> tail[i] == order[i + 1];
      SetFieldsFresh(m', src, tail);
      var r := SetFields(m, src, order);
      assert r == SetFields(m', src, tail);
      forall k' ensures k' in r <==> k' in m || k' in order {
        assert k' in order <==> k' == k || k' in tail by {
          assert order == [k] + tail;
        }
      }
      forall i | 0 <= i < |order| ensures r[order[i]] == src[order[i]] {
        if i > 0 {
          assert order[i] == tail[i - 1];
        }
      }
    }
  }

  /** Setting every key of an ordering of src onto an empty table rebuilds src. */
  lemma SetFieldsRebuilds(src: map<string, string>, order: seq<string>)
    requires IsOrdering(order, src.Keys) && LowerKeys(src)
    ensures SetFields(map[], src, order) == src
  {
    SetFieldsFresh(map[], src, order);
    var r := SetFields(map[], src, order);
    forall k | k in src ensures k in r && r[k] == src[k] {
      var i :| 0 <= i < |order| && order[i] == k;
    }
  }

  /**
   * The header table as Go's `Headers` map: lookups go through the lower-cased
   * key, and `Set` folds repeated keys.
   */
  class Headers {
    var fields: map<string, string>

    ghost predicate Valid()
      reads this
    {
      LowerKeys(fields)
    }

    /** `NewHeaders`: an empty table. */
    constructor ()
      ensures Valid() && fields == map[]
    {
      fields := map[];
    }

    /** `Set`: store value under the lower-cased key, folding onto an existing value with ", ". */
    method Set(key: string, value: string)
      requires Valid()
      modifies this
      ensures Valid()
      ensures fields == SetField(old(fields), key, value)
    {
      var k := ToLower(key);
      var v := value;
      if k in fields {
        v := fields[k] + ", " + value;
      }
      fields := fields[k := v];
    }

    /** `Get`: case-insensitive lookup. */
    function Get(key: string): string
      reads this
    {
      Lookup(fields, key)
    }

    /**
     * `Parse`: consume at most one CRLF-terminated line of data.  No CRLF: nothing
     * consumed.  A CRLF at the front: the header section ends, 2 bytes consumed.
     * Otherwise a valid field line is stored with Set and consumed with its CRLF;
     * an invalid one is an error, consumes nothing and leaves the table alone.
     */
    method Parse(data: string) returns (n: nat, done: bool, err: Option<HeaderError>)
      requires Valid()
      modifies this
      ensures Valid()
      ensures match ParseFieldLine(data)
        case NeedMore => n == 0 && !done && err == None && fields == old(fields)
        case EndOfHeaders => n == 2 && done && err == None && fields == old(fields)
        case Field(name, value, consumed) =>
          n == consumed && !done && err == None && fields == SetField(old(fields), name, value)
        case Malformed(e) => n == 0 && !done && err == Some(e) && fields == old(fields)
    {
      var idx := IndexOfCrlf(data);
      if idx == -1 {
        return 0, false, None;
      }
      if idx == 0 {
        return 2, true, None;
      }
      var line := data[..idx];
      ParseFieldLineIsLine(data);
      var key := ToLower(NamePart(line));
      if EndsInSpace(key) {
        return 0, false, Some(InvalidName(key));
      }
      var colon := IndexOfChar(line, ':');
      if colon == -1 {
        return 0, false, Some(MissingColon(line));
      }
      var value := TrimSpace(line[colon + 1..]);
      key := TrimSpace(key);
      var ok := ValidTokens(key);
      if !ok {
        return 0, false, Some(InvalidToken(key));
      }
      Set(key, value);
      return idx + 2, false, None;
    }
  }
}
