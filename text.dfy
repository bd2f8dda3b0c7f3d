/**
 * Byte-string helpers used by the HTTP/1.1 engine: the parts of Go's `bytes`,
 * `strings`, `strconv` and `fmt` packages that the engine relies on, restricted
 * to what the engine needs.  A Go `[]byte` and a Go `string` are both modelled as
 * a Dafny `string`, one `char` per octet.
 */
module Text {

  datatype Option<T> = None | Some(value: T)

  const CRLF: string := "\r\n"

  /** Pieces of bytes one after another. */
  function Concat(pieces: seq<string>): string {
    if pieces == [] then [] else pieces[0] + Concat(pieces[1..])
  }

  // ---------------------------------------------------------------------------
  // Searching

  /** True when a CRLF starts at position i of s. */
  predicate CrlfAt(s: string, i: int) {
    0 <= i && i + 1 < |s| && s[i] == '\r' && s[i + 1] == '\n'
  }

  /** `bytes.Index(s, "\r\n")`: the position of the first CRLF, or -1. */
  function IndexOfCrlf(s: string): (r: int)
    ensures r == -1 || CrlfAt(s, r)
    ensures forall i :: 0 <= i && (r == -1 || i < r) ==> !CrlfAt(s, i)
    decreases |s|
  {
    if |s| < 2 then -1
    else if s[0] == '\r' && s[1] == '\n' then 0
    else
      var k := IndexOfCrlf(s[1..]);
      assert forall i :: 1 <= i ==> CrlfAt(s, i) == CrlfAt(s[1..], i - 1);
      if k == -1 then -1 else k + 1
  }

  /** The first CRLF of s is determined by the two facts IndexOfCrlf promises. */
  lemma IndexOfCrlfIs(s: string, k: int)
    requires CrlfAt(s, k)
    requires forall i :: 0 <= i < k ==> !CrlfAt(s, i)
    ensures IndexOfCrlf(s) == k
  {
  }

  /** Appending bytes after a CRLF does not move the first CRLF. */
  lemma {:induction false} IndexOfCrlfExtend(d: string, e: string)
    requires IndexOfCrlf(d) >= 0
    ensures IndexOfCrlf(d + e) == IndexOfCrlf(d)
  {
    var k := IndexOfCrlf(d);
    assert CrlfAt(d + e, k);
    forall i | 0 <= i < k ensures !CrlfAt(d + e, i) {
      assert !CrlfAt(d, i);
    }
    IndexOfCrlfIs(d + e, k);
  }

  /** A string without a line feed followed by CRLF: the CRLF is found right after it. */
  lemma IndexOfCrlfAfterLine(line: string, rest: string)
    requires '\n' !in line
    ensures IndexOfCrlf(line + CRLF + rest) == |line|
  {
    var s := line + CRLF + rest;
    assert CrlfAt(s, |line|);
    forall i | 0 <= i < |line| ensures !CrlfAt(s, i) {
      if i + 1 < |line| {
        assert s[i + 1] == line[i + 1] && line[i + 1] in line;
      } else {
        assert s[i + 1] == '\r';
      }
    }
    IndexOfCrlfIs(s, |line|);
  }

  /** `bytes.SplitN(s, []byte{c}, 2)` boundary: the first position of c in s, or -1. */
  function IndexOfChar(s: string, c: char): (r: int)
    ensures r == -1 <==> c !in s
    ensures r != -1 ==> 0 <= r < |s| && s[r] == c && c !in s[..r]
    decreases |s|
  {
    if |s| == 0 then -1
    else if s[0] == c then 0
    else
      var k := IndexOfChar(s[1..], c);
      assert s == [s[0]] + s[1..];
      if k == -1 then -1 else assert s[..k + 1] == [s[0]] + s[1..][..k]; k + 1
  }

  /** The first c of s is at k when s[k] is one and s[..k] holds none. */
  lemma IndexOfCharIs(s: string, c: char, k: int)
    requires 0 <= k < |s| && s[k] == c && c !in s[..k]
    ensures IndexOfChar(s, c) == k
  {
    assert s[k] in s;
    var r := IndexOfChar(s, c);
    assert forall i :: 0 <= i < k ==> s[i] == s[..k][i];
    assert forall i :: 0 <= i < r ==> s[i] == s[..r][i];
  }

  // ---------------------------------------------------------------------------
  // strings.Split and its inverse

  /** `strings.Join(parts, string(sep))`. */
  function Join(parts: seq<string>, sep: char): string
    requires |parts| >= 1
  {
    if |parts| == 1 then parts[0] else parts[0] + [sep] + Join(parts[1..], sep)
  }

  /** `strings.Split(s, string(sep))`: the pieces between separators, at least one. */
  function Split(s: string, sep: char): (parts: seq<string>)
    ensures |parts| >= 1
    ensures forall i :: 0 <= i < |parts| ==> sep !in parts[i]
    ensures Join(parts, sep) == s
    decreases |s|
  {
    if s == [] then [""]
    else
      var rest := Split(s[1..], sep);
      if s[0] == sep then
        [""] + rest
      else
        var parts := [[s[0]] + rest[0]] + rest[1..];
        assert parts[1..] == rest[1..];
        assert |rest| > 1 ==> Join(rest, sep) == rest[0] + [sep] + Join(rest[1..], sep);
        parts
  }

  /** Splitting a join of separator-free pieces gives the pieces back. */
  lemma {:induction false} SplitJoin(parts: seq<string>, sep: char)
    requires |parts| >= 1
    requires forall i :: 0 <= i < |parts| ==> sep !in parts[i]
    ensures Split(Join(parts, sep), sep) == parts
    decreases |parts|, |parts[0]|
  {
    var p := parts[0];
    if |parts| == 1 && p == [] {
    } else if p == [] {
      SplitJoin(parts[1..], sep);
      SplitJoinEmptyFirst(parts, sep);
    } else {
      var tail := [p[1..]] + parts[1..];
      NoSepTail(parts, sep);
      SplitJoin(tail, sep);
      SplitJoinCons(parts, sep);
    }
  }

  /** Dropping the first character of the first piece keeps every piece free of sep. */
  lemma NoSepTail(parts: seq<string>, sep: char)
    requires |parts| >= 1 && parts[0] != []
    requires forall i :: 0 <= i < |parts| ==> sep !in parts[i]
    ensures var tail := [parts[0][1..]] + parts[1..];
            forall i :: 0 <= i < |tail| ==> sep !in tail[i]
  {
    var p := parts[0];
    var tail := [p[1..]] + parts[1..];
    forall i | 0 <= i < |tail| ensures sep !in tail[i] {
      if i == 0 {
        assert forall j :: 0 <= j < |p[1..]| ==> p[1..][j] == p[j + 1];
      } else {
        assert tail[i] == parts[i];
      }
    }
  }

  /** An empty first piece: the join starts with sep, and Split puts "" in front. */
  lemma SplitJoinEmptyFirst(parts: seq<string>, sep: char)
    requires |parts| >= 2 && parts[0] == []
    requires Split(Join(parts[1..], sep), sep) == parts[1..]
    ensures Split(Join(parts, sep), sep) == parts
  {
    var j := Join(parts, sep);
    assert j == [sep] + Join(parts[1..], sep);
    assert j[1..] == Join(parts[1..], sep);
    assert [""] + parts[1..] == parts;
  }

  /** A non-empty first piece: its first character goes back in front of the first part. */
  lemma SplitJoinCons(parts: seq<string>, sep: char)
    requires |parts| >= 1 && parts[0] != [] && sep !in parts[0]
    requires var tail := [parts[0][1..]] + parts[1..];
             Split(Join(tail, sep), sep) == tail
    ensures Split(Join(parts, sep), sep) == parts
  {
    var p := parts[0];
    var tail := [p[1..]] + parts[1..];
    JoinCons(parts, sep);
    assert p[0] != sep by { assert p[0] in p; }
    SplitCons(p[0], Join(tail, sep), sep);
    assert tail[1..] == parts[1..];
    assert p == [p[0]] + p[1..];
    assert [[p[0]] + p[1..]] + parts[1..] == parts;
  }

  /** The join of pieces whose first is non-empty starts with that piece's first character. */
  lemma JoinCons(parts: seq<string>, sep: char)
    requires |parts| >= 1 && parts[0] != []
    ensures var p := parts[0];
            Join(parts, sep) == [p[0]] + Join([p[1..]] + parts[1..], sep)
  {
    var p := parts[0];
    var tail := [p[1..]] + parts[1..];
    assert tail[1..] == parts[1..];
    assert p == [p[0]] + p[1..];
  }

  /** A first character other than sep joins the first part. */
  lemma SplitCons(c: char, t: string, sep: char)
    requires c != sep
    ensures var rest := Split(t, sep);
            Split([c] + t, sep) == [[c] + rest[0]] + rest[1..]
  {
    assert ([c] + t)[1..] == t;
  }

  // ---------------------------------------------------------------------------
  // ASCII case and whitespace

  predicate IsUpper(c: char) { 'A' <= c <= 'Z' }

  /** `unicode.ToLower` restricted to ASCII. */
  function Lower(c: char): char {
    if IsUpper(c) then (c as int + 32) as char else c
  }

  /** True when s holds no ASCII upper-case letter. */
  predicate NoUpper(s: string) {
    forall i :: 0 <= i < |s| ==> !IsUpper(s[i])
  }

  /** `strings.ToLower` restricted to ASCII. */
  function ToLower(s: string): (r: string)
    ensures |r| == |s|
    ensures NoUpper(r)
    ensures forall i :: 0 <= i < |s| && !IsUpper(s[i]) ==> r[i] == s[i]
    ensures forall i :: 0 <= i < |s| && IsUpper(s[i]) ==> r[i] == (s[i] as int + 32) as char
  {
    seq(|s|, i requires 0 <= i < |s| => Lower(s[i]))
  }

  /** Lowercasing leaves a string without upper-case letters alone; so it is idempotent. */
  lemma ToLowerFixed(s: string)
    requires NoUpper(s)
    ensures ToLower(s) == s
  {
  }

  lemma ToLowerIdempotent(s: string)
    ensures ToLower(ToLower(s)) == ToLower(s)
  {
    ToLowerFixed(ToLower(s));
  }

  /** Lowercasing commutes with slicing and concatenation. */
  lemma ToLowerAppend(a: string, b: string)
    ensures ToLower(a + b) == ToLower(a) + ToLower(b)
  {
  }

  /** The ASCII white space that Go's `TrimSpace` removes: \t \n \v \f \r and space. */
  predicate IsSpace(c: char) { c == ' ' || ('\t' <= c <= '\r') }

  /** True when s neither starts nor ends with white space. */
  predicate Trimmed(s: string) {
    |s| == 0 || (!IsSpace(s[0]) && !IsSpace(s[|s| - 1]))
  }

  /** How many white-space characters s starts with. */
  function LeadingSpace(s: string): (k: nat)
    ensures k <= |s|
    ensures forall i :: 0 <= i < k ==> IsSpace(s[i])
    ensures k == |s| || !IsSpace(s[k])
    decreases |s|
  {
    if |s| > 0 && IsSpace(s[0]) then 1 + LeadingSpace(s[1..]) else 0
  }

  /** How many white-space characters s ends with. */
  function TrailingSpace(s: string): (k: nat)
    ensures k <= |s|
    ensures forall i :: |s| - k <= i < |s| ==> IsSpace(s[i])
    ensures k == |s| || !IsSpace(s[|s| - 1 - k])
    decreases |s|
  {
    if |s| > 0 && IsSpace(s[|s| - 1]) then 1 + TrailingSpace(s[..|s| - 1]) else 0
  }

  /** `strings.TrimSpace` / `bytes.TrimSpace` over ASCII white space: the left end first, then the right. */
  function TrimSpace(s: string): (r: string)
    ensures Trimmed(r)
    ensures |r| <= |s|
  {
    var left := s[LeadingSpace(s)..];
    left[..|left| - TrailingSpace(left)]
  }

  /** Trimming a string that is already trimmed, after any white-space prefix, gives it back. */
  lemma {:induction false} TrimSpaceAfterPad(pad: string, s: string)
    requires forall i :: 0 <= i < |pad| ==> IsSpace(pad[i])
    requires Trimmed(s)
    ensures TrimSpace(pad + s) == s
  {
    LeadingSpaceAfterPad(pad, s);
    assert (pad + s)[|pad|..] == s;
    assert TrailingSpace(s) == 0;
  }

  /** Every character of s is white space. */
  predicate AllSpace(s: string) {
    forall i :: 0 <= i < |s| ==> IsSpace(s[i])
  }

  /**
   * Trimming removes exactly the outer white space: whatever white space
   * surrounds a trimmed string, trimming gives that string back.
   */
  lemma TrimSpaceStrips(a: string, s: string, b: string)
    requires AllSpace(a) && AllSpace(b) && Trimmed(s)
    ensures TrimSpace(a + s + b) == s
  {
    var x := a + s + b;
    if s == [] {
      assert x == a + b;
      assert AllSpace(x);
      AllSpaceLeading(x);
      assert x[|x|..] == [];
    } else {
      assert x == a + (s + b);
      LeadingSpaceAfterPad(a, s + b);
      assert x[|a|..] == s + b;
      TrailingSpaceBeforePad(s, b);
      assert (s + b)[..|s|] == s;
    }
  }

  /** A string of white space is all leading space. */
  lemma {:induction false} AllSpaceLeading(s: string)
    requires AllSpace(s)
    ensures LeadingSpace(s) == |s|
    decreases |s|
  {
    if |s| > 0 {
      AllSpaceLeading(s[1..]);
    }
  }

  /** A white-space suffix after a string that does not end with white space is exactly the trailing space. */
  lemma {:induction false} TrailingSpaceBeforePad(s: string, pad: string)
    requires AllSpace(pad)
    requires |s| > 0 && !IsSpace(s[|s| - 1])
    ensures TrailingSpace(s + pad) == |pad|
    decreases |pad|
  {
    if |pad| > 0 {
      var front := pad[..|pad| - 1];
      assert (s + pad)[..|s + pad| - 1] == s + front;
      TrailingSpaceBeforePad(s, front);
    } else {
      assert s + pad == s;
    }
  }

  /** Conversely, every string is its trimmed form with white space around it. */
  lemma TrimSpaceSplits(s: string) returns (a: string, b: string)
    ensures AllSpace(a) && AllSpace(b) && s == a + TrimSpace(s) + b
  {
    var k := LeadingSpace(s);
    var left := s[k..];
    var j := TrailingSpace(left);
    assert TrimSpace(s) == left[..|left| - j];
    a, b := s[..k], left[|left| - j..];
    forall i | 0 <= i < |a| ensures IsSpace(a[i]) {
      assert a[i] == s[i];
    }
    forall i | 0 <= i < |b| ensures IsSpace(b[i]) {
      assert b[i] == left[|left| - j + i];
    }
    SliceThree(s, k, left, j);
  }

  /** A string is its first k characters, then the rest without its last j, then those j. */
  lemma SliceThree(s: string, k: nat, left: string, j: nat)
    requires k <= |s| && left == s[k..] && j <= |left|
    ensures s == s[..k] + left[..|left| - j] + left[|left| - j..]
  {
    assert left == left[..|left| - j] + left[|left| - j..];
    assert s == s[..k] + left;
  }

  /** A white-space prefix before a string that does not start with white space is exactly the leading space. */
  lemma {:induction false} LeadingSpaceAfterPad(pad: string, s: string)
    requires forall i :: 0 <= i < |pad| ==> IsSpace(pad[i])
    requires |s| == 0 || !IsSpace(s[0])
    ensures LeadingSpace(pad + s) == |pad|
    decreases |pad|
  {
    if |pad| > 0 {
      assert (pad + s)[1..] == pad[1..] + s;
      LeadingSpaceAfterPad(pad[1..], s);
    } else {
      assert pad + s == s;
    }
  }

  // ---------------------------------------------------------------------------
  // Numerals: fmt's %d and %x, strconv.Atoi

  /** The digit characters of bases up to 16, lower-case as `%x` writes them. */
  const DigitChars: string := "0123456789abcdef"

  /** The value of c as a digit of base `base`, or -1. */
  function DigitValue(c: char, base: nat): (v: int)
    requires 2 <= base <= 16
    ensures -1 <= v < base
  {
    if '0' <= c <= '9' && (c as int - '0' as int) < base then c as int - '0' as int
    else if 'a' <= c <= 'f' && 10 + (c as int - 'a' as int) < base then 10 + (c as int - 'a' as int)
    else -1
  }

  predicate IsDigits(s: string, base: nat)
    requires 2 <= base <= 16
  {
    forall i :: 0 <= i < |s| ==> DigitValue(s[i], base) >= 0
  }

  lemma DigitCharValue(d: nat, base: nat)
    requires 2 <= base <= 16 && d < base
    ensures DigitValue(DigitChars[d], base) == d
  {
  }

  /** The numeral of n in base `base`, most significant digit first, without leading zeros. */
  function NatToDigits(n: nat, base: nat): (s: string)
    requires 2 <= base <= 16
    ensures |s| >= 1 && IsDigits(s, base)
    ensures s[0] != '0' || n == 0
    decreases n
  {
    if n < base then
      DigitCharValue(n, base);
      [DigitChars[n]]
    else
      DivBounds(n, base);
      DigitCharValue(n % base, base);
      var front := NatToDigits(n / base, base);
      var s := front + [DigitChars[n % base]];
      assert s[0] == front[0];
      s
  }

  /** Dividing by the base shrinks a number of two or more digits to a positive one. */
  lemma DivBounds(n: nat, base: nat)
    requires 2 <= base <= n
    ensures 1 <= n / base < n && n % base < base
  {
  }

  /** The value of a numeral in base `base`. */
  function DigitsToNat(s: string, base: nat): nat
    requires 2 <= base <= 16 && IsDigits(s, base)
  {
    if s == [] then 0
    else DigitsToNat(s[..|s| - 1], base) * base + DigitValue(s[|s| - 1], base)
  }

  /** Appending a digit multiplies the value by the base and adds the digit. */
  lemma DigitsToNatSnoc(front: string, c: char, base: nat)
    requires 2 <= base <= 16 && IsDigits(front, base) && DigitValue(c, base) >= 0
    ensures IsDigits(front + [c], base)
    ensures DigitsToNat(front + [c], base) == DigitsToNat(front, base) * base + DigitValue(c, base)
  {
    assert (front + [c])[..|front|] == front;
  }

  lemma DivMod(n: nat, base: nat, a: int)
    requires base >= 2 && a == n / base
    ensures n == a * base + n % base
  {
  }

  /** A single-digit numeral reads back as its digit. */
  lemma SingleDigitRoundTrip(n: nat, base: nat)
    requires 2 <= base <= 16 && n < base
    ensures DigitsToNat(NatToDigits(n, base), base) == n
  {
    var s := NatToDigits(n, base);
    DigitCharValue(n, base);
    assert s == [DigitChars[n]] && s[..0] == [];
    assert DigitsToNat([], base) == 0;
  }

  /** A numeral of several digits reads back correctly when its front does. */
  lemma MultiDigitRoundTrip(n: nat, base: nat)
    requires 2 <= base <= 16 && n >= base
    requires DigitsToNat(NatToDigits(n / base, base), base) == n / base
    ensures DigitsToNat(NatToDigits(n, base), base) == n
  {
    var s := NatToDigits(n, base);
    var front := NatToDigits(n / base, base);
    var r := n % base;
    DigitCharValue(r, base);
    assert s == front + [DigitChars[r]];
    DigitsToNatSnoc(front, DigitChars[r], base);
    DivMod(n, base, DigitsToNat(front, base));
    assert DigitsToNat(s, base) == DigitsToNat(front, base) * base + r;
  }

  /** Reading back a written numeral gives the number. */
  lemma {:induction false} DigitsRoundTrip(n: nat, base: nat)
    requires 2 <= base <= 16
    ensures DigitsToNat(NatToDigits(n, base), base) == n
    decreases n
  {
    if n < base {
      SingleDigitRoundTrip(n, base);
    } else {
      DigitsRoundTrip(n / base, base);
      MultiDigitRoundTrip(n, base);
    }
  }

  const MinInt64: int := -0x8000_0000_0000_0000
  const MaxInt64: int := 0x7FFF_FFFF_FFFF_FFFF

  /** `fmt.Sprintf("%d", n)`. */
  function Itoa(n: int): (s: string)
    ensures |s| >= 1
  {
    if n < 0 then "-" + NatToDigits(-n, 10) else NatToDigits(n, 10)
  }

  /** `fmt.Sprintf("%x", n)` for a length, as the chunked writer formats it. */
  function Hex(n: nat): (s: string)
    ensures |s| >= 1 && IsDigits(s, 16)
    ensures '\r' !in s && '\n' !in s && ' ' !in s
  {
    var s := NatToDigits(n, 16);
    assert forall i :: 0 <= i < |s| ==> s[i] != '\r' && s[i] != '\n' && s[i] != ' ' by {
      forall i | 0 <= i < |s| ensures s[i] != '\r' && s[i] != '\n' && s[i] != ' ' {
        assert DigitValue(s[i], 16) >= 0;
      }
    }
    s
  }

  /**
   * `strconv.Atoi` on a 64-bit platform: an optional sign, then one or more
   * decimal digits, and a value that fits in an int64; anything else is an error.
   */
  function Atoi(s: string): (r: Option<int>)
    ensures r.Some? ==> MinInt64 <= r.value <= MaxInt64
    ensures s == [] ==> r.None?
  {
    if s == [] then None
    else
      var digits := if s[0] == '+' || s[0] == '-' then s[1..] else s;
      if digits == [] || !IsDigits(digits, 10) then None
      else
        var magnitude: int := DigitsToNat(digits, 10);
        var v: int := if s[0] == '-' then -magnitude else magnitude;
        if MinInt64 <= v <= MaxInt64 then Some(v) else None
  }

  /** `strconv.Atoi` reads back what `%d` writes, for every int64. */
  lemma AtoiItoa(n: int)
    requires MinInt64 <= n <= MaxInt64
    ensures Atoi(Itoa(n)) == Some(n)
  {
    var d := ItoaParts(n);
    if n < 0 {
      AtoiMinus(d, n);
    } else {
      AtoiUnsigned(d, n);
    }
  }

  /** `%d` writes a minus sign for a negative number, then the digits of its magnitude. */
  lemma ItoaParts(n: int) returns (d: string)
    ensures Itoa(n) == (if n < 0 then "-" + d else d)
    ensures d != [] && IsDigits(d, 10) && DigitsToNat(d, 10) == (if n < 0 then -n else n)
  {
    d := NatToDigits(if n < 0 then -n else n, 10);
    DigitsRoundTrip(if n < 0 then -n else n, 10);
  }

  /** A minus sign and digits whose negated value v fits in an int64 read back as v. */
  lemma AtoiMinus(d: string, v: int)
    requires d != [] && IsDigits(d, 10) && DigitsToNat(d, 10) == -v && MinInt64 <= v
    ensures Atoi("-" + d) == Some(v)
  {
    var s := "-" + d;
    assert s[0] == '-' && s[1..] == d;
  }

  /** Digits without a sign whose value v fits in an int64 read back as v. */
  lemma AtoiUnsigned(d: string, v: int)
    requires d != [] && IsDigits(d, 10) && DigitsToNat(d, 10) == v && v <= MaxInt64
    ensures Atoi(d) == Some(v)
  {
    assert DigitValue(d[0], 10) >= 0;
  }

  /**
   * Which strings `strconv.Atoi` accepts: an optional sign, then one or more
   * decimal digits, read as the signed value they denote; the string is an
   * error exactly when that value does not fit in an int64.
   */
  lemma AtoiSigned(sign: string, d: string)
    requires sign == "" || sign == "+" || sign == "-"
    requires d != [] && IsDigits(d, 10)
    ensures var m: int := DigitsToNat(d, 10);
            var v := if sign == "-" then -m else m;
            Atoi(sign + d) == if MinInt64 <= v <= MaxInt64 then Some(v) else None
  {
    var s := sign + d;
    assert s[|sign|..] == d;
    assert DigitValue(d[0], 10) >= 0;
  }

  /** And nothing else: every accepted string is an optional sign followed by digits. */
  lemma AtoiNumeral(s: string) returns (sign: string, d: string)
    requires Atoi(s).Some?
    ensures sign == "" || sign == "+" || sign == "-"
    ensures d != [] && IsDigits(d, 10) && s == sign + d
  {
    if s[0] == '+' || s[0] == '-' {
      sign, d := s[..1], s[1..];
    } else {
      sign, d := "", s;
    }
  }

  /** A hexadecimal numeral written by `%x` reads back as its number. */
  lemma HexRoundTrip(n: nat)
    ensures DigitsToNat(Hex(n), 16) == n
  {
    DigitsRoundTrip(n, 16);
  }
}
