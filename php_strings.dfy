/**
 * The PHP string built-ins the variations model relies on, over byte strings.
 * A PHP string is a sequence of bytes; here it is a `string` whose characters
 * stand for bytes (code points below 256). Case mapping is that of the C
 * locale, i.e. ASCII letters only.
 */
module PhpStrings {
  import opened Wrappers

  // ---------------------------------------------------------------------------
  // Case mapping (strtolower / strtoupper)

  function LowerChar(c: char): char {
    if 'A' <= c <= 'Z' then (c as int + 32) as char else c
  }

  function UpperChar(c: char): char {
    if 'a' <= c <= 'z' then (c as int - 32) as char else c
  }

  /** strtolower */
  function Lower(s: string): (r: string)
    ensures |r| == |s|
    ensures forall i :: 0 <= i < |s| ==> r[i] == LowerChar(s[i])
  {
    seq(|s|, i requires 0 <= i < |s| => LowerChar(s[i]))
  }

  /** strtoupper */
  function Upper(s: string): (r: string)
    ensures |r| == |s|
    ensures forall i :: 0 <= i < |s| ==> r[i] == UpperChar(s[i])
  {
    seq(|s|, i requires 0 <= i < |s| => UpperChar(s[i]))
  }

  /** str_replace with a one-character search string and a one-character replacement. */
  function ReplaceChar(s: string, a: char, b: char): (r: string)
    ensures |r| == |s|
    ensures forall i :: 0 <= i < |s| ==> r[i] == (if s[i] == a then b else s[i])
  {
    seq(|s|, i requires 0 <= i < |s| => if s[i] == a then b else s[i])
  }

  /** str_replace(array(a1, a2), b, s) for one-character search strings. */
  function ReplaceChars(s: string, a1: char, a2: char, b: char): (r: string)
    ensures |r| == |s|
    ensures forall i :: 0 <= i < |s| ==> r[i] == (if s[i] == a1 || s[i] == a2 then b else s[i])
  {
    seq(|s|, i requires 0 <= i < |s| => if s[i] == a1 || s[i] == a2 then b else s[i])
  }

  /** str_replace(from, to, s): every non-overlapping occurrence, left to right. */
  function StrReplace(s: string, from: string, to: string): string
    requires |from| > 0
    decreases |s|
  {
    if |s| == 0 then ""
    else if |from| <= |s| && s[..|from|] == from then to + StrReplace(s[|from|..], from, to)
    else [s[0]] + StrReplace(s[1..], from, to)
  }

  // ---------------------------------------------------------------------------
  // Searching (strpos / strstr / stristr)

  /** `t` occurs in `s` at offset `i`. */
  ghost predicate OccursAt(s: string, t: string, i: int) {
    0 <= i && i + |t| <= |s| && s[i..i + |t|] == t
  }

  /** strpos: the offset of the first occurrence of `t` in `s`, if any. */
  function IndexOf(s: string, t: string): (r: Option<nat>)
    ensures r.Some? ==> OccursAt(s, t, r.value)
    ensures r.Some? ==> forall j :: 0 <= j < r.value ==> !OccursAt(s, t, j)
    ensures r.None? ==> forall j :: !OccursAt(s, t, j)
    decreases |s|
  {
    if |t| > |s| then None
    else if s[..|t|] == t then Some(0)
    else
      var rest := IndexOf(s[1..], t);
      assert forall j :: 1 <= j ==> (OccursAt(s, t, j) <==> OccursAt(s[1..], t, j - 1)) by {
        forall j | 1 <= j ensures OccursAt(s, t, j) <==> OccursAt(s[1..], t, j - 1) {
          OccursShift(s, t, j);
        }
      }
      match rest
      case None => None
      case Some(k) => Some(k + 1)
  }

  /** An occurrence after offset 0 is an occurrence in the tail, one place earlier. */
  lemma OccursShift(s: string, t: string, j: int)
    requires |s| > 0 && 1 <= j
    ensures OccursAt(s, t, j) <==> OccursAt(s[1..], t, j - 1)
  {
    if j + |t| <= |s| {
      var a, b := s[j..j + |t|], s[1..][j - 1..j - 1 + |t|];
      assert |a| == |b|;
      assert forall k :: 0 <= k < |a| ==> a[k] == s[j + k] == b[k];
      assert a == b;
    }
  }

  /** strstr(s, t) !== FALSE */
  predicate Contains(s: string, t: string) {
    IndexOf(s, t).Some?
  }

  /** stristr(s, t) !== FALSE: containment after lower-casing both sides. */
  predicate ContainsCI(s: string, t: string) {
    Contains(Lower(s), Lower(t))
  }

  /** `s` begins with `p` (SQL `LIKE 'p%'` with the wildcards escaped). */
  predicate StartsWith(s: string, p: string) {
    |p| <= |s| && s[..|p|] == p
  }

  // ---------------------------------------------------------------------------
  // explode / implode

  /** explode(d, s): the pieces of `s` between occurrences of `d`, scanning left to right. */
  function Explode(s: string, d: string): (parts: seq<string>)
    requires |d| > 0
    ensures |parts| >= 1
    decreases |s|
  {
    if |s| < |d| then [s]
    else if s[..|d|] == d then [""] + Explode(s[|d|..], d)
    else
      var rest := Explode(s[1..], d);
      [[s[0]] + rest[0]] + rest[1..]
  }

  /** implode(d, parts) */
  function Implode(d: string, parts: seq<string>): string {
    if |parts| == 0 then ""
    else if |parts| == 1 then parts[0]
    else parts[0] + d + Implode(d, parts[1..])
  }

  lemma ImplodeCons(d: string, x: string, p: string, tail: seq<string>)
    ensures Implode(d, [x + p] + tail) == x + Implode(d, [p] + tail)
  {
    if |tail| > 0 {
      assert ([x + p] + tail)[1..] == tail;
      assert ([p] + tail)[1..] == tail;
    }
  }

  /** Joining the pieces of an explode with the same delimiter gives the string back. */
  lemma {:induction false} ImplodeExplode(s: string, d: string)
    requires |d| > 0
    ensures Implode(d, Explode(s, d)) == s
    decreases |s|
  {
    if |s| < |d| {
    } else if s[..|d|] == d {
      var rest := Explode(s[|d|..], d);
      assert Explode(s, d) == [""] + rest;
      ImplodeExplode(s[|d|..], d);
      assert ([""] + rest)[1..] == rest;
      assert Implode(d, [""] + rest) == "" + d + Implode(d, rest);
      assert s == d + s[|d|..];
    } else {
      var rest := Explode(s[1..], d);
      assert Explode(s, d) == [[s[0]] + rest[0]] + rest[1..];
      ImplodeExplode(s[1..], d);
      assert rest == [rest[0]] + rest[1..];
      ImplodeCons(d, [s[0]], rest[0], rest[1..]);
      assert s == [s[0]] + s[1..];
    }
  }

  /** No piece of an explode on a one-character delimiter contains that character. */
  lemma {:induction false} ExplodeNoDelimiter(s: string, d: string)
    requires |d| == 1
    ensures forall i, j :: 0 <= i < |Explode(s, d)| && 0 <= j < |Explode(s, d)[i]| ==> Explode(s, d)[i][j] != d[0]
    decreases |s|
  {
    if |s| < |d| {
    } else if s[..|d|] == d {
      ExplodeNoDelimiter(s[|d|..], d);
    } else {
      ExplodeNoDelimiter(s[1..], d);
      assert s[0] != d[0] by { assert s[..1] == [s[0]]; }
    }
  }

  /** Exploding `p + d + rest`, where `p` does not hold the delimiter, splits off `p`. */
  lemma {:induction false} ExplodeSplitsOff(p: string, d: string, rest: string)
    requires |d| > 0
    requires forall j :: 0 <= j < |p| ==> p[j] != d[0]
    ensures Explode(p + d + rest, d) == [p] + Explode(rest, d)
    decreases |p|
  {
    var s := p + d + rest;
    if |p| == 0 {
      assert s[..|d|] == d;
      assert s[|d|..] == rest;
    } else {
      assert s[..|d|] != d by { assert s[0] == p[0]; }
      assert s[1..] == p[1..] + d + rest;
      ExplodeSplitsOff(p[1..], d, rest);
      assert [s[0]] + p[1..] == p;
    }
  }

  /** A piece without the delimiter explodes to itself. */
  lemma {:induction false} ExplodeSingle(p: string, d: string)
    requires |d| > 0
    requires forall j :: 0 <= j < |p| ==> p[j] != d[0]
    ensures Explode(p, d) == [p]
    decreases |p|
  {
    if |p| >= |d| {
      assert p[..|d|] != d by { assert p[..|d|][0] == p[0]; }
      ExplodeSingle(p[1..], d);
      assert [p[0]] + p[1..] == p;
    }
  }

  /**
   * Exploding an implode gives the pieces back, provided no piece holds the
   * delimiter's first character.
   */
  lemma {:induction false} ExplodeImplode(parts: seq<string>, d: string)
    requires |d| > 0 && |parts| >= 1
    requires forall i, j :: 0 <= i < |parts| && 0 <= j < |parts[i]| ==> parts[i][j] != d[0]
    ensures Explode(Implode(d, parts), d) == parts
    decreases |parts|
  {
    if |parts| == 1 {
      ExplodeSingle(parts[0], d);
    } else {
      ExplodeImplode(parts[1..], d);
      ExplodeSplitsOff(parts[0], d, Implode(d, parts[1..]));
      assert [parts[0]] + parts[1..] == parts;
    }
  }

  // ---------------------------------------------------------------------------
  // trim

  /** The characters PHP's trim() strips by default: " \t\n\r\0\x0B". */
  predicate IsTrimChar(c: char) {
    c == ' ' || c == '\t' || c == '\n' || c == '\r' || c as int == 0 || c as int == 11
  }

  function TrimLeft(s: string): (r: string)
    ensures |r| <= |s| && r == s[|s| - |r|..]
    ensures |r| > 0 ==> !IsTrimChar(r[0])
    decreases |s|
  {
    if |s| > 0 && IsTrimChar(s[0]) then TrimLeft(s[1..]) else s
  }

  function TrimRight(s: string): (r: string)
    ensures |r| <= |s| && r == s[..|r|]
    ensures |r| > 0 ==> !IsTrimChar(r[|r| - 1])
    decreases |s|
  {
    if |s| > 0 && IsTrimChar(s[|s| - 1]) then TrimRight(s[..|s| - 1]) else s
  }

  /** trim(s) */
  function Trim(s: string): (r: string)
    ensures |r| <= |s|
    ensures |r| > 0 ==> !IsTrimChar(r[0]) && !IsTrimChar(r[|r| - 1])
  {
    var l := TrimLeft(s);
    var r := TrimRight(l);
    assert |r| > 0 ==> r[0] == l[0];
    r
  }

  // ---------------------------------------------------------------------------
  // PHP truthiness of strings

  /** A string is truthy in PHP unless it is "" or "0". */
  predicate Truthy(s: string) {
    s != "" && s != "0"
  }

  /** PHP empty() of a nullable string: NULL, "" and "0" are empty. */
  predicate IsEmpty(v: Option<string>) {
    v.None? || !Truthy(v.value)
  }

  /** NULL or the empty string: the negation of `$v !== NULL && $v !== ''`. */
  predicate Blank(v: Option<string>) {
    v.None? || v.value == ""
  }

  /** A nullable string used in string context: NULL reads as "". */
  function Str(v: Option<string>): string {
    if v.Some? then v.value else ""
  }

  /**
   * The lines a `while ($line = fgets($f))` loop visits: it ends at the end of
   * the file or at the first falsy line (a last line "0" without line break).
   */
  function Readable(lines: seq<string>): (r: seq<string>)
    ensures r <= lines
    ensures forall i :: 0 <= i < |r| ==> Truthy(r[i])
    ensures |r| < |lines| ==> !Truthy(lines[|r|])
    decreases |lines|
  {
    if |lines| == 0 || !Truthy(lines[0]) then [] else [lines[0]] + Readable(lines[1..])
  }

  // ---------------------------------------------------------------------------
  // urlencode / urldecode

  predicate IsUnreservedChar(c: char) {
    ('a' <= c <= 'z') || ('A' <= c <= 'Z') || ('0' <= c <= '9') || c == '-' || c == '_' || c == '.'
  }

  function HexDigit(n: nat): char
    requires n < 16
  {
    if n < 10 then ('0' as int + n) as char else ('A' as int + n - 10) as char
  }

  function HexValue(c: char): Option<nat> {
    if '0' <= c <= '9' then Some(c as int - '0' as int)
    else if 'a' <= c <= 'f' then Some(c as int - 'a' as int + 10)
    else if 'A' <= c <= 'F' then Some(c as int - 'A' as int + 10)
    else None
  }

  /** How urlencode writes one byte: letters, digits and "-_." as is, space as '+', the rest as %XX. */
  function EncodeByte(c: char): (r: string)
    ensures |r| >= 1
  {
    if IsUnreservedChar(c) then [c]
    else if c == ' ' then "+"
    else var b := c as int % 256; ['%', HexDigit(b / 16), HexDigit(b % 16)]
  }

  /** urlencode */
  function UrlEncode(s: string): string
    decreases |s|
  {
    if |s| == 0 then "" else EncodeByte(s[0]) + UrlEncode(s[1..])
  }

  /** urldecode: '+' becomes a space and %XX with two hex digits becomes that byte. */
  function UrlDecode(s: string): string
    decreases |s|
  {
    if |s| == 0 then ""
    else if s[0] == '+' then " " + UrlDecode(s[1..])
    else if s[0] == '%' && |s| >= 3 && HexValue(s[1]).Some? && HexValue(s[2]).Some? then
      [(16 * HexValue(s[1]).value + HexValue(s[2]).value) as char] + UrlDecode(s[3..])
    else [s[0]] + UrlDecode(s[1..])
  }

  /** All characters of `s` are bytes. */
  predicate IsByteString(s: string) {
    forall i :: 0 <= i < |s| ==> s[i] as int < 256
  }

  lemma HexRoundTrip(n: nat)
    requires n < 16
    ensures HexValue(HexDigit(n)) == Some(n)
  {
  }

  lemma DecodeEncodedByte(c: char, rest: string)
    requires c as int < 256
    ensures UrlDecode(EncodeByte(c) + rest) == [c] + UrlDecode(rest)
  {
    var e := EncodeByte(c);
    var s := e + rest;
    if IsUnreservedChar(c) {
      assert s[1..] == rest;
    } else if c == ' ' {
      assert s[1..] == rest;
    } else {
      var b := c as int % 256;
      HexRoundTrip(b / 16);
      HexRoundTrip(b % 16);
      assert s[3..] == rest;
    }
  }

  /** urldecode undoes urlencode on every byte string. */
  lemma {:induction false} UrlDecodeEncode(s: string)
    requires IsByteString(s)
    ensures UrlDecode(UrlEncode(s)) == s
    decreases |s|
  {
    if |s| > 0 {
      UrlDecodeEncode(s[1..]);
      DecodeEncodedByte(s[0], UrlEncode(s[1..]));
      assert s == [s[0]] + s[1..];
    }
  }
}
