/**
 * parseUnicodeRange of scripts/build.js: a CSS unicode-range expression
 * such as "U+0-FF, U+1F00-1FFF, U+2E??" becomes the list of code points it
 * names, in the order they are written.
 *
 * The expression is split on commas together with the white space around
 * them (`split(/\s*,\s*\/)`), each part is matched against
 * `/^(u\+([0-9a-f?]{1,6})(?:-([0-9a-f]{1,6}))?)$/i`, parts that do not
 * match are skipped, and each match pushes the inclusive range it denotes.
 */
module UnicodeRange {
  import opened JsInt
  import opened Wrappers

  // ---------------------------------------------------------------------
  // Splitting on commas

  /**
   * The characters `\s` matches in a JavaScript regular expression: the
   * white space and line terminator characters of ECMAScript.
   */
  predicate IsSpace(c: char)
  {
    c == '\t' || c == '\n' || c == '\U{000B}' || c == '\U{000C}' || c == '\r' || c == ' '
    || c == '\U{00A0}' || c == '\U{1680}' || ('\U{2000}' <= c <= '\U{200A}')
    || c == '\U{2028}' || c == '\U{2029}' || c == '\U{202F}' || c == '\U{205F}'
    || c == '\U{3000}' || c == '\U{FEFF}'
  }

  /** The pieces of s between its commas: `s.split(",")`. */
  function SplitCommas(s: string): (r: seq<string>)
    ensures |r| >= 1
    ensures forall k :: 0 <= k < |r| ==> ',' !in r[k]
  {
    if s == [] then [""]
    else
      var rest := SplitCommas(s[1..]);
      if s[0] == ',' then [""] + rest
      else [[s[0]] + rest[0]] + rest[1..]
  }

  /** The pieces joined with commas: `pieces.join(",")`. */
  function JoinCommas(pieces: seq<string>): string
    requires |pieces| >= 1
  {
    if |pieces| == 1 then pieces[0] else pieces[0] + "," + JoinCommas(pieces[1..])
  }

  /** Joining the pieces gives the text back. */
  lemma {:induction false} JoinSplit(s: string)
    ensures JoinCommas(SplitCommas(s)) == s
  {
    if s != [] {
      var rest := SplitCommas(s[1..]);
      JoinSplit(s[1..]);
      if s[0] == ',' {
        assert ([""] + rest)[1..] == rest;
      } else {
        var r := [[s[0]] + rest[0]] + rest[1..];
        if |rest| == 1 {
          assert JoinCommas(rest) == rest[0];
          assert s == [s[0]] + s[1..];
          assert r == [s];
        } else {
          assert r[1..] == rest[1..];
          assert JoinCommas(rest) == rest[0] + "," + JoinCommas(rest[1..]);
          assert s == [s[0]] + s[1..];
        }
      }
    }
  }

  /** Splitting comma-free pieces joined with commas gives the pieces back. */
  lemma {:induction false} SplitJoin(pieces: seq<string>)
    requires |pieces| >= 1
    requires forall k :: 0 <= k < |pieces| ==> ',' !in pieces[k]
    ensures SplitCommas(JoinCommas(pieces)) == pieces
  {
    if |pieces| == 1 {
      SplitPiece(pieces[0], []);
      assert pieces[0] + [] == pieces[0];
    } else {
      var tail := JoinCommas(pieces[1..]);
      SplitJoin(pieces[1..]);
      assert ("," + tail)[1..] == tail;
      assert SplitCommas("," + tail) == [""] + pieces[1..];
      assert pieces[0] + "," + tail == pieces[0] + ("," + tail);
      SplitPiece(pieces[0], "," + tail);
      var r := SplitCommas("," + tail);
      assert r[0] == "" && r[1..] == pieces[1..];
      assert pieces[0] + r[0] == pieces[0];
      assert [pieces[0]] + pieces[1..] == pieces;
    }
  }

  /** A comma-free piece in front of text is glued to its first piece. */
  lemma {:induction false} SplitPiece(x: string, t: string)
    requires ',' !in x
    ensures var r := SplitCommas(t); SplitCommas(x + t) == [x + r[0]] + r[1..]
  {
    if x != [] {
      assert (x + t)[1..] == x[1..] + t;
      assert forall i :: 0 <= i < |x[1..]| ==> x[1..][i] == x[i + 1];
      assert x[0] != ',' by {
        assert x[0] in x;
      }
      SplitPiece(x[1..], t);
      var r := SplitCommas(t);
      var rest := SplitCommas(x[1..] + t);
      assert rest == [x[1..] + r[0]] + r[1..];
      assert SplitCommas(x + t) == [[x[0]] + rest[0]] + rest[1..];
      assert rest[0] == x[1..] + r[0] && rest[1..] == r[1..];
      assert [x[0]] + (x[1..] + r[0]) == x + r[0];
    } else {
      var r := SplitCommas(t);
      assert x + t == t && x + r[0] == r[0];
      assert [r[0]] + r[1..] == r;
    }
  }

  /** x without its leading white space. */
  function TrimStart(x: string): (r: string)
    ensures |r| <= |x| && r == x[|x| - |r|..]
    ensures r == [] || !IsSpace(r[0])
    ensures forall k :: 0 <= k < |x| - |r| ==> IsSpace(x[k])
  {
    if x != [] && IsSpace(x[0]) then TrimStart(x[1..]) else x
  }

  /** x without its trailing white space. */
  function TrimEnd(x: string): (r: string)
    ensures |r| <= |x| && r == x[..|r|]
    ensures r == [] || !IsSpace(r[|r| - 1])
    ensures forall k :: |r| <= k < |x| ==> IsSpace(x[k])
  {
    if x != [] && IsSpace(x[|x| - 1]) then TrimEnd(x[..|x| - 1]) else x
  }

  /**
   * Piece k of n after `split(/\s*,\s*\/)`: the white space a comma's match
   * swallows is gone, that is the leading white space of every piece but
   * the first and the trailing white space of every piece but the last.
   */
  function Trimmed(x: string, k: nat, n: nat): string
  {
    var y := if k > 0 then TrimStart(x) else x;
    if k + 1 < n then TrimEnd(y) else y
  }

  /** The parts the expression splits into. */
  function Parts(s: string): (r: seq<string>)
    ensures |r| == |SplitCommas(s)|
  {
    var raw := SplitCommas(s);
    seq(|raw|, k requires 0 <= k < |raw| => Trimmed(raw[k], k, |raw|))
  }

  // ---------------------------------------------------------------------
  // Matching one part

  predicate IsHexDigit(c: char)
  {
    '0' <= c <= '9' || 'a' <= c <= 'f' || 'A' <= c <= 'F'
  }

  /** A character of the class `[0-9a-f?]` under the `i` flag. */
  predicate IsPatternChar(c: char)
  {
    IsHexDigit(c) || c == '?'
  }

  predicate AllHex(ds: string)
  {
    forall k :: 0 <= k < |ds| ==> IsHexDigit(ds[k])
  }

  predicate AllPattern(ds: string)
  {
    forall k :: 0 <= k < |ds| ==> IsPatternChar(ds[k])
  }

  /** The captures of a match: `d[2]`, and `d[3]` when the range has an end. */
  datatype RangeToken = RangeToken(first: string, last: Option<string>)

  /** What the two groups of the regular expression admit. */
  predicate ValidToken(t: RangeToken)
  {
    1 <= |t.first| <= 6 && AllPattern(t.first)
    && (t.last.Some? ==> 1 <= |t.last.value| <= 6 && AllHex(t.last.value))
  }

  /** The text of a token after the prefix `u` (either case). */
  function Render(u: char, t: RangeToken): string
  {
    [u, '+'] + t.first + (if t.last.Some? then ['-'] + t.last.value else [])
  }

  /** The number of leading characters of x in `[0-9a-f?]`. */
  function PatternRun(x: string): (n: nat)
    ensures n <= |x| && AllPattern(x[..n])
    ensures n == |x| || !IsPatternChar(x[n])
  {
    if x != [] && IsPatternChar(x[0]) then
      var n := 1 + PatternRun(x[1..]);
      assert forall k :: 1 <= k < n ==> x[..n][k] == x[1..][..n - 1][k - 1];
      n
    else 0
  }

  /** The regular expression's exec: the captures, or None when the part does not match. */
  function MatchToken(p: string): (r: Option<RangeToken>)
    ensures r.Some? ==> ValidToken(r.value)
  {
    if |p| < 2 || (p[0] != 'u' && p[0] != 'U') || p[1] != '+' then None
    else
      var n := PatternRun(p[2..]);
      var rest := p[2 + n..];
      assert p[2..2 + n] == p[2..][..n];
      if n < 1 || n > 6 then None
      else if rest == [] then Some(RangeToken(p[2..2 + n], None))
      else if rest[0] == '-' && 1 <= |rest| - 1 <= 6 && AllHex(rest[1..]) then
        Some(RangeToken(p[2..2 + n], Some(rest[1..])))
      else None
  }

  /** A part matches exactly when it is `u+` or `U+` followed by a valid token. */
  lemma MatchTokenSound(p: string)
    requires MatchToken(p).Some?
    ensures var t := MatchToken(p).value; (p[0] == 'u' || p[0] == 'U') && p == Render(p[0], t)
  {
    var n := PatternRun(p[2..]);
    var t := MatchToken(p).value;
    assert p[2..2 + n] == p[2..][..n];
    if t.last.Some? {
      assert p == [p[0], p[1]] + p[2..2 + n] + (['-'] + p[2 + n + 1..]);
    } else {
      assert p == [p[0], p[1]] + p[2..2 + n];
    }
  }

  lemma MatchTokenComplete(u: char, t: RangeToken)
    requires u == 'u' || u == 'U'
    requires ValidToken(t)
    ensures MatchToken(Render(u, t)) == Some(t)
  {
    var p := Render(u, t);
    var x := p[2..];
    var m := |t.first|;
    assert x[..m] == t.first;
    RunOfPattern(x, m);
    assert p[2..2 + m] == t.first;
    if t.last.Some? {
      assert p[2 + m..] == ['-'] + t.last.value;
      assert p[2 + m..][1..] == t.last.value;
    }
  }

  /** A run of m pattern characters followed by the end or a non-pattern character has length m. */
  lemma {:induction false} RunOfPattern(x: string, m: nat)
    requires m <= |x| && AllPattern(x[..m])
    requires m == |x| || !IsPatternChar(x[m])
    ensures PatternRun(x) == m
  {
    if m > 0 {
      assert x[1..][..m - 1] == x[..m][1..];
      assert IsPatternChar(x[..m][0]);
      RunOfPattern(x[1..], m - 1);
    }
  }

  // ---------------------------------------------------------------------
  // The values of one part

  function Pow16(n: nat): (r: nat)
    ensures r >= 1
  {
    if n == 0 then 1 else 16 * Pow16(n - 1)
  }

  function HexValue(c: char): (v: nat)
    requires IsHexDigit(c)
    ensures v < 16
  {
    if '0' <= c <= '9' then c as int - '0' as int
    else if 'a' <= c <= 'f' then c as int - 'a' as int + 10
    else c as int - 'A' as int + 10
  }

  /** `parseInt(ds, 16)` on a non-empty run of hex digits. */
  function ParseHex(ds: string): (v: nat)
    requires AllHex(ds)
    ensures v < Pow16(|ds|)
  {
    if ds == [] then 0
    else
      var init := ds[..|ds| - 1];
      assert AllHex(init) by {
        assert forall k :: 0 <= k < |init| ==> init[k] == ds[k];
      }
      ParseHex(init) * 16 + HexValue(ds[|ds| - 1])
  }

  /** `ds.replace(/\?/g, c)`. */
  function Fill(ds: string, c: char): (r: string)
    requires AllPattern(ds) && IsHexDigit(c)
    ensures |r| == |ds| && AllHex(r)
    ensures forall k :: 0 <= k < |ds| ==> r[k] == (if ds[k] == '?' then c else ds[k])
  {
    seq(|ds|, k requires 0 <= k < |ds| => if ds[k] == '?' then c else ds[k])
  }

  /** The integers lo, lo + 1, ..., hi; empty when lo > hi. */
  function Interval(lo: nat, hi: int): (r: seq<nat>)
    ensures |r| == (if lo <= hi then hi - lo + 1 else 0)
    ensures forall k :: 0 <= k < |r| ==> r[k] == lo + k
  {
    seq(if lo <= hi then hi - lo + 1 else 0, k requires 0 <= k < (if lo <= hi then hi - lo + 1 else 0) => lo + k)
  }

  /**
   * The values one match pushes: with a '?', every integer from the
   * pattern read with '?' as 0 to the pattern read with '?' as f (any end
   * of the range is ignored); otherwise from the first number to the
   * second, or the first number alone.
   */
  function TokenValues(t: RangeToken): seq<nat>
    requires ValidToken(t)
  {
    if '?' in t.first then
      Interval(ParseHex(Fill(t.first, '0')), ParseHex(Fill(t.first, 'f')))
    else
      var e := ParseHex(t.first);
      var g := if t.last.Some? then ParseHex(t.last.value) else e;
      if e != g then Interval(e, g) else [e]
  }

  /** The values of a part; none when it does not match. */
  function PartValues(p: string): seq<nat>
  {
    match MatchToken(p)
    case None => []
    case Some(t) => TokenValues(t)
  }

  /** The values of the parts, in order. */
  function Values(parts: seq<string>): seq<nat>
  {
    if parts == [] then [] else Values(parts[..|parts| - 1]) + PartValues(parts[|parts| - 1])
  }

  /** `parseUnicodeRange(s)` as a value. */
  function RangeValues(s: string): seq<nat>
  {
    Values(Parts(s))
  }

  // ---------------------------------------------------------------------
  // The parser

  /** The loop of parseUnicodeRange over the parts of the expression. */
  method ParseUnicodeRange(rangeStr: string) returns (result: seq<nat>)
    ensures result == RangeValues(rangeStr)
  {
    var parts := Parts(rangeStr);
    result := [];
    var c := 0;
    while c < |parts|
      invariant 0 <= c <= |parts|
      invariant result == Values(parts[..c])
    {
      result := PushPart(result, parts[c]);
      assert parts[..c + 1][..c] == parts[..c];
      c := c + 1;
    }
    assert parts[..c] == parts;
  }

  /** The body of the loop: push the values of one part, if it matches. */
  method PushPart(result: seq<nat>, part: string) returns (r: seq<nat>)
    ensures r == result + PartValues(part)
  {
    r := result;
    var d := MatchToken(part);
    if d.Some? {
      var t := d.value;
      if '?' in t.first {
        var e := ParseHex(Fill(t.first, '0'));
        var f := ParseHex(Fill(t.first, 'f'));
        r := PushRange(r, e, f);
      } else {
        var e := ParseHex(t.first);
        var g := if t.last.Some? then ParseHex(t.last.value) else e;
        if e != g {
          r := PushRange(r, e, g);
        } else {
          r := r + [e];
        }
      }
    }
  }

  /** `for (; e <= f; e++) result.push(e)`. */
  method PushRange(result: seq<nat>, e: nat, f: nat) returns (r: seq<nat>)
    ensures r == result + Interval(e, f)
  {
    r := result;
    var i := e;
    while i <= f
      invariant e <= i && (i <= f + 1 || i == e)
      invariant r == result + Interval(e, i - 1)
    {
      r := r + [i];
      i := i + 1;
    }
  }

  // ---------------------------------------------------------------------
  // What the parser produces

  /** The smallest and largest value a valid token denotes. */
  function Low(t: RangeToken): nat
    requires ValidToken(t)
  {
    ParseHex(Fill(t.first, '0'))
  }

  function High(t: RangeToken): nat
    requires ValidToken(t)
  {
    if '?' in t.first then ParseHex(Fill(t.first, 'f'))
    else if t.last.Some? then ParseHex(t.last.value)
    else Low(t)
  }

  /** Without a '?', filling changes nothing. */
  lemma FillNoWildcard(ds: string, c: char)
    requires AllPattern(ds) && IsHexDigit(c) && '?' !in ds
    ensures Fill(ds, c) == ds
  {
  }

  /** Every match pushes the whole range from Low to High in increasing order, and nothing when Low > High. */
  lemma TokenValuesInterval(t: RangeToken)
    requires ValidToken(t)
    ensures TokenValues(t) == Interval(Low(t), High(t))
  {
    if '?' !in t.first {
      FillNoWildcard(t.first, '0');
    }
  }

  /** A value comes out of a part exactly when the part matches and the value lies in its range. */
  lemma PartValuesIn(p: string, v: nat)
    ensures v in PartValues(p) <==> MatchToken(p).Some? && Low(MatchToken(p).value) <= v <= High(MatchToken(p).value)
  {
    if MatchToken(p).Some? {
      var t := MatchToken(p).value;
      TokenValuesInterval(t);
      IntervalIn(Low(t), High(t), v);
    }
  }

  /** A value comes out of the parser exactly when it comes out of one of the parts. */
  lemma {:induction false} ValuesIn(parts: seq<string>, v: nat)
    ensures v in Values(parts) <==> exists k :: 0 <= k < |parts| && v in PartValues(parts[k])
  {
    if parts != [] {
      var init := parts[..|parts| - 1];
      ValuesIn(init, v);
      if v in Values(parts) {
        if v in Values(init) {
          var k :| 0 <= k < |init| && v in PartValues(init[k]);
          assert parts[k] == init[k];
        } else {
          assert v in PartValues(parts[|parts| - 1]);
        }
      }
      if exists k :: 0 <= k < |parts| && v in PartValues(parts[k]) {
        var k :| 0 <= k < |parts| && v in PartValues(parts[k]);
        if k < |parts| - 1 {
          assert init[k] == parts[k];
        }
      }
    }
  }

  /** Hex numbers of at most six digits stay below 0x1000000. */
  lemma HexBound(ds: string)
    requires AllHex(ds) && |ds| <= 6
    ensures ParseHex(ds) < 0x100_0000
  {
    Pow16Mono(|ds|, 6);
  }

  lemma {:induction false} Pow16Mono(m: nat, n: nat)
    requires m <= n
    ensures Pow16(m) <= Pow16(n)
  {
    if m < n {
      Pow16Mono(m, n - 1);
    }
  }

  /**
   * Every value is below 0x1000000: six hex digits at most.  Nothing keeps
   * them at or below 0x10FFFF, the largest code point.
   */
  lemma RangeValuesBound(s: string, v: nat)
    requires v in RangeValues(s)
    ensures v < 0x100_0000
  {
    var parts := Parts(s);
    ValuesIn(parts, v);
    var k :| 0 <= k < |parts| && v in PartValues(parts[k]);
    PartValuesIn(parts[k], v);
    HighBound(MatchToken(parts[k]).value);
  }

  lemma HighBound(t: RangeToken)
    requires ValidToken(t)
    ensures High(t) < 0x100_0000
  {
    HexBound(Fill(t.first, 'f'));
    HexBound(Fill(t.first, '0'));
    if t.last.Some? {
      HexBound(t.last.value);
    }
  }

  // ---------------------------------------------------------------------
  // Trailing '?': the range of all values with the given leading digits

  function Repeat(c: char, k: nat): (r: string)
    ensures |r| == k && forall i :: 0 <= i < k ==> r[i] == c
  {
    seq(k, i => c)
  }

  /** Reading digits after a prefix scales the prefix. */
  lemma {:induction false} ParseHexAppend(a: string, b: string)
    requires AllHex(a) && AllHex(b)
    ensures AllHex(a + b) && ParseHex(a + b) == ParseHex(a) * Pow16(|b|) + ParseHex(b)
  {
    var ab := a + b;
    assert AllHex(ab);
    if b != [] {
      var b' := b[..|b| - 1];
      assert ab[..|ab| - 1] == a + b';
      assert ab[|ab| - 1] == b[|b| - 1];
      ParseHexAppend(a, b');
      ScaleDigit(ParseHex(a), Pow16(|b'|), ParseHex(b'), HexValue(b[|b| - 1]));
    } else {
      assert ab == a;
    }
  }

  lemma ScaleDigit(x: int, p: int, y: int, h: int)
    ensures (x * p + y) * 16 + h == x * (16 * p) + (y * 16 + h)
  {
  }

  lemma {:induction false} ParseZeros(k: nat)
    ensures ParseHex(Repeat('0', k)) == 0
  {
    if k > 0 {
      assert Repeat('0', k)[..k - 1] == Repeat('0', k - 1);
      ParseZeros(k - 1);
    }
  }

  lemma {:induction false} ParseFs(k: nat)
    ensures ParseHex(Repeat('f', k)) == Pow16(k) - 1
  {
    if k > 0 {
      assert Repeat('f', k)[..k - 1] == Repeat('f', k - 1);
      ParseFs(k - 1);
    }
  }

  /** Filling a pattern of digits and k '?' puts k copies of c after the digits. */
  lemma FillSuffix(d: string, k: nat, c: char)
    requires AllHex(d) && IsHexDigit(c)
    ensures AllPattern(d + Repeat('?', k)) && Fill(d + Repeat('?', k), c) == d + Repeat(c, k)
  {
    var p := d + Repeat('?', k);
    assert AllPattern(p);
    var f := Fill(p, c);
    forall i | 0 <= i < |p|
      ensures f[i] == (d + Repeat(c, k))[i]
    {
      if i < |d| {
        assert p[i] == d[i] && d[i] != '?';
      }
    }
  }

  /**
   * A pattern of hex digits d followed by k >= 1 '?' denotes the values
   * whose leading hex digits are d: from d * 16^k to d * 16^k + 16^k - 1.
   */
  lemma TrailingWildcard(d: string, k: nat, last: Option<string>)
    requires AllHex(d) && 1 <= k && |d| + k <= 6
    requires last.Some? ==> 1 <= |last.value| <= 6 && AllHex(last.value)
    ensures var t := RangeToken(d + Repeat('?', k), last);
      ValidToken(t) && Low(t) == ParseHex(d) * Pow16(k) && High(t) == Low(t) + Pow16(k) - 1
  {
    var p := d + Repeat('?', k);
    var n, q := ParseHex(d), Pow16(k);
    assert p[|d|] == '?';
    FillSuffix(d, k, '0');
    FillSuffix(d, k, 'f');
    assert ParseHex(Fill(p, '0')) == n * q by {
      ParseHexAppend(d, Repeat('0', k));
      ParseZeros(k);
    }
    assert ParseHex(Fill(p, 'f')) == n * q + q - 1 by {
      ParseHexAppend(d, Repeat('f', k));
      ParseFs(k);
    }
  }

  /** A value is in the trailing-wildcard range exactly when its leading digits are d. */
  lemma TrailingWildcardIn(d: string, k: nat, v: nat)
    requires AllHex(d) && 1 <= k && |d| + k <= 6
    ensures var t := RangeToken(d + Repeat('?', k), None);
      ValidToken(t) && (v in TokenValues(t) <==> v / Pow16(k) == ParseHex(d))
  {
    var t := RangeToken(d + Repeat('?', k), None);
    TrailingWildcard(d, k, None);
    TokenValuesInterval(t);
    IntervalIn(Low(t), High(t), v);
    var n, q := ParseHex(d), Pow16(k);
    if Low(t) <= v <= High(t) {
      DivUnique(v, q, n, v - Low(t));
    } else if v / q == n {
      DivBounds(v, q, n);
    }
  }

  lemma IntervalIn(lo: nat, hi: int, v: nat)
    ensures v in Interval(lo, hi) <==> lo <= v <= hi
  {
    if lo <= v <= hi {
      assert Interval(lo, hi)[v - lo] == v;
    }
  }

  /** A quotient of n puts v between n * q and n * q + q - 1. */
  lemma DivBounds(v: nat, q: nat, n: nat)
    requires q >= 1 && v / q == n
    ensures n * q <= v < n * q + q
  {
    var m := v % q;
    assert v == q * n + m;
  }

  // ---------------------------------------------------------------------
  // Examples

  /** An expression without a comma is a single part. */
  lemma SinglePart(p: string)
    requires ',' !in p
    ensures RangeValues(p) == PartValues(p)
  {
    SplitPiece(p, []);
    assert SplitCommas([]) == [""];
    assert p + [] == p && p + "" == p && [""][1..] == [];
    assert SplitCommas(p) == [p];
    assert Parts(p) == [p];
    assert Parts(p)[..0] == [];
  }

  /** Rendered tokens contain no comma. */
  lemma RenderNoComma(u: char, t: RangeToken)
    requires u == 'u' || u == 'U'
    requires ValidToken(t)
    ensures ',' !in Render(u, t)
  {
    var p := Render(u, t);
    var m := |t.first|;
    forall i | 0 <= i < |p|
      ensures p[i] != ','
    {
      if 2 <= i < 2 + m {
        assert p[i] == t.first[i - 2];
      } else if 2 + m < i {
        assert p[i] == t.last.value[i - 3 - m];
      }
    }
  }

  /** An expression of one token gives the token's range. */
  lemma SingleToken(u: char, t: RangeToken)
    requires u == 'u' || u == 'U'
    requires ValidToken(t)
    ensures RangeValues(Render(u, t)) == Interval(Low(t), High(t))
  {
    RenderNoComma(u, t);
    SinglePart(Render(u, t));
    MatchTokenComplete(u, t);
    TokenValuesInterval(t);
  }

  lemma Hex41And43()
    ensures ParseHex("41") == 0x41 && ParseHex("43") == 0x43 && Fill("41", '0') == "41"
  {
    assert "41"[..1] == "4" && "43"[..1] == "4";
  }

  /** "U+41-43" gives 0x41, 0x42, 0x43. */
  lemma ExampleRange()
    ensures RangeValues("U+41-43") == [0x41, 0x42, 0x43]
  {
    var t := RangeToken("41", Some("43"));
    assert Render('U', t) == "U+41-43";
    SingleToken('U', t);
    Hex41And43();
    var r := Interval(0x41, 0x43);
    assert r == [0x41, 0x42, 0x43];
  }

  /** "U+4?" gives the sixteen values 0x40 to 0x4F. */
  lemma ExampleWildcard()
    ensures RangeValues("U+4?") == Interval(0x40, 0x4F)
  {
    var t := RangeToken("4?", None);
    assert Render('U', t) == "U+4?";
    SingleToken('U', t);
    WildcardFour();
  }

  lemma WildcardFour()
    ensures ValidToken(RangeToken("4?", None))
    ensures Low(RangeToken("4?", None)) == 0x40 && High(RangeToken("4?", None)) == 0x4F
  {
    assert "4?" == "4" + Repeat('?', 1);
    TrailingWildcard("4", 1, None);
    assert ParseHex("4") == 4;
  }

  /** A range written backwards gives nothing. */
  lemma ExampleBackwards()
    ensures RangeValues("U+43-41") == []
  {
    var t := RangeToken("43", Some("41"));
    assert Render('U', t) == "U+43-41";
    SingleToken('U', t);
    Hex41And43();
    assert Fill("43", '0') == "43";
  }

  /** A '?' before a digit still enumerates the whole interval: "U+?4" covers 0x05. */
  lemma InnerWildcard()
    ensures ValidToken(RangeToken("?4", None))
    ensures Low(RangeToken("?4", None)) == 0x04 && High(RangeToken("?4", None)) == 0xF4
    ensures 0x05 in TokenValues(RangeToken("?4", None))
  {
    var t := RangeToken("?4", None);
    assert Fill("?4", '0') == "04" && Fill("?4", 'f') == "f4";
    assert "04"[..1] == "0" && "f4"[..1] == "f";
    TokenValuesInterval(t);
    IntervalIn(0x04, 0xF4, 0x05);
  }

  // ---------------------------------------------------------------------
  // White space

  lemma {:induction false} TrimEndSpaces(a: string, w: string)
    requires a == [] || !IsSpace(a[|a| - 1])
    requires forall i :: 0 <= i < |w| ==> IsSpace(w[i])
    ensures TrimEnd(a + w) == a
  {
    if w != [] {
      assert (a + w)[..|a + w| - 1] == a + w[..|w| - 1];
      TrimEndSpaces(a, w[..|w| - 1]);
    } else {
      assert a + w == a;
    }
  }

  lemma {:induction false} TrimStartSpaces(w: string, b: string)
    requires b == [] || !IsSpace(b[0])
    requires forall i :: 0 <= i < |w| ==> IsSpace(w[i])
    ensures TrimStart(w + b) == b
  {
    if w != [] {
      assert (w + b)[1..] == w[1..] + b;
      TrimStartSpaces(w[1..], b);
    } else {
      assert w + b == b;
    }
  }

  lemma SpacesHaveNoComma(w: string)
    requires forall i :: 0 <= i < |w| ==> IsSpace(w[i])
    ensures ',' !in w
  {
    assert forall i :: 0 <= i < |w| ==> w[i] != ',';
  }

  /**
   * White space on either side of a comma is dropped: two tokens separated
   * by a comma and any white space give the first range, then the second.
   */
  lemma SpacesAroundComma(u1: char, t1: RangeToken, w1: string, w2: string, u2: char, t2: RangeToken)
    requires (u1 == 'u' || u1 == 'U') && (u2 == 'u' || u2 == 'U')
    requires ValidToken(t1) && ValidToken(t2)
    requires forall i :: 0 <= i < |w1| ==> IsSpace(w1[i])
    requires forall i :: 0 <= i < |w2| ==> IsSpace(w2[i])
    ensures RangeValues(Render(u1, t1) + w1 + "," + w2 + Render(u2, t2))
         == Interval(Low(t1), High(t1)) + Interval(Low(t2), High(t2))
  {
    var a, b := Render(u1, t1), Render(u2, t2);
    RenderNoComma(u1, t1);
    RenderNoComma(u2, t2);
    RenderEnds(u1, t1);
    RenderEnds(u2, t2);
    TwoParts(a, w1, w2, b);
    ValuesTwo(a, b);
    MatchTokenComplete(u1, t1);
    MatchTokenComplete(u2, t2);
    TokenValuesInterval(t1);
    TokenValuesInterval(t2);
  }

  lemma ValuesTwo(a: string, b: string)
    ensures Values([a, b]) == PartValues(a) + PartValues(b)
  {
    assert [a, b][..1] == [a] && [a][..0] == [];
    assert Values([a]) == PartValues(a);
  }

  /** Two comma-free texts around a comma with white space split into the two texts. */
  lemma TwoParts(a: string, w1: string, w2: string, b: string)
    requires ',' !in a && ',' !in b
    requires a == [] || !IsSpace(a[|a| - 1])
    requires b == [] || !IsSpace(b[0])
    requires forall i :: 0 <= i < |w1| ==> IsSpace(w1[i])
    requires forall i :: 0 <= i < |w2| ==> IsSpace(w2[i])
    ensures Parts(a + w1 + "," + w2 + b) == [a, b]
  {
    SpacesHaveNoComma(w1);
    SpacesHaveNoComma(w2);
    PieceNoComma(a, w1);
    PieceNoComma(w2, b);
    assert a + w1 + "," + w2 + b == (a + w1) + "," + (w2 + b);
    SplitTwo(a + w1, w2 + b);
    TrimEndSpaces(a, w1);
    TrimStartSpaces(w2, b);
  }

  /** Two comma-free texts around one comma split into those two texts. */
  lemma SplitTwo(x: string, y: string)
    requires ',' !in x && ',' !in y
    ensures SplitCommas(x + "," + y) == [x, y]
  {
    SplitJoin([x, y]);
    assert JoinCommas([x, y][1..]) == y;
  }

  lemma PieceNoComma(x: string, y: string)
    requires ',' !in x && ',' !in y
    ensures ',' !in x + y
  {
    assert forall i :: 0 <= i < |x + y| ==> (x + y)[i] != ',' by {
      forall i | 0 <= i < |x + y|
        ensures (x + y)[i] != ','
      {
        if i < |x| {
          assert (x + y)[i] == x[i];
        } else {
          assert (x + y)[i] == y[i - |x|];
        }
      }
    }
  }

  /** A rendered token starts with 'u' or 'U' and ends in a digit or '?'. */
  lemma RenderEnds(u: char, t: RangeToken)
    requires ValidToken(t)
    ensures var p := Render(u, t); |p| >= 3 && p[0] == u && !IsSpace(p[|p| - 1])
  {
    var p := Render(u, t);
    if t.last.Some? {
      assert p[|p| - 1] == t.last.value[|t.last.value| - 1];
    } else {
      assert p[|p| - 1] == t.first[|t.first| - 1];
    }
  }

  /** White space at the very start is kept, so the first part does not match. */
  lemma LeadingSpace(s: string)
    requires |s| >= 1 && IsSpace(s[0])
    ensures PartValues(Parts(s)[0]) == []
  {
    var raw := SplitCommas(s);
    assert s[0] != ',';
    assert raw[0] == [s[0]] + SplitCommas(s[1..])[0];
    var x := Parts(s)[0];
    assert x == Trimmed(raw[0], 0, |raw|);
    assert x == [] || x[0] == s[0];
    assert MatchToken(x).None?;
  }

  /** A part that matches ends in a digit or '?', never in white space. */
  lemma MatchEnds(p: string)
    ensures MatchToken(p).Some? ==> |p| >= 3 && !IsSpace(p[|p| - 1])
  {
    if MatchToken(p).Some? {
      MatchTokenSound(p);
      RenderEnds(p[0], MatchToken(p).value);
    }
  }

  /** The last piece of a text that does not end in a comma ends in the text's last character. */
  lemma {:induction false} LastPiece(s: string)
    requires s != [] && s[|s| - 1] != ','
    ensures var r := SplitCommas(s); r[|r| - 1] != [] && r[|r| - 1][|r[|r| - 1]| - 1] == s[|s| - 1]
  {
    var rest := SplitCommas(s[1..]);
    if |s| == 1 {
      assert s[1..] == [] && rest == [""];
      assert SplitCommas(s) == [[s[0]] + ""];
    } else {
      LastPiece(s[1..]);
      if s[0] != ',' && |rest| == 1 {
        assert SplitCommas(s) == [[s[0]] + rest[0]];
      } else {
        assert SplitCommas(s)[|SplitCommas(s)| - 1] == rest[|rest| - 1];
      }
    }
  }

  /** A part that is empty or ends in white space yields nothing. */
  lemma SpaceEndNoMatch(p: string)
    requires p == [] || IsSpace(p[|p| - 1])
    ensures PartValues(p) == []
  {
    MatchEnds(p);
  }

  /** The last piece is only trimmed at its start, so it keeps its last character. */
  lemma KeepsLast(x: string, k: nat, n: nat)
    requires k + 1 == n && x != []
    ensures var p := Trimmed(x, k, n); p == [] || p[|p| - 1] == x[|x| - 1]
  {
    if k > 0 {
      var r := TrimStart(x);
      assert r == x[|x| - |r|..];
    }
  }

  /** White space at the very end is kept too, so the last part does not match. */
  lemma TrailingSpace(s: string)
    requires |s| >= 1 && IsSpace(s[|s| - 1])
    ensures var ps := Parts(s); PartValues(ps[|ps| - 1]) == []
  {
    LastPart(s);
    var ps := Parts(s);
    SpaceEndNoMatch(ps[|ps| - 1]);
  }

  /** The last part of a text that does not end in a comma ends in the text's last character, or is empty. */
  lemma LastPart(s: string)
    requires s != [] && s[|s| - 1] != ','
    ensures var ps := Parts(s); var p := ps[|ps| - 1]; p == [] || p[|p| - 1] == s[|s| - 1]
  {
    var raw := SplitCommas(s);
    var n := |raw|;
    LastPiece(s);
    KeepsLast(raw[n - 1], n - 1, n);
    assert Parts(s)[n - 1] == Trimmed(raw[n - 1], n - 1, n);
  }
}

