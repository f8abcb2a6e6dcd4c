/** String helpers shared by the model: prefix tests, counting, decimal
    formatting of integers (Python's `str(int)`), `" ".join`,
    `str.isspace`/`str.strip()` emptiness and `textwrap.indent`. */
module Text {
  import opened Wrappers

  predicate StartsWith(s: string, p: string) {
    |p| <= |s| && s[..|p|] == p
  }

  lemma StartsWithAppend(p: string, rest: string)
    ensures StartsWith(p + rest, p)
  {
    assert (p + rest)[..|p|] == p;
  }

  predicate EndsWith(s: string, p: string) {
    |p| <= |s| && s[|s| - |p|..] == p
  }

  /** Number of occurrences of `c` in `s` (Python's `s.count(c)` for one character). */
  function CountChar(s: string, c: char): (n: nat)
    ensures n <= |s|
    ensures n == 0 <==> c !in s
  {
    if s == [] then 0 else (if s[0] == c then 1 else 0) + CountChar(s[1..], c)
  }

  lemma {:induction false} CountCharConcat(a: string, b: string, c: char)
    ensures CountChar(a + b, c) == CountChar(a, c) + CountChar(b, c)
  {
    if a == [] {
      assert a + b == b;
    } else {
      assert (a + b)[1..] == a[1..] + b;
      CountCharConcat(a[1..], b, c);
    }
  }

  // ---------------------------------------------------------------------
  // Decimal digits

  predicate IsDigit(c: char) { '0' <= c <= '9' }

  predicate AllDigits(s: string) { forall i :: 0 <= i < |s| ==> IsDigit(s[i]) }

  function DigitChar(d: nat): (c: char)
    requires d < 10
    ensures IsDigit(c) && c as int - '0' as int == d
  {
    ['0', '1', '2', '3', '4', '5', '6', '7', '8', '9'][d]
  }

  /** Python's `str(n)` for a non-negative integer: no leading zeros. */
  function NatToString(n: nat): (s: string)
    ensures |s| > 0 && AllDigits(s)
    ensures s[0] != '-'
  {
    if n < 10 then [DigitChar(n)] else NatToString(n / 10) + [DigitChar(n % 10)]
  }

  /** Python's `str(i)` for any integer. */
  function IntToString(i: int): (s: string)
    ensures |s| > 0
    ensures i >= 0 <==> AllDigits(s)
  {
    if i < 0 then
      var s := "-" + NatToString(-i);
      assert !IsDigit(s[0]);
      s
    else NatToString(i)
  }

  /** Value of a string of decimal digits (the inverse of NatToString). */
  function ParseDigits(s: string): nat
    requires AllDigits(s)
  {
    if s == [] then 0 else ParseDigits(s[..|s| - 1]) * 10 + (s[|s| - 1] as int - '0' as int)
  }

  lemma {:induction false} ParseNatToString(n: nat)
    ensures ParseDigits(NatToString(n)) == n
  {
    if n >= 10 {
      var s := NatToString(n);
      assert s[..|s| - 1] == NatToString(n / 10);
      ParseNatToString(n / 10);
    }
  }

  lemma NatToStringInjective(m: nat, n: nat)
    requires NatToString(m) == NatToString(n)
    ensures m == n
  {
    ParseNatToString(m);
    ParseNatToString(n);
  }

  // ---------------------------------------------------------------------
  // Joining

  /** Python's `sep.join(parts)`. */
  function Join(sep: string, parts: seq<string>): (r: string)
    ensures parts == [] ==> r == ""
    ensures |parts| == 1 ==> r == parts[0]
  {
    if parts == [] then ""
    else if |parts| == 1 then parts[0]
    else parts[0] + sep + Join(sep, parts[1..])
  }

  function IntStrings(xs: seq<int>): (r: seq<string>)
    ensures |r| == |xs|
    ensures forall i :: 0 <= i < |xs| ==> r[i] == IntToString(xs[i])
  {
    if xs == [] then [] else [IntToString(xs[0])] + IntStrings(xs[1..])
  }

  // ---------------------------------------------------------------------
  // Whitespace, as Python's str.isspace defines it

  predicate IsSpace(c: char) {
    var n := c as int;
    (0x09 <= n <= 0x0D) || (0x1C <= n <= 0x20) || n == 0x85 || n == 0xA0 || n == 0x1680
    || (0x2000 <= n <= 0x200A) || n == 0x2028 || n == 0x2029 || n == 0x202F || n == 0x205F
    || n == 0x3000
  }

  /** `not s.strip()`: the string holds only whitespace. */
  predicate IsBlank(s: string) {
    forall i :: 0 <= i < |s| ==> IsSpace(s[i])
  }

  // ---------------------------------------------------------------------
  // Lines, as str.splitlines(keepends=True) cuts them

  predicate IsLineBoundary(c: char) {
    var n := c as int;
    (0x0A <= n <= 0x0D) || (0x1C <= n <= 0x1E) || n == 0x85 || n == 0x2028 || n == 0x2029
  }

  /** Length of the first line of `s`, line break included ("\r\n" is one break). */
  function FirstLineLength(s: string): (k: nat)
    requires s != []
    ensures 0 < k <= |s|
  {
    if IsLineBoundary(s[0]) then
      (if s[0] == '\r' && |s| > 1 && s[1] == '\n' then 2 else 1)
    else if |s| == 1 then 1
    else 1 + FirstLineLength(s[1..])
  }

  /** `textwrap.indent(s, prefix)`: `prefix` goes before every line that is not blank. */
  function Indent(s: string, prefix: string): (r: string)
    ensures '\n' !in prefix ==> CountChar(r, '\n') == CountChar(s, '\n')
    decreases |s|
  {
    if s == [] then ""
    else
      var k := FirstLineLength(s);
      var line := s[..k];
      var rest := Indent(s[k..], prefix);
      var out := if IsBlank(line) then line else prefix + line;
      assert s == line + s[k..];
      CountCharConcat(line, s[k..], '\n');
      CountCharConcat(out, rest, '\n');
      CountCharConcat(prefix, line, '\n');
      out + rest
  }

  // ---------------------------------------------------------------------
  // Reading a space-separated list of integers back

  /** Length of the leading run of non-space characters. */
  function WordLength(s: string): (k: nat)
    ensures k <= |s|
    ensures forall i :: 0 <= i < k ==> s[i] != ' '
    ensures k < |s| ==> s[k] == ' '
  {
    if s == [] || s[0] == ' ' then 0 else 1 + WordLength(s[1..])
  }

  /** The words of `s`: its maximal runs of non-space characters, in order. */
  function Words(s: string): (r: seq<string>)
    ensures forall i :: 0 <= i < |r| ==> r[i] != [] && ' ' !in r[i]
    decreases |s|
  {
    if s == [] then []
    else if s[0] == ' ' then Words(s[1..])
    else
      var k := WordLength(s);
      assert ' ' !in s[..k];
      [s[..k]] + Words(s[k..])
  }

  /** A word that is a (possibly negative) decimal integer. */
  function ParseInt(s: string): Option<int> {
    if |s| > 1 && s[0] == '-' && AllDigits(s[1..]) then Some(-(ParseDigits(s[1..]) as int))
    else if s != [] && AllDigits(s) then Some(ParseDigits(s))
    else None
  }

  function ParseInts(words: seq<string>): Option<seq<int>> {
    if words == [] then Some([])
    else
      match (ParseInt(words[0]), ParseInts(words[1..]))
      case (Some(x), Some(xs)) => Some([x] + xs)
      case _ => None
  }

  lemma ParseIntToString(i: int)
    ensures ParseInt(IntToString(i)) == Some(i)
  {
    if i < 0 {
      assert IntToString(i) == "-" + NatToString(-i);
      ParseNegative(-i);
    } else {
      assert IntToString(i) == NatToString(i);
      ParseNonNegative(i);
    }
  }

  lemma ParseNegative(n: nat)
    requires n > 0
    ensures ParseInt("-" + NatToString(n)) == Some(-(n as int))
  {
    var d := NatToString(n);
    var s := "-" + d;
    assert s[1..] == d;
    ParseNatToString(n);
  }

  lemma ParseNonNegative(n: nat)
    ensures ParseInt(NatToString(n)) == Some(n)
  {
    ParseNatToString(n);
  }

  /** Splitting at spaces undoes joining with single spaces, for words without spaces. */
  lemma {:induction false} WordsJoin(parts: seq<string>)
    requires forall i :: 0 <= i < |parts| ==> parts[i] != [] && ' ' !in parts[i]
    ensures Words(Join(" ", parts)) == parts
  {
    if parts != [] {
      var p := parts[0];
      var rest := parts[1..];
      WordsJoin(rest);
      if rest == [] {
        WordsWhole(p);
      } else {
        var s := p + " " + Join(" ", rest);
        assert Join(" ", parts) == s;
        WordLengthStops(p, " " + Join(" ", rest));
        assert s[..|p|] == p;
        assert s[|p|..] == " " + Join(" ", rest);
        assert (" " + Join(" ", rest))[1..] == Join(" ", rest);
      }
    }
  }

  lemma {:induction false} WordLengthStops(p: string, t: string)
    requires ' ' !in p && t != [] && t[0] == ' '
    ensures WordLength(p + t) == |p|
  {
    if p != [] {
      assert (p + t)[1..] == p[1..] + t;
      WordLengthStops(p[1..], t);
    }
  }

  lemma WordsWhole(p: string)
    requires p != [] && ' ' !in p
    ensures Words(p) == [p]
  {
    assert p[0] != ' ';
    WordLengthAll(p);
    assert p[..|p|] == p;
    assert p[|p|..] == [];
  }

  lemma {:induction false} WordLengthAll(p: string)
    requires ' ' !in p
    ensures WordLength(p) == |p|
  {
    if p != [] {
      WordLengthAll(p[1..]);
    }
  }

  /** Printing integers space-separated and reading them back gives the same list. */
  lemma {:induction false} ParseIntsJoin(xs: seq<int>)
    ensures ParseInts(Words(Join(" ", IntStrings(xs)))) == Some(xs)
  {
    var parts := IntStrings(xs);
    forall i | 0 <= i < |parts| ensures parts[i] != [] && ' ' !in parts[i] {
      IntStringNoSpace(xs[i]);
    }
    WordsJoin(parts);
    ParseIntsStrings(xs);
  }

  lemma IntStringNoSpace(i: int)
    ensures ' ' !in IntToString(i)
  {
    var s := IntToString(i);
    if i >= 0 {
      assert forall j :: 0 <= j < |s| ==> IsDigit(s[j]);
    } else {
      var d := NatToString(-i);
      assert s == "-" + d;
      assert forall j :: 0 <= j < |d| ==> IsDigit(d[j]);
    }
  }

  lemma {:induction false} ParseIntsStrings(xs: seq<int>)
    ensures ParseInts(IntStrings(xs)) == Some(xs)
  {
    if xs != [] {
      var words := IntStrings(xs);
      assert words == [IntToString(xs[0])] + IntStrings(xs[1..]);
      ParseIntToString(xs[0]);
      ParseIntsStrings(xs[1..]);
      ParseIntsCons(IntToString(xs[0]), IntStrings(xs[1..]));
      assert [xs[0]] + xs[1..] == xs;
    }
  }

  lemma ParseIntsCons(w: string, ws: seq<string>)
    ensures ParseInts([w] + ws) ==
      if ParseInt(w).Some? && ParseInts(ws).Some? then Some([ParseInt(w).value] + ParseInts(ws).value) else None
  {
    assert ([w] + ws)[0] == w && ([w] + ws)[1..] == ws;
  }
}
