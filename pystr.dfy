/** The Python string built-ins the scripts rely on, written out so that their edge
    cases are explicit: `str.rstrip()`, `str.split(sep)` with a one-character
    separator, `int()` on a string, subscripting with negative indices and the
    slices `s[1:-1]` and `s[1:]`. */
module PyStr {
  import opened Wrappers

  /** `c.isspace()` for the characters up to U+00FF. */
  predicate IsSpace(c: char) {
    var n := c as int;
    (9 <= n <= 13) || (28 <= n <= 32) || n == 0x85 || n == 0xA0
  }

  /** `s.rstrip()`: drops the trailing whitespace and nothing else. */
  function RStrip(s: string): (r: string)
    ensures r <= s
    ensures r == [] || !IsSpace(r[|r| - 1])
    ensures forall i :: |r| <= i < |s| ==> IsSpace(s[i])
  {
    if |s| > 0 && IsSpace(s[|s| - 1]) then RStrip(s[..|s| - 1]) else s
  }

  /** Number of occurrences of `c` in `s`. */
  function Count(s: string, c: char): nat {
    if |s| == 0 then 0 else Count(s[1..], c) + (if s[0] == c then 1 else 0)
  }

  /** `s.split(c)`: the maximal pieces of `s` between occurrences of `c`; the empty
      string splits into one empty piece, and every separator adds one piece. */
  function Split(s: string, c: char): (parts: seq<string>)
    ensures |parts| == Count(s, c) + 1
    ensures forall k :: 0 <= k < |parts| ==> c !in parts[k]
    ensures c !in s ==> parts == [s]
  {
    if |s| == 0 then [""]
    else
      var rest := Split(s[1..], c);
      if s[0] == c then [""] + rest
      else
        assert c !in s ==> rest[0] == s[1..] && [s[0]] + s[1..] == s;
        [[s[0]] + rest[0]] + rest[1..]
  }

  /** `c.join(parts)`, the inverse of Split. */
  function Join(parts: seq<string>, c: char): string
    decreases |parts|
  {
    if |parts| == 0 then ""
    else if |parts| == 1 then parts[0]
    else parts[0] + [c] + Join(parts[1..], c)
  }

  function Last<T>(s: seq<T>): T
    requires |s| > 0
  {
    s[|s| - 1]
  }

  lemma CountPositive(s: string, c: char)
    ensures c in s <==> Count(s, c) > 0
  {
    if |s| > 0 {
      CountPositive(s[1..], c);
      assert s == [s[0]] + s[1..];
    }
  }

  lemma {:induction false} JoinSplit(s: string, c: char)
    ensures Join(Split(s, c), c) == s
  {
    if |s| > 0 {
      JoinSplit(s[1..], c);
      var rest := Split(s[1..], c);
      if s[0] != c && |rest| > 1 {
        assert Split(s, c)[1..] == rest[1..];
      }
    }
  }

  lemma {:induction false} JoinSnoc(ps: seq<string>, p: string, c: char)
    requires |ps| >= 1
    ensures Join(ps + [p], c) == Join(ps, c) + [c] + p
    decreases |ps|
  {
    if |ps| > 1 {
      JoinSnoc(ps[1..], p, c);
      assert (ps + [p])[1..] == ps[1..] + [p];
    }
  }

  /** Text before a first separator becomes the first piece. */
  lemma {:induction false} SplitPrefix(a: string, b: string, c: char)
    requires c !in a
    ensures Split(a + [c] + b, c) == [a] + Split(b, c)
  {
    if |a| == 0 {
      assert a + [c] + b == [c] + b;
      assert ([c] + b)[1..] == b;
    } else {
      SplitPrefix(a[1..], b, c);
      assert (a + [c] + b)[1..] == a[1..] + [c] + b;
      assert [a[0]] + a[1..] == a;
    }
  }

  /** Splitting undoes joining pieces that do not hold the separator. */
  lemma {:induction false} SplitJoin(parts: seq<string>, c: char)
    requires |parts| >= 1
    requires forall k :: 0 <= k < |parts| ==> c !in parts[k]
    ensures Split(Join(parts, c), c) == parts
    decreases |parts|
  {
    if |parts| > 1 {
      SplitJoin(parts[1..], c);
      SplitPrefix(parts[0], Join(parts[1..], c), c);
      assert [parts[0]] + parts[1..] == parts;
    }
  }

  /** The first piece is the text before the first separator. */
  lemma SplitFirst(s: string, c: char)
    ensures Split(s, c)[0] <= s
    ensures |Split(s, c)[0]| < |s| ==> s[|Split(s, c)[0]|] == c
  {
    var parts := Split(s, c);
    JoinSplit(s, c);
    if |parts| > 1 {
      assert s == parts[0] + [c] + Join(parts[1..], c);
    }
  }

  /** The last piece is the text after the last separator. */
  lemma SplitLast(s: string, c: char)
    ensures |Last(Split(s, c))| <= |s|
    ensures Last(Split(s, c)) == s[|s| - |Last(Split(s, c))|..]
    ensures |Last(Split(s, c))| < |s| ==> s[|s| - |Last(Split(s, c))| - 1] == c
  {
    var parts := Split(s, c);
    JoinSplit(s, c);
    if |parts| > 1 {
      var n := |parts|;
      JoinSnoc(parts[..n - 1], parts[n - 1], c);
      assert parts[..n - 1] + [parts[n - 1]] == parts;
      assert s == Join(parts[..n - 1], c) + [c] + parts[n - 1];
    }
  }

  /** `s[i]` for a sequence of length `n`, with Python's negative indices: the
      position it reaches, or None where Python raises IndexError. */
  function PyIndex(n: nat, i: int): (r: Option<nat>)
    ensures r.Some? <==> -(n as int) <= i < n
    ensures r.Some? ==> r.value < n && r.value % n == i % n
  {
    if 0 <= i < n then Some(i)
    else if -(n as int) <= i < 0 then
      NegativeIndex(n, i);
      Some(i + n)
    else None
  }

  /** A negative index from -n up is congruent to the position n above it. */
  lemma NegativeIndex(n: nat, i: int)
    requires -(n as int) <= i < 0
    ensures (i + n) % n == i % n
  {
    assert i == (-1) * (n as int) + (i + n) && 0 <= i + n < n;
  }

  /** Prefixes of prefixes are prefixes. */
  lemma PrefixTrans<T>(a: seq<T>, b: seq<T>, c: seq<T>)
    requires a <= b && b <= c
    ensures a <= c
  {
    assert c[..|a|] == c[..|b|][..|a|];
  }

  /** `s[1:-1]`: empty for strings shorter than two characters. */
  function Mid(s: string): string {
    if |s| >= 2 then s[1..|s| - 1] else ""
  }

  /** `s[1:]`: empty for the empty string. */
  function Drop1(s: string): string {
    if |s| >= 1 then s[1..] else ""
  }

  predicate IsDigit(c: char) {
    '0' <= c <= '9'
  }

  predicate AllDigits(s: string) {
    forall i :: 0 <= i < |s| ==> IsDigit(s[i])
  }

  function DigitsValue(s: string): nat
    requires AllDigits(s)
  {
    if |s| == 0 then 0 else DigitsValue(s[..|s| - 1]) * 10 + (s[|s| - 1] as int - '0' as int)
  }

  /** `int(s)` on a string: an optional sign followed by at least one decimal digit;
      anything else is a ValueError, modelled as None. */
  function ParseInt(s: string): (r: Option<int>)
    ensures r.Some? ==> |s| > 0 && ':' !in s && ',' !in s
  {
    if |s| > 0 && (s[0] == '-' || s[0] == '+') then
      var body := s[1..];
      if |body| > 0 && AllDigits(body) then
        Some(if s[0] == '-' then -(DigitsValue(body) as int) else DigitsValue(body))
      else None
    else if |s| > 0 && AllDigits(s) then Some(DigitsValue(s))
    else None
  }

  /** `str(n)` for a natural number. */
  function NatToDecimal(n: nat): (s: string)
    ensures |s| > 0 && AllDigits(s)
  {
    if n < 10 then [('0' as int + n) as char]
    else NatToDecimal(n / 10) + [('0' as int + n % 10) as char]
  }

  /** `str(i)` for an integer. */
  function IntToDecimal(i: int): string {
    if i < 0 then "-" + NatToDecimal(-i) else NatToDecimal(i)
  }

  lemma {:induction false} DecimalDigitsRoundTrip(n: nat)
    ensures DigitsValue(NatToDecimal(n)) == n
  {
    if n >= 10 {
      DecimalDigitsRoundTrip(n / 10);
      var s := NatToDecimal(n);
      assert s[..|s| - 1] == NatToDecimal(n / 10);
    }
  }

  /** int(str(i)) == i. */
  lemma ParseIntRoundTrip(i: int)
    ensures ParseInt(IntToDecimal(i)) == Some(i)
  {
    if i < 0 {
      DecimalDigitsRoundTrip(-i);
      assert IntToDecimal(i)[1..] == NatToDecimal(-i);
    } else {
      DecimalDigitsRoundTrip(i);
    }
  }

  /** The base name of a path: the text of its last `/`-separated piece up to the
      first `.`. */
  function Stem(path: string): string {
    Split(Last(Split(path, '/')), '.')[0]
  }

  lemma StemShape(path: string)
    ensures '/' !in Stem(path) && '.' !in Stem(path)
    ensures var seg := Last(Split(path, '/'));
      && |seg| <= |path|
      && seg == path[|path| - |seg|..]
      && (|seg| < |path| ==> path[|path| - |seg| - 1] == '/')
      && Stem(path) <= seg
      && (|Stem(path)| < |seg| ==> seg[|Stem(path)|] == '.')
  {
    var seg := Last(Split(path, '/'));
    SplitLast(path, '/');
    SplitFirst(seg, '.');
    assert '/' !in seg;
    var r := Stem(path);
    forall i | 0 <= i < |r| ensures r[i] != '/' {
      assert r[i] == seg[i];
    }
  }

  /** The cells of a CSV line, as `line.rstrip().split(',')` gives them. */
  function Cells(line: string): (cells: seq<string>)
    ensures |cells| >= 1
  {
    Split(RStrip(line), ',')
  }
}
