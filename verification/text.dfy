/**
  The Python `str` operations the analysis relies on, over `string` (a
  sequence of Unicode scalar values): `strip`, `split(sep)`, `split(sep, 1)`,
  `rsplit(sep, 1)`, `lower()` as far as it matters for comparing with an
  ASCII word, and `int(s)` for decimal strings.
 */
module Text {
  import opened Options

  /** `c.isspace()`: the characters `str.strip()` removes by default. */
  predicate IsSpace(c: char)
  {
    || '\t' <= c <= '\r' || '\U{001C}' <= c <= ' ' || c == '\U{0085}' || c == '\U{00A0}'
    || c == '\U{1680}' || '\U{2000}' <= c <= '\U{200A}' || c == '\U{2028}' || c == '\U{2029}'
    || c == '\U{202F}' || c == '\U{205F}' || c == '\U{3000}'
  }

  const Whitespace: set<char> := set c: char | '\0' <= c <= '\U{3000}' && IsSpace(c)

  // ----- strip -----

  /** Number of leading characters of `s` that belong to `cs`. */
  function LeadingIn(s: string, cs: set<char>): (a: nat)
    ensures a <= |s|
  {
    if |s| == 0 || s[0] !in cs then 0 else LeadingIn(s[1..], cs) + 1
  }

  /** Where the trailing run of characters of `cs` starts, looking no further left than `a`. */
  function TrailingFrom(s: string, cs: set<char>, a: nat, b: nat): (e: nat)
    requires a <= b <= |s|
    ensures a <= e <= b
    decreases b
  {
    if b == a || s[b - 1] !in cs then b else TrailingFrom(s, cs, a, b - 1)
  }

  /** `s.strip(chars)` */
  function StripChars(s: string, cs: set<char>): string
  {
    var a := LeadingIn(s, cs);
    s[a..TrailingFrom(s, cs, a, |s|)]
  }

  lemma {:induction false} LeadingInSpec(s: string, cs: set<char>)
    ensures forall k :: 0 <= k < LeadingIn(s, cs) ==> s[k] in cs
    ensures LeadingIn(s, cs) < |s| ==> s[LeadingIn(s, cs)] !in cs
  {
    if |s| > 0 && s[0] in cs {
      LeadingInSpec(s[1..], cs);
      assert forall k :: 1 <= k < LeadingIn(s, cs) ==> s[k] == s[1..][k - 1];
    }
  }

  lemma {:induction false} TrailingFromSpec(s: string, cs: set<char>, a: nat, b: nat)
    requires a <= b <= |s|
    requires forall k :: b <= k < |s| ==> s[k] in cs
    ensures forall k :: TrailingFrom(s, cs, a, b) <= k < |s| ==> s[k] in cs
    ensures TrailingFrom(s, cs, a, b) > a ==> s[TrailingFrom(s, cs, a, b) - 1] !in cs
    decreases b
  {
    if b > a && s[b - 1] in cs {
      TrailingFromSpec(s, cs, a, b - 1);
    }
  }

  /**
    `StripChars` returns a middle slice of `s`: what it cuts off at either end
    consists of characters of `cs`, and what it keeps neither starts nor ends
    with one.
   */
  lemma StripCharsSpec(s: string, cs: set<char>)
    ensures exists a, b :: 0 <= a <= b <= |s| && StripChars(s, cs) == s[a..b]
                           && (forall k :: 0 <= k < a ==> s[k] in cs)
                           && (forall k :: b <= k < |s| ==> s[k] in cs)
    ensures |StripChars(s, cs)| > 0 ==>
              StripChars(s, cs)[0] !in cs && StripChars(s, cs)[|StripChars(s, cs)| - 1] !in cs
  {
    var a := LeadingIn(s, cs);
    var b := TrailingFrom(s, cs, a, |s|);
    LeadingInSpec(s, cs);
    TrailingFromSpec(s, cs, a, |s|);
    assert StripChars(s, cs) == s[a..b];
  }

  /** A string whose two end characters are outside `cs` is left unchanged. */
  lemma StripCharsKeeps(s: string, cs: set<char>)
    requires |s| > 0 && s[0] !in cs && s[|s| - 1] !in cs
    ensures StripChars(s, cs) == s
  {
  }

  /** Stripping a string wrapped in one character of `cs` at each end gives back the inner part, when that part neither starts nor ends with one. */
  lemma StripCharsWrapped(l: char, m: string, r: char, cs: set<char>)
    requires l in cs && r in cs
    requires |m| > 0 ==> m[0] !in cs && m[|m| - 1] !in cs
    ensures StripChars([l] + m + [r], cs) == m
  {
    var s := [l] + m + [r];
    assert s[1..] == m + [r];
    if |m| == 0 {
      assert s[1..][1..] == [];
      assert LeadingIn(s, cs) == 2;
    } else {
      assert LeadingIn(s, cs) == 1;
      assert TrailingFrom(s, cs, 1, |s|) == TrailingFrom(s, cs, 1, |s| - 1) == |s| - 1;
      assert s[1..|s| - 1] == m;
    }
  }

  /** `s.strip()` */
  function Strip(s: string): string
  {
    StripChars(s, Whitespace)
  }

  // ----- split -----

  /** Position of the first `c` in `s`. */
  function IndexOf(s: string, c: char): (i: nat)
    requires c in s
    ensures i < |s| && s[i] == c
    ensures c !in s[..i]
  {
    if s[0] == c then 0
    else
      assert c in s[1..];
      var j := IndexOf(s[1..], c);
      assert s[..j + 1] == [s[0]] + s[1..][..j];
      j + 1
  }

  /** Position of the last `c` in `s`. */
  function LastIndexOf(s: string, c: char): (i: nat)
    requires c in s
    ensures i < |s| && s[i] == c
    ensures c !in s[i + 1..]
  {
    if s[|s| - 1] == c then |s| - 1
    else
      assert s == s[..|s| - 1] + [s[|s| - 1]];
      assert c in s[..|s| - 1];
      var j := LastIndexOf(s[..|s| - 1], c);
      assert s[j + 1..] == s[..|s| - 1][j + 1..] + [s[|s| - 1]];
      j
  }

  /** `sep.join(parts)`, the inverse of `Split`. */
  function Join(parts: seq<string>, sep: char): string
  {
    if |parts| == 0 then ""
    else if |parts| == 1 then parts[0]
    else parts[0] + [sep] + Join(parts[1..], sep)
  }

  /** `s.split(sep, 1)`, given that `sep` occurs: the text before the first `sep` and everything after it. */
  function SplitFirst(s: string, sep: char): (r: (string, string))
    requires sep in s
    ensures sep !in r.0
    ensures s == r.0 + [sep] + r.1
  {
    var i := IndexOf(s, sep);
    assert s == s[..i] + [sep] + s[i + 1..];
    (s[..i], s[i + 1..])
  }

  /** `s.split(sep)`: never empty, and no piece holds `sep`. */
  function Split(s: string, sep: char): (parts: seq<string>)
    ensures |parts| >= 1
    ensures forall i :: 0 <= i < |parts| ==> sep !in parts[i]
    decreases |s|
  {
    if sep !in s then [s]
    else
      var (head, tail) := SplitFirst(s, sep);
      [head] + Split(tail, sep)
  }

  /** Joining the pieces of a split gives the string back. */
  lemma {:induction false} JoinSplit(s: string, sep: char)
    ensures Join(Split(s, sep), sep) == s
    decreases |s|
  {
    if sep in s {
      var (head, tail) := SplitFirst(s, sep);
      JoinSplit(tail, sep);
      assert ([head] + Split(tail, sep))[1..] == Split(tail, sep);
    }
  }

  /** `s.rsplit(sep, 1)` unpacked into two names: `None` where Python raises ValueError (no `sep`). */
  function SplitLast(s: string, sep: char): (r: Option<(string, string)>)
    ensures r.None? <==> sep !in s
    ensures r.Some? ==> sep !in r.value.1 && s == r.value.0 + [sep] + r.value.1
  {
    if sep !in s then None
    else
      var i := LastIndexOf(s, sep);
      assert s == s[..i] + [sep] + s[i + 1..];
      Some((s[..i], s[i + 1..]))
  }

  /** `SplitFirst` undoes a join at a separator absent from the first part. */
  lemma SplitFirstOfJoin(a: string, sep: char, b: string)
    requires sep !in a
    ensures sep in a + [sep] + b
    ensures SplitFirst(a + [sep] + b, sep) == (a, b)
  {
    var s := a + [sep] + b;
    assert s[|a|] == sep;
    var r := SplitFirst(s, sep);
    assert r.0 == s[..|a|] == a;
    assert r.1 == s[|a| + 1..] == b;
  }

  /** `SplitLast` undoes a join at a separator absent from the second part. */
  lemma SplitLastOfJoin(a: string, sep: char, b: string)
    requires sep !in b
    ensures SplitLast(a + [sep] + b, sep) == Some((a, b))
  {
    var s := a + [sep] + b;
    assert s[|a|] == sep;
    var r := SplitLast(s, sep).value;
    assert r.1 == s[|a| + 1..] == b;
    assert r.0 == s[..|a|] == a;
  }

  /** Splitting at a separator absent from the first part peels that part off. */
  lemma SplitOfJoin(a: string, sep: char, b: string)
    requires sep !in a
    ensures Split(a + [sep] + b, sep) == [a] + Split(b, sep)
  {
    SplitFirstOfJoin(a, sep, b);
  }

  /** A join starts with its first piece, or with the separator when that piece is empty. */
  lemma JoinFirst(parts: seq<string>, sep: char)
    requires |parts| >= 1
    requires |Join(parts, sep)| > 0
    ensures Join(parts, sep)[0] == if |parts[0]| > 0 then parts[0][0] else sep
  {
  }

  /** A join ends with its last piece, or with the separator when that piece is empty. */
  lemma {:induction false} JoinLast(parts: seq<string>, sep: char)
    requires |parts| >= 1
    requires |Join(parts, sep)| > 0
    ensures Join(parts, sep)[|Join(parts, sep)| - 1] ==
              if |parts[|parts| - 1]| > 0 then parts[|parts| - 1][|parts[|parts| - 1]| - 1] else sep
  {
    if |parts| > 1 {
      var rest := parts[1..];
      assert rest[|rest| - 1] == parts[|parts| - 1];
      if |Join(rest, sep)| > 0 {
        JoinLast(rest, sep);
      }
    }
  }

  /** Splitting a join of separator-free pieces gives the pieces back. */
  lemma {:induction false} SplitJoin(parts: seq<string>, sep: char)
    requires |parts| >= 1
    requires forall i :: 0 <= i < |parts| ==> sep !in parts[i]
    ensures Split(Join(parts, sep), sep) == parts
  {
    if |parts| > 1 {
      var rest := parts[1..];
      assert forall i :: 0 <= i < |rest| ==> rest[i] == parts[i + 1];
      SplitOfJoin(parts[0], sep, Join(rest, sep));
      SplitJoin(rest, sep);
      assert parts == [parts[0]] + rest;
    }
  }

  // ----- lower() -----

  /** Lower-cases ASCII letters and the Kelvin sign U+212A, whose `lower()` is 'k'. */
  function LowerChar(c: char): char
  {
    if 'A' <= c <= 'Z' then (c as int + 32) as char
    else if c == '\U{212A}' then 'k'
    else c
  }

  /** `s.lower()` as far as equality with an ASCII lower-case word is concerned. */
  function Lower(s: string): (r: string)
    ensures |r| == |s|
  {
    seq(|s|, i requires 0 <= i < |s| => LowerChar(s[i]))
  }

  // ----- int() -----

  predicate IsDigit(c: char)
  {
    '0' <= c <= '9'
  }

  /** The body `int()` accepts after the sign: ASCII digits, with single underscores between digits. */
  predicate DigitRun(s: string)
  {
    && |s| > 0
    && IsDigit(s[0])
    && forall i :: 0 <= i < |s| ==>
         IsDigit(s[i]) || (s[i] == '_' && i + 1 < |s| && IsDigit(s[i + 1]))
  }

  /** Decimal value of a digit run, underscores ignored. */
  function DigitsValue(s: string): nat
  {
    if |s| == 0 then 0
    else if IsDigit(s[|s| - 1]) then DigitsValue(s[..|s| - 1]) * 10 + (s[|s| - 1] as int - '0' as int)
    else DigitsValue(s[..|s| - 1])
  }

  /** `int(s)`: `None` where Python raises ValueError. */
  function ParseInt(s: string): Option<int>
  {
    var b := Strip(s);
    if |b| > 0 && (b[0] == '-' || b[0] == '+') then
      if DigitRun(b[1..]) then
        var v: int := DigitsValue(b[1..]);
        Some(if b[0] == '-' then -v else v)
      else None
    else if DigitRun(b) then Some(DigitsValue(b) as int)
    else None
  }

  /** Decimal digits of a natural number, most significant first. */
  function NatToString(n: nat): (r: string)
    ensures |r| > 0
    ensures forall i :: 0 <= i < |r| ==> IsDigit(r[i])
    ensures DigitsValue(r) == n
  {
    if n < 10 then [('0' as int + n) as char]
    else
      var r := NatToString(n / 10) + [('0' as int + n % 10) as char];
      assert r[..|r| - 1] == NatToString(n / 10);
      r
  }

  /** `str(n)` for an integer. */
  function IntToString(n: int): (r: string)
    ensures |r| > 0 && '_' !in r
  {
    if n < 0 then "-" + NatToString(-n) else NatToString(n)
  }

  /** `int(str(n)) == n`. */
  lemma ParseIntOfIntToString(n: int)
    ensures ParseInt(IntToString(n)) == Some(n)
  {
    var s := IntToString(n);
    var d := NatToString(if n < 0 then -n else n);
    assert DigitRun(d);
    assert s[|s| - 1] == d[|d| - 1];
    StripCharsKeeps(s, Whitespace);
    if n < 0 {
      assert s[1..] == d;
    } else {
      assert s == d;
    }
  }
}
