/** The string operations of Rust's standard library that the reader uses,
    over `string` (a sequence of `char`).

    Text read from the database is UTF-8; the model keeps each byte as the
    `char` with that code (see `Chars`), so comparisons and splits on ASCII
    separators behave exactly as on the UTF-8 bytes.
 */
module Strings {
  import opened Bytes

  /** The text of a byte string, one `char` per byte. */
  function Chars(b: seq<Byte>): (r: string)
    ensures |r| == |b|
    ensures forall i :: 0 <= i < |b| ==> r[i] as int == b[i]
  {
    seq(|b|, i requires 0 <= i < |b| => b[i] as char)
  }

  /** Distinct byte strings give distinct texts, so comparing texts compares bytes. */
  lemma CharsInjective(a: seq<Byte>, b: seq<Byte>)
    requires Chars(a) == Chars(b)
    ensures a == b
  {
    assert |a| == |Chars(a)| == |b|;
    forall i | 0 <= i < |a|
      ensures a[i] == b[i]
    {
      assert Chars(a)[i] == Chars(b)[i];
    }
  }

  // ---------------------------------------------------------------------
  // Decimal numerals (`to_string` of an unsigned integer)

  function DigitChar(d: nat): char
    requires d < 10
  {
    (d + '0' as int) as char
  }

  predicate IsDigit(c: char) {
    '0' <= c <= '9'
  }

  function DigitValue(c: char): nat
    requires IsDigit(c)
  {
    c as int - '0' as int
  }

  /** The decimal numeral of `n`, without leading zeros. */
  function Decimal(n: nat): (r: string)
    ensures |r| >= 1
    ensures forall i :: 0 <= i < |r| ==> IsDigit(r[i])
    ensures r[0] == '0' ==> n == 0
  {
    if n < 10 then [DigitChar(n)] else Decimal(n / 10) + [DigitChar(n % 10)]
  }

  /** The number a string of digits denotes. */
  function DecimalValue(s: string): nat
    requires forall i :: 0 <= i < |s| ==> IsDigit(s[i])
  {
    if s == [] then 0 else DecimalValue(s[..|s| - 1]) * 10 + DigitValue(s[|s| - 1])
  }

  lemma {:induction false} DecimalRoundTrip(n: nat)
    ensures DecimalValue(Decimal(n)) == n
  {
    if n >= 10 {
      DecimalRoundTrip(n / 10);
      var s := Decimal(n);
      assert s[..|s| - 1] == Decimal(n / 10);
    }
  }

  /** Different numbers have different numerals. */
  lemma DecimalInjective(m: nat, n: nat)
    requires Decimal(m) == Decimal(n)
    ensures m == n
  {
    DecimalRoundTrip(m);
    DecimalRoundTrip(n);
  }

  // ---------------------------------------------------------------------
  // Splitting and joining (`str::split`)

  /** `s.split(c)`: the pieces between occurrences of `c`; there is always
      at least one piece, and the empty string gives one empty piece. */
  function Split(s: string, c: char): (r: seq<string>)
    ensures |r| >= 1
    ensures forall i :: 0 <= i < |r| ==> c !in r[i]
  {
    if s == [] then [""]
    else if s[0] == c then [""] + Split(s[1..], c)
    else
      var rest := Split(s[1..], c);
      [[s[0]] + rest[0]] + rest[1..]
  }

  /** The pieces put back together with `c` between them. */
  function Join(parts: seq<string>, c: char): string
    requires |parts| >= 1
  {
    if |parts| == 1 then parts[0] else parts[0] + [c] + Join(parts[1..], c)
  }

  /** Splitting loses nothing: joining the pieces gives back the string. */
  lemma {:induction false} JoinSplit(s: string, c: char)
    ensures Join(Split(s, c), c) == s
  {
    if s != [] {
      JoinSplit(s[1..], c);
      var rest := Split(s[1..], c);
      if s[0] != c && |rest| > 1 {
        assert Split(s, c)[1..] == rest[1..];
      }
    }
  }

  /** A string without `c` is one piece. */
  lemma {:induction false} SplitWhole(p: string, c: char)
    requires c !in p
    ensures Split(p, c) == [p]
  {
    if p != [] {
      SplitWhole(p[1..], c);
      assert [p[0]] + p[1..] == p;
    }
  }

  /** A piece without `c` followed by `c` splits off as the first piece. */
  lemma {:induction false} SplitAfterPiece(p: string, s: string, c: char)
    requires c !in p
    ensures Split(p + [c] + s, c) == [p] + Split(s, c)
  {
    var t := p + [c] + s;
    if p == [] {
      assert t[0] == c && t[1..] == s;
    } else {
      assert t[0] == p[0] && t[1..] == p[1..] + [c] + s;
      SplitAfterPiece(p[1..], s, c);
      assert [p[0]] + p[1..] == p;
    }
  }

  /** Joining loses nothing either: splitting pieces without `c` that were
      joined with `c` gives back the pieces. */
  lemma {:induction false} SplitJoin(parts: seq<string>, c: char)
    requires |parts| >= 1
    requires forall i :: 0 <= i < |parts| ==> c !in parts[i]
    ensures Split(Join(parts, c), c) == parts
    decreases |parts|
  {
    if |parts| == 1 {
      SplitWhole(parts[0], c);
    } else {
      SplitJoin(parts[1..], c);
      SplitAfterPiece(parts[0], Join(parts[1..], c), c);
      assert [parts[0]] + parts[1..] == parts;
    }
  }

  /** A leading character other than `c` joins the first piece. */
  lemma SplitCons(x: char, s: string, c: char)
    requires x != c
    ensures Split([x] + s, c) == [[x] + Split(s, c)[0]] + Split(s, c)[1..]
  {
    assert ([x] + s)[0] == x && ([x] + s)[1..] == s;
  }

  /** The part of `s` before the first `c` (`s.split(c).next()`). */
  function Prefix(s: string, c: char): (r: string)
    ensures c !in r
    ensures r <= s
    ensures |r| < |s| ==> s[|r|] == c
  {
    PrefixIsFirstPiece(s, c);
    Split(s, c)[0]
  }

  lemma {:induction false} PrefixIsFirstPiece(s: string, c: char)
    ensures Split(s, c)[0] <= s
    ensures |Split(s, c)[0]| < |s| ==> s[|Split(s, c)[0]|] == c
  {
    if s != [] && s[0] != c {
      PrefixIsFirstPiece(s[1..], c);
    }
  }

  // ---------------------------------------------------------------------
  // Trimming (`trim_start_matches`, `trim_end_matches`, `trim_matches`, `trim`)

  /** `s` without its leading characters from `cs`. */
  function TrimStart(s: string, cs: set<char>): (r: string)
    ensures |r| <= |s| && r == s[|s| - |r|..]
    ensures forall i :: 0 <= i < |s| - |r| ==> s[i] in cs
    ensures r != [] ==> r[0] !in cs
  {
    if s != [] && s[0] in cs then
      var r := TrimStart(s[1..], cs);
      assert s[1..][|s| - 1 - |r|..] == s[|s| - |r|..];
      assert forall i :: 1 <= i < |s| - |r| ==> s[i] == s[1..][i - 1];
      r
    else s
  }

  /** `s` without its trailing characters from `cs`. */
  function TrimEnd(s: string, cs: set<char>): (r: string)
    ensures r <= s
    ensures forall i :: |r| <= i < |s| ==> s[i] in cs
    ensures r != [] ==> r[|r| - 1] !in cs
  {
    if s != [] && s[|s| - 1] in cs then TrimEnd(s[..|s| - 1], cs) else s
  }

  /** Leading characters from `cs` are all removed, and no more. */
  lemma {:induction false} TrimStartOver(lead: string, t: string, cs: set<char>)
    requires forall i :: 0 <= i < |lead| ==> lead[i] in cs
    requires t == [] || t[0] !in cs
    ensures TrimStart(lead + t, cs) == t
  {
    if lead != [] {
      assert (lead + t)[1..] == lead[1..] + t;
      TrimStartOver(lead[1..], t, cs);
    } else {
      assert lead + t == t;
    }
  }

  /** A string cut at `c` is the part before it. */
  lemma {:induction false} PrefixOf(a: string, b: string, c: char)
    requires c !in a
    requires b == [] || b[0] == c
    ensures Prefix(a + b, c) == a
    decreases |a|
  {
    if a == [] {
      assert a + b == b;
    } else {
      assert (a + b)[0] == a[0] && (a + b)[1..] == a[1..] + b;
      PrefixOf(a[1..], b, c);
      assert [a[0]] + a[1..] == a;
    }
  }

  /** `s` without leading and trailing characters from `cs`. */
  function Trim(s: string, cs: set<char>): string {
    TrimEnd(TrimStart(s, cs), cs)
  }

  /** The characters `str::trim` removes; the model keeps to the ASCII ones. */
  const Whitespace: set<char> := {' ', '\t', '\n', '\r', '\U{B}', '\U{C}'}

  /** `s.trim_start_matches(|x| x != c)`: `s` from its first `c` on, or empty. */
  function DropUntil(s: string, c: char): (r: string)
    ensures |r| <= |s| && r == s[|s| - |r|..]
    ensures c !in s[..|s| - |r|]
    ensures r != [] ==> r[0] == c
    ensures c in s ==> r != []
  {
    if s == [] || s[0] == c then s else DropUntil(s[1..], c)
  }

  /** Everything before the first `c` is dropped. */
  lemma {:induction false} DropUntilSkips(head: string, c: char, t: string)
    requires c !in head
    ensures DropUntil(head + [c] + t, c) == [c] + t
    decreases |head|
  {
    if head == [] {
      assert head + [c] + t == [c] + t;
    } else {
      assert (head + [c] + t)[1..] == head[1..] + [c] + t;
      DropUntilSkips(head[1..], c, t);
    }
  }
}
