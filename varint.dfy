/** The variable-length integer ("varint") of the SQLite file format: one to
    nine bytes, big-endian; each of the first eight contributes its low seven
    bits and, with its high bit set, says that another byte follows; a ninth
    byte contributes all eight of its bits.

    src/varint.rs is not part of this model; `Parse` is the format's own
    definition, which the reader's `parse_varint` implements.
 */
module Varint {
  import opened Bytes

  /** 128 to the power n: one more than the largest value of n seven-bit groups. */
  function Pow128(n: nat): (r: nat)
    ensures r >= 1
  {
    if n == 0 then 1 else 0x80 * Pow128(n - 1)
  }

  /** The number of bytes of the varint at the front of `s`, looking from byte
      `i` on: the first of bytes 0..7 with its high bit clear ends it, else
      byte 8 does.  When `s` stops early the count exceeds `|s|`. */
  function LengthFrom(s: seq<Byte>, i: nat): (n: nat)
    requires i <= 8
    ensures i + 1 <= n <= 9
    decreases 8 - i
  {
    if i == 8 || i >= |s| || s[i] < 0x80 then i + 1 else LengthFrom(s, i + 1)
  }

  function Length(s: seq<Byte>): (n: nat)
    ensures 1 <= n <= 9
  {
    LengthFrom(s, 0)
  }

  /** The buffer holds the whole varint; otherwise the reader runs off its end. */
  predicate Fits(s: seq<Byte>) {
    Length(s) <= |s|
  }

  /** The low seven bits of a byte. */
  function Low7(b: Byte): (r: nat)
    ensures r < 0x80 && r == b as int % 0x80
  {
    if b >= 0x80 then b as int - 0x80 else b as int
  }

  /** The value of the seven-bit groups of the first n bytes of `s`, the
      most significant first. */
  function Digits(s: seq<Byte>, n: nat): nat
    requires n <= |s|
  {
    if n == 0 then 0 else Digits(s, n - 1) * 0x80 + Low7(s[n - 1])
  }

  /** The value of an n-byte varint at the front of `s`. */
  function Value(s: seq<Byte>, n: nat): nat
    requires 1 <= n <= 9 && n <= |s|
  {
    if n == 9 then Digits(s, 8) * 0x100 + s[8] as int else Digits(s, n)
  }

  lemma {:induction false} DigitsBound(s: seq<Byte>, n: nat)
    requires n <= |s|
    ensures Digits(s, n) < Pow128(n)
  {
    if n > 0 {
      DigitsBound(s, n - 1);
    }
  }

  /** Only the first n bytes count. */
  lemma {:induction false} DigitsPrefix(s: seq<Byte>, t: seq<Byte>, n: nat)
    requires n <= |s| && n <= |t|
    requires forall i :: 0 <= i < n ==> s[i] == t[i]
    ensures Digits(s, n) == Digits(t, n)
  {
    if n > 0 {
      DigitsPrefix(s, t, n - 1);
    }
  }

  lemma ValueBound(s: seq<Byte>, n: nat)
    requires 1 <= n <= 9 && n <= |s|
    ensures Value(s, n) < 0x1_0000_0000_0000_0000
  {
    if n == 9 {
      DigitsBound(s, 8);
    } else {
      DigitsBound(s, n);
      Pow128Monotone(n, 8);
    }
  }

  lemma {:induction false} Pow128Monotone(m: nat, n: nat)
    requires m <= n
    ensures Pow128(m) <= Pow128(n)
  {
    if m < n {
      Pow128Monotone(m, n - 1);
    }
  }

  /** `parse_varint`: the value and the number of bytes read. */
  function Parse(s: seq<Byte>): (r: (Uint64, nat))
    requires Fits(s)
    ensures 1 <= r.1 <= 9 && r.1 <= |s|
  {
    var n := Length(s);
    ValueBound(s, n);
    (Value(s, n), n)
  }

  /** What `Parse` reads: every byte but the last has its continuation bit
      set, the last of fewer than nine bytes has it clear, and the value is
      the varint's value over exactly those bytes. */
  lemma ParseMeaning(s: seq<Byte>)
    requires Fits(s)
    ensures forall i :: 0 <= i < Parse(s).1 - 1 ==> s[i] >= 0x80
    ensures Parse(s).1 < 9 ==> s[Parse(s).1 - 1] < 0x80
  {
    LengthSkipsContinuations(s);
    LengthFromEndsAtStop(s, 0);
  }

  /** Every byte before the last one of a varint has its high bit set. */
  lemma LengthSkipsContinuations(s: seq<Byte>)
    ensures Length(s) - 1 <= |s|
    ensures forall j :: 0 <= j < Length(s) - 1 ==> s[j] >= 0x80
  {
    if Length(s) > 1 {
      LengthFromSkips(s, 0, Length(s) - 2);
    }
    forall j | 0 <= j < Length(s) - 1
      ensures s[j] >= 0x80
    {
      LengthFromSkips(s, 0, j);
    }
  }

  lemma {:induction false} LengthFromSkips(s: seq<Byte>, i: nat, j: nat)
    requires i <= j <= 8 && j < LengthFrom(s, i) - 1
    ensures j < |s| && s[j] >= 0x80
    decreases j - i
  {
    if j > i {
      LengthFromSkips(s, i + 1, j);
    }
  }

  lemma {:induction false} LengthFromEndsAtStop(s: seq<Byte>, i: nat)
    requires i <= 8
    ensures LengthFrom(s, i) < 9 && LengthFrom(s, i) <= |s| ==> s[LengthFrom(s, i) - 1] < 0x80
    decreases 8 - i
  {
    if !(i == 8 || i >= |s| || s[i] < 0x80) {
      LengthFromEndsAtStop(s, i + 1);
    }
  }

  // ---------------------------------------------------------------------
  // The encoder, as the partner of `Parse`

  /** Exactly k seven-bit groups of w, each with its high bit set. */
  function Continued(w: nat, k: nat): (r: seq<Byte>)
    requires w < Pow128(k)
    ensures |r| == k
    ensures forall i :: 0 <= i < k ==> r[i] >= 0x80
  {
    if k == 0 then [] else Continued(w / 0x80, k - 1) + [w % 0x80 + 0x80]
  }

  /** How many seven-bit groups the shortest encoding of v takes. */
  function GroupCount(v: nat): (k: nat)
    ensures k >= 1 && v < Pow128(k)
  {
    if v < 0x80 then 1 else 1 + GroupCount(v / 0x80)
  }

  /** The shortest varint encoding of v. */
  function Encode(v: Uint64): (r: seq<Byte>)
  {
    if v < Pow128(8) then
      var k := GroupCount(v);
      Continued(v / 0x80, k - 1) + [v % 0x80]
    else
      Continued(v / 0x100, 8) + [v % 0x100]
  }

  lemma {:induction false} DigitsContinued(w: nat, k: nat)
    requires w < Pow128(k)
    ensures Digits(Continued(w, k), k) == w
  {
    if k > 0 {
      var r := Continued(w, k);
      var c := Continued(w / 0x80, k - 1);
      assert r == c + [w % 0x80 + 0x80];
      DigitsPrefix(r, c, k - 1);
      DigitsContinued(w / 0x80, k - 1);
      assert Low7(r[k - 1]) == w % 0x80;
      DivMod(w, 0x80);
    }
  }

  lemma {:induction false} GroupCountMonotone(v: nat, k: nat)
    requires v < Pow128(k)
    ensures GroupCount(v) <= k || (v < 0x80 && k == 0)
  {
    if v >= 0x80 && k > 0 {
      GroupCountMonotone(v / 0x80, k - 1);
    }
  }

  /** Decoding an encoding gives back the value and the number of bytes written. */
  lemma RoundTrip(v: Uint64)
    ensures Fits(Encode(v)) && Parse(Encode(v)) == (v, |Encode(v)|)
  {
    var e := Encode(v);
    if v < Pow128(8) {
      ShortEncoding(v);
    } else {
      LongEncoding(v);
    }
    assert Length(e) == |e|;
    assert Value(e, |e|) == v;
  }

  lemma ShortEncoding(v: Uint64)
    requires v < Pow128(8)
    ensures Length(Encode(v)) == |Encode(v)| <= 8
    ensures Value(Encode(v), |Encode(v)|) == v
  {
    var k := GroupCount(v);
    var q, m := v / 0x80, v % 0x80;
    GroupCountMonotone(v, 8);
    QuotientGroups(v, k);
    var c := Continued(q, k - 1);
    assert Encode(v) == c + [m];
    DigitsContinued(q, k - 1);
    LastGroup(c, m, q);
    DivMod(v, 0x80);
  }

  /** Continuation bytes followed by one final group form a whole varint of
      that many bytes, whose value extends the groups' value by the last one. */
  lemma LastGroup(c: seq<Byte>, m: Byte, q: nat)
    requires |c| < 8 && m < 0x80 && Digits(c, |c|) == q
    requires forall i :: 0 <= i < |c| ==> c[i] >= 0x80
    ensures Length(c + [m]) == |c + [m]|
    ensures Value(c + [m], |c + [m]|) == q * 0x80 + m
  {
    var e := c + [m];
    LengthFromStops(e, 0, |c|);
    DigitsSnoc(c, m);
  }

  /** Appending a final seven-bit group. */
  lemma DigitsSnoc(c: seq<Byte>, m: Byte)
    requires m < 0x80
    ensures Digits(c + [m], |c| + 1) == Digits(c, |c|) * 0x80 + m
  {
    DigitsPrefix(c + [m], c, |c|);
  }

  lemma DivMod(v: nat, d: nat)
    requires d > 0
    ensures v / d * d + v % d == v
  {
  }

  lemma LongEncoding(v: Uint64)
    requires v >= Pow128(8)
    ensures Length(Encode(v)) == |Encode(v)| == 9
    ensures Value(Encode(v), 9) == v
  {
    var e := Encode(v);
    Quotient256Bound(v);
    var c := Continued(v / 0x100, 8);
    assert e == c + [v % 0x100];
    LengthFromStops(e, 0, 8);
    DigitsPrefix(e, c, 8);
    DigitsContinued(v / 0x100, 8);
    DivMod(v, 0x100);
  }

  lemma QuotientGroups(v: nat, k: nat)
    requires k >= 1 && v < Pow128(k)
    ensures v / 0x80 < Pow128(k - 1)
  {
  }

  lemma Quotient256Bound(v: Uint64)
    ensures v / 0x100 < Pow128(8)
  {
  }

  /** The length scan stops at the first byte `m` without a continuation bit. */
  lemma {:induction false} LengthFromStops(s: seq<Byte>, i: nat, m: nat)
    requires i <= m <= 8 && m < |s|
    requires forall j :: i <= j < m ==> s[j] >= 0x80
    requires m < 8 ==> s[m] < 0x80
    ensures LengthFrom(s, i) == m + 1
    decreases m - i
  {
    if i < m {
      LengthFromStops(s, i + 1, m);
    }
  }

  // ---------------------------------------------------------------------
  // A varint is read from its own bytes only

  /** Bytes after a whole varint do not change what is read. */
  lemma ParseOnPrefix(s: seq<Byte>, rest: seq<Byte>)
    requires Fits(s)
    ensures Fits(s + rest) && Parse(s + rest) == Parse(s)
  {
    var t := s + rest;
    LengthFromOnPrefix(s, t, 0);
    var n := Length(s);
    DigitsPrefix(t, s, if n == 9 then 8 else n);
  }

  lemma {:induction false} LengthFromOnPrefix(s: seq<Byte>, t: seq<Byte>, i: nat)
    requires i <= 8 && s <= t && LengthFrom(s, i) <= |s|
    ensures LengthFrom(t, i) == LengthFrom(s, i)
    decreases 8 - i
  {
    if !(i == 8 || i >= |s| || s[i] < 0x80) {
      LengthFromOnPrefix(s, t, i + 1);
    }
  }
}
