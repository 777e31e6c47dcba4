/** Numbers and lists as text, and values that may be missing. */
module Text {

  datatype Option<+T> = None | Some(value: T)

  // Decimal numbers ----------------------------------------------------------

  const DIGITS := "0123456789"

  predicate IsDigit(c: char) { '0' <= c <= '9' }

  function Digit(d: nat): (c: char)
    requires d < 10
    ensures IsDigit(c) && c as int - '0' as int == d
  {
    DIGITS[d]
  }

  /** `%u` */
  function Decimal(n: nat): (s: string)
    ensures s != [] && forall i :: 0 <= i < |s| ==> IsDigit(s[i])
  {
    if n < 10 then [Digit(n)] else Decimal(n / 10) + [Digit(n % 10)]
  }

  /** `%d`, given the 32-bit value as an unsigned number. */
  function Signed(n: nat): string
    requires n < 0x1_0000_0000
  {
    if n < 0x8000_0000 then Decimal(n) else "-" + Decimal(0x1_0000_0000 - n)
  }

  /** The digits at the front of `s`, as a number, continuing `acc`. */
  function Leading(s: string, acc: nat): nat {
    if s == [] || !IsDigit(s[0]) then acc
    else Leading(s[1..], 10 * acc + (s[0] as int - '0' as int))
  }

  predicate IsSpace(c: char) { c == ' ' || c == '\t' || c == '\n' || c == '\r' }

  function SkipSpace(s: string): string {
    if s != [] && IsSpace(s[0]) then SkipSpace(s[1..]) else s
  }

  /** g_ascii_strtoull in base 10: a sign is allowed, and a negative number is
      taken modulo 2^64. */
  function StrToULL(s: string): nat {
    var t := SkipSpace(s);
    var max := 0x1_0000_0000_0000_0000;
    if t != [] && t[0] == '-' then
      var n := Leading(t[1..], 0);
      if n >= max then max - 1 else (max - n) % max
    else
      var n := Leading(if t != [] && t[0] == '+' then t[1..] else t, 0);
      if n >= max then max - 1 else n
  }

  /** The first digits of a number, then the rest of it. */
  lemma {:induction false} LeadingConcat(s: string, t: string, acc: nat)
    requires forall i :: 0 <= i < |s| ==> IsDigit(s[i])
    ensures Leading(s + t, acc) == Leading(t, Leading(s, acc))
  {
    if s == [] {
      assert s + t == t;
    } else {
      assert (s + t)[1..] == s[1..] + t;
      LeadingConcat(s[1..], t, 10 * acc + (s[0] as int - '0' as int));
    }
  }

  lemma {:induction false} LeadingDecimal(n: nat)
    ensures Leading(Decimal(n), 0) == n
  {
    if n < 10 {
      assert [Digit(n)][1..] == [];
    } else {
      LeadingDecimal(n / 10);
      LeadingConcat(Decimal(n / 10), [Digit(n % 10)], 0);
      assert [Digit(n % 10)][1..] == [];
    }
  }

  lemma DecimalInjective(m: nat, n: nat)
    requires Decimal(m) == Decimal(n)
    ensures m == n
  {
    LeadingDecimal(m);
    LeadingDecimal(n);
  }

  lemma ReadDecimal(n: nat)
    requires n < 0x1_0000_0000
    ensures StrToULL(Decimal(n)) == n
  {
    LeadingDecimal(n);
    assert IsDigit(Decimal(n)[0]);
  }

  lemma NegativeWraps(m: nat)
    requires 0 < m <= 0x8000_0000
    ensures (0x1_0000_0000_0000_0000 - m) % 0x1_0000_0000_0000_0000 % 0x1_0000_0000 == 0x1_0000_0000 - m
  {
    var q := 0x1_0000_0000;
    assert 0x1_0000_0000_0000_0000 - m == (q - 1) * q + (q - m);
  }

  /** A 32-bit number printed as signed and read as unsigned is unchanged, even
      when the sign bit is set. */
  lemma ReadSigned(n: nat)
    requires n < 0x1_0000_0000
    ensures StrToULL(Signed(n)) % 0x1_0000_0000 == n
  {
    if n < 0x8000_0000 {
      ReadDecimal(n);
    } else {
      var m := 0x1_0000_0000 - n;
      LeadingDecimal(m);
      assert Signed(n)[0] == '-' && Signed(n)[1..] == Decimal(m);
      assert SkipSpace(Signed(n)) == Signed(n);
      hide Decimal, Leading, Signed, SkipSpace;
      NegativeWraps(m);
    }
  }

  // Splitting and joining ----------------------------------------------------

  predicate Without(s: string, c: char) { c !in s }

  /** g_strsplit with a one-character delimiter, for a non-empty string. */
  function Pieces(s: string, c: char): (r: seq<string>)
    ensures r != []
  {
    if s == [] then [[]]
    else
      var rest := Pieces(s[1..], c);
      if s[0] == c then [[]] + rest else [[s[0]] + rest[0]] + rest[1..]
  }

  function Split(s: string, c: char): seq<string> { if s == [] then [] else Pieces(s, c) }

  function Join(ts: seq<string>, c: char): string
    requires ts != []
  {
    if |ts| == 1 then ts[0] else ts[0] + [c] + Join(ts[1..], c)
  }

  lemma {:induction false} PiecesOfOne(s: string, c: char)
    requires Without(s, c)
    ensures Pieces(s, c) == [s]
  {
    if s != [] {
      assert s[0] in s;
      PiecesOfOne(s[1..], c);
      assert [s[0]] + s[1..] == s;
    }
  }

  lemma {:induction false} PiecesConcat(s: string, c: char, t: string)
    requires Without(s, c)
    ensures Pieces(s + [c] + t, c) == [s] + Pieces(t, c)
  {
    var u := s + [c] + t;
    if s == [] {
      assert u[1..] == t;
    } else {
      assert u[1..] == s[1..] + [c] + t && s[0] in s;
      PiecesConcat(s[1..], c, t);
      assert [s[0]] + s[1..] == s;
    }
  }

  /** Splitting undoes joining. */
  lemma {:induction false} SplitJoin(ts: seq<string>, c: char)
    requires ts != [] && forall i :: 0 <= i < |ts| ==> Without(ts[i], c)
    ensures Pieces(Join(ts, c), c) == ts
  {
    if |ts| == 1 {
      PiecesOfOne(ts[0], c);
    } else {
      SplitJoin(ts[1..], c);
      PiecesConcat(ts[0], c, Join(ts[1..], c));
    }
  }
}
