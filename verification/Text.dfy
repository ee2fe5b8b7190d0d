/** Byte strings. A byte of the program is modelled as the `char` whose code is the byte's unsigned
    value, so `string` stands for `std::string`; no theorem below restricts the codes. */
module Text {
  datatype Option<+T> = None | Some(value: T)
  {
    predicate IsFailure() {
      None?
    }

    function PropagateFailure<U>(): Option<U>
      requires None?
    {
      None
    }

    function Extract(): T
      requires Some?
    {
      value
    }
  }

  const CRLF := "\r\n"

  /** The text `w` occurs in `t` at index `p`. */
  predicate At(t: string, p: nat, w: string) {
    p + |w| <= |t| && t[p..p + |w|] == w
  }

  /** `t.find(w, p)`: the first occurrence of `w` at or after `p`. */
  function Find(t: string, w: string, p: nat): (r: Option<nat>)
    ensures r.Some? ==> p <= r.value <= r.value + |w| <= |t| && At(t, r.value, w)
    ensures r.Some? ==> forall i :: p <= i < r.value ==> !At(t, i, w)
    ensures r.None? ==> forall i :: p <= i ==> !At(t, i, w)
    decreases |t| - p
  {
    if p + |w| > |t| then None
    else if At(t, p, w) then Some(p)
    else Find(t, w, p + 1)
  }

  lemma FindIs(t: string, w: string, p: nat, q: nat)
    requires p <= q && At(t, q, w)
    requires forall i :: p <= i < q ==> !At(t, i, w)
    ensures Find(t, w, p) == Some(q)
  {
    var r := Find(t, w, p);
  }

  /** A match found in a window of `t` is the match found in the whole text behind that window. */
  lemma FindInWindow(t: string, w: string, p: nat, rest: string)
    requires p <= |t| && Find(t, w, p).Some?
    ensures Find(t[p..] + rest, w, 0) == Some(Find(t, w, p).value - p)
  {
    var q, s := Find(t, w, p).value, t[p..] + rest;
    assert At(s, q - p, w) by { assert s[q - p..q - p + |w|] == t[q..q + |w|]; }
    forall i | 0 <= i < q - p ensures !At(s, i, w) {
      assert !At(t, p + i, w);
      assert s[i..i + |w|] == t[p + i..p + i + |w|];
    }
    FindIs(s, w, 0, q - p);
  }

  lemma AtWindow(t: string, p: nat, q: nat)
    requires p <= q <= |t|
    ensures At(t, p, t[p..q]) && |t[p..q]| == q - p
  {
  }

  lemma AtIndex(t: string, p: nat, w: string, i: nat)
    requires i < |w|
    ensures At(t, p, w) ==> p + i < |t| && t[p + i] == w[i]
  {
    if At(t, p, w) { assert t[p..p + |w|][i] == w[i]; }
  }

  lemma AtInWindow(t: string, a: nat, b: nat, i: nat, w: string)
    requires a <= b <= |t|
    ensures At(t[a..b], i, w) <==> a + i + |w| <= b && At(t, a + i, w)
  {
    if a + i + |w| <= b {
      var x, y := t[a..b][i..i + |w|], t[a + i..a + i + |w|];
      assert forall k :: 0 <= k < |w| ==> x[k] == t[a + i + k] == y[k];
      assert x == y;
    }
  }

  lemma NotFindInSuffix(t: string, w: string, p: nat)
    requires p <= |t| && Find(t, w, p).None?
    ensures Find(t[p..], w, 0).None?
  {
    forall i: nat ensures !At(t[p..], i, w) {
      assert !At(t, p + i, w);
      if p + i + |w| <= |t| { assert t[p..][i..i + |w|] == t[p + i..p + i + |w|]; }
    }
  }

  lemma AtConcat(t: string, p: nat, a: string, b: string)
    ensures At(t, p, a + b) <==> At(t, p, a) && At(t, p + |a|, b)
  {
    if p + |a| + |b| <= |t| {
      assert t[p..p + |a + b|] == t[p..p + |a|] + t[p + |a|..p + |a| + |b|];
      assert (a + b)[..|a|] == a && (a + b)[|a|..] == b;
      if At(t, p, a + b) {
        assert t[p..p + |a|] == (a + b)[..|a|];
        assert t[p + |a|..p + |a| + |b|] == (a + b)[|a|..];
      }
    }
  }

  /** Two splits of one text agree behind a common position. */
  lemma SplitsAgree(a: string, b: string, c: string, d: string, p: nat)
    requires p <= |a| && p <= |c| && a + b == c + d
    ensures a[p..] + b == c[p..] + d
  {
    assert a[p..] + b == (a + b)[p..];
    assert c[p..] + d == (c + d)[p..];
  }

  predicate IsSpace(c: char) {
    c == ' ' || '\t' <= c <= '\r'
  }

  predicate IsDecimal(c: char) {
    '0' <= c <= '9'
  }

  predicate IsHex(c: char) {
    IsDecimal(c) || 'a' <= c <= 'f' || 'A' <= c <= 'F'
  }

  predicate All(s: string, p: char -> bool) {
    forall i :: 0 <= i < |s| ==> p(s[i])
  }
}

/** Decimal and hexadecimal numerals as the standard library prints and reads them. */
module Numerals {
  import opened Text

  const SIZE_LIMIT := 0x1_0000_0000_0000_0000

  function DigitValue(c: char): (d: nat)
    requires IsHex(c)
    ensures d < 16 && (IsDecimal(c) ==> d < 10)
  {
    if c <= '9' then c as int - '0' as int
    else if c <= 'F' then c as int - 'A' as int + 10
    else c as int - 'a' as int + 10
  }

  function DigitChar(d: nat): (c: char)
    requires d < 16
    ensures IsHex(c) && DigitValue(c) == d && (d < 10 ==> IsDecimal(c))
  {
    if d < 10 then (d + '0' as int) as char else (d - 10 + 'a' as int) as char
  }

  /** Whether `c` is a digit of the given base (10 or 16). */
  predicate IsDigit(c: char, base: nat) {
    if base == 10 then IsDecimal(c) else IsHex(c)
  }

  /** Positional value of a digit string. */
  function Value(s: string, base: nat): nat
    requires forall c <- s :: IsHex(c)
  {
    if s == "" then 0 else Value(s[..|s| - 1], base) * base + DigitValue(s[|s| - 1])
  }

  const LOWER_DIGITS := "0123456789abcdef"
  const UPPER_DIGITS := "0123456789ABCDEF"

  /** `c` is a digit for `i`, of either case. */
  predicate Stands(c: char, i: nat) {
    i < 16 && (c == LOWER_DIGITS[i] || c == UPPER_DIGITS[i])
  }

  /** The digits are those of the table, and digits are printed in lower case. */
  lemma DigitTable(i: nat)
    requires i < 16
    ensures IsHex(LOWER_DIGITS[i]) && DigitValue(LOWER_DIGITS[i]) == i && DigitChar(i) == LOWER_DIGITS[i]
    ensures IsHex(UPPER_DIGITS[i]) && DigitValue(UPPER_DIGITS[i]) == i
  {
  }

  lemma DigitsStand(c: char)
    ensures IsHex(c) ==> Stands(c, DigitValue(c))
    ensures forall i: nat :: Stands(c, i) ==> IsHex(c) && DigitValue(c) == i && (IsDecimal(c) <==> i < 10)
  {
    forall i: nat | Stands(c, i) ensures IsHex(c) && DigitValue(c) == i && (IsDecimal(c) <==> i < 10) { DigitTable(i); }
    if IsHex(c) { DigitTable(DigitValue(c)); }
  }

  /** The digits of `s`, by the table, write `n` in that base. */
  ghost predicate Spells(s: string, base: nat, n: nat)
    requires base > 0
  {
    if s == "" then n == 0
    else Stands(s[|s| - 1], n % base) && Spells(s[..|s| - 1], base, n / base)
  }

  /** The value of a numeral is what its digits write. */
  lemma {:induction false} SpellsExactly(s: string, base: nat, n: nat)
    requires base == 10 || base == 16
    ensures Spells(s, base, n) <==> (forall c <- s :: IsDigit(c, base) && IsHex(c)) && Value(s, base) == n
  {
    hide Stands, IsDecimal;
    if s != "" {
      var front, last := s[..|s| - 1], s[|s| - 1];
      assert forall c <- s :: c in front || c == last;
      assert forall c <- front :: c in s;
      DigitsStand(last);
      SpellsExactly(front, base, n / base);
    }
  }

  /** The numeral printed for `n`: no leading zeros, lower-case letters. */
  function Numeral(n: nat, base: nat): (s: string)
    requires base == 10 || base == 16
    ensures s != "" && forall c <- s :: IsDigit(c, base) && IsHex(c)
    ensures Value(s, base) == n
    ensures s[0] == '0' ==> s == "0"
    decreases n
  {
    if n < base then [DigitChar(n)] else
    var front := Numeral(n / base, base);
    var s := front + [DigitChar(n % base)];
    assert s[..|s| - 1] == front;
    s
  }

  /** `std::to_string` of an integer. */
  function IntText(n: int): string {
    if n < 0 then "-" + Numeral(-n, 10) else Numeral(n, 10)
  }

  /** How many leading characters of `s` are digits. */
  function DigitRun(s: string, base: nat): (n: nat)
    ensures n <= |s|
    ensures forall i :: 0 <= i < n ==> IsDigit(s[i], base) && IsHex(s[i])
    ensures n < |s| ==> !IsDigit(s[n], base)
  {
    if s != "" && IsDigit(s[0], base) then 1 + DigitRun(s[1..], base) else 0
  }

  function SkipSpaces(s: string): (r: string)
    ensures |r| <= |s| && (r != "" ==> !IsSpace(r[0]))
  {
    if s != "" && IsSpace(s[0]) then SkipSpaces(s[1..]) else s
  }

  /** The text of a C integer conversion split into its sign and its digits. */
  function SignedDigits(s: string, base: nat): (r: (bool, string))
    ensures forall c <- r.1 :: IsHex(c)
  {
    var t := SkipSpaces(s);
    var negative := t != "" && t[0] == '-';
    var u := if t != "" && (t[0] == '-' || t[0] == '+') then t[1..] else t;
    var v := if base == 16 && |u| > 2 && u[0] == '0' && u[1] in "xX" && IsHex(u[2]) then u[2..] else u;
    (negative, v[..DigitRun(v, base)])
  }

  /** `strtoull(s, nullptr, 16)`: saturates, and negates modulo 2^64 after a minus sign. */
  function Strtoull16(s: string): (n: nat)
    ensures n < SIZE_LIMIT
  {
    var (negative, digits) := SignedDigits(s, 16);
    var n := Value(digits, 16);
    if n >= SIZE_LIMIT then SIZE_LIMIT - 1
    else if negative then (SIZE_LIMIT - n) % SIZE_LIMIT
    else n
  }

  /** `std::stoull(s)`: `None` where it throws, for a text without digits or out of range. */
  function Stoull10(s: string): (r: Option<nat>)
    ensures r.Some? ==> r.value < SIZE_LIMIT
  {
    var (negative, digits) := SignedDigits(s, 10);
    var n := Value(digits, 10);
    if digits == "" || n >= SIZE_LIMIT then None
    else if negative then Some((SIZE_LIMIT - n) % SIZE_LIMIT)
    else Some(n)
  }

  lemma DigitRunOfDigits(s: string, base: nat)
    requires forall c <- s :: IsDigit(c, base)
    ensures DigitRun(s, base) == |s|
  {
    if s != "" {
      assert forall c <- s[1..] :: c in s;
      DigitRunOfDigits(s[1..], base);
    }
  }

  lemma SignedDigitsOfDigits(s: string, base: nat)
    requires base == 10 || base == 16
    requires s != "" && forall c <- s :: IsDigit(c, base) && IsHex(c)
    ensures SignedDigits(s, base) == (false, s)
  {
    DigitRunOfDigits(s, base);
    assert IsHex(s[0]);
    assert |s| > 1 ==> IsHex(s[1]);
    assert s[..|s|] == s;
  }

  /** What is printed for a size is read back as that size. */
  lemma ReadPrintedSize(n: nat)
    requires n < SIZE_LIMIT
    ensures Strtoull16(Numeral(n, 16)) == n
    ensures Stoull10(Numeral(n, 10)) == Some(n)
  {
    SignedDigitsOfDigits(Numeral(n, 10), 10);
    SignedDigitsOfDigits(Numeral(n, 16), 16);
  }

  // ---------- The C conversions, told from the parts of their text ----------

  /** The text of an integer as C reads it: white space, a sign, digits, and what they end at. */
  datatype CInteger = CInteger(spaces: string, sign: string, digits: string, rest: string)
  {
    ghost predicate Valid(base: nat) {
      && (forall c <- spaces :: IsSpace(c)) && (sign == "" || sign == "+" || sign == "-")
      && digits != "" && (forall c <- digits :: IsDigit(c, base) && IsHex(c))
      && (rest != "" ==> !IsDigit(rest[0], base))
      && (base == 16 && digits == "0" ==> !(|rest| > 1 && (rest[0] == 'x' || rest[0] == 'X') && IsHex(rest[1])))
    }

    function Text(): string {
      spaces + (sign + (digits + rest))
    }
  }

  lemma {:induction false} SpacesAreSkipped(spaces: string, s: string)
    requires (forall c <- spaces :: IsSpace(c)) && (s != "" ==> !IsSpace(s[0]))
    ensures SkipSpaces(spaces + s) == s
  {
    if spaces == "" {
      assert spaces + s == s;
    } else {
      assert spaces[0] in spaces && forall c <- spaces[1..] :: c in spaces;
      assert (spaces + s)[1..] == spaces[1..] + s;
      SpacesAreSkipped(spaces[1..], s);
    }
  }

  lemma {:induction false} RunEnds(digits: string, rest: string, base: nat)
    requires (forall c <- digits :: IsDigit(c, base)) && (rest != "" ==> !IsDigit(rest[0], base))
    ensures DigitRun(digits + rest, base) == |digits|
  {
    if digits == "" {
      assert digits + rest == rest;
    } else {
      assert digits[0] in digits && forall c <- digits[1..] :: c in digits;
      assert (digits + rest)[1..] == digits[1..] + rest;
      RunEnds(digits[1..], rest, base);
    }
  }

  /** The digits begin with no white space, no sign and no prefix. */
  lemma DigitsBegin(i: CInteger, base: nat)
    requires (base == 10 || base == 16) && i.Valid(base)
    ensures var u := i.digits + i.rest;
            && !IsSpace(u[0]) && u[0] != '-' && u[0] != '+'
            && !(base == 16 && |u| > 2 && u[0] == '0' && u[1] in "xX" && IsHex(u[2]))
            && u[..DigitRun(u, base)] == i.digits
  {
    hide DigitRun;
    var u := i.digits + i.rest;
    assert i.digits[0] in i.digits && u[0] == i.digits[0];
    assert |i.digits| > 1 ==> i.digits[1] in i.digits && u[1] == i.digits[1];
    assert |i.digits| == 1 ==> i.digits == [u[0]] && u[1..] == i.rest;
    RunEnds(i.digits, i.rest, base);
    assert u[..|i.digits|] == i.digits;
  }

  lemma SignedDigitsAre(i: CInteger, base: nat)
    requires (base == 10 || base == 16) && i.Valid(base)
    ensures SignedDigits(i.Text(), base) == (i.sign == "-", i.digits)
  {
    hide DigitRun, SkipSpaces, IsHex;
    var u := i.digits + i.rest;
    DigitsBegin(i, base);
    SignBegins(i.sign, u);
    SpacesAreSkipped(i.spaces, i.sign + u);
  }

  lemma SignBegins(sign: string, u: string)
    requires (sign == "" || sign == "+" || sign == "-") && u != "" && !IsSpace(u[0]) && u[0] != '-' && u[0] != '+'
    ensures var t := sign + u;
            && t != "" && !IsSpace(t[0]) && (t[0] == '-' <==> sign == "-") && (t[0] == '+' <==> sign == "+")
            && (if sign == "" then t == u else t[1..] == u)
  {
  }

  /** Hexadecimal digits: beyond 64 bits the largest value, and a minus sign negates modulo 2^64. */
  lemma Strtoull16Is(i: CInteger, n: nat)
    requires i.Valid(16) && Spells(i.digits, 16, n)
    ensures Strtoull16(i.Text()) ==
            if n >= SIZE_LIMIT then SIZE_LIMIT - 1 else if i.sign == "-" && n > 0 then SIZE_LIMIT - n else n
  {
    hide SignedDigits, Value, Spells;
    SignedDigitsAre(i, 16);
    SpellsExactly(i.digits, 16, n);
  }

  /** Decimal digits: beyond 64 bits an exception. */
  lemma Stoull10Is(i: CInteger, n: nat)
    requires i.Valid(10) && Spells(i.digits, 10, n)
    ensures Stoull10(i.Text()) ==
            if n >= SIZE_LIMIT then None else Some(if i.sign == "-" && n > 0 then SIZE_LIMIT - n else n)
  {
    hide SignedDigits, Value, Spells;
    SignedDigitsAre(i, 10);
    SpellsExactly(i.digits, 10, n);
  }

  function Ten(k: nat): nat {
    if k == 0 then 1 else 10 * Ten(k - 1)
  }

  lemma {:induction false} NumeralLength(n: nat, k: nat)
    requires k > 0 && n < Ten(k)
    ensures |Numeral(n, 10)| <= k
  {
    if n >= 10 { NumeralLength(n / 10, k - 1); }
  }

  /** A size has at most 20 digits. */
  lemma {:induction false} NumeralIsShort(n: nat)
    requires n < SIZE_LIMIT
    ensures |Numeral(n, 10)| <= 20
  {
    hide Numeral;
    assert Ten(4) == 10000 && Ten(8) == 1_0000_0000 && Ten(12) == 1_0000_0000_0000;
    assert Ten(16) == 1_0000_0000_0000_0000 && Ten(20) == 1_0000_0000_0000_0000_0000;
    NumeralLength(n, 20);
  }

  /** One more element of `was` replaced by that of `now`. */
  lemma Overwritten<T>(now: seq<T>, was: seq<T>, i: nat)
    requires |now| == |was| && i < |now|
    ensures (now[..i] + was[i..])[i] == was[i]
    ensures (now[..i] + was[i..])[i := now[i]] == now[..i + 1] + was[i + 1..]
    ensures now[i] == was[i] ==> now[..i] + was[i..] == now[..i + 1] + was[i + 1..]
  {
  }

  // ---------- Quotients ----------

  lemma {:induction false} DivModUnique(n: int, m: int, q: int, r: int)
    requires m > 0 && 0 <= r < m && n == q * m + r
    ensures n / m == q && n % m == r
  {
    var d := n / m - q;
    assert n == (n / m) * m + n % m;
    assert (n / m) * m - q * m == d * m;
    assert d * m == r - n % m;
    ProductGrows(d, m);
  }

  lemma {:induction false} ProductGrows(d: int, m: int)
    requires m > 0
    ensures (d >= 1 ==> d * m >= m) && (d <= -1 ==> d * m <= -m)
  {
    if d >= 1 { assert (d - 1) * m >= 0; }
    if d <= -1 { assert (-d - 1) * m >= 0; }
  }
}
