/** Base64 (section 4 of RFC 4648) as certificates carry it: the decoder with a 32-bit accumulator
    that is never masked, the decoding of the standard, and the standard encoding. */
module Base64 {
  import opened Text
  import opened Numerals

  // ---------- The decoder of the standard ----------

  /** The value of an alphabet character, or -1. */
  function SymbolValue(c: char): (v: int)
    ensures -1 <= v < 64
  {
    if 'A' <= c <= 'Z' then c as int - 'A' as int
    else if 'a' <= c <= 'z' then c as int - 'a' as int + 26
    else if '0' <= c <= '9' then c as int - '0' as int + 52
    else if c == '+' then 62
    else if c == '/' then 63
    else -1
  }

  predicate IsSymbol(c: char) {
    SymbolValue(c) >= 0
  }

  function Values(s: string): (vs: seq<nat>)
    requires forall c <- s :: IsSymbol(c)
    ensures |vs| == |s| && forall v <- vs :: v < 64
  {
    if s == "" then []
    else
      assert s[0] in s && IsSymbol(s[0]) && forall c <- s[1..] :: c in s;
      var v: nat := SymbolValue(s[0]);
      [v] + Values(s[1..])
  }

  /** Four symbols are three bytes; bits that fill no byte are dropped at the end. */
  function Bytes(vs: seq<nat>): string
    requires forall v <- vs :: v < 64
  {
    if |vs| < 2 then ""
    else
      assert vs[0] in vs && vs[1] in vs && forall v <- vs[2..] :: v in vs;
      var first := [(vs[0] * 4 + vs[1] / 16) as char];
      if |vs| == 2 then first
      else
        assert vs[2] in vs && forall v <- vs[3..] :: v in vs;
        var second := [(vs[1] % 16 * 16 + vs[2] / 4) as char];
        if |vs| == 3 then first + second
        else
          assert vs[3] in vs && forall v <- vs[4..] :: v in vs;
          first + second + [(vs[2] % 4 * 64 + vs[3]) as char] + Bytes(vs[4..])
  }

  function WithoutSpaces(s: string): string {
    if s == "" then ""
    else
      var last := s[|s| - 1];
      WithoutSpaces(s[..|s| - 1]) + (if IsSpace(last) then "" else [last])
  }

  /** The part before the first padding character. */
  function Front(s: string): (r: string)
    ensures r <= s && '=' !in r
    ensures '=' !in s ==> r == s
  {
    if s == "" || s[0] == '=' then "" else [s[0]] + Front(s[1..])
  }

  /** Symbols, then nothing but padding. */
  predicate WellFormed(s: string) {
    (forall c <- Front(s) :: IsSymbol(c)) && forall c <- s[|Front(s)|..] :: c == '='
  }

  /** White space is skipped anywhere; `None` where the program throws. */
  function Decoded(text: string): Option<string> {
    var s := WithoutSpaces(text);
    if WellFormed(s) then Some(Bytes(Values(Front(s)))) else None
  }

  // ---------- The accumulator ----------

  const INT_RANGE := 0x1_0000_0000

  /** The wrapped value of a 32-bit `int`. */
  function Wrapped(n: int): (r: int)
    ensures -0x8000_0000 <= r < 0x8000_0000
  {
    (n + 0x8000_0000) % INT_RANGE - 0x8000_0000
  }

  /** All symbols as one number. */
  function Whole(vs: seq<nat>): nat {
    if vs == [] then 0 else Whole(vs[..|vs| - 1]) * 64 + vs[|vs| - 1]
  }

  /** The byte completed by the last symbol, if any. */
  function Completed(vs: seq<nat>): string
    requires vs != [] && forall v <- vs :: v < 64
  {
    var n := |vs|;
    if n % 4 == 1 then ""
    else
      assert vs[n - 1] in vs && vs[n - 2] in vs;
      [(if n % 4 == 2 then vs[n - 2] * 4 + vs[n - 1] / 16
        else if n % 4 == 3 then vs[n - 2] % 16 * 16 + vs[n - 1] / 4
        else vs[n - 2] % 4 * 64 + vs[n - 1]) as char]
  }

  /** How many bits below the next byte the accumulator holds after `n` symbols. */
  function Pending(n: nat): int {
    if n % 4 == 0 then -8 else if n % 4 == 1 then -2 else if n % 4 == 2 then -4 else -6
  }

  method Base64Decode(input: string) returns (r: Option<string>)
    ensures r == Decoded(input)
  {
    hide WithoutSpaces, Front, Values, Bytes, Whole, Wrapped, SymbolValue;
    var out, accumulator, bits, padded := "", 0, -8, false;
    ghost var vs: seq<nat> := [];
    EmptyIsNothing();
    for i := 0 to |input|
      invariant var s := WithoutSpaces(input[..i]); Read(s, vs, out) && padded == (Front(s) != s)
      invariant bits == Pending(|vs|) && accumulator == Wrapped(Whole(vs))
    {
      var c := input[i];
      ghost var s := WithoutSpaces(input[..i]);
      PrefixStep(input, i);
      if IsSpace(c) { continue; }
      CharStep(s, c, vs, out);
      if c == '=' {
        padded := true;
        continue;
      }
      if padded || SymbolValue(c) < 0 {
        NeverWellFormed(input, i + 1);
        return None;
      }
      var value := SymbolValue(c);
      PushStep(vs, value);
      accumulator := Wrapped(accumulator * 64 + value);
      bits := bits + 6;
      vs := vs + [value];
      if bits >= 0 {
        out := out + [Shifted(accumulator, bits) as char];
        bits := bits - 8;
      } else {
        assert out + "" == out;
      }
    }
    assert input[..|input|] == input;
    r := Some(out);
  }

  /** `(accumulator >> bits) & 0xff`. */
  function Shifted(accumulator: int, bits: int): (b: nat)
    requires bits == 0 || bits == 2 || bits == 4
    ensures b < 256
  {
    accumulator / (if bits == 0 then 1 else if bits == 2 then 4 else 16) % 256
  }

  /** So far the text is well formed and says `out`. */
  ghost predicate Read(s: string, vs: seq<nat>, out: string) {
    && WellFormed(s) && vs == Values(Front(s)) && out == Bytes(vs)
  }

  lemma {:induction false} EmptyIsNothing()
    ensures WithoutSpaces("") == "" && Read("", [], "") && Front("") == "" && Whole([]) == 0 && Wrapped(0) == 0
  {
  }

  lemma {:induction false} PrefixStep(input: string, i: nat)
    requires i < |input|
    ensures WithoutSpaces(input[..i + 1])
         == WithoutSpaces(input[..i]) + (if IsSpace(input[i]) then "" else [input[i]])
    ensures IsSpace(input[i]) ==> WithoutSpaces(input[..i + 1]) == WithoutSpaces(input[..i])
  {
    assert input[..i + 1][..i] == input[..i];
  }

  lemma {:induction false} FrontOfMore(s: string, t: string)
    ensures Front(s + t) == if '=' in s then Front(s) else s + Front(t)
    ensures Front(s) != s <==> '=' in s
  {
    hide Front;
    if s == "" {
      assert "" + t == t;
      EmptyIsNothing();
    } else {
      var c, more := s[0], s[1..];
      assert s == [c] + more && s + t == [c] + (more + t);
      FrontOfMore(more, t);
      FrontStep(c, more);
      FrontStep(c, more + t);
    }
  }

  lemma FrontStep(c: char, s: string)
    ensures Front([c] + s) == if c == '=' then "" else [c] + Front(s)
  {
    assert ([c] + s)[1..] == s;
  }

  lemma {:induction false} CharStep(s: string, c: char, vs: seq<nat>, out: string)
    requires Read(s, vs, out)
    ensures c == '=' ==> Read(s + [c], vs, out) && Front(s + [c]) != s + [c]
    ensures c != '=' ==> (WellFormed(s + [c]) <==> Front(s) == s && IsSymbol(c))
    ensures c != '=' && Front(s) == s && IsSymbol(c) ==>
      Front(s + [c]) == s + [c] && Values(Front(s + [c])) == vs + [SymbolValue(c)]
      && Bytes(vs + [SymbolValue(c)]) == out + Completed(vs + [SymbolValue(c)])
  {
    hide WellFormed, Front, Values, Bytes, SymbolValue, Completed;
    FrontOfMore(s, "");
    if c == '=' { PaddingStep(s, vs, out); }
    else if Front(s) == s && IsSymbol(c) { SymbolStep(s, c, vs, out); }
    else { WrongStep(s, c); }
  }

  lemma {:induction false} PaddingStep(s: string, vs: seq<nat>, out: string)
    requires Read(s, vs, out)
    ensures Read(s + "=", vs, out) && Front(s + "=") != s + "="
  {
    hide Front, Values, Bytes, IsSymbol;
    FrontIsKept(s);
    assert (s + "=")[|Front(s)|..] == s[|Front(s)|..] + "=";
  }

  lemma {:induction false} FrontIsKept(s: string)
    ensures Front(s + "=") == Front(s) && Front(s + "=") != s + "="
  {
    hide Front;
    FrontOfMore(s, "=");
    FrontOne('=');
    assert s + "" == s;
    assert |s + "="| > |s|;
  }

  lemma {:induction false} SymbolStep(s: string, c: char, vs: seq<nat>, out: string)
    requires Read(s, vs, out) && c != '=' && Front(s) == s && IsSymbol(c)
    ensures WellFormed(s + [c]) && Front(s + [c]) == s + [c] && Values(Front(s + [c])) == vs + [SymbolValue(c)]
    ensures Bytes(vs + [SymbolValue(c)]) == out + Completed(vs + [SymbolValue(c)])
  {
    hide Front, Values, Bytes, SymbolValue;
    FrontOfMore(s, [c]);
    FrontOne(c);
    assert (s + [c])[|s + [c]|..] == "";
    ValuesOfMore(s, c);
    BytesOfMore(vs, SymbolValue(c));
  }

  lemma {:induction false} WrongStep(s: string, c: char)
    requires c != '=' && (Front(s) != s || !IsSymbol(c))
    ensures !WellFormed(s + [c])
  {
    hide Front, SymbolValue;
    var t := s + [c];
    FrontOfMore(s, [c]);
    FrontOne(c);
    if Front(s) == s {
      assert c in t;
    } else {
      assert t[|Front(s)|..][|t| - 1 - |Front(s)|] == c;
      assert c in t[|Front(t)|..];
    }
  }

  lemma {:induction false} FrontOne(c: char)
    ensures Front([c]) == (if c == '=' then "" else [c]) && Front("") == ""
  {
    assert [c][1..] == "";
  }

  lemma {:induction false} ValuesOfMore(s: string, c: char)
    requires (forall x <- s :: IsSymbol(x)) && IsSymbol(c)
    ensures (forall x <- s + [c] :: IsSymbol(x)) && Values(s + [c]) == Values(s) + [SymbolValue(c)]
  {
    if s == "" {
      assert "" + [c] == [c] && [c][1..] == "";
    } else {
      assert forall x <- s[1..] :: x in s;
      assert (s + [c])[1..] == s[1..] + [c];
      ValuesOfMore(s[1..], c);
    }
  }

  lemma {:induction false} BytesOfMore(vs: seq<nat>, v: nat)
    requires (forall x <- vs :: x < 64) && v < 64
    ensures (forall x <- vs + [v] :: x < 64) && Bytes(vs + [v]) == Bytes(vs) + Completed(vs + [v])
  {
    hide Bytes, Completed, Three;
    var more := vs + [v];
    if |vs| < 4 {
      FewBytes(vs, v);
    } else {
      assert forall x <- vs[4..] :: x in vs;
      BytesOfMore(vs[4..], v);
      FourMore(vs);
      FourMore(more);
      SameTail(vs, v);
      assert Three(vs) + (Bytes(vs[4..]) + Completed(more)) == Three(vs) + Bytes(vs[4..]) + Completed(more);
    }
  }

  /** The bytes of the first four symbols. */
  function Three(vs: seq<nat>): string
    requires |vs| >= 4 && forall x <- vs :: x < 64
  {
    assert vs[0] in vs && vs[1] in vs && vs[2] in vs && vs[3] in vs;
    [(vs[0] * 4 + vs[1] / 16) as char, (vs[1] % 16 * 16 + vs[2] / 4) as char, (vs[2] % 4 * 64 + vs[3]) as char]
  }

  lemma {:induction false} FourMore(vs: seq<nat>)
    requires |vs| >= 4 && forall x <- vs :: x < 64
    ensures (forall x <- vs[4..] :: x < 64) && Bytes(vs) == Three(vs) + Bytes(vs[4..])
  {
    assert forall x <- vs[4..] :: x in vs;
  }

  lemma {:induction false} SameTail(vs: seq<nat>, v: nat)
    requires |vs| >= 4 && (forall x <- vs :: x < 64) && v < 64
    ensures var more := vs + [v];
            && (forall x <- more :: x < 64) && (forall x <- more[4..] :: x < 64) && more[4..] == vs[4..] + [v]
            && Completed(more) == Completed(more[4..]) && Three(more) == Three(vs)
  {
    hide Completed, Three;
    var more := vs + [v];
    assert more[4..] == vs[4..] + [v];
    assert forall x <- more[4..] :: x in more;
    CompletedInTail(more);
    ThreeInFront(vs, more);
  }

  lemma {:induction false} CompletedInTail(vs: seq<nat>)
    requires |vs| > 4 && forall x <- vs :: x < 64
    ensures (forall x <- vs[4..] :: x < 64) && Completed(vs) == Completed(vs[4..])
  {
    assert forall x <- vs[4..] :: x in vs;
    var t, n := vs[4..], |vs|;
    assert t[n - 5] == vs[n - 1] && n % 4 == (n - 4) % 4;
    assert n % 4 != 1 ==> n > 5 && t[n - 6] == vs[n - 2];
  }

  lemma {:induction false} ThreeInFront(vs: seq<nat>, more: seq<nat>)
    requires 4 <= |vs| <= |more| && vs == more[..|vs|] && (forall x <- vs :: x < 64) && forall x <- more :: x < 64
    ensures Three(more) == Three(vs)
  {
    assert more[0] == vs[0] && more[1] == vs[1] && more[2] == vs[2] && more[3] == vs[3];
  }

  lemma {:induction false} FewBytes(vs: seq<nat>, v: nat)
    requires |vs| < 4 && (forall x <- vs :: x < 64) && v < 64
    ensures (forall x <- vs + [v] :: x < 64) && Bytes(vs + [v]) == Bytes(vs) + Completed(vs + [v])
  {
    if |vs| == 3 {
      FourMore(vs + [v]);
      assert (vs + [v])[4..] == [];
    }
  }

  /** Whatever follows a prefix that is not well formed, the program throws. */
  lemma {:induction false} NeverWellFormed(input: string, i: nat)
    requires i <= |input| && !WellFormed(WithoutSpaces(input[..i]))
    ensures !WellFormed(WithoutSpaces(input))
    decreases |input| - i
  {
    hide WellFormed, WithoutSpaces;
    if i == |input| {
      assert input[..i] == input;
    } else {
      PrefixStep(input, i);
      if !IsSpace(input[i]) { StaysIllFormed(WithoutSpaces(input[..i]), input[i]); }
      NeverWellFormed(input, i + 1);
    }
  }

  lemma {:induction false} StaysIllFormed(s: string, c: char)
    requires !WellFormed(s)
    ensures !WellFormed(s + [c])
  {
    hide Front, SymbolValue;
    var t := s + [c];
    FrontOfMore(s, [c]);
    if exists x <- Front(s) :: !IsSymbol(x) {
      var x :| x in Front(s) && !IsSymbol(x);
      assert x in Front(t);
    } else {
      var x :| x in s[|Front(s)|..] && x != '=';
      assert '=' in s && t[|Front(s)|..] == s[|Front(s)|..] + [c];
      assert x in t[|Front(s)|..];
    }
  }

  // ---------- The pending bits survive ----------

  /** Wrapping the accumulator loses no bit that is still to come out: the byte shifted out is made
      of the last two symbols. */
  lemma {:induction false} PushStep(vs: seq<nat>, v: nat)
    requires (forall x <- vs :: x < 64) && v < 64
    ensures var more := vs + [v];
            && (forall x <- more :: x < 64)
            && Wrapped(Wrapped(Whole(vs)) * 64 + v) == Wrapped(Whole(more))
            && var bits := Pending(|vs|) + 6;
               if bits < 0 then bits == Pending(|more|) && Completed(more) == ""
               else (bits == 0 || bits == 2 || bits == 4) && bits - 8 == Pending(|more|)
                    && Completed(more) == [Shifted(Wrapped(Whole(more)), bits) as char]
  {
    hide Wrapped, Whole, Shifted, Completed;
    var more := vs + [v];
    WholeOfMore(vs, v);
    WrappedAppend(Whole(vs), v);
    var bits := Pending(|vs|) + 6;
    if bits >= 0 {
      ShiftIgnoresWrap(Whole(more), bits);
      LastTwo(vs, v, bits);
    } else {
      NothingCompleted(more);
    }
  }

  lemma {:induction false} WholeOfMore(vs: seq<nat>, v: nat)
    ensures Whole(vs + [v]) == Whole(vs) * 64 + v
  {
    assert (vs + [v])[..|vs|] == vs;
  }

  lemma {:induction false} NothingCompleted(vs: seq<nat>)
    requires |vs| % 4 == 1 && forall x <- vs :: x < 64
    ensures Completed(vs) == ""
  {
  }

  lemma {:induction false} WrappedAppend(n: nat, v: nat)
    ensures Wrapped(Wrapped(n) * 64 + v) == Wrapped(n * 64 + v)
  {
    var k := (n + 0x8000_0000) / INT_RANGE;
    assert Wrapped(n) == n - k * INT_RANGE;
    WrappedPeriod(n * 64 + v, k * 64);
  }

  lemma {:induction false} WrappedPeriod(n: int, k: int)
    ensures Wrapped(n - k * INT_RANGE) == Wrapped(n)
  {
    ModPeriod(n + 0x8000_0000, k, INT_RANGE);
  }

  lemma {:induction false} ModPeriod(n: int, k: int, m: int)
    requires m > 0
    ensures (n - k * m) % m == n % m
  {
    var q := n / m;
    var r := n % m;
    assert n - k * m == (q - k) * m + r;
    DivModUnique(n - k * m, m, q - k, r);
  }

  lemma {:induction false} ShiftIgnoresWrap(n: nat, bits: int)
    requires bits == 0 || bits == 2 || bits == 4
    ensures Shifted(Wrapped(n), bits) == Shifted(n, bits)
  {
    hide Wrapped;
    ShiftIgnores(n, 1, 0x100_0000);
    ShiftIgnores(n, 4, 0x40_0000);
    ShiftIgnores(n, 16, 0x10_0000);
  }

  lemma {:induction false} ShiftIgnores(n: nat, p: nat, z: nat)
    requires p > 0 && p * 256 * z == INT_RANGE
    ensures Wrapped(n) / p % 256 == n / p % 256
  {
    var k := (n + 0x8000_0000) / INT_RANGE;
    assert Wrapped(n) == n - k * INT_RANGE;
    var q, r := n / p, n % p;
    assert k * INT_RANGE == (k * z * 256) * p;
    DivModUnique(n - k * INT_RANGE, p, q - k * z * 256, r);
    ModPeriod(q, k * z, 256);
  }

  lemma {:induction false} LastTwo(vs: seq<nat>, v: nat, bits: int)
    requires (forall x <- vs :: x < 64) && v < 64
    requires bits == Pending(|vs|) + 6 && bits >= 0
    ensures forall x <- vs + [v] :: x < 64
    ensures Completed(vs + [v]) == [Shifted(Whole(vs + [v]), bits) as char]
  {
    hide Shifted, Whole;
    var more, n := vs + [v], |vs|;
    WholeOfTwo(vs, v);
    ByteOfTwo(Whole(vs[..n - 1]), vs[n - 1], v);
    CompletedIs(vs, v);
  }

  lemma {:induction false} WholeOfTwo(vs: seq<nat>, v: nat)
    requires vs != [] && forall x <- vs :: x < 64
    ensures Whole(vs + [v]) == (Whole(vs[..|vs| - 1]) * 64 + vs[|vs| - 1]) * 64 + v && vs[|vs| - 1] < 64
  {
    assert (vs + [v])[..|vs|] == vs && vs[|vs| - 1] in vs;
  }

  lemma {:induction false} CompletedIs(vs: seq<nat>, v: nat)
    requires vs != [] && (forall x <- vs :: x < 64) && v < 64
    ensures var u, n := vs[|vs| - 1], |vs|;
            && (forall x <- vs + [v] :: x < 64) && u < 64
            && (n % 4 == 1 ==> Completed(vs + [v]) == [(u * 4 + v / 16) as char])
            && (n % 4 == 2 ==> Completed(vs + [v]) == [(u % 16 * 16 + v / 4) as char])
            && (n % 4 == 3 ==> Completed(vs + [v]) == [(u % 4 * 64 + v) as char])
  {
    var more, n := vs + [v], |vs|;
    assert more[n] == v && more[n - 1] == vs[n - 1] && vs[n - 1] in vs;
    assert (n + 1) % 4 == if n % 4 == 3 then 0 else n % 4 + 1;
  }

  /** The byte at each shift depends on the last two symbols only. */
  lemma {:induction false} ByteOfTwo(w: nat, u: nat, v: nat)
    requires u < 64 && v < 64
    ensures var n := (w * 64 + u) * 64 + v;
            && Shifted(n, 4) == u * 4 + v / 16
            && Shifted(n, 2) == u % 16 * 16 + v / 4
            && Shifted(n, 0) == u % 4 * 64 + v
  {
    hide Shifted;
    ShiftFour(w, u, v);
    ShiftTwo(w, u, v);
    ShiftNone(w, u, v);
  }

  lemma {:induction false} ShiftFour(w: nat, u: nat, v: nat)
    requires u < 64 && v < 64
    ensures Shifted((w * 64 + u) * 64 + v, 4) == u * 4 + v / 16
  {
    DivModUnique((w * 64 + u) * 64 + v, 16, w * 256 + u * 4 + v / 16, v % 16);
    DivModUnique(w * 256 + u * 4 + v / 16, 256, w, u * 4 + v / 16);
  }

  lemma {:induction false} ShiftTwo(w: nat, u: nat, v: nat)
    requires u < 64 && v < 64
    ensures Shifted((w * 64 + u) * 64 + v, 2) == u % 16 * 16 + v / 4
  {
    DivModUnique((w * 64 + u) * 64 + v, 4, w * 1024 + u * 16 + v / 4, v % 4);
    DivModUnique(w * 1024 + u * 16 + v / 4, 256, w * 4 + u / 16, u % 16 * 16 + v / 4);
  }

  lemma {:induction false} ShiftNone(w: nat, u: nat, v: nat)
    requires u < 64 && v < 64
    ensures Shifted((w * 64 + u) * 64 + v, 0) == u % 4 * 64 + v
  {
    DivModUnique((w * 64 + u) * 64 + v, 256, w * 16 + u / 4, u % 4 * 64 + v);
  }

  // ---------- The standard encoding ----------

  function SymbolChar(v: nat): (c: char)
    requires v < 64
    ensures SymbolValue(c) == v && c != '=' && !IsSpace(c) && c != '-'
  {
    if v < 26 then (v + 'A' as int) as char
    else if v < 52 then (v - 26 + 'a' as int) as char
    else if v < 62 then (v - 52 + '0' as int) as char
    else if v == 62 then '+'
    else '/'
  }

  /** The alphabet of section 4 of RFC 4648, in three parts. */
  const UPPER_CASE := "ABCDEFGHIJKLMNOPQRSTUVWXYZ"
  const LOWER_CASE := "abcdefghijklmnopqrstuvwxyz"
  const OTHERS := "0123456789+/"

  lemma UpperCaseIs(i: nat)
    requires i < 26
    ensures SymbolValue(UPPER_CASE[i]) == i && SymbolChar(i) == UPPER_CASE[i]
  {
    assert UPPER_CASE[i] as int == 'A' as int + i;
  }

  lemma LowerCaseIs(i: nat)
    requires i < 26
    ensures SymbolValue(LOWER_CASE[i]) == 26 + i && SymbolChar(26 + i) == LOWER_CASE[i]
  {
    assert LOWER_CASE[i] as int == 'a' as int + i;
  }

  lemma OthersAre(i: nat)
    requires i < 12
    ensures SymbolValue(OTHERS[i]) == 52 + i && SymbolChar(52 + i) == OTHERS[i]
  {
  }

  /** Only the symbols of the alphabet have a value, and each its own. */
  lemma OneSymbolForAValue(c: char)
    ensures SymbolValue(c) >= 0 ==> c == SymbolChar(SymbolValue(c))
  {
  }

  ghost predicate AreBytes(s: string) {
    forall c <- s :: c < 256 as char
  }

  /** The 6-bit groups of a byte string, the last one filled with zero bits. */
  function Groups(s: string): (vs: seq<nat>)
    requires AreBytes(s)
    ensures forall v <- vs :: v < 64
  {
    if s == "" then []
    else
      assert s[0] in s;
      var a := s[0] as int;
      if |s| == 1 then [a / 4, a % 4 * 16]
      else
        assert s[1] in s;
        var b := s[1] as int;
        if |s| == 2 then [a / 4, a % 4 * 16 + b / 16, b % 16 * 4]
        else
          assert s[2] in s && forall c <- s[3..] :: c in s;
          var c := s[2] as int;
          [a / 4, a % 4 * 16 + b / 16, b % 16 * 4 + c / 64, c % 64] + Groups(s[3..])
  }

  function Chars(vs: seq<nat>): (s: string)
    requires forall v <- vs :: v < 64
    ensures |s| == |vs| && forall c <- s :: IsSymbol(c) && c != '=' && !IsSpace(c) && c != '-'
  {
    if vs == [] then "" else assert vs[0] in vs && forall v <- vs[1..] :: v in vs; [SymbolChar(vs[0])] + Chars(vs[1..])
  }

  lemma {:induction false} ValuesOfChars(vs: seq<nat>)
    requires forall v <- vs :: v < 64
    ensures Values(Chars(vs)) == vs
  {
    if vs != [] {
      assert forall v <- vs[1..] :: v in vs;
      ValuesOfChars(vs[1..]);
    }
  }

  lemma {:induction false} BytesOfGroups(s: string)
    requires AreBytes(s)
    ensures Bytes(Groups(s)) == s
  {
    hide Bytes;
    if |s| >= 3 {
      assert forall c <- s[3..] :: c in s;
      BytesOfGroups(s[3..]);
      ThreeBack(s);
      FourMore(Groups(s));
      assert s == [s[0], s[1], s[2]] + s[3..];
    } else {
      FewBack(s);
    }
  }

  lemma {:induction false} ThreeBack(s: string)
    requires AreBytes(s) && |s| >= 3
    ensures forall c <- s[3..] :: c < 256 as char
    ensures |Groups(s)| >= 4 && Groups(s)[4..] == Groups(s[3..]) && Three(Groups(s)) == [s[0], s[1], s[2]]
  {
    assert s[0] in s && s[1] in s && s[2] in s && forall c <- s[3..] :: c in s;
    var a, b, c := s[0] as int, s[1] as int, s[2] as int;
    var four := [a / 4, a % 4 * 16 + b / 16, b % 16 * 4 + c / 64, c % 64];
    assert Groups(s) == four + Groups(s[3..]);
    assert Groups(s)[..4] == four;
    hide Groups;
    SixBits(a, b, c);
  }

  /** Three bytes cut into four 6-bit groups can be put together again. */
  lemma {:induction false} SixBits(a: nat, b: nat, c: nat)
    requires a < 256 && b < 256 && c < 256
    ensures a / 4 * 4 + (a % 4 * 16 + b / 16) / 16 == a
    ensures (a % 4 * 16 + b / 16) % 16 * 16 + (b % 16 * 4 + c / 64) / 4 == b
    ensures (b % 16 * 4 + c / 64) % 4 * 64 + c % 64 == c
  {
  }

  lemma {:induction false} FewBack(s: string)
    requires AreBytes(s) && |s| < 3
    ensures Bytes(Groups(s)) == s
  {
    if |s| == 2 {
      assert s[0] in s && s[1] in s;
      assert s == [s[0], s[1]];
    } else if |s| == 1 {
      assert s[0] in s;
      assert s == [s[0]];
    }
  }

  /** The standard encoding of a byte string, with padding. */
  function Encode(s: string): string
    requires AreBytes(s)
  {
    Chars(Groups(s)) + (if |s| % 3 == 1 then "==" else if |s| % 3 == 2 then "=" else "")
  }

  /** Decoding inverts the encoding of every byte string, wherever white space is put in and however
      much padding there is. */
  lemma {:induction false} DecodeInvertsEncode(text: string, bytes: string, padding: string)
    requires AreBytes(bytes) && forall c <- padding :: c == '='
    requires WithoutSpaces(text) == Chars(Groups(bytes)) + padding
    ensures Decoded(text) == Some(bytes)
  {
    hide Front, Values, Bytes, Groups, Chars;
    var symbols := Chars(Groups(bytes));
    var s := symbols + padding;
    FrontOfMore(symbols, padding);
    PaddingHasNoFront(padding);
    assert symbols + "" == symbols && s[|symbols|..] == padding;
    ValuesOfChars(Groups(bytes));
    BytesOfGroups(bytes);
  }

  lemma {:induction false} PaddingHasNoFront(padding: string)
    requires forall c <- padding :: c == '='
    ensures Front(padding) == ""
  {
    if padding != "" { assert padding[0] in padding; }
  }

  lemma {:induction false} StandardRoundTrip(bytes: string)
    requires AreBytes(bytes)
    ensures Decoded(Encode(bytes)) == Some(bytes)
  {
    hide Groups, Chars;
    var padding := if |bytes| % 3 == 1 then "==" else if |bytes| % 3 == 2 then "=" else "";
    NothingToSkip(Encode(bytes));
    DecodeInvertsEncode(Encode(bytes), bytes, padding);
  }

  lemma {:induction false} NothingToSkip(s: string)
    requires forall c <- s :: !IsSpace(c)
    ensures WithoutSpaces(s) == s
  {
    hide IsSpace, WithoutSpaces;
    if s == "" {
      EmptyIsNothing();
    } else {
      var front, last := s[..|s| - 1], s[|s| - 1];
      assert s == front + [last];
      assert last in s && forall c <- front :: c in s;
      NothingToSkip(front);
      PrefixStep(s, |s| - 1);
      assert s[..|s| - 1 + 1] == s;
    }
  }

  // ---------- Certificates ----------

  const BEGIN_MARK := "-----BEGIN CERTIFICATE-----"
  const END_MARK := "-----END CERTIFICATE-----"

  /** A text without one of the marks, or with its first end mark in front of its first begin mark, is
      no certificate. */
  lemma NoCertificate(pem: string)
    requires || (forall p: nat :: !At(pem, p, "-----BEGIN CERTIFICATE-----"))
             || (forall p: nat :: !At(pem, p, "-----END CERTIFICATE-----"))
             || exists p: nat :: At(pem, p, "-----END CERTIFICATE-----")
                                 && forall q: nat :: q < p ==> !At(pem, q, "-----BEGIN CERTIFICATE-----")
    ensures PemBody(pem).None?
  {
    hide At;
  }

  /** The text between the markers; `None` where the program throws. When the end marker starts
      inside the begin marker the length wraps and everything behind the begin marker is taken. */
  function PemBody(pem: string): Option<string> {
    var begin, end := Find(pem, BEGIN_MARK, 0), Find(pem, END_MARK, 0);
    if begin.None? || end.None? || end.value <= begin.value then None
    else
      var from := begin.value + |BEGIN_MARK|;
      Some(if from <= end.value then pem[from..end.value] else pem[from..])
  }

  /** A certificate in its usual form is read back: the body starts on a new line, nothing before
      the begin marker contains a dash, and white space may be anywhere in the body. */
  lemma {:induction false} CertificateIsRead(bytes: string, before: string, body: string, after: string)
    requires AreBytes(bytes) && '-' !in before && body != "" && body[0] == '\n'
    requires WithoutSpaces(body) == Encode(bytes)
    ensures var pem := before + BEGIN_MARK + body + END_MARK + after;
            PemBody(pem) == Some(body) && Decoded(body) == Some(bytes)
  {
    hide Find, At, Groups, Chars, Encode;
    BodyHasNoDash(bytes, body);
    MarksAreFound(before, body, after);
    EncodedDecodes(bytes, body);
    var pem := before + BEGIN_MARK + body + END_MARK + after;
    assert pem[|before| + |BEGIN_MARK|..|before| + |BEGIN_MARK| + |body|] == body;
  }

  lemma {:induction false} EncodedDecodes(bytes: string, text: string)
    requires AreBytes(bytes) && WithoutSpaces(text) == Encode(bytes)
    ensures Decoded(text) == Some(bytes)
  {
    hide Groups, Chars, Decoded;
    DecodeInvertsEncode(text, bytes, if |bytes| % 3 == 1 then "==" else if |bytes| % 3 == 2 then "=" else "");
  }

  lemma {:induction false} BodyHasNoDash(bytes: string, body: string)
    requires AreBytes(bytes) && WithoutSpaces(body) == Encode(bytes)
    ensures '-' !in body
  {
    hide Groups, Chars;
    assert '-' !in Encode(bytes);
    KeptUnlessSpace(body, '-');
  }

  lemma {:induction false} KeptUnlessSpace(s: string, c: char)
    requires !IsSpace(c)
    ensures c in s <==> c in WithoutSpaces(s)
  {
    if s != "" {
      KeptUnlessSpace(s[..|s| - 1], c);
      assert s == s[..|s| - 1] + [s[|s| - 1]];
    }
  }

  lemma {:induction false} MarksAreFound(before: string, body: string, after: string)
    requires '-' !in before && '-' !in body && body != "" && body[0] == '\n'
    ensures var pem := before + BEGIN_MARK + body + END_MARK + after;
            && Find(pem, BEGIN_MARK, 0) == Some(|before|)
            && Find(pem, END_MARK, 0) == Some(|before| + |BEGIN_MARK| + |body|)
  {
    hide At;
    var pem, b := before + BEGIN_MARK + body + END_MARK + after, |before|;
    var e := b + |BEGIN_MARK| + |body|;
    AtWindow(pem, b, b + |BEGIN_MARK|);
    assert pem[b..b + |BEGIN_MARK|] == BEGIN_MARK;
    AtWindow(pem, e, e + |END_MARK|);
    assert pem[e..e + |END_MARK|] == END_MARK;
    forall i | 0 <= i < b ensures !At(pem, i, BEGIN_MARK) {
      AtIndex(pem, i, BEGIN_MARK, 0);
      assert pem[i] == before[i] && before[i] in before;
    }
    FindIs(pem, BEGIN_MARK, 0, b);
    forall i | 0 <= i < e ensures !At(pem, i, END_MARK) {
      NoEndMarkAt(pem, before, body, i);
    }
    FindIs(pem, END_MARK, 0, e);
  }

  lemma {:induction false} NoEndMarkAt(pem: string, before: string, body: string, i: nat)
    requires '-' !in before && '-' !in body && body != "" && body[0] == '\n'
    requires before + BEGIN_MARK + body <= pem && i < |before| + |BEGIN_MARK| + |body|
    ensures !At(pem, i, END_MARK)
  {
    hide At;
    var b, k := |before|, |before| + |BEGIN_MARK|;
    AtIndex(pem, i, END_MARK, 0);
    if i < b {
      assert pem[i] == before[i] && before[i] in before;
    } else if i < k {
      assert pem[k] == '\n';
      assert forall j :: b <= j < k ==> pem[j] == BEGIN_MARK[j - b];
      InBeginMark(pem, b, i - b);
    } else {
      assert pem[i] == body[i - k] && body[i - k] in body;
    }
  }

  lemma {:induction false} InBeginMark(pem: string, b: nat, i: nat)
    requires i < |BEGIN_MARK| && b + |BEGIN_MARK| < |pem| && pem[b + |BEGIN_MARK|] == '\n'
    requires forall j :: b <= j < b + |BEGIN_MARK| ==> pem[j] == BEGIN_MARK[j - b]
    ensures !At(pem, b + i, END_MARK)
  {
    hide At;
    AtIndex(pem, b + i, END_MARK, 0);
    AtIndex(pem, b + i, END_MARK, 4);
    AtIndex(pem, b + i, END_MARK, 5);
    if i + 5 >= |BEGIN_MARK| { AtIndex(pem, b + i, END_MARK, |BEGIN_MARK| - i); }
  }
}
