/** Percent-decoding and the query part of a request target. */
module Query {
  import opened Text
  import opened Numerals
  import opened OrderedMap

  /** What `strtol(hex, &end, 16)` makes of the two characters after a '%', when it stops at the
      terminating zero: besides two digits also a zero character first or second, and one digit
      behind a space or a sign. */
  function HexPair(a: char, b: char): Option<char> {
    if a == '\0' then Some('\0')
    else if b == '\0' then if IsHex(a) then Some(DigitValue(a) as char) else None
    else if !IsHex(b) then None
    else if IsHex(a) then Some((DigitValue(a) * 16 + DigitValue(b)) as char)
    else if IsSpace(a) || a == '+' then Some(DigitValue(b) as char)
    else if a == '-' then Some(((0x100 - DigitValue(b)) % 0x100) as char)
    else None
  }

  /** The C string of the two characters. */
  function CText(a: char, b: char): string {
    if a == '\0' then "" else if b == '\0' then [a] else [a, b]
  }

  /** That is what `strtol` does: white space, a sign, digits; it stops at the end of the string if
      there are digits and nothing behind them, or if the string is empty. */
  lemma HexPairIsStrtol(a: char, b: char)
    ensures var t := CText(a, b);
            var (negative, digits) := SignedDigits(t, 16);
            var n: int := Value(digits, 16);
            HexPair(a, b) ==
              if t == "" then Some('\0')
              else if digits == "" || t[|t| - |digits|..] != digits then None
              else Some(((if negative then -n else n) % 0x100) as char)
  {
    hide DigitValue, SkipSpaces, DigitRun, Value;
    RunsOfPair(a, b);
    RunsOfPair(b, a);
    assert [a, b][1..] == [b] && [a][1..] == "";
  }

  lemma RunsOfPair(a: char, b: char)
    ensures SkipSpaces("") == "" && SkipSpaces([a]) == if IsSpace(a) then "" else [a]
    ensures SkipSpaces([a, b]) == if IsSpace(a) then SkipSpaces([b]) else [a, b]
    ensures DigitRun("", 16) == 0 && DigitRun([a], 16) == if IsHex(a) then 1 else 0
    ensures DigitRun([a, b], 16) == if !IsHex(a) then 0 else if IsHex(b) then 2 else 1
    ensures Value("", 16) == 0 && (IsHex(a) ==> Value([a], 16) == DigitValue(a))
    ensures IsHex(a) && IsHex(b) ==> Value([a, b], 16) == DigitValue(a) * 16 + DigitValue(b)
  {
    hide DigitValue, IsSpace, IsHex;
    assert [a, b][1..] == [b] && [a][1..] == "";
    assert [a, b][..1] == [a] && [a][..0] == "";
  }

  /** The first decoded character, and how many characters it took. */
  function DecodeHead(s: string): (r: (char, nat))
    requires s != ""
    ensures 0 < r.1 <= |s|
  {
    if s[0] == '%' && 2 < |s| && HexPair(s[1], s[2]).Some? then (HexPair(s[1], s[2]).value, 3)
    else (if s[0] == '+' then ' ' else s[0], 1)
  }

  function UrlDecode(s: string): string {
    if s == "" then "" else [DecodeHead(s).0] + UrlDecode(s[DecodeHead(s).1..])
  }

  method UrlDecodeLoop(input: string) returns (out: string)
    ensures out == UrlDecode(input)
  {
    hide HexPair, UrlDecode;
    out := "";
    var i: nat := 0;
    while i < |input|
      invariant i <= |input| && out + UrlDecode(input[i..]) == UrlDecode(input)
    {
      UrlDecodeStep(input[i..], out);
      if input[i] == '%' && i + 2 < |input| {
        var pair := HexPair(input[i + 1], input[i + 2]);
        if pair.Some? {
          out := out + [pair.value];
          assert input[i..][3..] == input[i + 3..];
          i := i + 3;
          continue;
        }
      }
      out := out + [if input[i] == '+' then ' ' else input[i]];
      assert input[i..][1..] == input[i + 1..];
      i := i + 1;
    }
    assert input[i..] == "";
    UrlDecodeStep("", out);
  }

  lemma UrlDecodeStep(s: string, before: string)
    ensures s == "" ==> before + UrlDecode(s) == before
    ensures s != "" ==>
      before + UrlDecode(s) == before + [DecodeHead(s).0] + UrlDecode(s[DecodeHead(s).1..])
  {
  }

  /** `text` is a percent-encoding of `raw` (section 2.1 of RFC 3986): each byte stands for itself,
      unless it is '%' or '+', or is '%' and its two hexadecimal digits, of either case; '+' is a space. */
  ghost predicate Encodes(text: string, raw: string) {
    if raw == "" then text == ""
    else
      || (text != "" && text[0] == raw[0] && raw[0] != '%' && raw[0] != '+' && Encodes(text[1..], raw[1..]))
      || (text != "" && text[0] == '+' && raw[0] == ' ' && Encodes(text[1..], raw[1..]))
      || (2 < |text| && text[0] == '%' && Stands(text[1], raw[0] as nat / 16) && Stands(text[2], raw[0] as nat % 16)
          && Encodes(text[3..], raw[1..]))
  }

  lemma PairDecodes(a: char, b: char, c: char)
    requires Stands(a, c as nat / 16) && Stands(b, c as nat % 16)
    ensures HexPair(a, b) == Some(c)
  {
    hide Stands, DigitValue;
    DigitsStand(a);
    DigitsStand(b);
  }

  /** Decoding undoes every percent-encoding of every byte string. */
  lemma {:induction false} UrlDecodeUndoesEncoding(text: string, raw: string)
    requires Encodes(text, raw)
    ensures UrlDecode(text) == raw
  {
    if raw != "" {
      var n := if text[0] == '%' then 3 else 1;
      UrlDecodeUndoesEncoding(text[n..], raw[1..]);
      assert raw == [raw[0]] + raw[1..];
      if text[0] == '%' { PairDecodes(text[1], text[2], raw[0]); }
    }
  }

  /** The encoding that escapes every byte. */
  function EncodeAll(raw: string): string
    requires forall c <- raw :: c < 256 as char
  {
    if raw == "" then "" else
    assert raw[0] in raw && forall c <- raw[1..] :: c in raw;
    var code := raw[0] as int;
    ['%', UPPER_DIGITS[code / 16], UPPER_DIGITS[code % 16]] + EncodeAll(raw[1..])
  }

  lemma {:induction false} EveryByteStringHasAnEncoding(raw: string)
    requires forall c <- raw :: c < 256 as char
    ensures Encodes(EncodeAll(raw), raw)
  {
    if raw != "" {
      assert raw[0] in raw && forall c <- raw[1..] :: c in raw;
      EveryByteStringHasAnEncoding(raw[1..]);
      assert EncodeAll(raw)[3..] == EncodeAll(raw[1..]);
    }
  }

  // ---------- Query maps ----------

  /** One part between '&'s put into the map. */
  function WithPart(m: Entries<string>, part: string): Entries<string> {
    if part == "" then m else
    match Find(part, "=", 0)
    case None => Assign(m, UrlDecode(part), "")
    case Some(eq) => Assign(m, UrlDecode(part[..eq]), UrlDecode(part[eq + 1..]))
  }

  function QueryFrom(before: Entries<string>, s: string): Entries<string>
    decreases |s|
  {
    match Find(s, "&", 0)
    case None => WithPart(before, s)
    case Some(amp) => QueryFrom(WithPart(before, s[..amp]), s[amp + 1..])
  }

  method ParseQuery(query: string) returns (out: Entries<string>)
    ensures out == QueryFrom([], query)
  {
    hide WithPart, QueryFrom;
    out := [];
    var begin := 0;
    assert query[0..] == query;
    while begin <= |query|
      invariant 0 <= begin <= |query|
      invariant QueryFrom(out, query[begin..]) == QueryFrom([], query)
    {
      var amp := Find(query, "&", begin);
      PartStep(out, query, begin);
      out := WithPart(out, query[begin..if amp.None? then |query| else amp.value]);
      if amp.None? { return; }
      begin := amp.value + 1;
    }
  }

  lemma PartStep(before: Entries<string>, query: string, begin: nat)
    requires begin <= |query|
    ensures QueryFrom(before, query[begin..]) ==
            match Find(query, "&", begin)
            case None => WithPart(before, query[begin..|query|])
            case Some(amp) => QueryFrom(WithPart(before, query[begin..amp]), query[amp + 1..])
  {
    hide WithPart, Find;
    FindInSuffix(query, "&", begin);
    match Find(query, "&", begin)
    case None => assert query[begin..|query|] == query[begin..];
    case Some(amp) =>
      assert query[begin..][..amp - begin] == query[begin..amp];
      assert query[begin..][amp - begin + 1..] == query[amp + 1..];
  }

  lemma FindInSuffix(t: string, w: string, p: nat)
    requires p <= |t|
    ensures Find(t[p..], w, 0) == match Find(t, w, p) case None => None case Some(q) => Some(q - p)
  {
    if Find(t, w, p).Some? {
      FindInWindow(t, w, p, "");
      assert t[p..] + "" == t[p..];
    } else {
      NotFindInSuffix(t, w, p);
    }
  }

  function Pair(e: Entry<string>): string {
    e.key + "=" + e.value
  }

  /** The entries as the client writes them. */
  function Pairs(m: Entries<string>): string {
    if m == [] then "" else if |m| == 1 then Pair(m[0]) else Pair(m[0]) + "&" + Pairs(m[1..])
  }

  function WithQuery(path: string, m: Entries<string>): string {
    if m == [] then path else path + "?" + Pairs(m)
  }

  /** What is still to be written before the `i`-th entry. */
  function PairsLeft(m: Entries<string>, i: nat): string
    requires i <= |m|
  {
    if i == |m| then "" else (if i == 0 then "" else "&") + Pairs(m[i..])
  }

  lemma PairsLeftStep(m: Entries<string>, i: nat)
    requires i < |m|
    ensures PairsLeft(m, i) == (if i == 0 then "" else "&") + Pair(m[i]) + PairsLeft(m, i + 1)
  {
    hide Pair;
    assert m[i..][1..] == m[i + 1..];
  }

  method WithQueryLoop(path: string, query: Entries<string>) returns (out: string)
    ensures out == WithQuery(path, query)
  {
    hide Pairs, PairsLeft;
    if query == [] { return path; }
    out := path + "?";
    var first := true;
    for i := 0 to |query|
      invariant first == (i == 0)
      invariant out + PairsLeft(query, i) == path + "?" + PairsLeft(query, 0)
    {
      PairsLeftStep(query, i);
      if !first { out := out + "&"; }
      first := false;
      out := out + query[i].key + "=" + query[i].value;
    }
    PairsEnds(query);
  }

  lemma PairsEnds(m: Entries<string>)
    requires m != []
    ensures PairsLeft(m, 0) == Pairs(m) && PairsLeft(m, |m|) == ""
  {
    hide Pairs;
    assert m[0..] == m && "" + Pairs(m) == Pairs(m);
  }

  predicate Plain(s: string) {
    forall c <- s :: c != '%' && c != '+' && c != '&'
  }

  /** The maps whose text is unambiguous; the client does not encode what it writes. */
  ghost predicate PlainQuery(m: Entries<string>) {
    forall e <- m :: Plain(e.key) && Plain(e.value) && '=' !in e.key
  }

  lemma NotFoundIn(s: string, c: char)
    requires c !in s
    ensures Find(s, [c], 0).None?
  {
    forall i: nat ensures !At(s, i, [c]) {
      if i < |s| { assert s[i..i + 1] == [s[i]]; }
    }
  }

  lemma FoundBehind(s: string, c: char, rest: string)
    requires c !in s
    ensures Find(s + [c] + rest, [c], 0) == Some(|s|)
  {
    var t := s + [c] + rest;
    assert t[|s|..|s| + 1] == [c];
    forall i: nat | i < |s| ensures !At(t, i, [c]) {
      assert t[i..i + 1] == [s[i]];
    }
    FindIs(t, [c], 0, |s|);
  }

  // ---------- Reading what any client may write ----------

  /** One part of a query as it is written. */
  datatype Part = Nothing | Bare(key: string) | Valued(key: string, value: string)
  {
    function Text(): string {
      match this
      case Nothing => ""
      case Bare(k) => k
      case Valued(k, v) => k + "=" + v
    }

    /** The part writes this entry, percent-encoded; without an '=' the value is empty. */
    ghost predicate Writes(e: Entry<string>) {
      match this
      case Nothing => false
      case Bare(k) => k != "" && '=' !in k && '&' !in k && Encodes(k, e.key) && e.value == ""
      case Valued(k, v) => '=' !in k && '&' !in k && '&' !in v && Encodes(k, e.key) && Encodes(v, e.value)
    }
  }

  function Joined(parts: seq<Part>): string {
    if parts == [] then "" else if |parts| == 1 then parts[0].Text() else parts[0].Text() + "&" + Joined(parts[1..])
  }

  /** The parts write these entries, in this order. */
  ghost predicate AllWrite(parts: seq<Part>, entries: Entries<string>) {
    if parts == [] then entries == []
    else if parts[0].Nothing? then AllWrite(parts[1..], entries)
    else entries != [] && parts[0].Writes(entries[0]) && AllWrite(parts[1..], entries[1..])
  }

  /** The entries put into a map one after another. */
  function AllAssigned(before: Entries<string>, entries: Entries<string>): Entries<string>
    decreases |entries|
  {
    if entries == [] then before else AllAssigned(Assign(before, entries[0].key, entries[0].value), entries[1..])
  }

  /** The value of the last entry with that key. */
  function LastValue(entries: Entries<string>, key: string): Option<string> {
    if entries == [] then None
    else
      var last := entries[|entries| - 1];
      if last.key == key then Some(last.value) else LastValue(entries[..|entries| - 1], key)
  }

  lemma {:induction false} LastBehindFirst(entries: Entries<string>, key: string)
    requires entries != []
    ensures LastValue(entries, key) ==
            var more := LastValue(entries[1..], key);
            if more.Some? then more else if entries[0].key == key then Some(entries[0].value) else None
  {
    var front, n := entries[..|entries| - 1], |entries|;
    if n > 1 {
      assert entries[1..][|entries[1..]| - 1] == entries[n - 1] && entries[1..][..n - 2] == front[1..];
      LastBehindFirst(front, key);
    }
  }

  lemma {:induction false} LastDecides(before: Entries<string>, entries: Entries<string>, key: string)
    requires Sorted(before)
    ensures Sorted(AllAssigned(before, entries))
    ensures Lookup(AllAssigned(before, entries), key)
         == if LastValue(entries, key).Some? then LastValue(entries, key) else Lookup(before, key)
    decreases |entries|
  {
    hide Assign, Less, Lookup;
    if entries != [] {
      AssignKeepsSorted(before, entries[0].key, entries[0].value);
      LastDecides(Assign(before, entries[0].key, entries[0].value), entries[1..], key);
      LastBehindFirst(entries, key);
    }
  }

  lemma {:induction false} SortedAreAssigned(before: Entries<string>, entries: Entries<string>)
    requires Sorted(before + entries)
    ensures AllAssigned(before, entries) == before + entries
    decreases |entries|
  {
    hide Assign, Less;
    if entries == [] {
      assert before + entries == before;
    } else {
      var e, all := entries[0], before + entries;
      forall x <- before ensures Less(x.key, e.key) {
        var i :| 0 <= i < |before| && before[i] == x;
        assert Less(all[i].key, all[|before|].key);
      }
      InsertAbove(before, e.key, e.value);
      assert [e] == [Entry(e.key, e.value)];
      assert before + [e] + entries[1..] == all;
      SortedAreAssigned(before + [e], entries[1..]);
    }
  }

  lemma PartIsRead(m: Entries<string>, part: Part, e: Entry<string>)
    requires part.Writes(e)
    ensures WithPart(m, part.Text()) == Assign(m, e.key, e.value)
  {
    hide Assign, UrlDecode, Encodes;
    var t := part.Text();
    UrlDecodeUndoesEncoding(part.key, e.key);
    match part
    case Bare(k) => NotFoundIn(k, '=');
    case Valued(k, v) =>
      UrlDecodeUndoesEncoding(v, e.value);
      FoundBehind(k, '=', v);
      assert t == k + ['='] + v;
      assert t[..|k|] == k && t[|k| + 1..] == v;
  }

  lemma NoAmpersand(part: Part, e: Entry<string>)
    requires part.Nothing? || part.Writes(e)
    ensures '&' !in part.Text()
  {
  }

  /** A query is read as the entries it writes, decoded; of entries with one key the last decides. */
  lemma {:induction false} QueryIsDecoded(before: Entries<string>, parts: seq<Part>, entries: Entries<string>)
    requires AllWrite(parts, entries)
    ensures QueryFrom(before, Joined(parts)) == AllAssigned(before, entries)
    decreases |parts|
  {
    hide Assign, WithPart;
    if parts == [] {
      NotFoundIn("", '&');
      NothingIsPut(before);
    } else {
      var part, more := parts[0], Joined(parts[1..]);
      var now := if part.Nothing? then before else Assign(before, entries[0].key, entries[0].value);
      NoAmpersand(part, if part.Nothing? then Entry("", "") else entries[0]);
      NothingIsPut(before);
      if !part.Nothing? { PartIsRead(before, part, entries[0]); }
      if |parts| == 1 {
        NotFoundIn(part.Text(), '&');
      } else {
        FoundBehind(part.Text(), '&', more);
        assert Joined(parts) == part.Text() + ['&'] + more;
        assert Joined(parts)[..|part.Text()|] == part.Text() && Joined(parts)[|part.Text()| + 1..] == more;
        QueryIsDecoded(now, parts[1..], if part.Nothing? then entries else entries[1..]);
      }
    }
  }

  lemma NothingIsPut(m: Entries<string>)
    ensures WithPart(m, "") == m
  {
  }

  // ---------- Reading what this client writes ----------

  lemma {:induction false} PlainIsEncoded(s: string)
    requires Plain(s)
    ensures Encodes(s, s)
  {
    if s != "" {
      assert s[0] in s && forall c <- s[1..] :: c in s;
      PlainIsEncoded(s[1..]);
    }
  }

  function PartsOf(m: Entries<string>): (parts: seq<Part>)
    ensures |parts| == |m|
  {
    seq(|m|, i requires 0 <= i < |m| => Valued(m[i].key, m[i].value))
  }

  lemma {:induction false} PairsAreParts(m: Entries<string>)
    requires PlainQuery(m)
    ensures Pairs(m) == Joined(PartsOf(m)) && AllWrite(PartsOf(m), m)
  {
    hide Plain, Encodes;
    if m != [] {
      assert m[0] in m && forall e <- m[1..] :: e in m;
      PlainIsEncoded(m[0].key);
      PlainIsEncoded(m[0].value);
      PlainHasNoAmpersand(m[0].key);
      PlainHasNoAmpersand(m[0].value);
      PairsAreParts(m[1..]);
      assert PartsOf(m)[1..] == PartsOf(m[1..]);
    }
  }

  lemma PlainHasNoAmpersand(s: string)
    requires Plain(s)
    ensures '&' !in s
  {
  }

  lemma {:induction false} PairsAreRead(before: Entries<string>, m: Entries<string>)
    requires Sorted(before + m) && PlainQuery(m)
    ensures QueryFrom(before, Pairs(m)) == before + m
  {
    hide QueryFrom, AllAssigned, Less, Plain;
    PairsAreParts(m);
    QueryIsDecoded(before, PartsOf(m), m);
    SortedAreAssigned(before, m);
  }
}
