/** The parser of the program: an object with a read position, whose methods move it forward. Each
    method is proved to do what reading says from the position it starts at; a thrown `JsonError`
    is the result `None`. */
module JsonParser {
  import opened Text
  import opened Numerals
  import opened OrderedMap
  import opened Json
  import opened JsonReader
  import opened JsonPrinter

  // ---------- Reading, with trees replaced by their values ----------

  function ValueAt(t: string, p: nat): (r: Reading<Json>)
    requires p <= |t|
    ensures r.Some? ==> p < r.value.1 <= |t|
  {
    var r :- ReadTree(t, p);
    TreeIsSound(t, p);
    Some((TreeValue(r.0), r.1))
  }

  /** The string contents read from `p` on, behind what was read before. */
  function UnitsFrom(t: string, p: nat, before: string): (r: Reading<string>)
    requires p <= |t|
    ensures r.Some? ==> p < r.value.1 <= |t|
  {
    var r :- ReadUnits(t, p);
    UnitsAreSound(t, p);
    Some((before + UnitsValue(r.0), r.1))
  }

  function StringAt(t: string, p: nat): (r: Reading<string>)
    requires p <= |t|
    ensures r.Some? ==> p < r.value.1 <= |t| && Next(t, p, '"')
  {
    if Next(t, p, '"') then UnitsFrom(t, p + 1, "") else None
  }

  lemma StringAtIs(t: string, p: nat)
    requires Next(t, p, '"')
    ensures ReadUnits(t, p + 1).None? <==> StringAt(t, p).None?
    ensures ReadUnits(t, p + 1).Some? ==>
      var (us, q) := ReadUnits(t, p + 1).value;
      (forall u <- us :: ValidUnit(u)) && StringAt(t, p) == Some((UnitsValue(us), q))
  {
    hide At, UnitsText;
    if ReadUnits(t, p + 1).Some? {
      StringIsSound(t, p);
      var s := UnitsValue(ReadUnits(t, p + 1).value.0);
      assert "" + s == s;
    }
  }

  /** A key, its value, and where the member ends. */
  function MemberAt(t: string, p: nat): (r: Option<(string, Json, nat)>)
    requires p <= |t|
    ensures r.Some? ==> p < r.value.2 <= |t|
  {
    var k :- StringAt(t, BlankEnd(t, p));
    var b := BlankEnd(t, k.1);
    if !Next(t, b, ':') then None else
    var v :- ValueAt(t, BlankEnd(t, b + 1));
    Some((k.0, v.0, BlankEnd(t, v.1)))
  }

  /** The members read from `p` on, added to those read before. */
  function MembersFrom(t: string, p: nat, before: Entries<Json>): Reading<Entries<Json>>
    requires p <= |t|
  {
    var r :- ReadFields(t, p);
    FieldsAreSound(t, p);
    Some((FieldsValue(before, r.0), r.1))
  }

  function ItemsFrom(t: string, p: nat, before: seq<Json>): Reading<seq<Json>>
    requires p <= |t|
  {
    var r :- ReadElements(t, p);
    ElementsAreSound(t, p);
    Some((before + ElementsValue(r.0), r.1))
  }

  function AsString(r: Reading<string>): Reading<Json> {
    if r.None? then None else Some((Str(r.value.0), r.value.1))
  }

  function AsArray(r: Reading<seq<Json>>): Reading<Json> {
    if r.None? then None else Some((Arr(r.value.0), r.value.1))
  }

  function AsObject(r: Reading<Entries<Json>>): Reading<Json> {
    if r.None? then None else Some((Obj(r.value.0), r.value.1))
  }

  lemma MemberAtIs(t: string, p: nat)
    requires p <= |t|
    ensures ReadMember(t, p).None? <==> MemberAt(t, p).None?
    ensures ReadMember(t, p).Some? ==>
      var (m, q) := ReadMember(t, p).value;
      ValidMember(m) && MemberAt(t, p) == Some((UnitsValue(m.key), TreeValue(m.value), q))
  {
    hide ReadTree, ReadUnits, TreeValue, UnitsValue, At, BlankEnd, ValidTree, MemberText, StringAt;
    if Next(t, BlankEnd(t, p), '"') { StringAtIs(t, BlankEnd(t, p)); }
    if ReadMember(t, p).Some? { MemberIsSound(t, p); }
  }

  lemma MembersStep(t: string, p: nat, before: Entries<Json>)
    requires p <= |t|
    ensures var m := MemberAt(t, p);
            MembersFrom(t, p, before) ==
            if m.None? then None
            else if Next(t, m.value.2, '}') then
              Some((Emplace(before, m.value.0, m.value.1), m.value.2 + 1))
            else if Next(t, m.value.2, ',') then
              MembersFrom(t, m.value.2 + 1, Emplace(before, m.value.0, m.value.1))
            else None
  {
    hide ReadMember, MemberAt, TreeValue, UnitsValue, Emplace, At, FieldsText, ValidMember;
    MemberAtIs(t, p);
    if ReadMember(t, p).Some? {
      var (m, q) := ReadMember(t, p).value;
      if Next(t, q, ',') && ReadFields(t, q + 1).Some? { FieldsAreSound(t, q + 1); }
    }
  }

  lemma ItemsStep(t: string, p: nat, before: seq<Json>)
    requires p <= |t|
    ensures var v := ValueAt(t, BlankEnd(t, p));
            ItemsFrom(t, p, before) ==
            if v.None? then None
            else if Next(t, BlankEnd(t, v.value.1), ']') then
              Some((before + [v.value.0], BlankEnd(t, v.value.1) + 1))
            else if Next(t, BlankEnd(t, v.value.1), ',') then
              ItemsFrom(t, BlankEnd(t, v.value.1) + 1, before + [v.value.0])
            else None
  {
    hide ReadTree, TreeValue, At, BlankEnd, ElementsText, ValidTree;
    if ReadItem(t, p).Some? {
      ItemIsSound(t, p);
      var (i, q) := ReadItem(t, p).value;
      if Next(t, q, ',') && ReadElements(t, q + 1).Some? {
        ElementsAreSound(t, q + 1);
        var es := ReadElements(t, q + 1).value.0;
        assert ReadElements(t, p).value.0 == Element(i, es);
        assert before + ([TreeValue(i.value)] + ElementsValue(es)) == before + [TreeValue(i.value)] + ElementsValue(es);
      }
    }
  }

  lemma BlankEndIsFinal(t: string, p: nat)
    requires p <= |t|
    ensures BlankEnd(t, BlankEnd(t, p)) == BlankEnd(t, p)
  {
  }

  lemma ArrayAt(t: string, p: nat)
    requires Next(t, p, '[')
    ensures ValueAt(t, p) ==
            var q := BlankEnd(t, p + 1);
            if Next(t, q, ']') then Some((Arr([]), q + 1))
            else AsArray(ItemsFrom(t, q, []))
  {
    hide At, BlankEnd, ReadElements, ElementsText, ElementsValue, ValidElements, ValueAt, ReadTree;
    var q := BlankEnd(t, p + 1);
    BlankEndIsFinal(t, p + 1);
    ItemsStep(t, p + 1, []);
    ItemsStep(t, q, []);
    ArrayTreeAt(t, p);
  }

  lemma ArrayTreeAt(t: string, p: nat)
    requires Next(t, p, '[')
    ensures ValueAt(t, p) ==
            var q := BlankEnd(t, p + 1);
            if Next(t, q, ']') then Some((Arr([]), q + 1))
            else AsArray(ItemsFrom(t, p + 1, []))
  {
    hide At, BlankEnd, ReadElements, ElementsText, ElementsValue, ValidElements;
    if ReadElements(t, p + 1).Some? {
      ElementsAreSound(t, p + 1);
      var js := ElementsValue(ReadElements(t, p + 1).value.0);
      assert [] + js == js;
    }
  }

  lemma ObjectTreeAt(t: string, p: nat)
    requires Next(t, p, '{')
    ensures ValueAt(t, p) ==
            var q := BlankEnd(t, p + 1);
            if Next(t, q, '}') then Some((Obj([]), q + 1))
            else AsObject(MembersFrom(t, p + 1, []))
  {
    hide At, BlankEnd, ReadFields, FieldsText, FieldsValue, ValidFields;
  }

  lemma ObjectAt(t: string, p: nat)
    requires Next(t, p, '{')
    ensures ValueAt(t, p) ==
            var q := BlankEnd(t, p + 1);
            if Next(t, q, '}') then Some((Obj([]), q + 1))
            else AsObject(MembersFrom(t, q, []))
  {
    hide At, BlankEnd, MembersFrom, ValueAt, Emplace;
    BlankEndIsFinal(t, p + 1);
    MembersStep(t, p + 1, []);
    MembersStep(t, BlankEnd(t, p + 1), []);
    ObjectTreeAt(t, p);
  }

  lemma DocumentAt(t: string)
    ensures ParseJson(t) ==
            var v := ValueAt(t, BlankEnd(t, 0));
            if v.Some? && BlankEnd(t, v.value.1) == |t| then Some(v.value.0) else None
  {
    hide ReadTree, TreeValue, At, BlankEnd, TreeText, ValidTree;
    if ReadItem(t, 0).Some? { ItemIsSound(t, 0); }
  }

  lemma ScalarAt(t: string, p: nat)
    requires p < |t|
    ensures t[p] == 'n' ==> ValueAt(t, p) == if At(t, p, "null") then Some((Null, p + 4)) else None
    ensures t[p] == 't' ==> ValueAt(t, p) == if At(t, p, "true") then Some((Bool(true), p + 4)) else None
    ensures t[p] == 'f' ==> ValueAt(t, p) == if At(t, p, "false") then Some((Bool(false), p + 5)) else None
    ensures t[p] == '"' ==> ValueAt(t, p) == AsString(StringAt(t, p))
    ensures t[p] == '-' || IsDecimal(t[p]) ==> ValueAt(t, p) == NumberAt(t, p)
  {
    hide At, ReadUnits, UnitsText, ReadNumber, StringAt;
    if t[p] == '"' { StringAtIs(t, p); }
    if (t[p] == '-' || IsDecimal(t[p])) && ReadNumber(t, p).Some? { NumberIsSound(t, p); }
  }

  function NumberAt(t: string, p: nat): Reading<Json>
    requires p < |t|
  {
    var r :- ReadNumber(t, p);
    NumberIsSound(t, p);
    Some((Num(NumberValue(r.0)), r.1))
  }

  // ---------- The parser ----------

  class Parser {
    const text: string
    var pos: nat

    ghost predicate Valid()
      reads this
    {
      pos <= |text|
    }

    constructor (text: string)
      ensures Valid() && this.text == text && pos == 0
    {
      this.text, pos := text, 0;
    }

    method Parse() returns (r: Option<Json>)
      requires Valid() && pos == 0
      modifies this`pos
      ensures r == ParseJson(text)
    {
      hide ValueAt, BlankEnd, ParseJson;
      DocumentAt(text);
      SkipWs();
      r := ParseValue();
      if r.None? { return; }
      SkipWs();
      if pos != |text| { return None; }
    }

    method ParseValue() returns (r: Option<Json>)
      requires Valid()
      modifies this`pos
      ensures Valid() && ValueAt(text, old(pos)) == if r.None? then None else Some((r.value, pos))
      decreases |text| - pos, 1
    {
      hide ReadUnits, ReadFields, ReadElements, ReadNumber, At, StringAt, NumberAt, BlankEnd, TreeValue;
      if pos >= |text| { return None; }
      var c := text[pos];
      ScalarAt(text, pos);
      if c == 'n' {
        var ok := Expect("null");
        return if ok then Some(Null) else None;
      }
      if c == 't' {
        var ok := Expect("true");
        return if ok then Some(Bool(true)) else None;
      }
      if c == 'f' {
        var ok := Expect("false");
        return if ok then Some(Bool(false)) else None;
      }
      if c == '"' {
        var s := ParseString();
        return if s.Some? then Some(Str(s.value)) else None;
      }
      if c == '{' {
        r := ParseObject();
        return;
      }
      if c == '[' {
        r := ParseArray();
        return;
      }
      if c == '-' || '0' <= c <= '9' {
        r := ParseNumber();
        return;
      }
      return None;
    }

    method ParseObject() returns (r: Option<Json>)
      requires Valid() && Next(text, pos, '{')
      modifies this`pos
      ensures Valid() && ValueAt(text, old(pos)) == if r.None? then None else Some((r.value, pos))
      decreases |text| - pos, 0
    {
      hide MembersFrom, MemberAt, ValueAt, BlankEnd, Emplace, At;
      ObjectAt(text, pos);
      var ok := Consume('{');
      var members: Entries<Json> := [];
      SkipWs();
      ok := TryConsume('}');
      if ok { return Some(Obj(members)); }
      ghost var all := MembersFrom(text, pos, []);
      while true
        invariant old(pos) < pos && Valid()
        invariant MembersFrom(text, pos, members) == all
        decreases |text| - pos
      {
        MembersStep(text, pos, members);
        var member := ParseMember();
        if member.None? { return None; }
        members := Emplace(members, member.value.0, member.value.1);
        ok := TryConsume('}');
        if ok { break; }
        ok := Consume(',');
        if !ok { return None; }
      }
      return Some(Obj(members));
    }

    /** One round of the member loop: key, colon, value, and the white space around them. */
    method ParseMember() returns (r: Option<(string, Json)>)
      requires Valid()
      modifies this`pos
      ensures Valid() && MemberAt(text, old(pos)) == if r.None? then None else Some((r.value.0, r.value.1, pos))
      decreases |text| - pos, 2
    {
      hide ValueAt, StringAt, BlankEnd;
      SkipWs();
      if Peek() != '"' { return None; }
      var key := ParseString();
      if key.None? { return None; }
      SkipWs();
      var ok := Consume(':');
      if !ok { return None; }
      SkipWs();
      var value := ParseValue();
      if value.None? { return None; }
      SkipWs();
      return Some((key.value, value.value));
    }

    method ParseArray() returns (r: Option<Json>)
      requires Valid() && Next(text, pos, '[')
      modifies this`pos
      ensures Valid() && ValueAt(text, old(pos)) == if r.None? then None else Some((r.value, pos))
      decreases |text| - pos, 0
    {
      hide ItemsFrom, ValueAt, BlankEnd, At;
      ArrayAt(text, pos);
      var ok := Consume('[');
      var items: seq<Json> := [];
      SkipWs();
      ok := TryConsume(']');
      if ok { return Some(Arr(items)); }
      ghost var all := ItemsFrom(text, pos, []);
      while true
        invariant old(pos) < pos && Valid()
        invariant ItemsFrom(text, pos, items) == all
        decreases |text| - pos
      {
        ItemsStep(text, pos, items);
        SkipWs();
        var value := ParseValue();
        if value.None? { return None; }
        items := items + [value.value];
        SkipWs();
        ok := TryConsume(']');
        if ok { break; }
        ok := Consume(',');
        if !ok { return None; }
      }
      return Some(Arr(items));
    }

    method ParseNumber() returns (r: Option<Json>)
      requires Valid() && pos < |text|
      modifies this`pos
      ensures Valid() && NumberAt(text, old(pos)) == if r.None? then None else Some((r.value, pos))
    {
      hide NumberLexeme, ValidNumber, NumberValue, ReadInteger, ReadFrac, ReadExp, At;
      var begin := pos;
      if Peek() == '-' { pos := pos + 1; }
      var digits := pos;
      var ok := IntegerPart();
      if !ok { return None; }
      var frac := pos;
      ok := FractionPart();
      if !ok { return None; }
      var exp := pos;
      ok := ExponentPart();
      if !ok { return None; }
      NumberIsSound(text, begin);
      return Some(Num(NumberValue(
        NumberText(text[begin..digits], text[digits..frac], text[frac..exp], text[exp..pos]))));
    }

    method IntegerPart() returns (ok: bool)
      requires Valid()
      modifies this`pos
      ensures Valid() && old(pos) <= pos && ReadInteger(text, old(pos)) == if ok then Some(pos) else None
    {
      ok := true;
      if Peek() == '0' {
        pos := pos + 1;
      } else {
        ok := ConsumeDigits();
      }
    }

    method FractionPart() returns (ok: bool)
      requires Valid()
      modifies this`pos
      ensures Valid() && old(pos) <= pos && ReadFrac(text, old(pos)) == if ok then Some(pos) else None
    {
      ok := true;
      if Peek() == '.' {
        pos := pos + 1;
        ok := ConsumeDigits();
      }
    }

    method ExponentPart() returns (ok: bool)
      requires Valid()
      modifies this`pos
      ensures Valid() && old(pos) <= pos && ReadExp(text, old(pos)) == if ok then Some(pos) else None
    {
      ok := true;
      if Peek() == 'e' || Peek() == 'E' {
        pos := pos + 1;
        if Peek() == '+' || Peek() == '-' { pos := pos + 1; }
        ok := ConsumeDigits();
      }
    }

    method ParseString() returns (r: Option<string>)
      requires Valid()
      modifies this`pos
      ensures Valid() && StringAt(text, old(pos)) == if r.None? then None else Some((r.value, pos))
    {
      var ok := Consume('"');
      if !ok { return None; }
      ghost var start := pos;
      var out := "";
      hide UnitsFrom, ReadEscape, UnitValue;
      while pos < |text|
        invariant Valid() && start <= pos
        invariant UnitsFrom(text, pos, out) == UnitsFrom(text, start, "")
        decreases |text| - pos
      {
        UnitsStep(text, pos, out);
        var c := text[pos];
        pos := pos + 1;
        if c == '"' { return Some(out); }
        if c < ' ' { return None; }
        if c != '\\' {
          out := out + [c];
          continue;
        }
        var bytes := Escape();
        if bytes.None? { return None; }
        out := out + bytes.value;
      }
      return None;
    }

    /** What follows a backslash. */
    method Escape() returns (bytes: Option<string>)
      requires Valid()
      modifies this`pos
      ensures Valid()
      ensures match ReadEscape(text, old(pos))
              case None => bytes.None?
              case Some(u) => ValidUnit(u.0) && bytes == Some(UnitValue(u.0)) && pos == u.1
    {
      hide HexCode, CodeBytes;
      if pos >= |text| { return None; }
      var escaped := text[pos];
      pos := pos + 1;
      if escaped == '"' || escaped == '\\' || escaped == '/' { return Some([escaped]); }
      if escaped == 'b' { return Some([8 as char]); }
      if escaped == 'f' { return Some([12 as char]); }
      if escaped == 'n' { return Some("\n"); }
      if escaped == 'r' { return Some("\r"); }
      if escaped == 't' { return Some("\t"); }
      if escaped == 'u' { bytes := UnicodeEscape(); } else { bytes := None; }
    }

    /** The bytes that `append_unicode_escape` appends. */
    method UnicodeEscape() returns (bytes: Option<string>)
      requires Valid()
      modifies this`pos
      ensures Valid()
      ensures
        var h := old(pos);
        if h + 4 <= |text| && forall c <- text[h..h + 4] :: IsHex(c)
        then bytes == Some(CodeBytes(HexCode(text[h..h + 4]))) && pos == h + 4
        else bytes.None?
    {
      if pos + 4 > |text| { return None; }
      ghost var h := pos;
      var code: nat := 0;
      for i := 0 to 4
        invariant pos == h + i
        invariant forall c <- text[h..h + i] :: IsHex(c)
        invariant code == Value(text[h..h + i], 16)
      {
        var c := text[pos];
        if !IsHex(c) {
          assert c in text[h..h + 4];
          return None;
        }
        assert text[h..h + i + 1][..i] == text[h..h + i];
        code := code * 16 + DigitValue(c);
        pos := pos + 1;
      }
      FourDigits(text[h..h + 4]);
      return Some(CodeBytes(code));
    }

    method ConsumeDigits() returns (ok: bool)
      requires Valid()
      modifies this`pos
      ensures Valid() && old(pos) <= pos && ReadDigits(text, old(pos)) == if ok then Some(pos) else None
    {
      var begin := pos;
      while '0' <= Peek() <= '9'
        invariant Valid() && begin <= pos && DigitsEnd(text, pos) == DigitsEnd(text, begin)
        decreases |text| - pos
      {
        pos := pos + 1;
      }
      return pos != begin;
    }

    method SkipWs()
      requires Valid()
      modifies this`pos
      ensures Valid() && pos == BlankEnd(text, old(pos))
    {
      while pos < |text|
        invariant Valid() && BlankEnd(text, pos) == BlankEnd(text, old(pos))
        decreases |text| - pos
      {
        var c := text[pos];
        if c != ' ' && c != '\t' && c != '\n' && c != '\r' { break; }
        pos := pos + 1;
      }
    }

    function Peek(): char
      reads this
    {
      if pos >= |text| then '\0' else text[pos]
    }

    method Consume(expected: char) returns (ok: bool)
      requires Valid() && expected != '\0'
      modifies this`pos
      ensures Valid() && ok == Next(text, old(pos), expected)
      ensures pos == if ok then old(pos) + 1 else old(pos)
    {
      ok := Peek() == expected;
      if ok { pos := pos + 1; }
    }

    method TryConsume(expected: char) returns (ok: bool)
      requires Valid() && expected != '\0'
      modifies this`pos
      ensures Valid() && ok == Next(text, old(pos), expected)
      ensures pos == if ok then old(pos) + 1 else old(pos)
    {
      ok := Consume(expected);
    }

    method Expect(literal: string) returns (ok: bool)
      requires Valid() && '\0' !in literal
      modifies this`pos
      ensures Valid() && ok == At(text, old(pos), literal)
      ensures ok ==> pos == old(pos) + |literal|
    {
      for i := 0 to |literal|
        invariant Valid() && pos == old(pos) + i && text[old(pos)..pos] == literal[..i]
      {
        AtIndex(text, old(pos), literal, i);
        ok := Consume(literal[i]);
        if !ok { return; }
        assert text[old(pos)..old(pos) + i + 1] == text[old(pos)..old(pos) + i] + [literal[i]] == literal[..i + 1];
      }
      ok := true;
    }
  }

  lemma UnitsStep(t: string, p: nat, before: string)
    requires p < |t|
    ensures UnitsFrom(t, p, before) ==
      if t[p] == '"' then Some((before, p + 1))
      else
        var u := ReadUnit(t, p);
        if u.None? then None
        else (UnitIsSound(t, p); UnitsFrom(t, u.value.1, before + UnitValue(u.value.0)))
  {
    hide At, UnitsText, UnitText, UnitValue, ReadUnit, ValidUnit;
    if t[p] == '"' {
      assert before + "" == before;
    } else if ReadUnit(t, p).Some? {
      var (u, q) := ReadUnit(t, p).value;
      UnitIsSound(t, p);
      if ReadUnits(t, q).Some? {
        UnitsAreSound(t, q);
        var us := ReadUnits(t, q).value.0;
        assert ReadUnits(t, p).value.0 == [u] + us;
        assert before + (UnitValue(u) + UnitsValue(us)) == before + UnitValue(u) + UnitsValue(us);
      }
    }
  }
}
