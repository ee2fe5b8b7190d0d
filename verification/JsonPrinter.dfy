/** Printing: the tree a value is printed as, the printing loops, and that printing loses nothing. */
module JsonPrinter {
  import opened Text
  import opened Numerals
  import opened OrderedMap
  import opened Json
  import opened JsonReader

  /** The values the program prints exactly: integers a `double` holds, and objects as `std::map`
      keeps them, sorted by key. */
  ghost predicate Printable(j: Json) {
    match j
    case Num(Whole(n)) => -EXACT_LIMIT <= n <= EXACT_LIMIT
    case Num(Other(_)) => false
    case Obj(ms) => Sorted(ms) && forall m <- ms :: Printable(m.value)
    case Arr(js) => forall i <- js :: Printable(i)
    case _ => true
  }

  /** How one character is escaped. */
  function UnitOf(c: char): (u: Unit)
    ensures ValidUnit(u)
  {
    if c == '"' || c == '\\' then Escape(c)
    else if c == 8 as char then Escape('b')
    else if c == 12 as char then Escape('f')
    else if c == '\n' then Escape('n')
    else if c == '\r' then Escape('r')
    else if c == '\t' then Escape('t')
    else if c < ' ' then ControlCode(c)
    else Plain(c)
  }

  /** `\u` with four digits: `setw(4)` and `setfill('0')` in front of a hexadecimal code below 32. */
  function ControlCode(c: char): (u: Unit)
    requires c < ' '
    ensures ValidUnit(u)
  {
    var code := c as int;
    if code < 16 then Code(['0', '0', '0', DigitChar(code)])
    else Code(['0', '0', DigitChar(code / 16), DigitChar(code % 16)])
  }

  function UnitsOf(s: string): (us: seq<Unit>)
    ensures |us| == |s| && forall u <- us :: ValidUnit(u)
  {
    if s == "" then [] else [UnitOf(s[0])] + UnitsOf(s[1..])
  }

  function NumberOf(n: int): NumberText {
    NumberText(if n < 0 then "-" else "", Numeral(if n < 0 then -n else n, 10), "", "")
  }

  /** The tree a value is printed as: no white space anywhere. */
  function TreeOf(j: Json): Tree
    decreases j, 0
  {
    match j
    case Null => NullTree
    case Bool(b) => if b then TrueTree else FalseTree
    case Str(s) => StringTree(UnitsOf(s))
    case Num(n) => NumberTree(if n.Whole? then NumberOf(n.n) else NumberOf(0))
    case Arr(js) => if js == [] then EmptyArray("") else ArrayTree(ElementsOf(js))
    case Obj(ms) => if ms == [] then EmptyObject("") else ObjectTree(FieldsOf(ms))
  }

  function ElementsOf(js: seq<Json>): Elements
    requires js != []
    decreases js, 1
  {
    var item := Item("", TreeOf(js[0]), "");
    if |js| == 1 then LastElement(item) else Element(item, ElementsOf(js[1..]))
  }

  function FieldsOf(ms: Entries<Json>): Fields
    requires ms != []
    decreases ms, 1
  {
    var member := Member("", UnitsOf(ms[0].key), "", "", TreeOf(ms[0].value), "");
    if |ms| == 1 then LastField(member) else Field(member, FieldsOf(ms[1..]))
  }

  /** What `dump` returns. */
  function Dump(j: Json): string {
    TreeText(TreeOf(j))
  }

  /** What `Json::parse` returns; `None` where it throws. */
  function ParseJson(t: string): Option<Json> {
    var d :- ReadDocument(t);
    ReadsExactlyTheGrammar(t, d);
    Some(TreeValue(d.value))
  }

  lemma {:induction false} UnitsRoundTrip(s: string)
    ensures UnitsValue(UnitsOf(s)) == s
  {
    if s != "" {
      var us := UnitsOf(s);
      assert us[0] == UnitOf(s[0]) && us[1..] == UnitsOf(s[1..]);
      UnitsRoundTrip(s[1..]);
      assert UnitValue(us[0]) == [s[0]] by { UnitRoundTrip(s[0]); }
    }
  }

  lemma UnitRoundTrip(c: char)
    ensures UnitValue(UnitOf(c)) == [c]
  {
    if c < ' ' && UnitOf(c).Code? {
      var h := UnitOf(c).hex;
      assert DigitValue('0') == 0;
      assert HexCode(h) == c as int;
    }
  }

  lemma {:induction false} TreeRoundTrip(j: Json)
    requires Printable(j)
    ensures ValidTree(TreeOf(j)) && TreeValue(TreeOf(j)) == j
    decreases j, 0
  {
    hide Numeral, UnitsValue;
    match j
    case Str(s) => UnitsRoundTrip(s);
    case Num(n) =>
      var digits := Numeral(if n.n < 0 then -n.n else n.n, 10);
      assert Digits(digits);
    case Arr(js) => if js != [] { ElementsRoundTrip(js); }
    case Obj(ms) => if ms != [] { FieldsRoundTrip([], ms); }
    case _ =>
  }

  lemma {:induction false} ElementsRoundTrip(js: seq<Json>)
    requires js != [] && forall i <- js :: Printable(i)
    ensures ValidElements(ElementsOf(js)) && ElementsValue(ElementsOf(js)) == js
    decreases js, 1
  {
    hide TreeOf, TreeValue, Printable;
    TreeRoundTrip(js[0]);
    if |js| > 1 { ElementsRoundTrip(js[1..]); }
  }

  lemma {:induction false} FieldsRoundTrip(before: Entries<Json>, ms: Entries<Json>)
    requires ms != [] && Sorted(before + ms) && forall m <- ms :: Printable(m.value)
    ensures ValidFields(FieldsOf(ms)) && FieldsValue(before, FieldsOf(ms)) == before + ms
    decreases ms, 1
  {
    hide TreeOf, TreeValue, Printable, Emplace, UnitsValue;
    var m := ms[0];
    TreeRoundTrip(m.value);
    UnitsRoundTrip(m.key);
    var all := before + ms;
    forall i | 0 <= i < |before| ensures Less(before[i].key, m.key) {
      assert Less(all[i].key, all[|before|].key);
    }
    InsertAbove(before, m.key, m.value);
    if |ms| > 1 {
      assert before + [m] + ms[1..] == all && [m] == [Entry(m.key, m.value)];
      FieldsRoundTrip(before + [m], ms[1..]);
    } else {
      assert before + [m] == all && [m] == [Entry(m.key, m.value)];
    }
  }

  /** Printing then parsing is the identity, and the whole text is consumed. */
  lemma ParseDump(j: Json)
    requires Printable(j)
    ensures ParseJson(Dump(j)) == Some(j)
  {
    hide TreeOf, TreeText, TreeValue, ReadDocument;
    TreeRoundTrip(j);
    var d := Item("", TreeOf(j), "");
    assert ItemText(d) == Dump(j);
    ReadsExactlyTheGrammar(Dump(j), d);
  }

  /** A document that is a string literal has the value its units stand for. */
  lemma StringIsDecoded(pre: string, us: seq<Unit>, post: string, parts: seq<string>)
    requires Blank(pre) && Blank(post) && |us| == |parts| && (forall u <- us :: ValidUnit(u))
    requires forall i :: 0 <= i < |us| ==> Denotes(us[i], parts[i])
    ensures ParseJson(pre + (StringText(us) + post)) == Some(Str(Flat(parts)))
  {
    hide StringText, Denotes, ReadDocument, UnitsValue, Flat;
    UnitsDenote(us, parts);
    var d := Item(pre, StringTree(us), post);
    assert TreeText(d.value) == StringText(us);
    assert ItemText(d) == pre + (StringText(us) + post);
    ReadsExactlyTheGrammar(ItemText(d), d);
  }

  // ---------- The printing loops ----------

  /** `std::ostringstream`. */
  class TextSink {
    var text: string

    constructor ()
      ensures text == ""
    {
      text := "";
    }

    method Put(s: string)
      modifies this
      ensures text == old(text) + s
    {
      text := text + s;
    }
  }

  method JsonEscape(value: string) returns (out: string)
    ensures out + "\"" == UnitsText(UnitsOf(value))
  {
    hide UnitsText, UnitsOf, UnitOf, Numeral;
    out := "";
    for i := 0 to |value|
      invariant out + UnitsText(UnitsOf(value[i..])) == UnitsText(UnitsOf(value))
    {
      EscapeStep(value[i..]);
      assert value[i..][1..] == value[i + 1..];
      var escaped := JsonEscapeChar(value[i]);
      assert out + (escaped + UnitsText(UnitsOf(value[i + 1..])))
          == out + escaped + UnitsText(UnitsOf(value[i + 1..]));
      out := out + escaped;
    }
    assert value[|value|..] == "";
    EscapeStep("");
  }

  /** The `switch` of the escaping loop. */
  method JsonEscapeChar(c: char) returns (out: string)
    ensures out == UnitText(UnitOf(c))
  {
    hide Numeral;
    if c == '"' {
      out := "\\\"";
    } else if c == '\\' {
      out := "\\\\";
    } else if c == 8 as char {
      out := "\\b";
    } else if c == 12 as char {
      out := "\\f";
    } else if c == '\n' {
      out := "\\n";
    } else if c == '\r' {
      out := "\\r";
    } else if c == '\t' {
      out := "\\t";
    } else if c < ' ' {
      out := "\\u" + Padded(Numeral(c as int, 16));
      PaddedControl(c);
    } else {
      out := [c];
    }
  }

  /** `setw(4)` and `setfill('0')`. */
  function Padded(s: string): string {
    seq(if |s| < 4 then 4 - |s| else 0, _ => '0') + s
  }

  lemma PaddedControl(c: char)
    requires c < ' '
    ensures ControlCode(c) == Code(Padded(Numeral(c as int, 16)))
  {
    if c as int >= 16 {
      assert Numeral(c as int / 16, 16) == [DigitChar(c as int / 16)];
      assert Numeral(c as int, 16) == [DigitChar(c as int / 16), DigitChar(c as int % 16)];
    }
  }

  lemma EscapeStep(s: string)
    ensures s == "" ==> UnitsText(UnitsOf(s)) == "\""
    ensures s != "" ==> UnitsText(UnitsOf(s)) == UnitText(UnitOf(s[0])) + UnitsText(UnitsOf(s[1..]))
  {
    if s != "" { assert UnitsOf(s)[1..] == UnitsOf(s[1..]); }
  }

  /** What is still to be printed of an array or object before its `i`-th entry. */
  function ElementsLeft(js: seq<Json>, i: nat): string
    requires i <= |js|
  {
    if i == |js| then "]" else (if i == 0 then "" else ",") + ElementsText(ElementsOf(js[i..]))
  }

  function FieldsLeft(ms: Entries<Json>, i: nat): string
    requires i <= |ms|
  {
    if i == |ms| then "}" else (if i == 0 then "" else ",") + FieldsText(FieldsOf(ms[i..]))
  }

  lemma ElementsLeftStep(js: seq<Json>, i: nat)
    requires i < |js|
    ensures ElementsLeft(js, i) == (if i == 0 then "" else ",") + Dump(js[i]) + ElementsLeft(js, i + 1)
  {
    hide TreeText, TreeOf;
    assert js[i..][1..] == js[i + 1..];
    assert ItemText(Item("", TreeOf(js[i]), "")) == Dump(js[i]);
  }

  lemma FieldsLeftStep(ms: Entries<Json>, i: nat)
    requires i < |ms|
    ensures FieldsLeft(ms, i) == (if i == 0 then "" else ",") + StringText(UnitsOf(ms[i].key)) + ":"
                                 + Dump(ms[i].value) + FieldsLeft(ms, i + 1)
  {
    hide TreeText, TreeOf, StringText, UnitsOf;
    assert ms[i..][1..] == ms[i + 1..];
    CompactMember(UnitsOf(ms[i].key), TreeOf(ms[i].value));
  }

  lemma ObjectTreeText(ms: Entries<Json>)
    ensures Dump(Obj(ms)) == "{" + FieldsLeft(ms, 0)
    ensures FieldsLeft(ms, |ms|) == "}"
  {
    hide FieldsText, FieldsOf;
    if ms != [] { assert ms[0..] == ms && "" + FieldsText(FieldsOf(ms)) == FieldsText(FieldsOf(ms)); }
  }

  lemma ArrayTreeText(js: seq<Json>)
    ensures Dump(Arr(js)) == "[" + ElementsLeft(js, 0)
    ensures ElementsLeft(js, |js|) == "]"
  {
    hide ElementsText, ElementsOf;
    if js != [] { assert js[0..] == js && "" + ElementsText(ElementsOf(js)) == ElementsText(ElementsOf(js)); }
  }

  lemma CompactMember(key: seq<Unit>, value: Tree)
    ensures MemberText(Member("", key, "", "", value, "")) == StringText(key) + ":" + TreeText(value)
  {
    hide TreeText, StringText;
    var v := TreeText(value);
    assert "" + (v + "") == v;
    assert "" + (":" + v) == ":" + v;
  }

  method DumpJson(json: Json, out: TextSink)
    requires Printable(json)
    modifies out
    ensures out.text == old(out.text) + Dump(json)
    decreases json
  {
    hide UnitsText, UnitsOf, ElementsText, FieldsText, ElementsOf, FieldsOf, Numeral;
    match json
    case Null => out.Put("null");
    case Bool(b) => out.Put(if b then "true" else "false");
    case Num(n) =>
      var digits := Numeral(if n.n < 0 then -n.n else n.n, 10);
      out.Put(if n.n < 0 then "-" + digits else digits);
      assert digits + ("" + "") == digits && "" + digits == digits;
    case Str(s) =>
      var escaped := JsonEscape(s);
      out.Put("\"" + escaped + "\"");
      assert "\"" + escaped + "\"" == "\"" + (escaped + "\"");
    case Obj(ms) =>
      DumpObject(ms, json, out);
    case Arr(js) =>
      DumpArray(js, json, out);
  }

  method DumpObject(ms: Entries<Json>, ghost json: Json, out: TextSink)
    requires json == Obj(ms) && forall m <- ms :: Printable(m.value)
    modifies out
    ensures out.text == old(out.text) + Dump(json)
    decreases json, 0
  {
    hide UnitsText, FieldsText, FieldsOf, Printable, FieldsLeft, TreeOf, TreeText, UnitsOf;
    ObjectTreeText(ms);
    out.Put("{");
    for i := 0 to |ms|
      invariant out.text + FieldsLeft(ms, i) == old(out.text) + "{" + FieldsLeft(ms, 0)
    {
      FieldsLeftStep(ms, i);
      if i > 0 { out.Put(","); }
      var key := JsonEscape(ms[i].key);
      out.Put("\"" + key + "\":");
      assert "\"" + key + "\":" == "\"" + (key + "\"") + ":";
      DumpJson(ms[i].value, out);
    }
    out.Put("}");
  }

  method DumpArray(js: seq<Json>, ghost json: Json, out: TextSink)
    requires json == Arr(js) && forall i <- js :: Printable(i)
    modifies out
    ensures out.text == old(out.text) + Dump(json)
    decreases json, 0
  {
    hide ElementsText, ElementsOf, Printable, ElementsLeft, TreeOf, TreeText;
    ArrayTreeText(js);
    out.Put("[");
    for i := 0 to |js|
      invariant out.text + ElementsLeft(js, i) == old(out.text) + "[" + ElementsLeft(js, 0)
    {
      ElementsLeftStep(js, i);
      if i > 0 { out.Put(","); }
      DumpJson(js[i], out);
    }
    out.Put("]");
  }
}
