/** JSON values, the grammar of RFC 8259 as concrete syntax trees, and the relation between texts,
    trees and values. */
module Json {
  import opened Text
  import opened Numerals
  import opened OrderedMap

  /** Every integer of this magnitude is a `double`. */
  const EXACT_LIMIT := 0x20_0000_0000_0000

  /** The program stores a `double`. `Whole` is an integer the `double` holds exactly; any other
      number stays the uninterpreted text it was read from. */
  datatype Number = Whole(n: int) | Other(text: string)

  datatype Json =
    | Null
    | Bool(b: bool)
    | Num(num: Number)
    | Str(s: string)
    | Obj(members: Entries<Json>)
    | Arr(items: seq<Json>)

  // ---------- Concrete syntax ----------

  /** One character of a string literal: itself, a two-character escape, or `\uXXXX`. */
  datatype Unit = Plain(c: char) | Escape(c: char) | Code(hex: string)

  /** Sign, integer part, fraction and exponent; the last two may be empty. */
  datatype NumberText = NumberText(minus: string, digits: string, frac: string, exp: string)

  datatype Tree =
    | NullTree
    | TrueTree
    | FalseTree
    | StringTree(units: seq<Unit>)
    | NumberTree(number: NumberText)
    | EmptyArray(pad: string)
    | ArrayTree(elements: Elements)
    | EmptyObject(pad: string)
    | ObjectTree(fields: Fields)

  /** A value with the white space around it. A whole document is one. */
  datatype Item = Item(pre: string, value: Tree, post: string)

  /** The elements of an array, up to the closing bracket. */
  datatype Elements = LastElement(item: Item) | Element(item: Item, more: Elements)

  /** An object member with the white space around its parts. */
  datatype Member =
    Member(pre: string, key: seq<Unit>, mid: string, gap: string, value: Tree, post: string)

  /** The members of an object, up to the closing brace. */
  datatype Fields = LastField(member: Member) | Field(member: Member, more: Fields)

  predicate IsBlank(c: char) {
    c == ' ' || c == '\t' || c == '\n' || c == '\r'
  }

  predicate Blank(s: string) {
    forall c <- s :: IsBlank(c)
  }

  const BLANKS: seq<nat> := [0x20, 0x09, 0x0A, 0x0D]

  /** The white space of section 2 of RFC 8259. */
  lemma BlankExactly(c: char)
    ensures IsBlank(c) <==> exists i :: 0 <= i < 4 && c as nat == BLANKS[i]
  {
    assert BLANKS[0] == 0x20 && BLANKS[1] == 0x09 && BLANKS[2] == 0x0A && BLANKS[3] == 0x0D;
  }

  predicate Digits(s: string) {
    s != "" && forall c <- s :: IsDecimal(c)
  }

  predicate IsEscape(c: char) {
    c == '"' || c == '\\' || c == '/' || c == 'b' || c == 'f' || c == 'n' || c == 'r' || c == 't'
  }

  predicate ValidUnit(u: Unit) {
    match u
    case Plain(c) => c >= ' ' && c != '"' && c != '\\'
    case Escape(c) => IsEscape(c)
    case Code(h) => |h| == 4 && forall c <- h :: IsHex(c)
  }

  predicate ValidFrac(s: string) {
    s == "" || (s[0] == '.' && Digits(s[1..]))
  }

  predicate ValidExp(s: string) {
    s == "" || ((s[0] == 'e' || s[0] == 'E')
                && (Digits(s[1..]) || (|s| > 1 && (s[1] == '+' || s[1] == '-') && Digits(s[2..]))))
  }

  predicate ValidNumber(n: NumberText) {
    && (n.minus == "" || n.minus == "-")
    && Digits(n.digits) && (n.digits[0] == '0' ==> n.digits == "0")
    && ValidFrac(n.frac)
    && ValidExp(n.exp)
  }

  predicate ValidTree(t: Tree) {
    match t
    case NullTree | TrueTree | FalseTree => true
    case StringTree(us) => forall u <- us :: ValidUnit(u)
    case NumberTree(n) => ValidNumber(n)
    case EmptyArray(pad) => Blank(pad)
    case ArrayTree(es) => ValidElements(es)
    case EmptyObject(pad) => Blank(pad)
    case ObjectTree(fs) => ValidFields(fs)
  }

  predicate ValidItem(i: Item) {
    Blank(i.pre) && ValidTree(i.value) && Blank(i.post)
  }

  predicate ValidElements(es: Elements) {
    ValidItem(es.item) && (es.Element? ==> ValidElements(es.more))
  }

  predicate ValidMember(m: Member) {
    && Blank(m.pre) && (forall u <- m.key :: ValidUnit(u)) && Blank(m.mid)
    && Blank(m.gap) && ValidTree(m.value) && Blank(m.post)
  }

  predicate ValidFields(fs: Fields) {
    ValidMember(fs.member) && (fs.Field? ==> ValidFields(fs.more))
  }

  // ---------- The text of a tree ----------

  function UnitText(u: Unit): (s: string)
    ensures s != ""
  {
    match u
    case Plain(c) => [c]
    case Escape(c) => ['\\', c]
    case Code(h) => "\\u" + h
  }

  /** The units of a string literal and its closing quote. */
  function UnitsText(us: seq<Unit>): string {
    if us == [] then "\"" else UnitText(us[0]) + UnitsText(us[1..])
  }

  function StringText(us: seq<Unit>): string {
    "\"" + UnitsText(us)
  }

  function NumberLexeme(n: NumberText): string {
    n.minus + (n.digits + (n.frac + n.exp))
  }

  function TreeText(t: Tree): string {
    match t
    case NullTree => "null"
    case TrueTree => "true"
    case FalseTree => "false"
    case StringTree(us) => StringText(us)
    case NumberTree(n) => NumberLexeme(n)
    case EmptyArray(pad) => "[" + (pad + "]")
    case ArrayTree(es) => "[" + ElementsText(es)
    case EmptyObject(pad) => "{" + (pad + "}")
    case ObjectTree(fs) => "{" + FieldsText(fs)
  }

  function ItemText(i: Item): string {
    i.pre + (TreeText(i.value) + i.post)
  }

  function ElementsText(es: Elements): string {
    ItemText(es.item) + (if es.Element? then "," + ElementsText(es.more) else "]")
  }

  function MemberText(m: Member): string {
    m.pre + (StringText(m.key) + (m.mid + (":" + (m.gap + (TreeText(m.value) + m.post)))))
  }

  function FieldsText(fs: Fields): string {
    MemberText(fs.member) + (if fs.Field? then "," + FieldsText(fs.more) else "}")
  }

  // ---------- The value of a tree ----------

  function HexCode(h: string): (n: nat)
    requires forall c <- h :: IsHex(c)
    requires |h| == 4
    ensures n < 0x1_0000
  {
    DigitValue(h[0]) * 0x1000 + DigitValue(h[1]) * 0x100 + DigitValue(h[2]) * 0x10 + DigitValue(h[3])
  }

  /** The bytes appended for one UTF-16 code unit; a surrogate is encoded on its own. */
  function CodeBytes(code: nat): string
    requires code < 0x1_0000
  {
    if code <= 0x7F then [code as char]
    else if code <= 0x7FF then [(0xC0 + code / 0x40) as char, (0x80 + code % 0x40) as char]
    else [(0xE0 + code / 0x1000) as char, (0x80 + code / 0x40 % 0x40) as char, (0x80 + code % 0x40) as char]
  }

  function UnitValue(u: Unit): string
    requires ValidUnit(u)
  {
    match u
    case Plain(c) => [c]
    case Escape(c) =>
      [match c
       case 'b' => 8 as char
       case 'f' => 12 as char
       case 'n' => '\n'
       case 'r' => '\r'
       case 't' => '\t'
       case _ => c]
    case Code(h) => CodeBytes(HexCode(h))
  }

  function UnitsValue(us: seq<Unit>): string
    requires forall u <- us :: ValidUnit(u)
  {
    if us == [] then "" else UnitValue(us[0]) + UnitsValue(us[1..])
  }

  // ---------- The value of a string, once more from the standards ----------

  /** The code of the first character, read as section 3 of RFC 3629 says, and how many bytes it has;
      three at most. */
  function ReadUtf8(s: string): Option<(nat, nat)> {
    if s == "" then None
    else if s[0] as int < 0x80 then Some((s[0] as nat, 1))
    else if |s| > 1 && 0xC0 <= s[0] as int < 0xE0 && IsTail(s[1]) then
      Some(((s[0] as nat - 0xC0) * 64 + (s[1] as nat - 0x80), 2))
    else if |s| > 2 && 0xE0 <= s[0] as int < 0xF0 && IsTail(s[1]) && IsTail(s[2]) then
      Some((((s[0] as nat - 0xE0) * 64 + (s[1] as nat - 0x80)) * 64 + (s[2] as nat - 0x80), 3))
    else None
  }

  predicate IsTail(c: char) {
    0x80 <= c as int < 0xC0
  }

  /** The bytes are this character and nothing else, in as few bytes as it can have. */
  predicate IsUtf8Of(s: string, code: nat) {
    ReadUtf8(s) == Some((code, |s|)) && |s| == if code < 0x80 then 1 else if code < 0x800 then 2 else 3
  }

  /** The bytes appended for a code unit are those of the standard. */
  lemma CodeBytesAreUtf8(code: nat, s: string)
    requires code < 0x1_0000
    ensures CodeBytes(code) == s <==> IsUtf8Of(s, code)
  {
    ReadsBack(code);
    if IsUtf8Of(s, code) { OneForm(code, s); }
  }

  lemma ReadsBack(code: nat)
    requires code < 0x1_0000
    ensures IsUtf8Of(CodeBytes(code), code)
  {
    if code >= 0x800 { assert code == (code / 0x1000 * 64 + code / 0x40 % 0x40) * 64 + code % 0x40; }
  }

  lemma OneForm(code: nat, s: string)
    requires code < 0x1_0000 && IsUtf8Of(s, code)
    ensures CodeBytes(code) == s
  {
    if |s| == 1 {
      assert s == [s[0]];
    } else if |s| == 2 {
      DivModUnique(code, 64, s[0] as nat - 0xC0, s[1] as nat - 0x80);
      assert s == [s[0], s[1]];
    } else {
      var high := (s[0] as nat - 0xE0) * 64 + (s[1] as nat - 0x80);
      DivModUnique(code, 64, high, s[2] as nat - 0x80);
      DivModUnique(high, 64, s[0] as nat - 0xE0, s[1] as nat - 0x80);
      assert code / 0x1000 == high / 64;
      assert s == [s[0], s[1], s[2]];
    }
  }

  const ESCAPES := "\"\\/bfnrt"
  const ESCAPED: seq<nat> := [0x22, 0x5C, 0x2F, 0x08, 0x0C, 0x0A, 0x0D, 0x09]

  /** What a unit of a string literal stands for in section 7 of RFC 8259, as UTF-8. */
  ghost predicate Denotes(u: Unit, s: string) {
    match u
    case Plain(c) => s == [c]
    case Escape(c) => exists i :: 0 <= i < 8 && c == ESCAPES[i] && s == [ESCAPED[i] as char]
    case Code(h) => exists code: nat :: Spells(h, 16, code) && IsUtf8Of(s, code)
  }

  lemma UnitDenotes(u: Unit, s: string)
    requires ValidUnit(u)
    ensures Denotes(u, s) <==> s == UnitValue(u)
  {
    match u
    case Plain(c) =>
    case Escape(c) => EscapeDenotes(c, s);
    case Code(h) =>
      HexCodeIsSpelled(h);
      CodeBytesAreUtf8(HexCode(h), s);
  }

  lemma EscapeDenotes(c: char, s: string)
    requires IsEscape(c)
    ensures Denotes(Escape(c), s) <==> s == UnitValue(Escape(c))
  {
    var i := if c == '"' then 0 else if c == '\\' then 1 else if c == '/' then 2 else if c == 'b' then 3
             else if c == 'f' then 4 else if c == 'n' then 5 else if c == 'r' then 6 else 7;
    assert c == ESCAPES[i];
  }

  lemma HexCodeIsSpelled(h: string)
    requires |h| == 4 && forall c <- h :: IsHex(c)
    ensures forall n: nat :: Spells(h, 16, n) <==> n == HexCode(h)
  {
    hide Spells, HexCode, Value;
    FourDigits(h);
    forall n: nat ensures Spells(h, 16, n) <==> n == HexCode(h) { SpellsExactly(h, 16, n); }
  }

  lemma FourDigits(h: string)
    requires |h| == 4 && forall c <- h :: IsHex(c)
    ensures Value(h, 16) == HexCode(h)
  {
    assert h == h[..4] && h[..4][..3] == h[..3] && h[..3][..2] == h[..2] && h[..2][..1] == h[..1] && h[..1][..0] == "";
    assert Value(h[..1], 16) == DigitValue(h[0]);
    assert Value(h[..2], 16) == Value(h[..1], 16) * 16 + DigitValue(h[1]);
    assert Value(h[..3], 16) == Value(h[..2], 16) * 16 + DigitValue(h[2]);
  }

  function Flat(parts: seq<string>): string {
    if parts == [] then "" else parts[0] + Flat(parts[1..])
  }

  /** The contents of a string literal are what its units stand for, one after another. */
  lemma {:induction false} UnitsDenote(us: seq<Unit>, parts: seq<string>)
    requires |us| == |parts| && (forall u <- us :: ValidUnit(u))
    requires forall i :: 0 <= i < |us| ==> Denotes(us[i], parts[i])
    ensures UnitsValue(us) == Flat(parts)
  {
    hide Denotes, ValidUnit, UnitValue;
    if us != [] {
      assert us[0] in us && forall u <- us[1..] :: u in us;
      UnitDenotes(us[0], parts[0]);
      UnitsDenote(us[1..], parts[1..]);
    }
  }

  function NumberValue(n: NumberText): Number
    requires ValidNumber(n)
  {
    var magnitude: int := Value(n.digits, 10);
    if n.frac == "" && n.exp == "" && magnitude <= EXACT_LIMIT
    then Whole(if n.minus == "-" then -magnitude else magnitude)
    else Other(NumberLexeme(n))
  }

  /** A number is an integer exactly if it has neither fraction nor exponent and its digits write at most
      2^53; any other stays its text. */
  lemma NumberExactly(n: NumberText, k: int)
    requires ValidNumber(n) && k >= 0 && Spells(n.digits, 10, k)
    ensures NumberValue(n) ==
            if n.frac != "" || n.exp != "" || k > 0x20_0000_0000_0000 then Other(NumberLexeme(n))
            else Whole(if n.minus == "-" then 0 - k else k)
  {
    hide Spells, Value, NumberLexeme;
    SpellsExactly(n.digits, 10, k);
  }

  function TreeValue(t: Tree): Json
    requires ValidTree(t)
  {
    match t
    case NullTree => Null
    case TrueTree => Bool(true)
    case FalseTree => Bool(false)
    case StringTree(us) => Str(UnitsValue(us))
    case NumberTree(n) => Num(NumberValue(n))
    case EmptyArray(_) => Arr([])
    case ArrayTree(es) => Arr(ElementsValue(es))
    case EmptyObject(_) => Obj([])
    case ObjectTree(fs) => Obj(FieldsValue([], fs))
  }

  function ElementsValue(es: Elements): seq<Json>
    requires ValidElements(es)
  {
    assert ValidItem(es.item);
    var head := [TreeValue(es.item.value)];
    if es.Element? then head + ElementsValue(es.more) else head
  }

  /** The members added to those read before; of duplicate keys the first stays. */
  function FieldsValue(before: Entries<Json>, fs: Fields): Entries<Json>
    requires ValidFields(fs)
    decreases fs
  {
    assert ValidMember(fs.member);
    var now := Emplace(before, UnitsValue(fs.member.key), TreeValue(fs.member.value));
    if fs.Field? then FieldsValue(now, fs.more) else now
  }

  /** The value of the first member with that key. */
  function FirstValue(fs: Fields, key: string): Option<Json>
    requires ValidFields(fs)
  {
    assert ValidMember(fs.member);
    if UnitsValue(fs.member.key) == key then Some(TreeValue(fs.member.value))
    else if fs.Field? then FirstValue(fs.more, key)
    else None
  }

  /** Of members with one key the first decides, and the result is sorted by key. */
  lemma {:induction false} FirstOfDuplicatesStays(before: Entries<Json>, fs: Fields, key: string)
    requires ValidFields(fs) && Sorted(before)
    ensures Sorted(FieldsValue(before, fs))
    ensures Lookup(FieldsValue(before, fs), key)
         == if Lookup(before, key).Some? then Lookup(before, key) else FirstValue(fs, key)
    decreases fs
  {
    hide Emplace, Lookup, Less, UnitsValue, TreeValue;
    assert ValidMember(fs.member);
    EmplaceKeepsSorted(before, UnitsValue(fs.member.key), TreeValue(fs.member.value));
    if fs.Field? {
      FirstOfDuplicatesStays(Emplace(before, UnitsValue(fs.member.key), TreeValue(fs.member.value)), fs.more, key);
    }
  }
}
