/** Recursive-descent reading as a function from positions to trees, and the theorem that it reads
    exactly the grammar: a text has at most one tree, and it is read iff it has one. */
module JsonReader {
  import opened Text
  import opened Json

  type Reading<+T> = Option<(T, nat)>

  /** The end of the white space at `p`. */
  function BlankEnd(t: string, p: nat): (q: nat)
    requires p <= |t|
    ensures p <= q <= |t| && Blank(t[p..q])
    ensures q < |t| ==> !IsBlank(t[q])
    decreases |t| - p
  {
    if p < |t| && IsBlank(t[p]) then
      var q := BlankEnd(t, p + 1);
      assert t[p..q] == [t[p]] + t[p + 1..q];
      q
    else p
  }

  function DigitsEnd(t: string, p: nat): (q: nat)
    requires p <= |t|
    ensures p <= q <= |t| && (forall c <- t[p..q] :: IsDecimal(c))
    ensures q < |t| ==> !IsDecimal(t[q])
    decreases |t| - p
  {
    if p < |t| && IsDecimal(t[p]) then
      var q := DigitsEnd(t, p + 1);
      assert t[p..q] == [t[p]] + t[p + 1..q];
      q
    else p
  }

  /** At least one digit. */
  function ReadDigits(t: string, p: nat): (r: Option<nat>)
    requires p <= |t|
    ensures r.Some? ==> p < r.value <= |t| && Digits(t[p..r.value])
    ensures r.Some? ==> r.value < |t| ==> !IsDecimal(t[r.value])
  {
    var q := DigitsEnd(t, p);
    if q == p then None else Some(q)
  }

  predicate Next(t: string, p: nat, c: char) {
    p < |t| && t[p] == c
  }

  function ReadInteger(t: string, p: nat): Option<nat>
    requires p <= |t|
  {
    if Next(t, p, '0') then Some(p + 1) else ReadDigits(t, p)
  }

  function ReadFrac(t: string, p: nat): Option<nat>
    requires p <= |t|
  {
    if Next(t, p, '.') then ReadDigits(t, p + 1) else Some(p)
  }

  function ReadExp(t: string, p: nat): Option<nat>
    requires p <= |t|
  {
    if Next(t, p, 'e') || Next(t, p, 'E') then
      ReadDigits(t, if Next(t, p + 1, '+') || Next(t, p + 1, '-') then p + 2 else p + 1)
    else Some(p)
  }

  function ReadNumber(t: string, p: nat): Reading<NumberText>
    requires p <= |t|
  {
    var a := if Next(t, p, '-') then p + 1 else p;
    var b :- ReadInteger(t, a);
    var c :- ReadFrac(t, b);
    var d :- ReadExp(t, c);
    Some((NumberText(t[p..a], t[a..b], t[b..c], t[c..d]), d))
  }

  /** One escape, behind its backslash. */
  function ReadEscape(t: string, p: nat): Reading<Unit>
    requires p <= |t|
  {
    if p == |t| then None
    else if t[p] == 'u' then
      if p + 5 <= |t| && forall c <- t[p + 1..p + 5] :: IsHex(c) then Some((Code(t[p + 1..p + 5]), p + 5)) else None
    else if IsEscape(t[p]) then Some((Escape(t[p]), p + 1))
    else None
  }

  function ReadUnit(t: string, p: nat): (r: Reading<Unit>)
    requires p < |t|
    ensures r.Some? ==> p < r.value.1 <= |t|
  {
    if t[p] < ' ' then None
    else if t[p] != '\\' then Some((Plain(t[p]), p + 1))
    else ReadEscape(t, p + 1)
  }

  function ReadUnits(t: string, p: nat): (r: Reading<seq<Unit>>)
    requires p <= |t|
    ensures r.Some? ==> p < r.value.1 <= |t|
    decreases |t| - p
  {
    if p == |t| then None
    else if t[p] == '"' then Some(([], p + 1))
    else
      var u :- ReadUnit(t, p);
      var us :- ReadUnits(t, u.1);
      Some(([u.0] + us.0, us.1))
  }

  function ReadLiteral(t: string, p: nat, word: string, tree: Tree): Reading<Tree> {
    if At(t, p, word) then Some((tree, p + |word|)) else None
  }

  function ReadTree(t: string, p: nat): (r: Reading<Tree>)
    requires p <= |t|
    ensures r.Some? ==> p < r.value.1 <= |t|
    decreases |t| - p, 0
  {
    if p == |t| then None
    else if t[p] == 'n' then ReadLiteral(t, p, "null", NullTree)
    else if t[p] == 't' then ReadLiteral(t, p, "true", TrueTree)
    else if t[p] == 'f' then ReadLiteral(t, p, "false", FalseTree)
    else if t[p] == '"' then var us :- ReadUnits(t, p + 1); Some((StringTree(us.0), us.1))
    else if t[p] == '{' then
      var q := BlankEnd(t, p + 1);
      if Next(t, q, '}') then Some((EmptyObject(t[p + 1..q]), q + 1))
      else var fs :- ReadFields(t, p + 1); Some((ObjectTree(fs.0), fs.1))
    else if t[p] == '[' then
      var q := BlankEnd(t, p + 1);
      if Next(t, q, ']') then Some((EmptyArray(t[p + 1..q]), q + 1))
      else var es :- ReadElements(t, p + 1); Some((ArrayTree(es.0), es.1))
    else if t[p] == '-' || IsDecimal(t[p]) then
      var n :- ReadNumber(t, p);
      Some((NumberTree(n.0), n.1))
    else None
  }

  function ReadItem(t: string, p: nat): (r: Reading<Item>)
    requires p <= |t|
    ensures r.Some? ==> p < r.value.1 <= |t|
    decreases |t| - p, 1
  {
    var a := BlankEnd(t, p);
    var v :- ReadTree(t, a);
    var b := BlankEnd(t, v.1);
    Some((Item(t[p..a], v.0, t[v.1..b]), b))
  }

  function ReadElements(t: string, p: nat): (r: Reading<Elements>)
    requires p <= |t|
    ensures r.Some? ==> p < r.value.1 <= |t|
    decreases |t| - p, 2
  {
    var i :- ReadItem(t, p);
    if Next(t, i.1, ']') then Some((LastElement(i.0), i.1 + 1))
    else if Next(t, i.1, ',') then
      var more :- ReadElements(t, i.1 + 1);
      Some((Element(i.0, more.0), more.1))
    else None
  }

  function ReadMember(t: string, p: nat): (r: Reading<Member>)
    requires p <= |t|
    ensures r.Some? ==> p < r.value.1 <= |t|
    decreases |t| - p, 1
  {
    var a := BlankEnd(t, p);
    if !Next(t, a, '"') then None else
    var k :- ReadUnits(t, a + 1);
    var b := BlankEnd(t, k.1);
    if !Next(t, b, ':') then None else
    var c := BlankEnd(t, b + 1);
    var v :- ReadTree(t, c);
    var d := BlankEnd(t, v.1);
    Some((Member(t[p..a], k.0, t[k.1..b], t[b + 1..c], v.0, t[v.1..d]), d))
  }

  function ReadFields(t: string, p: nat): (r: Reading<Fields>)
    requires p <= |t|
    ensures r.Some? ==> p < r.value.1 <= |t|
    decreases |t| - p, 2
  {
    var m :- ReadMember(t, p);
    if Next(t, m.1, '}') then Some((LastField(m.0), m.1 + 1))
    else if Next(t, m.1, ',') then
      var more :- ReadFields(t, m.1 + 1);
      Some((Field(m.0, more.0), more.1))
    else None
  }

  /** The tree of a whole text. */
  function ReadDocument(t: string): Option<Item> {
    var i :- ReadItem(t, 0);
    if i.1 == |t| then Some(i.0) else None
  }

  // ---------- Soundness: what is read is a valid tree of the text that was consumed ----------

  lemma NumberIsSound(t: string, p: nat)
    requires p < |t| && ReadNumber(t, p).Some?
    ensures var (n, q) := ReadNumber(t, p).value;
            ValidNumber(n) && At(t, p, NumberLexeme(n)) && p < q == p + |NumberLexeme(n)|
  {
    hide At, ReadInteger, ReadExp, ReadFrac, NumberLexeme, ValidFrac, ValidExp, Digits;
    var (n, d) := ReadNumber(t, p).value;
    var a := if Next(t, p, '-') then p + 1 else p;
    var b := ReadInteger(t, a).value;
    IntegerIsSound(t, a);
    var c := ReadFrac(t, b).value;
    FracIsSound(t, b);
    ExpIsSound(t, c);
    assert t[p..p + 1] == [t[p]] && t[p..p] == "";
    AtWindow(t, p, a);
    AtWindow(t, a, b);
    AtWindow(t, b, c);
    AtWindow(t, c, d);
    NumberParts(t, p, n);
  }

  lemma IntegerIsSound(t: string, p: nat)
    requires p <= |t| && ReadInteger(t, p).Some?
    ensures var q := ReadInteger(t, p).value;
            p < q <= |t| && Digits(t[p..q]) && (t[p..q][0] == '0' ==> t[p..q] == "0")
  {
    hide DigitsEnd;
    if Next(t, p, '0') { assert t[p..p + 1] == "0"; }
  }

  lemma FracIsSound(t: string, p: nat)
    requires p <= |t| && ReadFrac(t, p).Some?
    ensures var q := ReadFrac(t, p).value; p <= q <= |t| && ValidFrac(t[p..q])
  {
    var q := ReadFrac(t, p).value;
    if q > p { assert t[p..q][1..] == t[p + 1..q]; }
  }

  lemma ExpIsSound(t: string, p: nat)
    requires p <= |t| && ReadExp(t, p).Some?
    ensures var q := ReadExp(t, p).value; p <= q <= |t| && ValidExp(t[p..q])
  {
    var q := ReadExp(t, p).value;
    if q > p {
      assert t[p..q][1..] == t[p + 1..q];
      if Next(t, p + 1, '+') || Next(t, p + 1, '-') { assert t[p..q][2..] == t[p + 2..q]; }
    }
  }

  lemma NumberParts(t: string, p: nat, n: NumberText)
    ensures var a := p + |n.minus|;
            var b := a + |n.digits|;
            var c := b + |n.frac|;
            && (At(t, p, NumberLexeme(n)) <==>
                At(t, p, n.minus) && At(t, a, n.digits) && At(t, b, n.frac) && At(t, c, n.exp))
            && |NumberLexeme(n)| == c + |n.exp| - p
  {
    hide At;
    AtConcat(t, p, n.minus, n.digits + (n.frac + n.exp));
    AtConcat(t, p + |n.minus|, n.digits, n.frac + n.exp);
    AtConcat(t, p + |n.minus| + |n.digits|, n.frac, n.exp);
  }

  lemma UnitIsSound(t: string, p: nat)
    requires p < |t| && t[p] != '"' && ReadUnit(t, p).Some?
    ensures var (u, q) := ReadUnit(t, p).value;
            ValidUnit(u) && At(t, p, UnitText(u)) && q == p + |UnitText(u)|
  {
    var (u, q) := ReadUnit(t, p).value;
    assert t[p..q] == UnitText(u) by {
      match u
      case Plain(c) =>
      case Escape(c) =>
      case Code(h) => assert t[p..q] == [t[p], t[p + 1]] + h;
    }
  }

  lemma {:induction false} UnitsAreSound(t: string, p: nat)
    requires p <= |t| && ReadUnits(t, p).Some?
    ensures var (us, q) := ReadUnits(t, p).value;
            (forall u <- us :: ValidUnit(u)) && At(t, p, UnitsText(us)) && q == p + |UnitsText(us)|
    decreases |t| - p
  {
    hide At, ReadUnit, UnitText, ValidUnit;
    if t[p] == '"' {
      AtChar(t, p, '"');
    } else {
      UnitIsSound(t, p);
      var (u, q) := ReadUnit(t, p).value;
      UnitsAreSound(t, q);
      AtConcat(t, p, UnitText(u), UnitsText(ReadUnits(t, q).value.0));
    }
  }

  lemma StringIsSound(t: string, p: nat)
    requires Next(t, p, '"') && ReadUnits(t, p + 1).Some?
    ensures var (us, q) := ReadUnits(t, p + 1).value;
            (forall u <- us :: ValidUnit(u)) && At(t, p, StringText(us)) && q == p + |StringText(us)|
  {
    UnitsAreSound(t, p + 1);
    AtConcat(t, p, "\"", UnitsText(ReadUnits(t, p + 1).value.0));
  }

  lemma {:induction false} TreeIsSound(t: string, p: nat)
    requires p <= |t| && ReadTree(t, p).Some?
    ensures var (tree, q) := ReadTree(t, p).value;
            ValidTree(tree) && At(t, p, TreeText(tree)) && q == p + |TreeText(tree)|
    decreases |t| - p, 0
  {
    hide ValidNumber, NumberLexeme, ReadNumber, ReadUnits, StringText, At, BlankEnd, Blank, ElementsText,
         FieldsText, ReadElements, ReadFields, ValidElements, ValidFields;
    AtChar(t, p, t[p]);
    if t[p] == '"' {
      StringIsSound(t, p);
    } else if t[p] == '{' || t[p] == '[' {
      BracketsAreSound(t, p);
      if t[p] == '{' && !Next(t, BlankEnd(t, p + 1), '}') {
        FieldsAreSound(t, p + 1);
        AtConcat(t, p, "{", FieldsText(ReadFields(t, p + 1).value.0));
      } else if t[p] == '[' && !Next(t, BlankEnd(t, p + 1), ']') {
        ElementsAreSound(t, p + 1);
        AtConcat(t, p, "[", ElementsText(ReadElements(t, p + 1).value.0));
      }
    } else if t[p] == '-' || IsDecimal(t[p]) {
      NumberIsSound(t, p);
    }
  }

  /** An empty pair of brackets with white space inside. */
  lemma BracketsAreSound(t: string, p: nat)
    requires p < |t|
    ensures forall close :: Next(t, BlankEnd(t, p + 1), close) ==>
      var pad := t[p + 1..BlankEnd(t, p + 1)];
      At(t, p, [t[p]] + (pad + [close])) && BlankEnd(t, p + 1) + 1 == p + |[t[p]] + (pad + [close])|
  {
    hide BlankEnd, Blank, At;
    var q := BlankEnd(t, p + 1);
    AtChar(t, p, t[p]);
    AtWindow(t, p + 1, q);
    if q < |t| {
      AtChar(t, q, t[q]);
      AtConcat(t, p + 1, t[p + 1..q], [t[q]]);
      AtConcat(t, p, [t[p]], t[p + 1..q] + [t[q]]);
    }
  }

  lemma AtChar(t: string, p: nat, c: char)
    ensures Next(t, p, c) <==> At(t, p, [c])
  {
    assert p < |t| ==> t[p..p + 1] == [t[p]];
  }

  lemma ItemParts(t: string, p: nat, i: Item)
    ensures var a := p + |i.pre|;
            var b := a + |TreeText(i.value)|;
            && (At(t, p, ItemText(i)) <==> At(t, p, i.pre) && At(t, a, TreeText(i.value)) && At(t, b, i.post))
            && |ItemText(i)| == b + |i.post| - p
  {
    hide At, TreeText;
    AtConcat(t, p, i.pre, TreeText(i.value) + i.post);
    AtConcat(t, p + |i.pre|, TreeText(i.value), i.post);
  }

  lemma {:induction false} ItemIsSound(t: string, p: nat)
    requires p <= |t| && ReadItem(t, p).Some?
    ensures var (i, q) := ReadItem(t, p).value; ValidItem(i) && At(t, p, ItemText(i)) && q == p + |ItemText(i)|
    decreases |t| - p, 1
  {
    hide TreeText, ValidTree, ReadTree, At, BlankEnd, Blank;
    var a := BlankEnd(t, p);
    var v := ReadTree(t, a).value;
    var b := BlankEnd(t, v.1);
    AtWindow(t, p, a);
    TreeIsSound(t, a);
    AtWindow(t, v.1, b);
    ItemParts(t, p, ReadItem(t, p).value.0);
  }

  lemma {:induction false} ElementsAreSound(t: string, p: nat)
    requires p <= |t| && ReadElements(t, p).Some?
    ensures var (es, q) := ReadElements(t, p).value;
            ValidElements(es) && At(t, p, ElementsText(es)) && q == p + |ElementsText(es)|
    decreases |t| - p, 2
  {
    hide ReadItem, ItemText, ValidItem, At;
    ItemIsSound(t, p);
    var (i, c) := ReadItem(t, p).value;
    AtChar(t, c, ']');
    AtChar(t, c, ',');
    var (es, q) := ReadElements(t, p).value;
    if es.Element? {
      ElementsAreSound(t, c + 1);
      AtConcat(t, c, ",", ElementsText(es.more));
      AtConcat(t, p, ItemText(i), "," + ElementsText(es.more));
    } else {
      AtConcat(t, p, ItemText(i), "]");
    }
  }

  /** The text of a member is its parts one after another. */
  lemma MemberParts(t: string, p: nat, m: Member)
    ensures var a := p + |m.pre|;
            var b := a + |StringText(m.key)|;
            var c := b + |m.mid|;
            var d := c + 1 + |m.gap|;
            var e := d + |TreeText(m.value)|;
            && (At(t, p, MemberText(m)) <==>
                && At(t, p, m.pre) && At(t, a, StringText(m.key)) && At(t, b, m.mid) && At(t, c, ":")
                && At(t, c + 1, m.gap) && At(t, d, TreeText(m.value)) && At(t, e, m.post))
            && |MemberText(m)| == e + |m.post| - p
  {
    hide At, StringText, TreeText;
    var f5 := TreeText(m.value) + m.post;
    var f4 := m.gap + f5;
    var f3 := ":" + f4;
    var f2 := m.mid + f3;
    var a := p + |m.pre|;
    var b := a + |StringText(m.key)|;
    var c := b + |m.mid|;
    var d := c + 1 + |m.gap|;
    AtConcat(t, p, m.pre, StringText(m.key) + f2);
    AtConcat(t, a, StringText(m.key), f2);
    AtConcat(t, b, m.mid, f3);
    AtConcat(t, c, ":", f4);
    AtConcat(t, c + 1, m.gap, f5);
    AtConcat(t, d, TreeText(m.value), m.post);
  }

  lemma {:induction false} MemberIsSound(t: string, p: nat)
    requires p <= |t| && ReadMember(t, p).Some?
    ensures var (m, q) := ReadMember(t, p).value;
            ValidMember(m) && At(t, p, MemberText(m)) && q == p + |MemberText(m)|
    decreases |t| - p, 1
  {
    hide TreeText, ValidTree, ReadTree, ReadUnits, StringText, At, BlankEnd, Blank;
    var a := BlankEnd(t, p);
    var k := ReadUnits(t, a + 1).value;
    var b := BlankEnd(t, k.1);
    var c := BlankEnd(t, b + 1);
    var v := ReadTree(t, c).value;
    var d := BlankEnd(t, v.1);
    AtWindow(t, p, a);
    StringIsSound(t, a);
    AtWindow(t, k.1, b);
    AtChar(t, b, ':');
    AtWindow(t, b + 1, c);
    TreeIsSound(t, c);
    AtWindow(t, v.1, d);
    MemberParts(t, p, ReadMember(t, p).value.0);
  }

  lemma {:induction false} FieldsAreSound(t: string, p: nat)
    requires p <= |t| && ReadFields(t, p).Some?
    ensures var (fs, q) := ReadFields(t, p).value;
            ValidFields(fs) && At(t, p, FieldsText(fs)) && q == p + |FieldsText(fs)|
    decreases |t| - p, 2
  {
    hide ReadMember, MemberText, ValidMember, At;
    MemberIsSound(t, p);
    var (m, d) := ReadMember(t, p).value;
    AtChar(t, d, '}');
    AtChar(t, d, ',');
    var (fs, q) := ReadFields(t, p).value;
    if fs.Field? {
      FieldsAreSound(t, d + 1);
      AtConcat(t, d, ",", FieldsText(fs.more));
      AtConcat(t, p, MemberText(m), "," + FieldsText(fs.more));
    } else {
      AtConcat(t, p, MemberText(m), "}");
    }
  }

  // ---------- Completeness: a valid tree whose text is found is the tree that is read ----------

  lemma {:induction false} BlankIsRead(t: string, p: nat, w: string)
    requires At(t, p, w) && Blank(w)
    requires p + |w| < |t| ==> !IsBlank(t[p + |w|])
    ensures BlankEnd(t, p) == p + |w| && t[p..p + |w|] == w
    decreases |w|
  {
    if w != "" {
      assert t[p] == w[0];
      assert t[p + 1..p + |w|] == w[1..];
      BlankIsRead(t, p + 1, w[1..]);
    }
  }

  lemma {:induction false} DigitsAreRead(t: string, p: nat, w: string)
    requires At(t, p, w) && forall c <- w :: IsDecimal(c)
    requires p + |w| < |t| ==> !IsDecimal(t[p + |w|])
    ensures DigitsEnd(t, p) == p + |w|
    decreases |w|
  {
    if w != "" {
      assert t[p] == w[0];
      assert t[p + 1..p + |w|] == w[1..];
      DigitsAreRead(t, p + 1, w[1..]);
    }
  }

  /** What may follow a number for it to end here. */
  predicate EndsNumber(t: string, p: nat) {
    p < |t| ==> !IsDecimal(t[p]) && t[p] != '.' && t[p] != 'e' && t[p] != 'E'
  }

  lemma AtRest(t: string, p: nat, w: string, k: nat)
    requires At(t, p, w) && k <= |w|
    ensures At(t, p + k, w[k..])
  {
    assert t[p + k..p + |w|] == t[p..p + |w|][k..];
  }

  lemma NumeralIsRead(t: string, p: nat, w: string)
    requires At(t, p, w) && Digits(w)
    requires p + |w| < |t| ==> !IsDecimal(t[p + |w|])
    ensures p < |t| && IsDecimal(t[p]) && ReadDigits(t, p) == Some(p + |w|)
  {
    hide At, DigitsEnd;
    AtFirst(t, p, w);
    DigitsAreRead(t, p, w);
  }

  lemma FracIsRead(t: string, p: nat, w: string)
    requires At(t, p, w) && ValidFrac(w)
    requires p + |w| < |t| ==> !IsDecimal(t[p + |w|]) && t[p + |w|] != '.'
    ensures ReadFrac(t, p) == Some(p + |w|)
  {
    hide At, Digits, ReadDigits;
    AtFirst(t, p, w);
    if w != "" {
      AtRest(t, p, w, 1);
      NumeralIsRead(t, p + 1, w[1..]);
    }
  }

  lemma ExpIsRead(t: string, p: nat, w: string)
    requires At(t, p, w) && ValidExp(w) && EndsNumber(t, p + |w|)
    ensures ReadExp(t, p) == Some(p + |w|)
  {
    hide At, Digits, ReadDigits;
    AtFirst(t, p, w);
    if w != "" {
      AtRest(t, p, w, 1);
      if Digits(w[1..]) {
        NumeralIsRead(t, p + 1, w[1..]);
      } else {
        assert t[p..p + |w|][1] == w[1];
        AtRest(t, p, w, 2);
        NumeralIsRead(t, p + 2, w[2..]);
      }
    }
  }

  lemma NumberIsRead(t: string, p: nat, n: NumberText)
    requires ValidNumber(n) && At(t, p, NumberLexeme(n)) && EndsNumber(t, p + |NumberLexeme(n)|)
    ensures p < |t| && (t[p] == '-' || IsDecimal(t[p]))
    ensures ReadNumber(t, p) == Some((n, p + |NumberLexeme(n)|))
  {
    hide At, ReadInteger, ReadFrac, ReadExp, NumberLexeme, ValidNumber, EndsNumber;
    NumberParts(t, p, n);
    NumberStarts(n);
    AtFirst(t, p, n.minus);
    PartsAreRead(t, p + |n.minus|, n);
  }

  lemma PartsAreRead(t: string, a: nat, n: NumberText)
    requires ValidNumber(n)
    requires var b := a + |n.digits|;
             var c := b + |n.frac|;
             At(t, a, n.digits) && At(t, b, n.frac) && At(t, c, n.exp) && EndsNumber(t, c + |n.exp|)
    ensures var b := a + |n.digits|;
            var c := b + |n.frac|;
            var d := c + |n.exp|;
            && a < d <= |t| && IsDecimal(t[a])
            && ReadInteger(t, a) == Some(b) && t[a..b] == n.digits
            && ReadFrac(t, b) == Some(c) && t[b..c] == n.frac
            && ReadExp(t, c) == Some(d) && t[c..d] == n.exp
  {
    hide At, ReadInteger, ReadFrac, ReadExp, ValidNumber, ValidFrac, ValidExp, Digits;
    var b := a + |n.digits|;
    var c := b + |n.frac|;
    AtFirst(t, a, n.digits);
    AtFirst(t, b, n.frac);
    AtFirst(t, c, n.exp);
    NumberStarts(n);
    IntegerIsRead(t, a, n.digits);
    FracIsRead(t, b, n.frac);
    ExpIsRead(t, c, n.exp);
  }

  lemma NumberStarts(n: NumberText)
    requires ValidNumber(n)
    ensures n.digits != "" && IsDecimal(n.digits[0])
    ensures Digits(n.digits) && (n.digits[0] == '0' ==> n.digits == "0")
    ensures ValidFrac(n.frac) && (n.frac != "" ==> n.frac[0] == '.')
    ensures ValidExp(n.exp) && (n.exp != "" ==> n.exp[0] == 'e' || n.exp[0] == 'E')
    ensures n.minus == "" || n.minus == "-"
  {
  }

  lemma AtFirst(t: string, p: nat, w: string)
    requires At(t, p, w)
    ensures p + |w| <= |t| && t[p..p + |w|] == w
    ensures w != "" ==> t[p] == w[0]
  {
  }

  lemma IntegerIsRead(t: string, p: nat, w: string)
    requires At(t, p, w) && Digits(w) && (w[0] == '0' ==> w == "0")
    requires p + |w| < |t| ==> !IsDecimal(t[p + |w|])
    ensures ReadInteger(t, p) == Some(p + |w|)
  {
    hide At, ReadDigits;
    AtFirst(t, p, w);
    NumeralIsRead(t, p, w);
  }

  lemma UnitIsRead(t: string, p: nat, u: Unit)
    requires At(t, p, UnitText(u)) && ValidUnit(u)
    ensures p < |t| && t[p] != '"' && ReadUnit(t, p) == Some((u, p + |UnitText(u)|))
  {
    var w := UnitText(u);
    assert t[p] == w[0];
    match u
    case Plain(c) =>
    case Escape(c) => assert t[p + 1] == w[1];
    case Code(h) =>
      assert t[p + 1] == w[1];
      assert t[p + 2..p + 6] == w[2..6] == h;
  }

  lemma {:induction false} UnitsAreRead(t: string, p: nat, us: seq<Unit>)
    requires At(t, p, UnitsText(us)) && forall u <- us :: ValidUnit(u)
    ensures p < |t| && ReadUnits(t, p) == Some((us, p + |UnitsText(us)|))
    decreases |us|
  {
    hide At, ReadUnit, UnitText, ValidUnit;
    if us == [] {
      AtChar(t, p, '"');
    } else {
      AtConcat(t, p, UnitText(us[0]), UnitsText(us[1..]));
      UnitIsRead(t, p, us[0]);
      UnitsAreRead(t, p + |UnitText(us[0])|, us[1..]);
      assert us == [us[0]] + us[1..];
    }
  }

  lemma StringIsRead(t: string, p: nat, us: seq<Unit>)
    requires At(t, p, StringText(us)) && forall u <- us :: ValidUnit(u)
    ensures Next(t, p, '"') && ReadUnits(t, p + 1) == Some((us, p + |StringText(us)|))
  {
    AtConcat(t, p, "\"", UnitsText(us));
    AtChar(t, p, '"');
    UnitsAreRead(t, p + 1, us);
  }

  predicate IsSeparator(c: char) {
    c == ',' || c == ':' || c == ']' || c == '}'
  }

  /** What may follow a value inside a document: white space, a separator, a closing mark, the end. */
  predicate EndsValue(t: string, p: nat) {
    p < |t| ==> IsBlank(t[p]) || IsSeparator(t[p])
  }

  /** The first character of a value's text tells which kind of value it is. */
  lemma StartOfTree(t: string, p: nat, tree: Tree)
    requires ValidTree(tree) && At(t, p, TreeText(tree))
    ensures p < |t| && !IsBlank(t[p]) && !IsSeparator(t[p])
    ensures match tree
            case NullTree => t[p] == 'n'
            case TrueTree => t[p] == 't'
            case FalseTree => t[p] == 'f'
            case StringTree(_) => t[p] == '"'
            case EmptyArray(_) => t[p] == '['
            case ArrayTree(_) => t[p] == '['
            case EmptyObject(_) => t[p] == '{'
            case ObjectTree(_) => t[p] == '{'
            case NumberTree(n) => t[p] == '-' || IsDecimal(t[p])
  {
    AtFirst(t, p, TreeText(tree));
    if tree.NumberTree? { NumberStarts(tree.number); }
  }

  lemma {:induction false} TreeIsRead(t: string, p: nat, tree: Tree)
    requires ValidTree(tree) && At(t, p, TreeText(tree)) && EndsValue(t, p + |TreeText(tree)|)
    ensures p < |t| && !IsBlank(t[p]) && !IsSeparator(t[p])
    ensures ReadTree(t, p) == Some((tree, p + |TreeText(tree)|))
    decreases tree, 0
  {
    hide At, BlankEnd, ReadTree, ElementsText, ReadElements, ValidElements, FieldsText, ReadFields, ValidFields;
    StartOfTree(t, p, tree);
    if tree.ArrayTree? {
      AtConcat(t, p, "[", ElementsText(tree.elements));
      ElementsAreRead(t, p + 1, tree.elements);
      ReadArray(t, p);
    } else if tree.ObjectTree? {
      AtConcat(t, p, "{", FieldsText(tree.fields));
      FieldsAreRead(t, p + 1, tree.fields);
      ReadObject(t, p);
    } else {
      LeafIsRead(t, p, tree);
    }
  }

  lemma ReadArray(t: string, p: nat)
    requires p < |t| && t[p] == '[' && !Next(t, BlankEnd(t, p + 1), ']') && ReadElements(t, p + 1).Some?
    ensures var (es, q) := ReadElements(t, p + 1).value; ReadTree(t, p) == Some((ArrayTree(es), q))
  {
    hide ReadElements, BlankEnd;
  }

  lemma ReadObject(t: string, p: nat)
    requires p < |t| && t[p] == '{' && !Next(t, BlankEnd(t, p + 1), '}') && ReadFields(t, p + 1).Some?
    ensures var (fs, q) := ReadFields(t, p + 1).value; ReadTree(t, p) == Some((ObjectTree(fs), q))
  {
    hide ReadFields, BlankEnd;
  }

  lemma LeafIsRead(t: string, p: nat, tree: Tree)
    requires ValidTree(tree) && At(t, p, TreeText(tree)) && EndsValue(t, p + |TreeText(tree)|)
    requires !tree.ArrayTree? && !tree.ObjectTree?
    ensures ReadTree(t, p) == Some((tree, p + |TreeText(tree)|))
  {
    hide At, ReadNumber, ReadUnits, ReadElements, ReadFields, StringText, BlankEnd, Blank, NumberLexeme, ValidNumber;
    StartOfTree(t, p, tree);
    match tree
    case StringTree(us) => StringIsRead(t, p, us);
    case NumberTree(n) => NumberIsRead(t, p, n);
    case EmptyArray(pad) => PadIsRead(t, p, '[', pad, ']');
    case EmptyObject(pad) => PadIsRead(t, p, '{', pad, '}');
    case _ =>
  }

  lemma PadIsRead(t: string, p: nat, open: char, pad: string, close: char)
    requires At(t, p, [open] + (pad + [close])) && Blank(pad) && !IsBlank(close)
    ensures var q := BlankEnd(t, p + 1); t[p + 1..q] == pad && Next(t, q, close) && q == p + 1 + |pad|
  {
    AtConcat(t, p, [open], pad + [close]);
    AtConcat(t, p + 1, pad, [close]);
    AtChar(t, p + 1 + |pad|, close);
    BlankIsRead(t, p + 1, pad);
  }

  lemma {:induction false} PaddedTreeIsRead(t: string, p: nat, pre: string, tree: Tree, post: string)
    requires Blank(pre) && ValidTree(tree) && Blank(post)
    requires var a := p + |pre|;
             var b := a + |TreeText(tree)|;
             var q := b + |post|;
             && At(t, p, pre) && At(t, a, TreeText(tree)) && At(t, b, post)
             && EndsValue(t, q) && (q < |t| ==> !IsBlank(t[q]))
    ensures var a := p + |pre|;
            var b := a + |TreeText(tree)|;
            var q := b + |post|;
            && a < b <= q <= |t| && !IsSeparator(t[a])
            && BlankEnd(t, p) == a && t[p..a] == pre
            && ReadTree(t, a) == Some((tree, b))
            && BlankEnd(t, b) == q && t[b..q] == post
    decreases tree, 1
  {
    hide TreeText, ValidTree, ReadTree, At, BlankEnd, Blank;
    var a := p + |pre|;
    var b := a + |TreeText(tree)|;
    AtFirst(t, b, post);
    FollowsValue(t, b, post);
    TreeIsRead(t, a, tree);
    BlankIsRead(t, b, post);
    BlankIsRead(t, p, pre);
  }

  lemma {:induction false} ItemIsRead(t: string, p: nat, i: Item)
    requires ValidItem(i) && At(t, p, ItemText(i))
    requires var q := p + |ItemText(i)|; EndsValue(t, q) && (q < |t| ==> !IsBlank(t[q]))
    ensures !Next(t, BlankEnd(t, p), ']')
    ensures ReadItem(t, p) == Some((i, p + |ItemText(i)|))
    decreases i, 1
  {
    hide TreeText, ValidTree, ReadTree, At, BlankEnd, Blank, EndsValue;
    ItemParts(t, p, i);
    PaddedTreeIsRead(t, p, i.pre, i.value, i.post);
  }

  lemma {:induction false} ElementsAreRead(t: string, p: nat, es: Elements)
    requires ValidElements(es) && At(t, p, ElementsText(es))
    ensures !Next(t, BlankEnd(t, p), ']')
    ensures ReadElements(t, p) == Some((es, p + |ElementsText(es)|))
    decreases es, 2
  {
    hide ItemText, ValidItem, ReadItem, At, BlankEnd;
    var end := if es.Element? then "," + ElementsText(es.more) else "]";
    var c := p + |ItemText(es.item)|;
    AtConcat(t, p, ItemText(es.item), end);
    if es.Element? {
      AtConcat(t, c, ",", ElementsText(es.more));
      AtChar(t, c, ',');
      ElementsAreRead(t, c + 1, es.more);
    } else {
      AtChar(t, c, ']');
    }
    ItemIsRead(t, p, es.item);
  }

  lemma FollowsValue(t: string, p: nat, w: string)
    requires At(t, p, w) && Blank(w) && EndsValue(t, p + |w|)
    ensures EndsValue(t, p)
  {
    if w != "" { assert t[p] == w[0]; }
  }

  lemma KeyIsRead(t: string, p: nat, pre: string, key: seq<Unit>, mid: string)
    requires Blank(pre) && (forall u <- key :: ValidUnit(u)) && Blank(mid)
    requires var a := p + |pre|;
             var b := a + |StringText(key)|;
             At(t, p, pre) && At(t, a, StringText(key)) && At(t, b, mid) && At(t, b + |mid|, ":")
    ensures var a := p + |pre|;
            var b := a + |StringText(key)|;
            var c := b + |mid|;
            && a < b <= c < |t|
            && BlankEnd(t, p) == a && t[p..a] == pre && Next(t, a, '"')
            && ReadUnits(t, a + 1) == Some((key, b))
            && BlankEnd(t, b) == c && t[b..c] == mid && Next(t, c, ':')
  {
    hide ReadUnits, StringText, At, BlankEnd, Blank;
    var a := p + |pre|;
    var b := a + |StringText(key)|;
    AtChar(t, b + |mid|, ':');
    BlankIsRead(t, b, mid);
    StringIsRead(t, a, key);
    BlankIsRead(t, p, pre);
  }

  lemma {:induction false} MemberIsRead(t: string, p: nat, m: Member)
    requires ValidMember(m) && At(t, p, MemberText(m))
    requires var q := p + |MemberText(m)|; EndsValue(t, q) && (q < |t| ==> !IsBlank(t[q]))
    ensures !Next(t, BlankEnd(t, p), '}')
    ensures ReadMember(t, p) == Some((m, p + |MemberText(m)|))
    decreases m, 1
  {
    hide TreeText, ValidTree, ReadTree, ReadUnits, StringText, At, BlankEnd, Blank, EndsValue, ValidUnit;
    MemberParts(t, p, m);
    KeyIsRead(t, p, m.pre, m.key, m.mid);
    var c := p + |m.pre| + |StringText(m.key)| + |m.mid|;
    PaddedTreeIsRead(t, c + 1, m.gap, m.value, m.post);
  }

  lemma {:induction false} FieldsAreRead(t: string, p: nat, fs: Fields)
    requires ValidFields(fs) && At(t, p, FieldsText(fs))
    ensures !Next(t, BlankEnd(t, p), '}')
    ensures ReadFields(t, p) == Some((fs, p + |FieldsText(fs)|))
    decreases fs, 2
  {
    hide MemberText, ValidMember, ReadMember, At, BlankEnd;
    var end := if fs.Field? then "," + FieldsText(fs.more) else "}";
    var c := p + |MemberText(fs.member)|;
    AtConcat(t, p, MemberText(fs.member), end);
    if fs.Field? {
      AtConcat(t, c, ",", FieldsText(fs.more));
      AtChar(t, c, ',');
      FieldsAreRead(t, c + 1, fs.more);
    } else {
      AtChar(t, c, '}');
    }
    MemberIsRead(t, p, fs.member);
  }

  // ---------- Exactness ----------

  /** Reading is exact: a document is read from a text iff it is valid and that is its text. So a
      text is accepted iff the grammar has a document for it, and then for one document only. */
  lemma ReadsExactlyTheGrammar(t: string, d: Item)
    ensures ReadDocument(t) == Some(d) <==> ValidItem(d) && ItemText(d) == t
  {
    hide ReadItem, ValidItem, ItemText, At;
    if ReadDocument(t) == Some(d) {
      ItemIsSound(t, 0);
      WholeText(t, ItemText(d));
    }
    if ValidItem(d) && ItemText(d) == t {
      WholeText(t, t);
      ItemIsRead(t, 0, d);
    }
  }

  lemma WholeText(t: string, w: string)
    ensures At(t, 0, w) && |w| == |t| <==> w == t
  {
    assert |w| == |t| ==> t[0..|w|] == t;
  }

  lemma AcceptsExactlyTheGrammar(t: string)
    ensures ReadDocument(t).Some? <==> exists d: Item :: ValidItem(d) && ItemText(d) == t
  {
    hide ReadDocument, ValidItem, ItemText;
    if ReadDocument(t).Some? { ReadsExactlyTheGrammar(t, ReadDocument(t).value); }
    if d: Item :| ValidItem(d) && ItemText(d) == t { ReadsExactlyTheGrammar(t, d); }
  }
}
