/** Responses: what the server writes and what the client makes of the bytes that come back. */
module HttpResponse {
  import opened Text
  import opened Numerals
  import opened OrderedMap
  import opened HttpStreams
  import opened Query
  import opened Http
  import opened Chunked

  datatype HttpResponse = HttpResponse(status: nat, contentType: string, body: string)

  /** What the client keeps of an exchange. A body that breaks off leaves the status it came with. */
  datatype HttpResult = HttpResult(status: int, body: string, error: string)

  const READ_FAILED := "HTTP response read failed"

  function StatusText(status: nat): string {
    if status == 400 then "Bad Request"
    else if status == 403 then "Forbidden"
    else if status == 404 then "Not Found"
    else if status == 409 then "Conflict"
    else if status == 500 then "Internal Server Error"
    else "OK"
  }

  function StatusLine(status: nat): string {
    "HTTP/1.1 " + Numeral(status, 10) + " " + StatusText(status)
  }

  function ResponseFields(r: HttpResponse): seq<Field> {
    [Field("Content-Type", r.contentType), Field("Content-Length", Numeral(|r.body|, 10)), Field("Connection", "close")]
  }

  function ResponseText(r: HttpResponse): string {
    Message(StatusLine(r.status), ResponseFields(r), r.body)
  }

  /** `stream >> status`; the rest is `None` where the extraction fails. */
  function NextInt(s: string): (int, Option<string>) {
    var t := SkipSpaces(s);
    var signed := t != "" && (t[0] == '-' || t[0] == '+');
    var u := if signed then t[1..] else t;
    var n := DigitRun(u, 10);
    var v: int := Value(u[..n], 10);
    var v := if signed && t[0] == '-' then -v else v;
    if n == 0 then (0, None)
    else if v >= 0x8000_0000 then (0x7FFF_FFFF, None)
    else if v < -0x8000_0000 then (-0x8000_0000, None)
    else (v, Some(u[n..]))
  }

  /** Status and headers of a response head. */
  function ResponseHead(head: string): (int, Entries<string>) {
    var (version, s1) := NextToken(head);
    var (status, s2) := NextInt(s1);
    if s2.None? || s2.value == "" then (status, []) else (status, HeadersFrom([], NextLine(s2.value).1))
  }

  /** The result for the bytes that came back; `None` where the program throws, or goes on to an
      undefined write. */
  function ResponseOf(total: string): Option<HttpResult> {
    match Find(total, END, 0)
    case None => Some(HttpResult(0, "", READ_FAILED))
    case Some(e) =>
      var (status, headers) := ResponseHead(total[..e + 4]);
      var rest := total[e + 4..];
      if IsChunked(headers) then
        var d := Decode(rest);
        if d.verdict == Undefined then None
        else if d.verdict == Accepted then Some(HttpResult(status, d.data, ""))
        else Some(HttpResult(status, "", READ_FAILED))
      else
        var length :- ContentLength(headers);
        if |rest| >= length then Some(HttpResult(status, rest[..length], ""))
        else Some(HttpResult(status, rest, READ_FAILED))
  }

  /** The result for the pieces that came back: that for their bytes, if the head arrives. */
  function ReplyOf(pieces: Pieces): Option<HttpResult> {
    if HeadArrives("", pieces) then ResponseOf(Concat(pieces)) else Some(HttpResult(0, "", READ_FAILED))
  }

  method ParseResponse(stream: HttpStream) returns (r: Option<HttpResult>)
    modifies stream`pieces
    ensures r == ReplyOf(old(stream.pieces))
  {
    hide ResponseHead, ContentLength, IsChunked, DecodeFrom, HeadArrives, Concat;
    var ok, buffer := RecvUntilHeaders(stream);
    if !ok { return Some(HttpResult(0, "", READ_FAILED)); }
    HeadInWindow(buffer, stream.Bytes());
    var headerEnd := Find(buffer, END, 0).value + 4;
    var (status, headers) := ResponseHead(buffer[..headerEnd]);
    var inHand := buffer[headerEnd..];
    if IsChunked(headers) {
      var verdict, out, written, reports := ReadChunkedBodyToStream(stream, inHand);
      if verdict == Undefined { return None; }
      return Some(if verdict == Accepted then HttpResult(status, out, "") else HttpResult(status, "", READ_FAILED));
    }
    var length := ContentLength(headers);
    if length.None? { return None; }
    var body;
    ok, body := ReadBody(stream, inHand, length.value);
    return Some(HttpResult(status, body, if ok then "" else READ_FAILED));
  }

  /** Like `ReadRemainingBody`, in smaller reads; what was read before the end is kept. */
  method ReadBody(stream: HttpStream, inHand: string, length: nat) returns (ok: bool, body: string)
    modifies stream`pieces
    ensures var all := inHand + old(stream.Bytes());
            ok == (|all| >= length) && body == if ok then all[..length] else all
  {
    body := inHand;
    ghost var all := inHand + stream.Bytes();
    while |body| < length
      invariant body + stream.Bytes() == all
      decreases |stream.Bytes()|
    {
      var got := stream.Read(8192);
      if got == "" {
        assert body + "" == body;
        return false, body;
      }
      body := body + got;
    }
    if |body| > length { body := body[..length]; }
    ok := true;
  }

  /** The client reads back the status and the body the server wrote. */
  lemma ServerResponseIsRead(r: HttpResponse)
    requires 100 <= r.status < 1000 && '\n' !in r.contentType && |r.body| < SIZE_LIMIT
    ensures ResponseOf(ResponseText(r)) == Some(HttpResult(r.status, r.body, ""))
  {
    hide ResponseFields, FieldLines, ResponseHead, ContentLength, IsChunked, DecodeFrom, Find, StatusLine;
    var start, fields := StatusLine(r.status), ResponseFields(r);
    ResponseFieldsAreValid(r);
    StatusLineIsLine(r.status);
    EndOfMessage(start, fields, r.body);
    var head := Message(start, fields, "");
    assert ResponseText(r)[..|head|] == head && ResponseText(r)[|head|..] == r.body;
    assert r.body[..|r.body|] == r.body;
    ResponseHeadIsRead(r);
  }

  lemma StatusLineIsLine(status: nat)
    ensures '\n' !in StatusLine(status)
  {
    hide Numeral, StatusText;
    StatusTextIsLine(status);
    var n := Numeral(status, 10);
    assert '\n' !in "HTTP/1.1 " && '\n' !in n;
    assert StatusLine(status) == "HTTP/1.1 " + n + (" " + StatusText(status));
  }

  lemma ResponseFieldsAreValid(r: HttpResponse)
    requires '\n' !in r.contentType
    ensures forall f <- ResponseFields(r) :: ValidField(f)
  {
    hide Numeral, ValidField;
    var n := Numeral(|r.body|, 10);
    FieldIsValid("Content-Type", r.contentType);
    FieldIsValid("Content-Length", n);
    FieldIsValid("Connection", "close");
  }

  lemma ResponseHeadIsRead(r: HttpResponse)
    requires 100 <= r.status < 1000 && '\n' !in r.contentType && |r.body| < SIZE_LIMIT
    ensures var (status, headers) := ResponseHead(Message(StatusLine(r.status), ResponseFields(r), ""));
            status == r.status && !IsChunked(headers) && ContentLength(headers) == Some(|r.body|)
  {
    hide ResponseFields, FieldLines, ContentLength, IsChunked, NextToken, NextInt, NextLine, HeadersFrom, FieldsMap;
    var lines := FieldLines(ResponseFields(r), "");
    StatusLineIsRead(r.status, lines);
    ResponseFieldsAreValid(r);
    FieldsAreRead([], ResponseFields(r));
    ResponseFieldsAreRead(r);
  }

  lemma StatusLineIsRead(status: nat, lines: string)
    requires 100 <= status < 1000
    ensures var (version, s1) := NextToken(StatusLine(status) + CRLF + lines);
            var (n, s2) := NextInt(s1);
            n == status && s2.Some? && s2.value != "" && NextLine(s2.value).1 == lines
  {
    hide NextToken, Numeral, NextLine, StatusText;
    assert IsSpace(' ') && IsSpace('\r');
    var digits := Numeral(status, 10);
    var s2 := " " + StatusText(status) + CRLF + lines;
    var s1 := " " + digits + s2;
    assert StatusLine(status) + CRLF + lines == "" + "HTTP/1.1" + s1;
    WordIsNext("", "HTTP/1.1", s1);
    assert s1[0] == ' ' && s1[1..] == digits + s2;
    NumberIsNext(digits, s2);
    assert (digits + s2)[..|digits|] == digits && (digits + s2)[|digits|..] == s2;
    StatusTextIsLine(status);
    LineIsNext(" " + StatusText(status), lines);
  }

  lemma StatusTextIsLine(status: nat)
    ensures '\n' !in " " + StatusText(status)
  {
  }

  /** A run of digits in front of a blank is taken whole. */
  lemma NumberIsNext(digits: string, rest: string)
    requires digits != "" && (forall c <- digits :: IsDigit(c, 10) && IsHex(c)) && rest != "" && rest[0] == ' '
    ensures SkipSpaces(" " + (digits + rest)) == digits + rest == SkipSpaces(digits + rest)
    ensures DigitRun(digits + rest, 10) == |digits|
    ensures digits[0] != '-' && digits[0] != '+'
  {
    var t := digits + rest;
    assert digits[0] in digits;
    assert (" " + t)[1..] == t;
    DigitRunEnds(digits, rest);
  }

  lemma {:induction false} DigitRunEnds(digits: string, rest: string)
    requires (forall c <- digits :: IsDigit(c, 10)) && rest != "" && rest[0] == ' '
    ensures DigitRun(digits + rest, 10) == |digits|
  {
    if digits == "" {
      assert "" + rest == rest;
    } else {
      assert digits[0] in digits && forall c <- digits[1..] :: c in digits;
      assert (digits + rest)[1..] == digits[1..] + rest;
      DigitRunEnds(digits[1..], rest);
    }
  }

  lemma ResponseFieldsAreRead(r: HttpResponse)
    requires |r.body| < SIZE_LIMIT
    ensures var h := FieldsMap([], ResponseFields(r)); ContentLength(h) == Some(|r.body|) && !IsChunked(h)
  {
    hide Assign, Lookup, ContentLength, IsChunked, Numeral, TrimLeft;
    var fields := ResponseFields(r);
    var h0: Entries<string> := [];
    var h1 := Assign(h0, "Content-Type", TrimLeft(r.contentType));
    var h2 := Assign(h1, "Content-Length", TrimLeft(Numeral(|r.body|, 10)));
    var h3 := Assign(h2, "Connection", TrimLeft("close"));
    TrimmedNumeral(|r.body|);
    PutHeader(h0, "Content-Type", TrimLeft(r.contentType));
    PutHeader(h1, "Content-Length", TrimLeft(Numeral(|r.body|, 10)));
    PutHeader(h2, "Connection", TrimLeft("close"));
    LengthIsRead(h3, |r.body|);
    assert fields[1..][1..] == fields[2..] && fields[2..][1..] == [];
    assert FieldsMap(h0, fields) == FieldsMap(h1, fields[1..]);
    assert FieldsMap(h1, fields[1..]) == FieldsMap(h2, fields[2..]);
    assert FieldsMap(h2, fields[2..]) == FieldsMap(h3, []);
  }

  /** The client reads back what the server wrote, whichever way it arrives. */
  lemma ServerResponseArrives(r: HttpResponse, pieces: Pieces)
    requires 100 <= r.status < 1000 && '\n' !in r.contentType && |r.contentType| <= 1000 && |r.body| < SIZE_LIMIT
    requires Concat(pieces) == ResponseText(r)
    ensures ReplyOf(pieces) == Some(HttpResult(r.status, r.body, ""))
  {
    hide ResponseFields, FieldLines, Find, StatusLine, HeadArrives, ResponseOf, Concat;
    ServerResponseIsRead(r);
    ResponseFieldsAreValid(r);
    StatusLineIsLine(r.status);
    EndOfMessage(StatusLine(r.status), ResponseFields(r), r.body);
    ResponseHeadIsShort(r);
    assert "" + Concat(pieces) == Concat(pieces);
    HeadArrivesUnlessLate("", pieces);
  }

  lemma ResponseHeadIsShort(r: HttpResponse)
    requires 100 <= r.status < 1000 && |r.contentType| <= 1000 && |r.body| < SIZE_LIMIT
    ensures |Message(StatusLine(r.status), ResponseFields(r), "")| <= 2000
  {
    hide Numeral;
    NumeralIsShort(r.status);
    NumeralIsShort(|r.body|);
    var fields := ResponseFields(r);
    assert fields[1..][1..] == fields[2..] && fields[2..][1..] == [];
    assert |FieldLines(fields[2..], "")| <= 30;
    assert |FieldLines(fields[1..], "")| <= 100;
    assert |FieldLines(fields, "")| <= 1200;
  }

  // ---------- Responses as any server may write them ----------

  /** The first line of a response: a version, the digits of its status, and any reason. */
  function AnyStatusLine(version: string, digits: string, reason: string): string {
    version + " " + digits + " " + reason
  }

  lemma AnyStatusIsRead(version: string, digits: string, reason: string, n: nat, lines: string)
    requires IsWord(version) && digits != "" && Spells(digits, 10, n) && n < 0x8000_0000 && '\n' !in reason
    ensures var (v, s1) := NextToken(AnyStatusLine(version, digits, reason) + CRLF + lines);
            var (status, s2) := NextInt(s1);
            status == n && s2.Some? && s2.value != "" && NextLine(s2.value).1 == lines
  {
    hide NextToken, Spells, NextLine, IsWord, Value;
    assert IsSpace(' ');
    SpellsExactly(digits, 10, n);
    var s2 := " " + reason + CRLF + lines;
    var s1 := " " + (digits + s2);
    assert AnyStatusLine(version, digits, reason) + CRLF + lines == "" + version + s1;
    WordIsNext("", version, s1);
    NumberIsNext(digits, s2);
    assert (digits + s2)[..|digits|] == digits && (digits + s2)[|digits|..] == s2;
    BlankIsLine(reason);
    LineIsNext(" " + reason, lines);
  }

  lemma BlankIsLine(reason: string)
    requires '\n' !in reason
    ensures '\n' !in " " + reason
  {
  }

  lemma AnyStatusLineIsLine(version: string, digits: string, reason: string, n: nat)
    requires IsWord(version) && Spells(digits, 10, n) && '\n' !in reason
    ensures '\n' !in AnyStatusLine(version, digits, reason)
  {
    hide Spells;
    SpellsExactly(digits, 10, n);
    assert IsSpace('\n') && '\n' !in version && '\n' !in digits;
  }

  /** What is kept of the body: of a chunked one the data of its chunks, or nothing and an error if it is
      not well framed; of another one as many bytes as announced, or what came and an error. */
  ghost predicate IsResult(h: Entries<string>, status: nat, body: string, r: HttpResult) {
    r.status == status
    && if IsChunked(h) then
         if exists b: Body :: b.Valid() && body == b.Text()
         then r.error == "" && exists b: Body :: b.Valid() && body == b.Text() && r.body == Data(b.frames)
         else r.body == "" && r.error == "HTTP response read failed"
       else
         var n := ContentLength(h);
         n.Some? && if |body| >= n.value then r.body == body[..n.value] && r.error == ""
                    else r.body == body && r.error == "HTTP response read failed"
  }

  /** The client takes any response apart, chunked or not. */
  lemma ResponseIsRead(version: string, digits: string, reason: string, n: nat, fields: seq<Field>, body: string)
    requires IsWord(version) && digits != "" && Spells(digits, 10, n) && n < 0x8000_0000 && '\n' !in reason
    requires forall f <- fields :: ValidField(f)
    ensures var h, r := FieldsMap([], fields), ResponseOf(Message(AnyStatusLine(version, digits, reason), fields, body));
            if r.Some? then IsResult(h, n, body, r.value)
            else if IsChunked(h) then Decode(body).verdict == Undefined
            else ContentLength(h).None?
  {
    hide Spells, IsWord, ValidField, FieldLines, NextToken, NextInt, NextLine, HeadersFrom, FieldsMap, ContentLength,
         IsChunked, DecodeFrom, AnyStatusLine, Find, Data;
    var start := AnyStatusLine(version, digits, reason);
    AnyStatusLineIsLine(version, digits, reason, n);
    EndOfMessage(start, fields, body);
    var head, text := Message(start, fields, ""), Message(start, fields, body);
    assert text[..|head|] == head && text[|head|..] == body;
    AnyStatusIsRead(version, digits, reason, n, FieldLines(fields, ""));
    FieldsAreRead([], fields);
    AcceptedExactlyBodies(body);
  }

  /** Without the end of a head there is no status, and an error. */
  lemma NoHeadNoStatus(pieces: Pieces)
    requires Find(Concat(pieces), END, 0).None?
    ensures ReplyOf(pieces) == Some(HttpResult(0, "", "HTTP response read failed"))
  {
    hide HeadArrives, Concat, Find;
    assert "" + Concat(pieces) == Concat(pieces);
    HeadArrivesUnlessLate("", pieces);
  }

  /** The status is read as C reads an `int`: with its sign, and at the ends of the range it sticks. */
  lemma NextIntIs(i: CInteger, n: int)
    requires i.Valid(10) && n >= 0 && Spells(i.digits, 10, n)
    ensures var m := if i.sign == "-" then 0 - n else n;
            NextInt(i.Text()) ==
              if m > 0x7FFF_FFFF then (0x7FFF_FFFF, None)
              else if m < -0x8000_0000 then (-0x8000_0000, None)
              else (m, Some(i.rest))
  {
    hide SkipSpaces, DigitRun, Spells, Value;
    var u := i.digits + i.rest;
    DigitsBegin(i, 10);
    SignBegins(i.sign, u);
    SpacesAreSkipped(i.spaces, i.sign + u);
    SpellsExactly(i.digits, 10, n);
    RunEnds(i.digits, i.rest, 10);
    assert u[|i.digits|..] == i.rest;
  }

  /** The statuses the server answers with and their names. */
  lemma StatusLinesAre()
    ensures StatusText(200) == "OK" && StatusText(400) == "Bad Request" && StatusText(403) == "Forbidden"
    ensures StatusText(404) == "Not Found" && StatusText(409) == "Conflict"
    ensures StatusText(500) == "Internal Server Error"
  {
  }
}
