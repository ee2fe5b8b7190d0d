/** Heads of HTTP/1.1 messages: what the two sides write, and how a head arriving in pieces is found
    and taken apart. */
module Http {
  import opened Text
  import opened Numerals
  import opened OrderedMap
  import opened HttpStreams
  import opened Query

  const END := "\r\n\r\n"
  const HEAD_LIMIT := 1024 * 1024
  const READ_SIZE := 4096

  // ---------- Taking a head apart ----------

  function WordLength(s: string): (n: nat)
    ensures n <= |s| && (forall i :: 0 <= i < n ==> !IsSpace(s[i])) && (n < |s| ==> IsSpace(s[n]))
  {
    if s == "" || IsSpace(s[0]) then 0 else 1 + WordLength(s[1..])
  }

  /** `stream >> token`, and what is left behind it. */
  function NextToken(s: string): (string, string) {
    var t := SkipSpaces(s);
    (t[..WordLength(t)], t[WordLength(t)..])
  }

  /** `getline`, and what is left behind the line end. */
  function NextLine(s: string): (r: (string, string))
    requires s != ""
    ensures |r.1| < |s|
  {
    match Find(s, "\n", 0)
    case None => (s, "")
    case Some(e) => (s[..e], s[e + 1..])
  }

  function WithoutReturn(line: string): string {
    if line != "" && line[|line| - 1] == '\r' then line[..|line| - 1] else line
  }

  function TrimLeft(s: string): string {
    if s != "" && s[0] == ' ' then TrimLeft(s[1..]) else s
  }

  /** One header line put into the map; a line without a colon is skipped. */
  function WithHeader(m: Entries<string>, line: string): Entries<string> {
    match Find(line, ":", 0)
    case None => m
    case Some(colon) => Assign(m, line[..colon], TrimLeft(line[colon + 1..]))
  }

  function HeadersFrom(before: Entries<string>, s: string): Entries<string>
    decreases |s|
  {
    if s == "" then before else
    var (raw, rest) := NextLine(s);
    var line := WithoutReturn(raw);
    if line == "" then before else HeadersFrom(WithHeader(before, line), rest)
  }

  method ParseHeaders(text: string) returns (headers: Entries<string>)
    ensures headers == HeadersFrom([], text)
  {
    hide WithHeader, NextLine, WithoutReturn;
    headers := [];
    var rest := text;
    while rest != ""
      invariant HeadersFrom(headers, rest) == HeadersFrom([], text)
      decreases |rest|
    {
      var (line, next) := NextLine(rest);
      line := WithoutReturn(line);
      if line == "" { return; }
      headers, rest := WithHeader(headers, line), next;
    }
  }

  function LowerChar(c: char): char {
    if 'A' <= c <= 'Z' then (c as int + 32) as char else c
  }

  function Lower(s: string): (r: string)
    ensures |r| == |s| && forall i :: 0 <= i < |s| ==> r[i] == LowerChar(s[i])
  {
    seq(|s|, i requires 0 <= i < |s| => LowerChar(s[i]))
  }

  /** The first header of that name in map order decides; `None` where `stoull` throws. */
  function ContentLength(headers: Entries<string>): (n: Option<nat>)
    ensures n.Some? ==> n.value < SIZE_LIMIT
  {
    if headers == [] then Some(0)
    else if Lower(headers[0].key) == "content-length" then Stoull10(headers[0].value)
    else ContentLength(headers[1..])
  }

  predicate IsChunked(headers: Entries<string>) {
    exists e <- headers :: Lower(e.key) == "transfer-encoding" && Find(Lower(e.value), "chunked", 0).Some?
  }

  datatype Request =
    Request(verb: string, path: string, query: Entries<string>, headers: Entries<string>, contentLength: nat, chunked: bool)

  /** The request a head describes; `None` where the program throws on the content length. */
  function RequestOf(head: string): Option<Request> {
    var (verb, s1) := NextToken(head);
    var (target, s2) := NextToken(s1);
    var (version, s3) := NextToken(s2);
    var headers := if version == "" || s3 == "" then [] else HeadersFrom([], NextLine(s3).1);
    var length :- ContentLength(headers);
    var (path, query) := match Find(target, "?", 0)
      case None => (target, [])
      case Some(q) => (target[..q], QueryFrom([], target[q + 1..]));
    Some(Request(verb, path, query, headers, length, IsChunked(headers)))
  }

  // ---------- Finding a head in what arrives ----------

  /** Whether the end of a head arrives, in a buffer that may outgrow the limit by its last read only. */
  predicate HeadArrives(buffer: string, pieces: Pieces)
    decreases |Concat(pieces)|
  {
    if Find(buffer, END, 0).Some? then true
    else
      var (got, rest) := NextRead(pieces, READ_SIZE);
      got != "" && |buffer + got| <= HEAD_LIMIT && HeadArrives(buffer + got, rest)
  }

  /** Reads until the buffer holds the end of a head. */
  method RecvUntilHeaders(stream: HttpStream) returns (ok: bool, buffer: string)
    modifies stream`pieces
    ensures buffer + stream.Bytes() == old(stream.Bytes())
    ensures ok == HeadArrives("", old(stream.pieces)) && (ok ==> Find(buffer, END, 0).Some?)
  {
    hide Find, NextRead, Concat;
    buffer := "";
    ghost var total, pieces := stream.Bytes(), stream.pieces;
    while Find(buffer, END, 0).None?
      invariant buffer + stream.Bytes() == total
      invariant HeadArrives("", pieces) == HeadArrives(buffer, stream.pieces)
      decreases |stream.Bytes()|
    {
      var got := stream.Read(READ_SIZE);
      if got == "" {
        assert buffer + "" == buffer;
        return false, buffer;
      }
      buffer := buffer + got;
      if |buffer| > HEAD_LIMIT { return false, buffer; }
    }
    ok := true;
  }

  /** How the bytes arrive decides only for a head that ends less than one read below the limit: one
      that ends earlier always arrives, and where there is none, none arrives. */
  lemma {:induction false} HeadArrivesUnlessLate(buffer: string, pieces: Pieces)
    ensures var e := Find(buffer + Concat(pieces), END, 0);
            && (HeadArrives(buffer, pieces) ==> e.Some?)
            && (e.Some? && e.value + 3 + READ_SIZE <= HEAD_LIMIT ==> HeadArrives(buffer, pieces))
    decreases |Concat(pieces)|
  {
    hide Find, NextRead, Concat;
    if Find(buffer, END, 0).Some? {
      HeadInWindow(buffer, Concat(pieces));
    } else {
      NotYetFound(buffer, Concat(pieces));
      var (got, rest) := NextRead(pieces, READ_SIZE);
      assert buffer + got + Concat(rest) == buffer + (got + Concat(rest));
      if got == "" {
        NothingArrives();
        assert buffer + "" == buffer;
      } else {
        HeadArrivesUnlessLate(buffer + got, rest);
      }
    }
  }

  lemma NothingArrives()
    ensures Concat([]) == ""
  {
  }

  lemma NotYetFound(buffer: string, rest: string)
    requires Find(buffer, END, 0).None?
    ensures var e := Find(buffer + rest, END, 0); e.None? || e.value + 4 > |buffer|
  {
    var e := Find(buffer + rest, END, 0);
    if e.Some? && e.value + 4 <= |buffer| {
      assert (buffer + rest)[e.value..e.value + 4] == buffer[e.value..e.value + 4];
      assert At(buffer, e.value, END);
    }
  }

  /** `NoHead`: no head arrived, or it was too long. `Threw`: an exception left the handler. */
  datatype HeadOutcome = NoHead | Threw | Parsed(request: Request)

  /** What the rest of a request looks like behind its head: for a chunked request nothing is
      dropped, for any other the bytes in hand are cut at the content length. */
  ghost predicate Handover(request: Request, inHand: string, unread: string, body: string) {
    if request.chunked then inHand + unread == body
    else
      && |inHand| <= request.contentLength && inHand <= body
      && (|inHand| < request.contentLength ==> inHand + unread == body)
  }

  method ParseRequestHeaders(stream: HttpStream) returns (r: HeadOutcome, inHand: string)
    modifies stream`pieces
    ensures
      var total := old(stream.Bytes());
      var e := Find(total, END, 0);
      if r.NoHead? then !HeadArrives("", old(stream.pieces))
      else
        && HeadArrives("", old(stream.pieces)) && e.Some?
        && (match RequestOf(total[..e.value + 4])
            case None => r.Threw?
            case Some(request) =>
              r == Parsed(request) && Handover(request, inHand, stream.Bytes(), total[e.value + 4..]))
  {
    hide RequestOf, HeadArrives;
    inHand := "";
    ghost var total := stream.Bytes();
    var ok, buffer := RecvUntilHeaders(stream);
    if !ok { return NoHead, inHand; }
    HeadInWindow(buffer, stream.Bytes());
    var headerEnd := Find(buffer, END, 0).value + 4;
    var request := ParseHead(buffer[..headerEnd]);
    if request.None? { return Threw, inHand; }
    inHand := buffer[headerEnd..];
    if !request.value.chunked && |inHand| > request.value.contentLength {
      inHand := inHand[..request.value.contentLength];
    }
    r := Parsed(request.value);
  }

  lemma HeadInWindow(buffer: string, rest: string)
    requires Find(buffer, END, 0).Some?
    ensures var e := Find(buffer, END, 0).value;
            && Find(buffer + rest, END, 0) == Some(e)
            && (buffer + rest)[..e + 4] == buffer[..e + 4]
            && (buffer + rest)[e + 4..] == buffer[e + 4..] + rest
  {
    FindInWindow(buffer, END, 0, rest);
    assert buffer[0..] == buffer;
  }

  method ParseHead(head: string) returns (r: Option<Request>)
    ensures r == RequestOf(head)
  {
    hide NextToken, ContentLength, HeadersFrom, QueryFrom, NextLine, IsChunked;
    var (verb, s1) := NextToken(head);
    var (target, s2) := NextToken(s1);
    var (version, s3) := NextToken(s2);
    var headers := [];
    if version != "" && s3 != "" {
      headers := ParseHeaders(NextLine(s3).1);
    }
    var queryPos := Find(target, "?", 0);
    var path, query := if queryPos.None? then target else target[..queryPos.value], [];
    if queryPos.Some? {
      query := ParseQuery(target[queryPos.value + 1..]);
    }
    var contentLength := ContentLength(headers);
    if contentLength.None? { return None; }
    r := Some(Request(verb, path, query, headers, contentLength.value, IsChunked(headers)));
  }

  /** Reads a body of known length. */
  method ReadRemainingBody(stream: HttpStream, inHand: string, length: nat) returns (ok: bool, body: string)
    modifies stream`pieces
    ensures var all := inHand + old(stream.Bytes());
            ok == (|all| >= length) && (ok ==> body == all[..length])
  {
    body := inHand;
    ghost var all := inHand + stream.Bytes();
    while |body| < length
      invariant body + stream.Bytes() == all
      decreases |stream.Bytes()|
    {
      var got := stream.Read(64 * 1024);
      if got == "" { return false, body; }
      body := body + got;
    }
    if |body| > length { body := body[..length]; }
    ok := true;
  }

  // ---------- What the two sides write ----------

  datatype Field = Field(name: string, value: string)

  /** Header lines, the empty line, and the body. */
  function FieldLines(fields: seq<Field>, body: string): string {
    if fields == [] then CRLF + body
    else FieldLine(fields[0]) + CRLF + FieldLines(fields[1..], body)
  }

  function Message(start: string, fields: seq<Field>, body: string): string {
    start + CRLF + FieldLines(fields, body)
  }

  function RequestLine(verb: string, target: string): string {
    verb + " " + target + " HTTP/1.1"
  }

  /** The header lines of a client request; an empty content type is left out. */
  function RequestFields(host: string, port: nat, length: nat, contentType: string): seq<Field> {
    [Field("Host", host + ":" + Numeral(port, 10)), Field("Connection", "close"),
     Field("Content-Length", Numeral(length, 10))]
    + (if contentType == "" then [] else [Field("Content-Type", contentType)])
  }

  function RequestText(verb: string, target: string, host: string, port: nat, contentType: string,
        body: string): string {
    Message(RequestLine(verb, target), RequestFields(host, port, |body|, contentType), body)
  }

  ghost predicate ValidField(f: Field) {
    '\n' !in f.name && ':' !in f.name && '\n' !in f.value
  }

  lemma FindBeyond(t: string, w: string, k: nat)
    requires k <= |t| && Find(t[k..], w, 0).Some?
    requires forall i :: 0 <= i < k ==> !At(t, i, w)
    ensures Find(t, w, 0) == Some(k + Find(t[k..], w, 0).value)
  {
    var q := Find(t[k..], w, 0).value;
    assert At(t, k + q, w) by { assert t[k..][q..q + |w|] == t[k + q..k + q + |w|]; }
    forall i | k <= i < k + q ensures !At(t, i, w) {
      assert !At(t[k..], i - k, w);
      if i + |w| <= |t| { assert t[k..][i - k..i - k + |w|] == t[i..i + |w|]; }
    }
    FindIs(t, w, 0, k + q);
  }

  lemma NoEndInLine(start: string, rest: string, i: nat)
    requires '\n' !in start
    requires i < |start| || (i < |start| + 2 && |rest| > 1 && rest[1] != '\n')
    ensures !At(start + CRLF + rest, i, END)
  {
    var t := start + CRLF + rest;
    AtIndex(t, i, END, 0);
    AtIndex(t, i, END, 1);
    AtIndex(t, i, END, 3);
    assert forall k :: 0 <= k < |start| ==> start[k] in start && t[k] == start[k];
  }

  function FieldLine(f: Field): (line: string)
    ensures |line| > 1
  {
    f.name + ": " + f.value
  }

  lemma FieldLineIsLine(f: Field)
    requires ValidField(f)
    ensures '\n' !in FieldLine(f) && FieldLine(f)[1] != '\n'
  {
    assert FieldLine(f)[1] in FieldLine(f);
  }

  /** The end of a head is found behind its last line, and nowhere before. */
  lemma {:induction false} EndOfMessage(start: string, fields: seq<Field>, body: string)
    requires '\n' !in start && forall f <- fields :: ValidField(f)
    ensures var t, head := Message(start, fields, body), Message(start, fields, "");
            t == head + body && |head| >= 4 && Find(t, END, 0) == Some(|head| - 4)
    decreases |fields|
  {
    hide At, Find, ValidField;
    var t := Message(start, fields, body);
    if fields == [] {
      EndOfLast(start, body);
    } else {
      var line := FieldLine(fields[0]);
      assert fields[0] in fields && forall g <- fields[1..] :: g in fields;
      FieldLineIsLine(fields[0]);
      EndOfMessage(line, fields[1..], body);
      var more := Message(line, fields[1..], body);
      assert Message(start, fields, "") == start + CRLF + Message(line, fields[1..], "");
      assert t == start + CRLF + more;
      forall i: nat | i < |start| + 2 ensures !At(t, i, END) { NoEndInLine(start, more, i); }
      assert t[|start| + 2..] == more;
      FindBeyond(t, END, |start| + 2);
    }
  }

  lemma EndOfLast(start: string, body: string)
    requires '\n' !in start
    ensures Message(start, [], body) == Message(start, [], "") + body
    ensures Find(Message(start, [], body), END, 0) == Some(|start|)
  {
    var t := Message(start, [], body);
    forall i: nat | i < |start| ensures !At(t, i, END) { NoEndInLine(start, CRLF + body, i); }
    assert t[|start|..|start| + 4] == END;
    FindIs(t, END, 0, |start|);
  }

  function FieldsMap(before: Entries<string>, fields: seq<Field>): Entries<string>
    decreases |fields|
  {
    if fields == [] then before
    else FieldsMap(Assign(before, fields[0].name, TrimLeft(fields[0].value)), fields[1..])
  }

  lemma FieldIsRead(before: Entries<string>, f: Field, rest: string)
    requires ValidField(f)
    ensures HeadersFrom(before, FieldLine(f) + CRLF + rest)
         == HeadersFrom(Assign(before, f.name, TrimLeft(f.value)), rest)
  {
    hide Assign, WithHeader, FieldLine;
    FieldLineIsLine(f);
    LineIsNext(FieldLine(f), rest);
    HeaderIsPut(before, f);
  }

  lemma LineIsNext(line: string, rest: string)
    requires '\n' !in line
    ensures NextLine(line + CRLF + rest) == (line + "\r", rest) && WithoutReturn(line + "\r") == line
  {
    var t := line + CRLF + rest;
    assert t == (line + "\r") + ['\n'] + rest;
    FoundBehind(line + "\r", '\n', rest);
    assert t[..|line| + 1] == line + "\r" && t[|line| + 2..] == rest;
  }

  lemma HeaderIsPut(before: Entries<string>, f: Field)
    requires ':' !in f.name
    ensures WithHeader(before, FieldLine(f)) == Assign(before, f.name, TrimLeft(f.value))
  {
    hide Assign;
    var line := FieldLine(f);
    FoundBehind(f.name, ':', " " + f.value);
    assert line == f.name + [':'] + (" " + f.value);
    assert line[..|f.name|] == f.name && line[|f.name| + 1..] == " " + f.value;
    assert (" " + f.value)[1..] == f.value;
  }

  lemma {:induction false} FieldsAreRead(before: Entries<string>, fields: seq<Field>)
    requires forall f <- fields :: ValidField(f)
    ensures HeadersFrom(before, FieldLines(fields, "")) == FieldsMap(before, fields)
    decreases |fields|
  {
    hide Assign, WithHeader;
    if fields == [] {
      assert FieldLines(fields, "") == "\r" + ['\n'] + "";
      FoundBehind("\r", '\n', "");
    } else {
      hide HeadersFrom;
      assert fields[0] in fields && forall g <- fields[1..] :: g in fields;
      FieldIsRead(before, fields[0], FieldLines(fields[1..], ""));
      FieldsAreRead(Assign(before, fields[0].name, TrimLeft(fields[0].value)), fields[1..]);
    }
  }

  // ---------- Header blocks as anyone may write them ----------

  /** A header line with its line end, and with any number of blanks behind the colon or no colon. */
  datatype HeaderLine = Named(name: string, gap: string, value: string, end: string) | Junk(text: string, end: string)
  {
    function Text(): string {
      if Named? then name + ":" + (gap + value) else text
    }

    ghost predicate Valid() {
      && Text() != "" && '\n' !in Text() && (end == CRLF || (end == "\n" && Text()[|Text()| - 1] != '\r'))
      && match this
         case Named(n, g, v, _) => ':' !in n && (forall c <- g :: c == ' ') && (v != "" ==> v[0] != ' ')
         case Junk(t, _) => ':' !in t
    }
  }

  /** The lines, the empty line, and what follows. */
  function Block(lines: seq<HeaderLine>, end: string, rest: string): string {
    if lines == [] then end + rest else lines[0].Text() + (lines[0].end + Block(lines[1..], end, rest))
  }

  /** The headers they give; a line without a colon gives none. */
  function HeadersOf(before: Entries<string>, lines: seq<HeaderLine>): Entries<string>
    decreases |lines|
  {
    if lines == [] then before
    else HeadersOf(if lines[0].Named? then Assign(before, lines[0].name, lines[0].value) else before, lines[1..])
  }

  lemma AnyLineIsNext(text: string, end: string, rest: string)
    requires '\n' !in text && (end == CRLF || (end == "\n" && (text == "" || text[|text| - 1] != '\r')))
    ensures text + (end + rest) != ""
    ensures var (raw, more) := NextLine(text + (end + rest)); WithoutReturn(raw) == text && more == rest
  {
    var t := text + (end + rest);
    if end == CRLF {
      assert t == text + CRLF + rest;
      LineIsNext(text, rest);
    } else {
      assert t == text + ['\n'] + rest;
      FoundBehind(text, '\n', rest);
      assert t[..|text|] == text && t[|text| + 1..] == rest;
    }
  }

  lemma {:induction false} BlanksAreTrimmed(gap: string, value: string)
    requires (forall c <- gap :: c == ' ') && (value != "" ==> value[0] != ' ')
    ensures TrimLeft(gap + value) == value
  {
    if gap == "" {
      assert gap + value == value;
    } else {
      assert gap[0] in gap && forall c <- gap[1..] :: c in gap;
      assert (gap + value)[1..] == gap[1..] + value;
      BlanksAreTrimmed(gap[1..], value);
    }
  }

  lemma LineIsPut(before: Entries<string>, line: HeaderLine)
    requires line.Valid()
    ensures WithHeader(before, line.Text()) == if line.Named? then Assign(before, line.name, line.value) else before
  {
    hide Assign, TrimLeft;
    match line
    case Named(n, g, v, _) =>
      FoundBehind(n, ':', g + v);
      assert line.Text() == n + [':'] + (g + v);
      assert line.Text()[..|n|] == n && line.Text()[|n| + 1..] == g + v;
      BlanksAreTrimmed(g, v);
    case Junk(t, _) => NotFoundIn(t, ':');
  }

  /** The header map holds for each name the value of its last line. */
  lemma {:induction false} HeadersAreRead(before: Entries<string>, lines: seq<HeaderLine>, end: string, rest: string)
    requires (forall l <- lines :: l.Valid()) && (end == CRLF || end == "\n")
    ensures HeadersFrom(before, Block(lines, end, rest)) == HeadersOf(before, lines)
    decreases |lines|
  {
    hide Assign, WithHeader, NextLine, WithoutReturn;
    if lines == [] {
      AnyLineIsNext("", end, rest);
      assert "" + (end + rest) == end + rest;
    } else {
      var l := lines[0];
      assert l in lines && l.Valid() && forall x <- lines[1..] :: x in lines;
      AnyLineIsNext(l.Text(), l.end, Block(lines[1..], end, rest));
      LineIsPut(before, l);
      HeadersAreRead(if l.Named? then Assign(before, l.name, l.value) else before, lines[1..], end, rest);
    }
  }

  /** A token: non-empty and free of white space. */
  predicate IsWord(s: string) {
    s != "" && forall c <- s :: !IsSpace(c)
  }

  lemma WordIsNext(gap: string, w: string, rest: string)
    requires IsWord(w) && (gap == "" || gap == " ") && rest != "" && IsSpace(rest[0])
    ensures NextToken(gap + w + rest) == (w, rest)
  {
    hide SkipSpaces, WordLength;
    var t := w + rest;
    assert IsSpace(' ');
    assert w[0] in w;
    SpacesAreSkipped(gap, t);
    assert gap + w + rest == gap + t;
    WordEnds(w, rest);
    assert t[..|w|] == w && t[|w|..] == rest;
  }

  lemma WordEnds(w: string, rest: string)
    requires IsWord(w) && rest != "" && IsSpace(rest[0])
    ensures WordLength(w + rest) == |w|
  {
    hide WordLength, IsSpace;
    var t := w + rest;
    assert forall i :: 0 <= i < |w| ==> t[i] == w[i] && w[i] in w;
    assert t[|w|] == rest[0];
  }

  lemma RequestLineIsLine(verb: string, target: string)
    requires IsWord(verb) && IsWord(target)
    ensures '\n' !in RequestLine(verb, target)
  {
    assert IsSpace('\n') && '\n' !in verb && '\n' !in target;
  }

  lemma RequestLineIsRead(verb: string, target: string, lines: string)
    requires IsWord(verb) && IsWord(target)
    ensures var (a, s1) := NextToken(RequestLine(verb, target) + CRLF + lines);
            var (b, s2) := NextToken(s1);
            var (c, s3) := NextToken(s2);
            a == verb && b == target && c == "HTTP/1.1" && s3 != "" && NextLine(s3).1 == lines
  {
    hide NextToken;
    assert IsSpace('\r') && IsSpace(' ');
    var s3 := CRLF + lines;
    var s2 := " " + "HTTP/1.1" + s3;
    var s1 := " " + target + s2;
    assert RequestLine(verb, target) + CRLF + lines == "" + verb + s1;
    WordIsNext("", verb, s1);
    WordIsNext(" ", target, s2);
    WordIsNext(" ", "HTTP/1.1", s3);
    FoundBehind("\r", '\n', lines);
    assert s3 == "\r" + ['\n'] + lines;
  }

  /** `s` is `name`, which is in lower case, in any mixture of cases. */
  predicate IsCaseOf(s: string, name: string) {
    |s| == |name|
    && forall i :: 0 <= i < |s| ==> s[i] == name[i] || ('a' <= name[i] <= 'z' && s[i] as int + 32 == name[i] as int)
  }

  lemma LowerIs(s: string, name: string)
    requires forall c <- name :: !('A' <= c <= 'Z')
    ensures Lower(s) == name <==> IsCaseOf(s, name)
  {
    assert forall i :: 0 <= i < |name| ==> name[i] in name;
  }

  /** The word stands at `p`, in any mixture of cases. */
  predicate NamesAt(s: string, p: nat, w: string) {
    p + |w| <= |s| && IsCaseOf(s[p..p + |w|], w)
  }

  ghost predicate NamesChunked(e: Entry<string>) {
    IsCaseOf(e.key, "transfer-encoding") && exists p: nat :: NamesAt(e.value, p, "chunked")
  }

  /** The body of a message is chunked exactly when a header of that name, in any case, names the
      coding, in any case and anywhere in its value. */
  lemma ChunkedExactly(h: Entries<string>)
    ensures IsChunked(h) <==> exists e <- h :: NamesChunked(e)
  {
    hide IsCaseOf, NamesAt;
    forall e | e in h
      ensures Lower(e.key) == "transfer-encoding" && Find(Lower(e.value), "chunked", 0).Some? <==> NamesChunked(e)
    {
      NamesAreLower();
      LowerIs(e.key, "transfer-encoding");
      WordIsFound(e.value, "chunked");
    }
  }

  lemma NamesAreLower()
    ensures forall c <- "transfer-encoding" :: !('A' <= c <= 'Z')
    ensures forall c <- "chunked" :: !('A' <= c <= 'Z')
    ensures forall c <- "content-length" :: !('A' <= c <= 'Z')
  {
  }

  lemma WordIsFound(s: string, w: string)
    requires forall c <- w :: !('A' <= c <= 'Z')
    ensures Find(Lower(s), w, 0).Some? <==> exists p: nat :: NamesAt(s, p, w)
  {
    hide IsCaseOf, Lower;
    forall p: nat ensures At(Lower(s), p, w) <==> NamesAt(s, p, w) { WordIsAt(s, p, w); }
  }

  lemma WordIsAt(s: string, p: nat, w: string)
    requires forall c <- w :: !('A' <= c <= 'Z')
    ensures At(Lower(s), p, w) <==> NamesAt(s, p, w)
  {
    hide IsCaseOf;
    if p + |w| <= |s| {
      assert Lower(s)[p..p + |w|] == Lower(s[p..p + |w|]);
      LowerIs(s[p..p + |w|], w);
    }
  }

  /** The length of a body is what the first header of that name says, in any case, or none. */
  lemma {:induction false} LengthExactly(h: Entries<string>)
    ensures (forall e <- h :: !IsCaseOf(e.key, "content-length")) ==> ContentLength(h) == Some(0)
    ensures forall i :: 0 <= i < |h| && IsCaseOf(h[i].key, "content-length")
                        && (forall j :: 0 <= j < i ==> !IsCaseOf(h[j].key, "content-length"))
                        ==> ContentLength(h) == Stoull10(h[i].value)
  {
    hide IsCaseOf, Stoull10;
    if h != [] {
      NamesAreLower();
      LowerIs(h[0].key, "content-length");
      LengthExactly(h[1..]);
      assert h[0] in h && forall e <- h[1..] :: e in h;
      assert forall i :: 0 < i < |h| ==> h[1..][i - 1] == h[i];
    }
  }

  lemma LowerNames()
    ensures Lower("Content-Length") == "content-length"
    ensures forall k: string :: |Lower(k)| == |k|
  {
    var s, r := "Content-Length", "content-length";
    assert Lower(s)[0..7] == r[0..7];
    assert Lower(s)[7..14] == r[7..14];
    assert Lower(s) == Lower(s)[0..7] + Lower(s)[7..14];
    assert r == r[0..7] + r[7..14];
  }

  /** Maps with the header names the client writes. */
  ghost predicate ClientNames(h: Entries<string>) {
    forall e <- h :: e.key == "Host" || e.key == "Connection" || e.key == "Content-Length" || e.key == "Content-Type"
  }

  lemma {:induction false} LengthIsRead(h: Entries<string>, n: nat)
    requires ClientNames(h) && Lookup(h, "Content-Length") == Some(Numeral(n, 10)) && n < SIZE_LIMIT
    ensures ContentLength(h) == Some(n) && !IsChunked(h)
  {
    hide Numeral, Stoull10;
    LowerNames();
    assert !IsChunked(h) by {
      forall e <- h ensures Lower(e.key) != "transfer-encoding" { assert |Lower(e.key)| == |e.key|; }
    }
    ReadPrintedSize(n);
    LengthIsFound(h, n);
  }

  lemma {:induction false} LengthIsFound(h: Entries<string>, n: nat)
    requires ClientNames(h) && Lookup(h, "Content-Length") == Some(Numeral(n, 10))
    requires Stoull10(Numeral(n, 10)) == Some(n)
    ensures ContentLength(h) == Some(n)
  {
    hide Numeral, Stoull10, Lower;
    LowerNames();
    assert h[0] in h && forall e <- h[1..] :: e in h;
    if h[0].key != "Content-Length" {
      assert |Lower(h[0].key)| == |h[0].key|;
      LengthIsFound(h[1..], n);
    }
  }

  lemma PutHeader(h: Entries<string>, k: string, v: string)
    requires Sorted(h) && ClientNames(h) && ClientNames([Entry(k, v)])
    ensures Sorted(Assign(h, k, v)) && ClientNames(Assign(h, k, v))
    ensures forall q :: Lookup(Assign(h, k, v), q) == if q == k then Some(v) else Lookup(h, q)
  {
    hide Assign, Lookup;
    assert Entry(k, v) in [Entry(k, v)];
    AssignKeepsSorted(h, k, v);
  }

  lemma TrimmedNumeral(n: nat)
    ensures TrimLeft(Numeral(n, 10)) == Numeral(n, 10)
  {
    var s := Numeral(n, 10);
    assert s[0] in s;
  }

  lemma RequestFieldsAreRead(host: string, port: nat, length: nat, contentType: string)
    requires length < SIZE_LIMIT
    ensures var h := FieldsMap([], RequestFields(host, port, length, contentType));
            ContentLength(h) == Some(length) && !IsChunked(h)
  {
    hide Assign, Lookup, ContentLength, IsChunked, Numeral, TrimLeft;
    var fields := RequestFields(host, port, length, contentType);
    var h0: Entries<string> := [];
    var h1 := Assign(h0, "Host", TrimLeft(fields[0].value));
    var h2 := Assign(h1, "Connection", TrimLeft("close"));
    var h3 := Assign(h2, "Content-Length", TrimLeft(Numeral(length, 10)));
    TrimmedNumeral(length);
    PutHeader(h0, "Host", TrimLeft(fields[0].value));
    PutHeader(h1, "Connection", TrimLeft("close"));
    PutHeader(h2, "Content-Length", TrimLeft(Numeral(length, 10)));
    LengthIsRead(h3, length);
    assert FieldsMap([], fields) == FieldsMap(h3, fields[3..]) by {
      assert fields[1..][1..] == fields[2..] && fields[2..][1..] == fields[3..];
      assert FieldsMap(h0, fields) == FieldsMap(h1, fields[1..]);
      assert FieldsMap(h1, fields[1..]) == FieldsMap(h2, fields[2..]);
    }
    if contentType != "" {
      var h4 := Assign(h3, "Content-Type", TrimLeft(contentType));
      PutHeader(h3, "Content-Type", TrimLeft(contentType));
      LengthIsRead(h4, length);
      assert fields[3..] == [Field("Content-Type", contentType)];
      assert FieldsMap(h3, fields[3..]) == FieldsMap(h4, fields[3..][1..]) == h4;
    } else {
      assert fields[3..] == [];
    }
  }

  lemma RequestFieldsAreValid(host: string, port: nat, length: nat, contentType: string)
    requires '\n' !in host && '\n' !in contentType
    ensures forall f <- RequestFields(host, port, length, contentType) :: ValidField(f)
  {
    hide Numeral, ValidField;
    var p, l := Numeral(port, 10), Numeral(length, 10);
    FieldIsValid("Host", host + ":" + p);
    FieldIsValid("Connection", "close");
    FieldIsValid("Content-Length", l);
    FieldIsValid("Content-Type", contentType);
  }

  lemma FieldIsValid(name: string, value: string)
    requires '\n' !in name && ':' !in name && '\n' !in value
    ensures ValidField(Field(name, value))
  {
  }

  lemma TargetIsSplit(path: string, query: Entries<string>)
    requires '?' !in path && Sorted(query) && PlainQuery(query)
    ensures var target := WithQuery(path, query);
            match Find(target, "?", 0)
            case None => path == target && query == []
            case Some(q) => path == target[..q] && query == QueryFrom([], target[q + 1..])
  {
    hide QueryFrom, Pairs;
    if query == [] {
      NotFoundIn(path, '?');
    } else {
      FoundBehind(path, '?', Pairs(query));
      var target := WithQuery(path, query);
      assert target == path + ['?'] + Pairs(query);
      assert target[..|path|] == path && target[|path| + 1..] == Pairs(query);
      assert [] + query == query;
      PairsAreRead([], query);
    }
  }

  /** What any client writes with an encoded query: the request the server reads has its verb and path,
      the decoded query, the headers, and the length and coding of the body that these name. */
  lemma RequestIsRead(verb: string, path: string, parts: seq<Part>, entries: Entries<string>, fields: seq<Field>)
    requires IsWord(verb) && IsWord(path + "?" + Joined(parts)) && '?' !in path && AllWrite(parts, entries)
    requires (forall f <- fields :: ValidField(f)) && ContentLength(FieldsMap([], fields)).Some?
    ensures var h := FieldsMap([], fields);
            RequestOf(Message(RequestLine(verb, path + "?" + Joined(parts)), fields, ""))
            == Some(Request(verb, path, AllAssigned([], entries), h, ContentLength(h).value, IsChunked(h)))
  {
    hide QueryFrom, HeadersFrom, ContentLength, IsChunked, NextToken, NextLine, FieldsMap, FieldLines, RequestLine, At,
         Joined, AllWrite, AllAssigned, IsWord, ValidField;
    var target, query := path + "?" + Joined(parts), Joined(parts);
    RequestLineIsRead(verb, target, FieldLines(fields, ""));
    FieldsAreRead([], fields);
    FoundBehind(path, '?', query);
    assert target == path + ['?'] + query;
    assert target[..|path|] == path && target[|path| + 1..] == query;
    QueryIsDecoded([], parts, entries);
  }

  /** The head ends where the body begins, and says these things. */
  ghost predicate IsReadAs(text: string, verb: string, path: string, query: Entries<string>, body: string) {
    && |text| >= |body| + 4
    && var e := |text| - |body| - 4;
       && Find(text, END, 0) == Some(e) && text[e + 4..] == body
       && RequestOf(text[..e + 4]).Some?
       && var r := RequestOf(text[..e + 4]).value;
          r.verb == verb && r.path == path && r.query == query && r.contentLength == |body| && !r.chunked
  }

  /** What the server makes of a request the client wrote: the end of the head is found where the
      body begins, and verb, path, query map and body length are those the client meant. */
  lemma ClientRequestIsRead(verb: string, path: string, query: Entries<string>, host: string, port: nat,
                            contentType: string, body: string)
    requires IsWord(verb) && IsWord(WithQuery(path, query)) && '?' !in path
    requires Sorted(query) && PlainQuery(query)
    requires '\n' !in host && '\n' !in contentType && |body| < SIZE_LIMIT
    ensures IsReadAs(RequestText(verb, WithQuery(path, query), host, port, contentType, body), verb, path, query, body)
  {
    hide QueryFrom, HeadersFrom, ContentLength, IsChunked, NextToken, NextLine, RequestFields, FieldsMap, FieldLines,
         RequestLine, WithQuery, Find, At, PlainQuery, Sorted;
    var target := WithQuery(path, query);
    var start, fields := RequestLine(verb, target), RequestFields(host, port, |body|, contentType);
    RequestFieldsAreValid(host, port, |body|, contentType);
    RequestLineIsLine(verb, target);
    EndOfMessage(start, fields, body);
    var head := Message(start, fields, "");
    var text := Message(start, fields, body);
    assert text[..|head|] == head && text[|head|..] == body;
    RequestLineIsRead(verb, target, FieldLines(fields, ""));
    FieldsAreRead([], fields);
    RequestFieldsAreRead(host, port, |body|, contentType);
    TargetIsSplit(path, query);
  }
}
