/** The chunked transfer coding of section 7.1 of RFC 9112: the incremental decoder over a stream,
    a decoder on the whole input it is proved equal to, the framing that decoder accepts, and the
    writer. */
module Chunked {
  import opened Text
  import opened Numerals
  import opened HttpStreams

  /** `Undefined`: the size line names 2^64-1 or 2^64-2, so `chunk_size + 2` wraps and the program
      goes on to write a negative count, which has no defined meaning. */
  datatype Verdict = Accepted | Rejected | Undefined

  /** What a decoding run did: how it ended, the bytes it wrote and the totals it reported. */
  datatype Decoded = Decoded(verdict: Verdict, data: string, reports: seq<nat>)

  const COMPACTION_LIMIT := 64 * 1024

  /** The chunk size on a size line; everything from the first ';' on is an extension. */
  function ChunkSize(line: string): nat {
    match Find(line, ";", 0)
    case None => Strtoull16(line)
    case Some(semicolon) => Strtoull16(line[..semicolon])
  }

  /** Whether the trailer lines end, with an empty line. */
  predicate TrailersEnd(s: string)
    decreases |s|
  {
    match Find(s, CRLF, 0)
    case None => false
    case Some(e) => e == 0 || TrailersEnd(s[e + 2..])
  }

  /** The decoder on the whole input, after `written` bytes of output. */
  function DecodeFrom(s: string, written: nat): Decoded
    decreases |s|
  {
    match Find(s, CRLF, 0)
    case None => Decoded(Rejected, "", [])
    case Some(e) => DecodeChunk(ChunkSize(s[..e]), s[e + 2..], written)
  }

  /** The decoder behind a size line that names `n`. */
  function DecodeChunk(n: nat, rest: string, written: nat): Decoded
    decreases |rest|
  {
    if n == 0 then Decoded(if TrailersEnd(rest) then Accepted else Rejected, "", [])
    else if n + 2 >= SIZE_LIMIT then Decoded(Undefined, "", [])
    else if |rest| < n + 2 then Decoded(Rejected, "", [])
    else if !At(rest, n, CRLF) then Decoded(Rejected, rest[..n], [written + n])
    else After(rest[..n], [written + n], DecodeFrom(rest[n + 2..], written + n))
  }

  function Decode(s: string): Decoded {
    DecodeFrom(s, 0)
  }

  function After(data: string, reports: seq<nat>, d: Decoded): Decoded {
    Decoded(d.verdict, data + d.data, reports + d.reports)
  }

  /** Reads until `buffer` holds `need` bytes from `pos` on. */
  method FillStreamBuffer(stream: HttpStream, buffer: string, pos: nat, need: nat) returns (ok: bool, grown: string)
    requires pos <= |buffer|
    modifies stream`pieces
    ensures buffer <= grown
    ensures grown + stream.Bytes() == buffer + old(stream.Bytes())
    ensures ok <==> |grown| - pos >= need
    ensures !ok ==> stream.Bytes() == ""
  {
    grown := buffer;
    while |grown| - pos < need
      invariant buffer <= grown
      invariant grown + stream.Bytes() == buffer + old(stream.Bytes())
      decreases |stream.Bytes()|
    {
      var got := stream.Read(8192);
      if got == "" { return false, grown; }
      grown := grown + got;
    }
    ok := true;
  }

  /** Reads until the buffer holds a line end at or after `pos`. */
  method AwaitLine(stream: HttpStream, buffer: string, pos: nat) returns (line: Option<nat>, grown: string)
    requires pos <= |buffer|
    modifies stream`pieces
    ensures buffer <= grown
    ensures grown + stream.Bytes() == buffer + old(stream.Bytes())
    ensures line == Find(grown, CRLF, pos)
    ensures line.None? ==> stream.Bytes() == ""
  {
    grown := buffer;
    line := Find(grown, CRLF, pos);
    while line.None?
      invariant buffer <= grown
      invariant grown + stream.Bytes() == buffer + old(stream.Bytes())
      invariant line == Find(grown, CRLF, pos)
      decreases |stream.Bytes()|
    {
      ghost var before := grown;
      var ok;
      ok, grown := FillStreamBuffer(stream, grown, pos, |grown| - pos + 1);
      if !ok {
        assert grown == before;
        return None, grown;
      }
      line := Find(grown, CRLF, pos);
    }
  }

  /** Skips trailer lines up to the empty one. */
  method SkipTrailers(stream: HttpStream, buffer: string, pos: nat) returns (ok: bool)
    requires pos <= |buffer|
    modifies stream`pieces
    ensures ok == TrailersEnd(buffer[pos..] + old(stream.Bytes()))
  {
    hide TrailersEnd, Find, Concat;
    var text, at: nat := buffer, pos;
    ghost var whole := buffer[pos..] + stream.Bytes();
    while true
      invariant at <= |text|
      invariant TrailersEnd(whole) == TrailersEnd(text[at..] + stream.Bytes())
      decreases |text| - at + |stream.Bytes()|
    {
      ghost var seen, unread := text, stream.Bytes();
      var line;
      line, text := AwaitLine(stream, text, at);
      SplitsAgree(text, stream.Bytes(), seen, unread, at);
      if line.None? {
        NoLine(text, at, 0);
        return false;
      }
      TrailerInWindow(text, at, stream.Bytes());
      if line.value == at { return true; }
      at := line.value + 2;
    }
  }

  lemma TrailerInWindow(text: string, at: nat, tail: string)
    requires at <= |text| && Find(text, CRLF, at).Some?
    ensures var q := Find(text, CRLF, at).value;
            TrailersEnd(text[at..] + tail) == (q == at || TrailersEnd(text[q + 2..] + tail))
  {
    hide At;
    FindInWindow(text, CRLF, at, tail);
    var q := Find(text, CRLF, at).value;
    assert (text[at..] + tail)[q - at + 2..] == text[q + 2..] + tail;
  }

  lemma NoLine(t: string, p: nat, written: nat)
    requires p <= |t| && Find(t, CRLF, p).None?
    ensures DecodeFrom(t[p..] + "", written) == Decoded(Rejected, "", [])
    ensures !TrailersEnd(t[p..] + "")
  {
    assert t[p..] + "" == t[p..];
    NotFindInSuffix(t, CRLF, p);
  }

  lemma AfterTwice(d: Decoded, out: string, reports: seq<nat>, data: string, more: seq<nat>)
    ensures After(out, reports, After(data, more, d)) == After(out + data, reports + more, d)
  {
    assert out + (data + d.data) == out + data + d.data;
    assert reports + (more + d.reports) == reports + more + d.reports;
  }

  lemma AfterNothing(v: Verdict, out: string, reports: seq<nat>)
    ensures After(out, reports, Decoded(v, "", [])) == Decoded(v, out, reports)
  {
    assert out + "" == out && reports + [] == reports;
  }

  /** The size line at `pos`, seen in the buffer and in the bytes from `pos` on. */
  lemma LineInWindow(buffer: string, pos: nat, tail: string, written: nat)
    requires pos <= |buffer| && Find(buffer, CRLF, pos).Some?
    ensures var q := Find(buffer, CRLF, pos).value;
            DecodeFrom(buffer[pos..] + tail, written)
            == DecodeChunk(ChunkSize(buffer[pos..q]), buffer[q + 2..] + tail, written)
    ensures |buffer[Find(buffer, CRLF, pos).value + 2..] + tail| < |buffer[pos..] + tail|
  {
    hide DecodeChunk, ChunkSize;
    FindInWindow(buffer, CRLF, pos, tail);
    var q, rest := Find(buffer, CRLF, pos).value, buffer[pos..] + tail;
    assert rest[..q - pos] == buffer[pos..q];
    assert rest[q - pos + 2..] == buffer[q + 2..] + tail;
  }

  /** The chunk data at `pos`, seen in the buffer and in the bytes from `pos` on. */
  lemma DataInWindow(buffer: string, pos: nat, tail: string, n: nat)
    requires pos + n + 2 <= |buffer|
    ensures var rest := buffer[pos..] + tail;
            && |rest| >= n + 2
            && rest[..n] == buffer[pos..pos + n]
            && rest[n + 2..] == buffer[pos + n + 2..] + tail
            && (At(rest, n, CRLF) <==> buffer[pos + n] == '\r' && buffer[pos + n + 1] == '\n')
  {
    var rest := buffer[pos..] + tail;
    assert rest[n..n + 2] == [buffer[pos + n], buffer[pos + n + 1]];
  }

  /** The decoder of the program: a moving cursor over a buffer refilled from the stream and cut
      back once the cursor passes 64 KiB. Its result depends only on the bytes, not on how they
      arrived nor on how many were there at the start. */
  method ReadChunkedBodyToStream(stream: HttpStream, initialBody: string)
      returns (verdict: Verdict, out: string, written: nat, reports: seq<nat>)
    modifies stream`pieces
    ensures Decoded(verdict, out, reports) == Decode(initialBody + old(stream.Bytes()))
    ensures written == |out|
  {
    hide DecodeFrom, TrailersEnd, ChunkSize, Concat, Find, NextRead, At;
    var buffer, pos: nat := initialBody, 0;
    out, written, reports := "", 0, [];
    ghost var tail := stream.Bytes();
    ghost var result := Decode(initialBody + tail);
    while true
      invariant pos <= |buffer| && tail == stream.Bytes()
      invariant written == |out|
      invariant result == After(out, reports, DecodeFrom(buffer[pos..] + tail, written))
      decreases |buffer[pos..] + tail|
    {
      ghost var seen := buffer;
      var line, ok;
      line, buffer := AwaitLine(stream, buffer, pos);
      SplitsAgree(buffer, stream.Bytes(), seen, tail, pos);
      tail := stream.Bytes();
      if line.None? {
        NoLine(buffer, pos, written);
        AfterNothing(Rejected, out, reports);
        return Rejected, out, written, reports;
      }
      LineInWindow(buffer, pos, tail, written);
      var chunkSize := ChunkSize(buffer[pos..line.value]);
      pos := line.value + 2;

      if chunkSize == 0 {
        ok := SkipTrailers(stream, buffer, pos);
        AfterNothing(if ok then Accepted else Rejected, out, reports);
        return if ok then Accepted else Rejected, out, written, reports;
      }
      if chunkSize + 2 >= SIZE_LIMIT {
        AfterNothing(Undefined, out, reports);
        return Undefined, out, written, reports;
      }

      seen := buffer;
      ok, buffer := FillStreamBuffer(stream, buffer, pos, chunkSize + 2);
      SplitsAgree(buffer, stream.Bytes(), seen, tail, pos);
      tail := stream.Bytes();
      if !ok {
        AfterNothing(Rejected, out, reports);
        return Rejected, out, written, reports;
      }
      DataInWindow(buffer, pos, tail, chunkSize);
      AfterTwice(DecodeFrom(buffer[pos + chunkSize + 2..] + tail, written + chunkSize), out, reports,
                 buffer[pos..pos + chunkSize], [written + chunkSize]);
      out, written := out + buffer[pos..pos + chunkSize], written + chunkSize;
      reports := reports + [written];
      pos := pos + chunkSize;
      if pos + 1 >= |buffer| || buffer[pos] != '\r' || buffer[pos + 1] != '\n' {
        return Rejected, out, written, reports;
      }
      pos := pos + 2;

      if pos > COMPACTION_LIMIT {
        buffer, pos := buffer[pos..], 0;
        assert buffer[0..] == buffer;
      }
    }
  }

  // ---------- The framing the decoder accepts ----------

  /** One chunk on the wire: the text of its size line and its data. */
  datatype Frame = Frame(line: string, data: string)

  predicate IsLine(line: string) {
    Find(line, CRLF, 0).None?
  }

  ghost predicate IsFrame(f: Frame) {
    IsLine(f.line) && 0 < |f.data| == ChunkSize(f.line) && |f.data| + 2 < SIZE_LIMIT
  }

  function Line(line: string, rest: string): string {
    line + (CRLF + rest)
  }

  /** The frames on the wire, followed by `tail`. */
  function Wire(frames: seq<Frame>, tail: string): string {
    if frames == [] then tail
    else Line(frames[0].line, Line(frames[0].data, Wire(frames[1..], tail)))
  }

  /** The trailer section: lines, an empty line, and whatever the connection carries next. */
  function Trailer(lines: seq<string>, rest: string): string {
    if lines == [] then Line("", rest) else Line(lines[0], Trailer(lines[1..], rest))
  }

  datatype Body = Body(frames: seq<Frame>, last: string, trailer: seq<string>, rest: string)
  {
    ghost predicate Valid() {
      && (forall f <- frames :: IsFrame(f))
      && IsLine(last) && ChunkSize(last) == 0
      && (forall line <- trailer :: IsLine(line) && line != "")
    }

    function Text(): string {
      Wire(frames, Line(last, Trailer(trailer, rest)))
    }
  }

  function Data(frames: seq<Frame>): string {
    if frames == [] then "" else frames[0].data + Data(frames[1..])
  }

  lemma NoneInLine(line: string, rest: string, i: nat)
    requires IsLine(line) && i < |line|
    ensures !At(Line(line, rest), i, CRLF)
  {
    var s := Line(line, rest);
    assert !At(line, i, CRLF);
    if i + 2 <= |line| {
      assert s[i..i + 2] == line[i..i + 2];
    } else {
      assert s[|line|] == '\r';
      AtIndex(s, i, CRLF, 1);
    }
  }

  lemma LineIsFound(line: string, rest: string)
    requires IsLine(line)
    ensures Find(Line(line, rest), CRLF, 0) == Some(|line|)
    ensures Line(line, rest)[..|line|] == line && Line(line, rest)[|line| + 2..] == rest
  {
    hide IsLine;
    var s := Line(line, rest);
    assert s[|line|..|line| + 2] == CRLF;
    forall i: nat | i < |line| ensures !At(s, i, CRLF) { NoneInLine(line, rest, i); }
    FindIs(s, CRLF, 0, |line|);
  }

  lemma DecodeOfLine(line: string, rest: string, written: nat)
    requires IsLine(line)
    ensures DecodeFrom(Line(line, rest), written) == DecodeChunk(ChunkSize(line), rest, written)
  {
    hide DecodeChunk, ChunkSize, Find;
    LineIsFound(line, rest);
  }

  lemma {:induction false} TrailerIsSkipped(lines: seq<string>, rest: string)
    requires forall line <- lines :: IsLine(line) && line != ""
    ensures TrailersEnd(Trailer(lines, rest))
  {
    if lines == [] {
      LineIsFound("", rest);
    } else {
      LineIsFound(lines[0], Trailer(lines[1..], rest));
      TrailerIsSkipped(lines[1..], rest);
    }
  }

  /** Completeness: every body of the grammar is accepted, and its data comes out. */
  lemma {:induction false} BodyIsDecoded(b: Body, written: nat)
    requires b.Valid()
    ensures DecodeFrom(b.Text(), written).verdict == Accepted
    ensures DecodeFrom(b.Text(), written).data == Data(b.frames)
    decreases b.frames
  {
    hide DecodeFrom, TrailersEnd, ChunkSize;
    if b.frames == [] {
      DecodeOfLine(b.last, Trailer(b.trailer, b.rest), written);
      TrailerIsSkipped(b.trailer, b.rest);
    } else {
      var f, next := b.frames[0], b.(frames := b.frames[1..]);
      assert IsFrame(f);
      DecodeOfLine(f.line, Line(f.data, next.Text()), written);
      DataOfLine(f.data, next.Text());
      BodyIsDecoded(next, written + |f.data|);
    }
  }

  lemma DataOfLine(data: string, rest: string)
    ensures |Line(data, rest)| >= |data| + 2 && At(Line(data, rest), |data|, CRLF)
    ensures Line(data, rest)[..|data|] == data && Line(data, rest)[|data| + 2..] == rest
  {
    assert Line(data, rest)[|data|..|data| + 2] == CRLF;
  }

  lemma LineOf(s: string, e: nat)
    requires At(s, e, CRLF)
    ensures s == Line(s[..e], s[e + 2..])
  {
    assert s[e..e + 2] == CRLF;
    assert s == s[..e] + (s[e..e + 2] + s[e + 2..]);
  }

  lemma FoundLine(s: string)
    requires Find(s, CRLF, 0).Some?
    ensures var e := Find(s, CRLF, 0).value; IsLine(s[..e]) && s == Line(s[..e], s[e + 2..])
  {
    var e := Find(s, CRLF, 0).value;
    LineOf(s, e);
    forall i: nat ensures !At(s[..e], i, CRLF) {
      assert i < e ==> !At(s, i, CRLF);
      if i + 2 <= e { assert s[..e][i..i + 2] == s[i..i + 2]; }
    }
  }

  lemma {:induction false} TrailerOf(s: string) returns (lines: seq<string>, rest: string)
    requires TrailersEnd(s)
    ensures s == Trailer(lines, rest) && forall line <- lines :: IsLine(line) && line != ""
    decreases |s|
  {
    hide At;
    var e := Find(s, CRLF, 0).value;
    FoundLine(s);
    if e == 0 {
      assert s[..0] == "";
      lines, rest := [], s[2..];
    } else {
      var more;
      more, rest := TrailerOf(s[e + 2..]);
      lines := [s[..e]] + more;
    }
  }

  /** Soundness: whatever is accepted is a body of the grammar. */
  lemma {:induction false} BodyOf(s: string, written: nat) returns (b: Body)
    requires DecodeFrom(s, written).verdict == Accepted
    ensures b.Valid() && s == b.Text()
    decreases |s|
  {
    hide ChunkSize, TrailersEnd, At;
    var e := Find(s, CRLF, 0).value;
    FoundLine(s);
    var n, rest := ChunkSize(s[..e]), s[e + 2..];
    if n == 0 {
      var lines, after := TrailerOf(rest);
      b := Body([], s[..e], lines, after);
    } else {
      var next := BodyOf(rest[n + 2..], written + n);
      LineOf(rest, n);
      var frames := [Frame(s[..e], rest[..n])] + next.frames;
      assert frames[1..] == next.frames;
      b := next.(frames := frames);
    }
  }

  /** The decoder accepts exactly the bodies of the grammar. */
  lemma AcceptedExactlyBodies(s: string)
    ensures Decode(s).verdict == Accepted <==> exists b: Body :: b.Valid() && s == b.Text()
    ensures forall b: Body :: b.Valid() && s == b.Text() ==> Decode(s).data == Data(b.frames)
  {
    hide DecodeFrom, Wire, Data;
    if Decode(s).verdict == Accepted { var b := BodyOf(s, 0); }
    forall b: Body | b.Valid() && s == b.Text()
      ensures Decode(s).verdict == Accepted && Decode(s).data == Data(b.frames)
    {
      BodyIsDecoded(b, 0);
    }
  }

  /** Frames, then a size line that leaves no room for the line end behind its data. */
  ghost predicate IsTooLarge(frames: seq<Frame>, line: string) {
    (forall f <- frames :: IsFrame(f)) && IsLine(line) && ChunkSize(line) + 2 >= SIZE_LIMIT
  }

  lemma {:induction false} TooLargeIsUndefined(frames: seq<Frame>, line: string, rest: string, written: nat)
    requires IsTooLarge(frames, line)
    ensures DecodeFrom(Wire(frames, Line(line, rest)), written).verdict == Undefined
    decreases |frames|
  {
    hide DecodeFrom, ChunkSize, IsLine;
    if frames == [] {
      DecodeOfLine(line, rest, written);
    } else {
      var f, more := frames[0], Wire(frames[1..], Line(line, rest));
      assert f in frames && forall g <- frames[1..] :: g in frames;
      DecodeOfLine(f.line, Line(f.data, more), written);
      DataOfLine(f.data, more);
      TooLargeIsUndefined(frames[1..], line, rest, written + |f.data|);
    }
  }

  lemma {:induction false} UndefinedIsTooLarge(s: string, written: nat)
      returns (frames: seq<Frame>, line: string, rest: string)
    requires DecodeFrom(s, written).verdict == Undefined
    ensures IsTooLarge(frames, line) && s == Wire(frames, Line(line, rest))
    decreases |s|
  {
    hide ChunkSize, TrailersEnd, At;
    var e := Find(s, CRLF, 0).value;
    FoundLine(s);
    var n, behind := ChunkSize(s[..e]), s[e + 2..];
    if n + 2 >= SIZE_LIMIT {
      frames, line, rest := [], s[..e], behind;
    } else {
      var more;
      more, line, rest := UndefinedIsTooLarge(behind[n + 2..], written + n);
      LineOf(behind, n);
      frames := [Frame(s[..e], behind[..n])] + more;
      assert frames[1..] == more;
    }
  }

  /** The verdict is `Undefined` exactly for such inputs, and so `Rejected` for all that are neither. */
  lemma UndefinedExactly(s: string)
    ensures Decode(s).verdict == Undefined
       <==> exists frames, line, rest :: IsTooLarge(frames, line) && s == Wire(frames, Line(line, rest))
  {
    hide DecodeFrom, Wire, IsTooLarge;
    if Decode(s).verdict == Undefined { var frames, line, rest := UndefinedIsTooLarge(s, 0); }
    if frames, line, rest :| IsTooLarge(frames, line) && s == Wire(frames, Line(line, rest)) {
      TooLargeIsUndefined(frames, line, rest, 0);
    }
  }

  // ---------- The bodies of the standard ----------

  /** What may follow the digits of a size line: nothing, or blanks and extensions. */
  predicate IsExtension(s: string) {
    s == "" || s[0] == ';' || s[0] == ' ' || s[0] == '\t'
  }

  ghost predicate IsHexNumeral(s: string) {
    s != "" && forall c <- s :: IsHex(c)
  }

  /** A size line of section 7.1 of RFC 9112: the digits of a number, of either case and with leading
      zeros, and extensions. */
  lemma StandardSize(digits: string, extension: string, n: nat)
    requires digits != "" && Spells(digits, 16, n) && IsExtension(extension) && n < SIZE_LIMIT
    ensures ChunkSize(digits + extension) == n
  {
    hide Find, Strtoull16, Spells, Value;
    SpellsExactly(digits, 16, n);
    var line := digits + extension;
    match Find(line, ";", 0)
    case None => StandardDigits(digits, extension);
    case Some(q) =>
      SemicolonIsBehind(digits, extension, q);
      assert line[..q] == digits + extension[..q - |digits|];
      StandardDigits(digits, extension[..q - |digits|]);
  }

  lemma SemicolonIsBehind(digits: string, extension: string, q: nat)
    requires IsHexNumeral(digits) && At(digits + extension, q, ";")
    ensures q >= |digits|
  {
    AtIndex(digits + extension, q, ";", 0);
    assert forall i :: 0 <= i < |digits| ==> (digits + extension)[i] == digits[i] && digits[i] in digits;
  }

  lemma StandardDigits(digits: string, extension: string)
    requires IsHexNumeral(digits) && IsExtension(extension) && Value(digits, 16) < SIZE_LIMIT
    ensures Strtoull16(digits + extension) == Value(digits, 16)
  {
    hide Value, SignedDigits;
    var line := digits + extension;
    assert digits[0] in digits && line[0] == digits[0];
    assert |digits| > 1 ==> digits[1] in digits && line[1] == digits[1];
    assert |digits| == 1 && |line| > 1 ==> line[1] == extension[0];
    HexRunEnds(digits, extension);
    NoSignNoPrefix(line);
    assert line[..|digits|] == digits;
  }

  lemma NoSignNoPrefix(s: string)
    requires s != "" && IsHex(s[0]) && (|s| > 1 ==> IsHex(s[1]) || s[1] == ';' || s[1] == ' ' || s[1] == '\t')
    ensures SignedDigits(s, 16) == (false, s[..DigitRun(s, 16)])
  {
    hide DigitRun;
  }

  lemma {:induction false} HexRunEnds(digits: string, extension: string)
    requires (forall c <- digits :: IsHex(c)) && IsExtension(extension)
    ensures DigitRun(digits + extension, 16) == |digits|
  {
    if digits == "" {
      assert "" + extension == extension;
    } else {
      assert digits[0] in digits && forall c <- digits[1..] :: c in digits;
      assert (digits + extension)[1..] == digits[1..] + extension;
      HexRunEnds(digits[1..], extension);
    }
  }

  datatype StandardChunk = StandardChunk(digits: string, extension: string, data: string)
  {
    ghost predicate Valid() {
      && digits != "" && Spells(digits, 16, |data|) && IsExtension(extension) && IsLine(digits + extension)
      && data != "" && |data| + 2 < SIZE_LIMIT
    }
  }

  function FramesOf(chunks: seq<StandardChunk>): (frames: seq<Frame>)
    ensures |frames| == |chunks|
    ensures forall i :: 0 <= i < |chunks| ==> frames[i] == Frame(chunks[i].digits + chunks[i].extension, chunks[i].data)
  {
    seq(|chunks|, i requires 0 <= i < |chunks| => Frame(chunks[i].digits + chunks[i].extension, chunks[i].data))
  }

  /** Every body of the standard is accepted, and the data of its chunks comes out. */
  lemma StandardBodyIsDecoded(chunks: seq<StandardChunk>, zeros: string, extension: string, trailer: seq<string>,
                              rest: string)
    requires forall c <- chunks :: c.Valid()
    requires zeros != "" && (forall c <- zeros :: c == '0') && IsExtension(extension) && IsLine(zeros + extension)
    requires forall line <- trailer :: IsLine(line) && line != ""
    ensures var d := Decode(Body(FramesOf(chunks), zeros + extension, trailer, rest).Text());
            d.verdict == Accepted && d.data == Data(FramesOf(chunks))
  {
    hide ChunkSize, Spells, DecodeFrom, IsExtension, Find;
    var frames := FramesOf(chunks);
    forall f <- frames ensures IsFrame(f) {
      var i :| 0 <= i < |frames| && frames[i] == f;
      assert chunks[i] in chunks && chunks[i].Valid();
      StandardSize(chunks[i].digits, chunks[i].extension, |f.data|);
    }
    ZerosAreNone(zeros);
    StandardSize(zeros, extension, 0);
    BodyIsDecoded(Body(frames, zeros + extension, trailer, rest), 0);
  }

  lemma {:induction false} ZerosAreNone(s: string)
    requires forall c <- s :: c == '0'
    ensures Spells(s, 16, 0)
  {
    if s != "" {
      var front := s[..|s| - 1];
      assert s[|s| - 1] in s && forall c <- front :: c in s;
      ZerosAreNone(front);
    }
  }

  /** Strictly increasing from above `before` up to `end`. */
  ghost predicate AreTotals(reports: seq<nat>, before: nat, end: nat) {
    && (forall i, j :: 0 <= i < j < |reports| ==> reports[i] < reports[j])
    && (forall r <- reports :: r > before)
    && end == if reports == [] then before else reports[|reports| - 1]
  }

  lemma OneMoreTotal(reports: seq<nat>, before: nat, first: nat, end: nat)
    requires before < first && AreTotals(reports, first, end)
    ensures AreTotals([first] + reports, before, end)
  {
    var all := [first] + reports;
    assert forall i :: 0 < i < |all| ==> all[i] == reports[i - 1] && all[i] in reports;
  }

  /** For every input the reported totals increase strictly and the last one is the output size. */
  lemma {:induction false} ReportsAreTotals(s: string, written: nat)
    ensures var d := DecodeFrom(s, written); AreTotals(d.reports, written, written + |d.data|)
    decreases |s|
  {
    hide ChunkSize, TrailersEnd, At, AreTotals;
    NoTotals(written);
    match Find(s, CRLF, 0)
    case None =>
    case Some(e) =>
      var n, rest := ChunkSize(s[..e]), s[e + 2..];
      if 0 < n && n + 2 < SIZE_LIMIT && n + 2 <= |rest| {
        ReportsAreTotals(rest[n + 2..], written + n);
        var next := DecodeFrom(rest[n + 2..], written + n);
        OneMoreTotal(next.reports, written, written + n, written + n + |next.data|);
        NoTotals(written + n);
        OneMoreTotal([], written, written + n, written + n);
        assert [written + n] + [] == [written + n];
      }
  }

  lemma NoTotals(written: nat)
    ensures AreTotals([], written, written)
  {
  }

  // ---------- The writer ----------

  /** What the client writes for a list of chunks: hexadecimal size lines and a zero chunk. */
  function Encoded(chunks: seq<string>): string {
    if chunks == [] then Line("0", Line("", ""))
    else Line(Numeral(|chunks[0]|, 16), Line(chunks[0], Encoded(chunks[1..])))
  }

  function Join(chunks: seq<string>): string {
    if chunks == [] then "" else chunks[0] + Join(chunks[1..])
  }

  /** The chunks before the first empty one; an empty chunk is written as the end marker. */
  function UpToEmpty(chunks: seq<string>): seq<string> {
    if chunks == [] || chunks[0] == "" then [] else [chunks[0]] + UpToEmpty(chunks[1..])
  }

  /** The writing loop: per chunk a size line, the data and a line end; then the end marker. */
  method WriteChunks(stream: HttpStream, chunks: seq<string>) returns (ok: bool)
    modifies stream`sent, stream`room
    ensures ok == (old(stream.room) > 3 * |chunks|)
    ensures ok ==> stream.sent == old(stream.sent) + Encoded(chunks)
  {
    hide Encoded, Numeral;
    ok := true;
    for i := 0 to |chunks|
      invariant ok ==> old(stream.room) == stream.room + 3 * i
      invariant !ok ==> old(stream.room) < 3 * i
      invariant ok ==> stream.sent + Encoded(chunks[i..]) == old(stream.sent) + Encoded(chunks)
    {
      if !ok { break; }
      EncodedStep(chunks[i..], stream.sent);
      assert chunks[i..][1..] == chunks[i + 1..];
      ok := stream.WriteAll(Numeral(|chunks[i]|, 16) + CRLF);
      if ok { ok := stream.WriteAll(chunks[i]); }
      if ok { ok := stream.WriteAll(CRLF); }
    }
    if ok {
      assert chunks[|chunks|..] == [];
      EncodedStep([], stream.sent);
      ok := stream.WriteAll("0" + CRLF + CRLF);
    }
  }

  lemma EncodedStep(chunks: seq<string>, sent: string)
    ensures chunks == [] ==> sent + Encoded(chunks) == sent + ("0" + CRLF + CRLF)
    ensures chunks != [] ==>
      sent + Encoded(chunks)
      == sent + (Numeral(|chunks[0]|, 16) + CRLF) + chunks[0] + CRLF + Encoded(chunks[1..])
  {
    hide Numeral;
    if chunks != [] {
      var n, c, e := Numeral(|chunks[0]|, 16), chunks[0], Encoded(chunks[1..]);
      assert sent + (n + (CRLF + (c + (CRLF + e)))) == sent + (n + CRLF) + c + CRLF + e;
    }
  }

  lemma LineAppend(line: string, rest: string, more: string)
    ensures Line(line, rest) + more == Line(line, rest + more)
  {
  }

  lemma NumeralOfZero()
    ensures Numeral(0, 16) == "0"
  {
  }

  lemma NumeralIsLine(n: nat)
    requires n < SIZE_LIMIT
    ensures IsLine(Numeral(n, 16)) && ChunkSize(Numeral(n, 16)) == n
  {
    hide Numeral;
    var s := Numeral(n, 16);
    forall i: nat ensures !At(s, i, CRLF) && !At(s, i, ";") {
      if i < |s| {
        assert s[i] in s;
        assert i + 2 <= |s| ==> s[i..i + 2][0] == s[i];
        assert s[i..i + 1][0] == s[i];
      }
    }
    ReadPrintedSize(n);
  }

  /** What is written reads back, after any preceding output and before whatever follows on the
      connection: the decoder accepts and delivers the chunks before the first empty one. */
  lemma {:induction false} EncodeThenDecode(chunks: seq<string>, written: nat, rest: string)
    requires forall c <- chunks :: |c| + 2 < SIZE_LIMIT
    ensures DecodeFrom(Encoded(chunks) + rest, written).verdict == Accepted
    ensures DecodeFrom(Encoded(chunks) + rest, written).data == Join(UpToEmpty(chunks))
  {
    hide DecodeFrom, DecodeChunk, Encoded;
    if chunks == [] || chunks[0] == "" {
      EndIsDecoded(chunks, written, rest);
    } else {
      ChunkIsDecoded(chunks, written, rest);
      EncodeThenDecode(chunks[1..], written + |chunks[0]|, rest);
    }
  }

  lemma EndIsDecoded(chunks: seq<string>, written: nat, rest: string)
    requires chunks == [] || chunks[0] == ""
    ensures DecodeFrom(Encoded(chunks) + rest, written) == Decoded(Accepted, "", [])
  {
    hide DecodeFrom, TrailersEnd, ChunkSize, Numeral, Strtoull16;
    var behind := if chunks == [] then "" else Encoded(chunks[1..]);
    var tail := behind + rest;
    NumeralOfZero();
    LineAppend("", behind, rest);
    LineAppend("0", Line("", behind), rest);
    NumeralIsLine(0);
    DecodeOfLine("0", Line("", tail), written);
    TrailerIsSkipped([], tail);
  }

  lemma ChunkIsDecoded(chunks: seq<string>, written: nat, rest: string)
    requires chunks != [] && chunks[0] != "" && |chunks[0]| + 2 < SIZE_LIMIT
    ensures var c := chunks[0];
            DecodeFrom(Encoded(chunks) + rest, written)
            == After(c, [written + |c|], DecodeFrom(Encoded(chunks[1..]) + rest, written + |c|))
  {
    hide DecodeFrom, TrailersEnd, ChunkSize, Numeral, Strtoull16;
    var c, behind := chunks[0], Encoded(chunks[1..]);
    LineAppend(c, behind, rest);
    LineAppend(Numeral(|c|, 16), Line(c, behind), rest);
    NumeralIsLine(|c|);
    DecodeOfLine(Numeral(|c|, 16), Line(c, behind + rest), written);
    DataOfLine(c, behind + rest);
  }

  ghost predicate OnlyEmptyBehindEmpty(chunks: seq<string>) {
    forall i, j :: 0 <= i < j < |chunks| && chunks[i] == "" ==> chunks[j] == ""
  }

  /** The receiver gets all chunks joined exactly when nothing follows an empty chunk. */
  lemma DeliveredExactlyUnlessCut(chunks: seq<string>, rest: string)
    requires forall c <- chunks :: |c| + 2 < SIZE_LIMIT
    ensures Decode(Encoded(chunks) + rest).verdict == Accepted
    ensures Decode(Encoded(chunks) + rest).data == Join(chunks) <==> OnlyEmptyBehindEmpty(chunks)
  {
    hide DecodeFrom, Encoded;
    EncodeThenDecode(chunks, 0, rest);
    CutLosesNothing(chunks);
  }

  lemma {:induction false} CutLosesNothing(chunks: seq<string>)
    ensures Join(UpToEmpty(chunks)) == Join(chunks) <==> OnlyEmptyBehindEmpty(chunks)
  {
    hide OnlyEmptyBehindEmpty;
    if chunks == [] || chunks[0] == "" {
      BehindEmpty(chunks);
    } else {
      var more := chunks[1..];
      CutLosesNothing(more);
      BehindFull(chunks);
      assert UpToEmpty(chunks)[1..] == UpToEmpty(more);
      assert Join(chunks)[|chunks[0]|..] == Join(more);
      assert Join(UpToEmpty(chunks))[|chunks[0]|..] == Join(UpToEmpty(more));
    }
  }

  lemma BehindEmpty(chunks: seq<string>)
    requires chunks == [] || chunks[0] == ""
    ensures OnlyEmptyBehindEmpty(chunks) <==> Join(chunks) == ""
  {
    hide Join;
    JoinIsEmpty(chunks);
    assert forall j :: 0 <= j < |chunks| ==> chunks[j] in chunks;
  }

  lemma BehindFull(chunks: seq<string>)
    requires chunks != [] && chunks[0] != ""
    ensures OnlyEmptyBehindEmpty(chunks) <==> OnlyEmptyBehindEmpty(chunks[1..])
  {
    assert forall i :: 0 <= i < |chunks[1..]| ==> chunks[1..][i] == chunks[i + 1];
    if OnlyEmptyBehindEmpty(chunks[1..]) {
      forall i, j | 0 <= i < j < |chunks| && chunks[i] == "" ensures chunks[j] == "" {
        assert chunks[1..][i - 1] == "";
        assert chunks[1..][j - 1] == chunks[j];
      }
    }
  }

  lemma {:induction false} JoinIsEmpty(chunks: seq<string>)
    ensures Join(chunks) == "" <==> forall c <- chunks :: c == ""
  {
    if chunks != [] {
      JoinIsEmpty(chunks[1..]);
      assert forall c <- chunks :: c == chunks[0] || c in chunks[1..];
      assert chunks[0] in chunks && forall c <- chunks[1..] :: c in chunks;
    }
  }
}
