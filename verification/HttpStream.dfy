/** A connection as the HTTP layer sees it. */
module HttpStreams {
  import opened Text

  function Concat(pieces: seq<string>): string {
    if pieces == [] then "" else pieces[0] + Concat(pieces[1..])
  }

  /** The non-empty pieces in which bytes arrive. */
  type Pieces = pieces: seq<string> | forall p <- pieces :: p != ""

  /** What one read of at most `size` bytes brings, and what is left. */
  function NextRead(pieces: Pieces, size: nat): (r: (string, Pieces))
    requires size > 0
    ensures |r.0| <= size && r.0 + Concat(r.1) == Concat(pieces) && (r.0 == "" <==> pieces == [])
  {
    if pieces == [] then ("", [])
    else
      assert pieces[0] in pieces && forall p <- pieces[1..] :: p in pieces;
      var head := pieces[0];
      if |head| <= size then (head, pieces[1..])
      else
        assert head == head[..size] + head[size..];
        (head[..size], [head[size..]] + pieces[1..])
  }

  /** The bytes still to arrive come in arbitrary non-empty pieces, whatever sizes the peer and the
      network chose; end of stream, an error and a timeout all read as "nothing more". */
  class HttpStream {
    var pieces: Pieces
    var sent: string
    var room: nat  // how many more writes the connection takes

    ghost function Bytes(): string
      reads this
    {
      Concat(pieces)
    }

    constructor (incoming: Pieces, room: nat)
      ensures pieces == incoming && Bytes() == Concat(incoming) && sent == "" && this.room == room
    {
      pieces, sent, this.room := incoming, "", room;
    }

    /** One `read` into a buffer of `size` bytes. */
    method Read(size: nat) returns (got: string)
      requires size > 0
      modifies this`pieces
      ensures (got, pieces) == NextRead(old(pieces), size)
      ensures |got| <= size && got + Bytes() == old(Bytes())
      ensures got == "" ==> Bytes() == ""
    {
      if pieces == [] { return ""; }
      var head := pieces[0];
      assert head in pieces;
      assert forall p <- pieces[1..] :: p in pieces;
      if |head| <= size {
        got, pieces := head, pieces[1..];
      } else {
        got, pieces := head[..size], [head[size..]] + pieces[1..];
      }
    }

    method WriteAll(data: string) returns (ok: bool)
      modifies this`sent, this`room
      ensures ok == (old(room) > 0)
      ensures if ok then sent == old(sent) + data && room == old(room) - 1 else sent == old(sent) && room == 0
    {
      ok := room > 0;
      if ok { sent, room := sent + data, room - 1; }
    }
  }
}
