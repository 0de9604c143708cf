/**
 * The ingest endpoint's forwarding loop (`IncomingStreamHandler.HandlePost`):
 * the request body is read in pieces of at most 1024 bytes, and each piece is
 * forwarded unmodified, until a read comes back empty or with an error.
 */
module Ingest {
  import opened Wire

  /** The cap of one read (`io.LimitReader(r.Body, 1024)`). */
  const ReadLimit: nat := 1024

  /**
   * How the request body ends once its bytes are exhausted: cleanly, with a
   * read error reported by a read after the last byte, or with a read error
   * reported by the same read that returns the last byte (an `io.Reader` may
   * return bytes and an error together).
   */
  datatype BodyEnd = EndOfBody | ErrorAfterData | ErrorWithLastData

  /** A request body: the bytes it yields, then how it ends. */
  datatype Body = Body(data: Bytes, end: BodyEnd)

  /** What one `ioutil.ReadAll(io.LimitReader(r.Body, 1024))` returns: the bytes, and whether `err != nil`. */
  datatype ChunkRead = ChunkRead(data: Bytes, failed: bool)

  /**
   * One limited read from offset `pos`: the next bytes, up to 1024, together
   * with the error of the body if one of the body reads behind it reports
   * one. The limit reader reports end of input after 1024 bytes without
   * reading the body further, so an error that follows the last byte is seen
   * only by a read that stops short of 1024; an error that comes with the
   * last byte is seen by the read that returns that byte, even a full one.
   * Either way the bytes read are returned alongside the error.
   */
  function ReadChunk(body: Body, pos: nat): (r: ChunkRead)
    requires pos <= |body.data|
    ensures |r.data| <= ReadLimit && pos + |r.data| <= |body.data|
    ensures r.data == body.data[pos..pos + |r.data|]
    ensures |r.data| < ReadLimit ==> pos + |r.data| == |body.data|
    ensures body.end == EndOfBody ==> !r.failed
    ensures body.end == ErrorAfterData ==> (r.failed <==> |body.data| - pos < ReadLimit)
    ensures body.end == ErrorWithLastData ==> (r.failed <==> pos + |r.data| == |body.data|)
  {
    if |body.data| - pos >= ReadLimit then
      var piece := body.data[pos..pos + ReadLimit];
      ChunkRead(piece, body.end == ErrorWithLastData && |body.data| - pos == ReadLimit)
    else
      ChunkRead(body.data[pos..], body.end != EndOfBody)
  }

  /** The chunks joined in order. */
  function Flatten(chunks: seq<Bytes>): Bytes
  {
    if chunks == [] then [] else chunks[0] + Flatten(chunks[1..])
  }

  /** Every chunk is non-empty and at most 1024 bytes, and all but the last are exactly 1024. */
  predicate WellCut(chunks: seq<Bytes>)
  {
    && (forall k :: 0 <= k < |chunks| ==> 0 < |chunks[k]| <= ReadLimit)
    && (forall k :: 0 <= k < |chunks| - 1 ==> |chunks[k]| == ReadLimit)
  }

  /** The bytes cut into consecutive pieces of 1024, the last one possibly shorter. */
  function Split(s: Bytes): (chunks: seq<Bytes>)
    ensures WellCut(chunks)
    ensures Flatten(chunks) == s
    decreases |s|
  {
    if s == [] then []
    else if |s| <= ReadLimit then
      assert Flatten([s]) == s + Flatten([]);
      [s]
    else
      var rest := Split(s[ReadLimit..]);
      assert ([s[..ReadLimit]] + rest)[1..] == rest;
      assert s[..ReadLimit] + s[ReadLimit..] == s;
      [s[..ReadLimit]] + rest
  }

  /**
   * The bytes that reach the hub. At a clean end, the whole body. When the
   * body fails, the read that sees the error returns its bytes together with
   * it, and the loop drops them: only the pieces before that read get
   * through. For an error after the last byte that is the trailing partial
   * piece (possibly none); for an error with the last byte it is the piece
   * holding that byte, even a full one.
   */
  function Delivered(body: Body): (d: Bytes)
    ensures d <= body.data
    ensures body.end == EndOfBody ==> d == body.data
    ensures body.end != EndOfBody ==> |d| % ReadLimit == 0 && |body.data| - |d| <= ReadLimit
    ensures body.end == ErrorAfterData ==> |body.data| - |d| < ReadLimit
    ensures body.end == ErrorWithLastData && body.data != [] ==> |d| < |body.data|
  {
    match body.end
    case EndOfBody => body.data
    case ErrorAfterData => body.data[..|body.data| - |body.data| % ReadLimit]
    case ErrorWithLastData =>
      if body.data == [] then []
      else body.data[..(|body.data| - 1) - (|body.data| - 1) % ReadLimit]
  }

  /**
   * `HandlePost`'s loop: the buffers handed to the hub, in order, are the
   * delivered bytes cut at every 1024th byte. So each one is non-empty and
   * at most 1024 bytes, and joined in order they give back the body up to
   * where the loop stopped.
   */
  method HandlePost(body: Body) returns (forwarded: seq<Bytes>)
    ensures forwarded == Split(Delivered(body))
    ensures WellCut(forwarded) && Flatten(forwarded) == Delivered(body)
  {
    ghost var d := Delivered(body);
    var pos := 0;
    forwarded := [];
    while true
      invariant OnPieceBoundary(body, pos)
      invariant forwarded + Split(d[pos..]) == Split(d)
      decreases |body.data| - pos
    {
      var r := ReadChunk(body, pos);
      if r.failed || |r.data| == 0 {
        StopAtEnd(body, pos);
        break;
      }
      NextPiece(body, pos);
      forwarded := forwarded + [r.data];
      pos := pos + |r.data|;
    }
  }

  /** Where `HandlePost` can stand between two reads: within the delivered bytes, at a multiple of 1024 or at the end of the body. */
  ghost predicate OnPieceBoundary(body: Body, pos: nat)
  {
    pos <= |Delivered(body)| && (pos % ReadLimit == 0 || pos == |body.data|)
  }

  /** A successful, non-empty read is the next piece of `Split` of what is left to deliver. */
  lemma NextPiece(body: Body, pos: nat)
    requires OnPieceBoundary(body, pos)
    requires !ReadChunk(body, pos).failed && |ReadChunk(body, pos).data| > 0
    ensures OnPieceBoundary(body, pos + |ReadChunk(body, pos).data|)
    ensures Split(Delivered(body)[pos..]) ==
      [ReadChunk(body, pos).data] + Split(Delivered(body)[pos + |ReadChunk(body, pos).data|..])
  {
    var d, r := Delivered(body), ReadChunk(body, pos);
    var k := |r.data|;
    if body.end != EndOfBody {
      MultiplesApart(pos, |d|);
      assert k == ReadLimit && pos < |d|;
      assert (pos + k) % ReadLimit == 0;
    }
    assert d[pos..][..k] == r.data;
    assert d[pos..][k..] == d[pos + k..];
  }

  /** A failed or empty read comes exactly when everything to deliver has been forwarded. */
  lemma StopAtEnd(body: Body, pos: nat)
    requires OnPieceBoundary(body, pos)
    requires ReadChunk(body, pos).failed || |ReadChunk(body, pos).data| == 0
    ensures pos == |Delivered(body)|
  {
    MultiplesApart(pos, |Delivered(body)|);
  }

  /** Two different multiples of 1024 are at least 1024 apart. */
  lemma MultiplesApart(a: nat, b: nat)
    ensures a % ReadLimit == 0 && b % ReadLimit == 0 && a < b ==> a + ReadLimit <= b
  {
    if a % ReadLimit == 0 && b % ReadLimit == 0 && a < b {
      var q, p := a / ReadLimit, b / ReadLimit;
      assert a == q * ReadLimit && b == p * ReadLimit;
      assert q < p;
    }
  }

  /**
   * `Split` is the only way to cut bytes into pieces that are non-empty, at
   * most 1024 bytes and all but the last exactly 1024: any such cut that
   * joins back to the bytes is `Split`.
   */
  lemma {:induction false} CutIsSplit(chunks: seq<Bytes>, s: Bytes)
    requires WellCut(chunks) && Flatten(chunks) == s
    ensures chunks == Split(s)
    decreases |chunks|
  {
    if chunks != [] {
      var head, rest := chunks[0], chunks[1..];
      assert WellCut(rest) by {
        assert forall k :: 0 <= k < |rest| ==> rest[k] == chunks[k + 1];
      }
      CutIsSplit(rest, Flatten(rest));
      if rest == [] {
        assert s == head;
      } else {
        assert |head| == ReadLimit;
        assert |Flatten(rest)| >= |rest[0]| > 0;
        assert s[..ReadLimit] == head && s[ReadLimit..] == Flatten(rest);
      }
    }
  }
}
