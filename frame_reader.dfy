/**
 * The frame reader (`read_request`, htttpd.py): receives chunks until one of
 * them holds the end of the request head or the peer has closed.
 *
 * The socket is replaced by the sequence of chunks that successive calls of
 * `recv(1024)` return; a call past the end of that sequence returns `b""`,
 * as `recv` does once the peer has closed the connection.
 */
module FrameReader {
  import opened Bytes
  import opened Seqs

  /** What the `k`-th call of `recv` returns. */
  function Recv(chunks: seq<seq<byte>>, k: nat): seq<byte> {
    if k < |chunks| then chunks[k] else []
  }

  /** The loop ends after a chunk that is empty or that itself holds `\r\n\r\n`. */
  predicate Stops(chunk: seq<byte>) {
    chunk == [] || Contains(chunk, HEADERS_END)
  }

  function Concat(chunks: seq<seq<byte>>): seq<byte>
    decreases |chunks|
  {
    if chunks == [] then [] else chunks[0] + Concat(chunks[1..])
  }

  /** Everything the reader accumulates from these chunks. */
  function Received(chunks: seq<seq<byte>>): seq<byte>
    decreases |chunks|
  {
    if chunks == [] then []
    else if Stops(chunks[0]) then chunks[0]
    else chunks[0] + Received(chunks[1..])
  }

  /** `read_request`: appends every received chunk to the buffer until one stops the loop. */
  method ReadRequest(chunks: seq<seq<byte>>) returns (requestData: seq<byte>)
    ensures requestData == Received(chunks)
  {
    requestData := [];
    var calls := 0;
    while true
      invariant calls <= |chunks|
      invariant requestData + Received(chunks[calls..]) == Received(chunks)
      decreases |chunks| - calls
    {
      var data := Recv(chunks, calls);
      assert calls < |chunks| ==> chunks[calls..][1..] == chunks[calls + 1..];
      calls := calls + 1;
      requestData := requestData + data;
      if Contains(data, HEADERS_END) || data == [] {
        break;
      }
    }
  }

  lemma ConcatAppend(chunks: seq<seq<byte>>, chunk: seq<byte>)
    ensures Concat(chunks + [chunk]) == Concat(chunks) + chunk
  {
    if chunks != [] {
      assert (chunks + [chunk])[1..] == chunks[1..] + [chunk];
    }
  }

  /**
   * The reader returns exactly the concatenation of the chunks up to and
   * including the first one that is empty or itself holds the terminator.
   */
  lemma {:induction false} ReceivedUpToFirstStop(chunks: seq<seq<byte>>, k: nat)
    requires k < |chunks| && Stops(chunks[k])
    requires forall j :: 0 <= j < k ==> !Stops(chunks[j])
    ensures Received(chunks) == Concat(chunks[..k + 1])
    decreases k
  {
    if k == 0 {
      assert chunks[..1] == [chunks[0]];
    } else {
      ReceivedUpToFirstStop(chunks[1..], k - 1);
      assert chunks[..k + 1] == [chunks[0]] + chunks[1..][..k];
    }
  }

  /** When no chunk stops the loop, the reader returns all of them (then `recv` returns `b""`). */
  lemma {:induction false} ReceivedWithoutStop(chunks: seq<seq<byte>>)
    requires forall j :: 0 <= j < |chunks| ==> !Stops(chunks[j])
    ensures Received(chunks) == Concat(chunks)
    decreases |chunks|
  {
    if chunks != [] {
      ReceivedWithoutStop(chunks[1..]);
    }
  }

  /**
   * A terminator split across two chunks does not stop the loop: the test
   * looks at the chunk just received, not at the buffer.
   */
  lemma SplitTerminatorDoesNotStop(rest: seq<seq<byte>>)
    ensures Received([[71, 13, 10], [13, 10]] + rest) == [71, 13, 10, 13, 10] + Received(rest)
  {
    var chunks := [[71, 13, 10], [13, 10]] + rest;
    assert !Contains(chunks[0], HEADERS_END);
    assert !Contains(chunks[1], HEADERS_END);
    assert chunks[1..][1..] == rest;
  }
}
