/**
 * The two read callbacks the decoders pull their input through: the PNG
 * stream reader, which copies exactly the number of bytes asked for and
 * trusts the caller to stay inside the buffer, and the in-memory GIF
 * reader, which clamps each request to the bytes that remain.
 */
module Readers {
  import opened Base

  /** Sum of a sequence of request sizes. */
  function Total(requests: seq<nat>): nat
  {
    if requests == [] then 0 else Total(requests[..|requests| - 1]) + requests[|requests| - 1]
  }

  /** The PNG read closure: a buffer and the number of bytes handed out so far. */
  class ReadClosure {
    const buf: seq<byte>
    var len: nat

    constructor (buf: seq<byte>)
      ensures this.buf == buf && len == 0
    {
      this.buf := buf;
      len := 0;
    }

    /** Copy the next n bytes and advance; nothing bounds n, so the caller must stay inside the buffer. */
    method Read(n: nat) returns (chunk: seq<byte>)
      requires len + n <= |buf|
      modifies this
      ensures len == old(len) + n
      ensures chunk == buf[old(len)..len]
    {
      chunk := buf[len..len + n];
      len := len + n;
    }
  }

  /**
   * The bytes a PNG decoder receives when it issues `requests` against a
   * fresh closure over `buf`: the buffer's prefix of the requested total,
   * in order.
   */
  method FeedPng(buf: seq<byte>, requests: seq<nat>) returns (stream: seq<byte>)
    requires Total(requests) <= |buf|
    ensures stream == buf[..Total(requests)]
  {
    var closure := new ReadClosure(buf);
    stream := [];
    for r := 0 to |requests|
      invariant closure.buf == buf && closure.len == Total(requests[..r]) <= |buf|
      invariant stream == buf[..closure.len]
    {
      assert requests[..r + 1][..r] == requests[..r];
      TotalPrefixBound(requests, r + 1);
      var chunk := closure.Read(requests[r]);
      stream := stream + chunk;
    }
    assert requests[..|requests|] == requests;
  }

  lemma {:induction false} TotalPrefixBound(requests: seq<nat>, n: nat)
    requires n <= |requests|
    ensures Total(requests[..n]) <= Total(requests)
    decreases |requests|
  {
    if n < |requests| {
      var init := requests[..|requests| - 1];
      assert init[..n] == requests[..n];
      TotalPrefixBound(init, n);
    } else {
      assert requests[..n] == requests;
    }
  }

  /** The GIF memory source: buffer, its length, and the read position. */
  class GifMemory {
    const buf: seq<byte>
    const size: nat
    var pos: nat

    ghost predicate Valid()
      reads this
    {
      pos <= size <= |buf|
    }

    constructor (buf: seq<byte>)
      ensures Valid() && this.buf == buf && size == |buf| && pos == 0
    {
      this.buf := buf;
      size := |buf|;
      pos := 0;
    }

    /** Copy up to n bytes, fewer when the buffer ends first, and advance past them. */
    method Read(n: nat) returns (chunk: seq<byte>)
      requires Valid()
      modifies this
      ensures Valid()
      ensures pos == old(pos) + Min(n, size - old(pos))
      ensures chunk == buf[old(pos)..pos]
    {
      var m := n;
      if pos + m > size {
        m := size - pos;
      }
      chunk := buf[pos..pos + m];
      pos := pos + m;
    }
  }

  function Min(a: nat, b: nat): (m: nat)
    ensures m <= a && m <= b && (m == a || m == b)
  {
    if a <= b then a else b
  }

  /**
   * The bytes a GIF decoder receives when it issues `requests` against a
   * fresh memory source over `buf`: the buffer's prefix, never past its
   * end, and all of it once the requests ask for at least |buf| bytes.
   */
  method FeedGif(buf: seq<byte>, requests: seq<nat>) returns (stream: seq<byte>)
    ensures stream == buf[..Min(Total(requests), |buf|)]
  {
    var source := new GifMemory(buf);
    stream := [];
    for r := 0 to |requests|
      invariant source.Valid() && source.buf == buf && source.size == |buf|
      invariant source.pos == Min(Total(requests[..r]), |buf|)
      invariant stream == buf[..source.pos]
    {
      assert requests[..r + 1][..r] == requests[..r];
      var chunk := source.Read(requests[r]);
      stream := stream + chunk;
    }
    assert requests[..|requests|] == requests;
  }
}
