/**
  The body is drained chunk by chunk; only its first `Cap` bytes are kept for
  sniffing, the rest is read and discarded.
 */
module PrefixBuffer {

  type byte = b: int | 0 <= b < 256

  /** The number of body bytes the handler retains. */
  const Cap: nat := 8192

  /** The first `n` elements of `s`, or all of `s` when it is shorter. */
  function Take<T>(s: seq<T>, n: nat): (r: seq<T>)
    ensures |s| <= n ==> r == s
    ensures |s| > n ==> |r| == n
    ensures r <= s
  {
    if |s| <= n then s else s[..n]
  }

  /**
    One `data` event: while fewer than `Cap` bytes are held, append the chunk
    and cut back to `Cap`; once `Cap` bytes are held, drop the chunk.
   */
  function Absorb(held: seq<byte>, chunk: seq<byte>): (r: seq<byte>)
    ensures |held| <= Cap ==> held <= r && r <= held + chunk
    ensures |held| <= Cap ==> |r| == if |held| + |chunk| <= Cap then |held| + |chunk| else Cap
  {
    if |held| < Cap then Take(held + chunk, Cap) else held
  }

  /** All chunks received, in order. */
  function Concat(chunks: seq<seq<byte>>): seq<byte>
  {
    if |chunks| == 0 then [] else Concat(chunks[..|chunks| - 1]) + chunks[|chunks| - 1]
  }

  /** What the handler holds after the given chunks, starting from an empty buffer. */
  function Buffered(chunks: seq<seq<byte>>): seq<byte>
  {
    if |chunks| == 0 then [] else Absorb(Buffered(chunks[..|chunks| - 1]), chunks[|chunks| - 1])
  }

  /** The chunk-by-chunk fold keeps exactly the first `Cap` bytes of the whole body. */
  lemma {:induction false} BufferedIsCappedConcat(chunks: seq<seq<byte>>)
    ensures Buffered(chunks) == Take(Concat(chunks), Cap)
  {
    if |chunks| > 0 {
      var init, last := chunks[..|chunks| - 1], chunks[|chunks| - 1];
      BufferedIsCappedConcat(init);
      var whole := Concat(init);
      if |whole| >= Cap {
        assert Buffered(init) == whole[..Cap];
        assert (whole + last)[..Cap] == whole[..Cap];
      } else {
        assert Buffered(init) == whole;
      }
    }
  }

  /**
    The retained prefix is bounded, is a prefix of everything received, and is
    everything received while the body is at most `Cap` bytes long.
   */
  lemma BufferedBounds(chunks: seq<seq<byte>>)
    ensures |Buffered(chunks)| <= Cap
    ensures Buffered(chunks) <= Concat(chunks)
    ensures |Concat(chunks)| <= Cap ==> Buffered(chunks) == Concat(chunks)
    ensures |Concat(chunks)| >= Cap ==> |Buffered(chunks)| == Cap
  {
    BufferedIsCappedConcat(chunks);
  }

  /** Once `Cap` bytes are held, later chunks leave the buffer unchanged. */
  lemma BufferedSaturates(chunks: seq<seq<byte>>, more: seq<byte>)
    requires |Buffered(chunks)| == Cap
    ensures Buffered(chunks + [more]) == Buffered(chunks)
  {
    assert (chunks + [more])[..|chunks|] == chunks;
  }
}
