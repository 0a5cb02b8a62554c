/**
  The synthetic bid response: the payload record and the choice between a
  plain JSON body and a gzip-compressed one. `JSON.stringify` and `zlib.gzip`
  are outside the model; compression is an opaque outcome.
 */
module ResponseEncoder {
  import opened Wrappers
  import opened Config
  import opened PrefixBuffer

  /** The tag naming this implementation in every response. */
  const Upstream: string := "node"

  const Json: string := "application/json"

  datatype Payload = Payload(id: string, upstream: string, ts: int, tookMs: int, echoTmax: nat, blob: string)

  /** What the compression callback reports. */
  datatype Compression = Compressed(bytes: seq<byte>) | CompressFailed

  datatype Body = JsonBody(payload: Payload) | GzipBody(bytes: seq<byte>)

  datatype Response = Response(status: nat, contentType: string, contentEncoding: Option<string>, body: Body)

  /** `c` repeated `n` times (`"x".repeat(n)`). */
  function Repeat(c: char, n: nat): (r: string)
    ensures |r| == n
    ensures forall k :: 0 <= k < n ==> r[k] == c
  {
    if n == 0 then [] else Repeat(c, n - 1) + [c]
  }

  /** The payload built when the timer fires. */
  function MakePayload(id: string, tmax: nat, delayMs: int, now: int, blobBytes: nat): (p: Payload)
    ensures p.id == id && p.upstream == Upstream && p.ts == now
    ensures p.tookMs == delayMs && p.echoTmax == tmax
    ensures |p.blob| == blobBytes && forall k :: 0 <= k < |p.blob| ==> p.blob[k] == 'x'
  {
    Payload(id, Upstream, now, delayMs, tmax, Repeat('x', blobBytes))
  }

  // ---------------------------------------------------------------------
  // Substring search (`String.prototype.includes`)
  // ---------------------------------------------------------------------

  predicate OccursAt(hay: string, needle: string, k: nat) {
    k + |needle| <= |hay| && hay[k..k + |needle|] == needle
  }

  /** Whether `needle` occurs in `hay` at some position at or after `from`. */
  function ContainsFrom(hay: string, needle: string, from: nat): (r: bool)
    ensures r <==> exists k: nat :: from <= k && OccursAt(hay, needle, k)
    decreases |hay| - from
  {
    if from + |needle| > |hay| then
      assert forall k: nat :: from <= k ==> !OccursAt(hay, needle, k);
      false
    else if hay[from..from + |needle|] == needle then
      assert OccursAt(hay, needle, from);
      true
    else
      ContainsFrom(hay, needle, from + 1)
  }

  function Contains(hay: string, needle: string): bool {
    ContainsFrom(hay, needle, 0)
  }

  // ---------------------------------------------------------------------
  // Encoding choice
  // ---------------------------------------------------------------------

  /** The request's `accept-encoding` value, with an absent header read as "". */
  function AcceptText(acceptEncoding: Option<string>): string {
    acceptEncoding.GetOr("")
  }

  /** Compression is attempted only when switched on and the client mentions gzip. */
  function WantsGzip(cfg: Tuning, acceptEncoding: Option<string>): (b: bool)
    ensures b <==> cfg.gzipEnv == Some("1") && acceptEncoding.Some? && exists k: nat :: OccursAt(acceptEncoding.value, "gzip", k)
  {
    GzipEnabled(cfg) && Contains(AcceptText(acceptEncoding), "gzip")
  }

  function PlainResponse(p: Payload): Response {
    Response(200, Json, None, JsonBody(p))
  }

  /** The compression callback: the compressed body, or the plain payload if compression failed. */
  function AfterCompression(p: Payload, c: Compression): (r: Response)
    ensures r.status == 200 && r.contentType == Json
    ensures r.contentEncoding == Some("gzip") <==> c.Compressed?
    ensures c.CompressFailed? ==> r == PlainResponse(p)
  {
    match c
    case Compressed(gz) => Response(200, Json, Some("gzip"), GzipBody(gz))
    case CompressFailed => PlainResponse(p)
  }

  /**
    The response for a payload, given what compression would report: gzip only
    when it is wanted and succeeded, the plain payload in every other case.
   */
  function Encode(cfg: Tuning, acceptEncoding: Option<string>, p: Payload, c: Compression): (r: Response)
    ensures r.status == 200 && r.contentType == Json
    ensures r.contentEncoding.Some? <==> WantsGzip(cfg, acceptEncoding) && c.Compressed?
    ensures r.contentEncoding.Some? ==> r.contentEncoding == Some("gzip") && r.body == GzipBody(c.bytes)
    ensures r.contentEncoding.None? ==> r.body == JsonBody(p)
  {
    if WantsGzip(cfg, acceptEncoding) then AfterCompression(p, c) else PlainResponse(p)
  }

  /** A gzip-encoded response implies the switch is "1" and the client's header mentions gzip. */
  lemma GzipOnlyWhenNegotiated(cfg: Tuning, acceptEncoding: Option<string>, p: Payload, c: Compression)
    requires Encode(cfg, acceptEncoding, p, c).contentEncoding.Some?
    ensures cfg.gzipEnv == Some("1")
    ensures acceptEncoding.Some?
    ensures exists k: nat :: OccursAt(acceptEncoding.value, "gzip", k)
  {
  }
}
