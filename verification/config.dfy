/**
  The tuning knobs the handler reads from its environment. They are fixed for
  the life of the process, so the model passes them as one immutable record.
 */
module Config {
  import opened Wrappers

  datatype Tuning = Tuning(
    minDelayMs: nat,          // MIN_DELAY_MS, default 120
    headroomMs: nat,          // HEADROOM_MS, default 3
    lateFraction: real,       // LATE_FRACTION, default 0.20
    lateSpanMs: Option<int>,  // LATE_SPAN_MS when it is a finite number, else None
    blobBytes: nat,           // BLOB_BYTES, default 2048
    gzipEnv: Option<string>   // the raw GZIP variable, None when unset
  )

  /** The knob values used when no environment variable is set. */
  const Defaults: Tuning := Tuning(120, 3, 0.20, None, 2048, None)

  /** Compression is switched on only by the exact string "1". */
  predicate GzipEnabled(cfg: Tuning) {
    cfg.gzipEnv == Some("1")
  }
}
