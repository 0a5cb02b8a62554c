/**
  Heuristic extraction of the deadline (`tmax`) and the correlation id from the
  buffered body prefix, by the two regular expressions

    "tmax"\s*:\s*(\d+)        and        "id"\s*:\s*"([^"]*)"

  applied with JavaScript's `RegExp.prototype.exec`: the result is the capture
  of the leftmost position at which the whole pattern matches.

  Each pattern has a relational reference definition (`TmaxMatchAt`,
  `IdMatchAt`) naming the positions of its parts, and a deterministic matcher
  (`MatchTmaxAt`, `MatchIdAt`) proved to agree with it in both directions.
 */
module DeadlineSniffer {
  import opened Wrappers
  import opened JsMath

  /** The deadline used when the body names none, or names zero. */
  const FallbackTmax: nat := 300

  const TmaxKey: string := "\"tmax\""
  const IdKey: string := "\"id\""

  /**
    ECMAScript `\s` restricted to ASCII: tab, line feed, vertical tab, form
    feed, carriage return and space. The text is read one character per byte,
    so the non-ASCII members of `\s` only ever arise from multi-byte UTF-8
    sequences, which this reading does not decode.
   */
  predicate IsSpace(c: char) {
    ('\t' <= c <= '\r') || c == ' '
  }

  /** ECMAScript `\d`: ASCII digits only. */
  predicate IsDigit(c: char) {
    '0' <= c <= '9'
  }

  /** The character class `[^"]`. */
  predicate NotQuote(c: char) {
    c != '"'
  }

  /** The end of the longest run of `keep` characters of `s` starting at `p`. */
  function RunEnd(s: string, p: nat, keep: char -> bool): (q: nat)
    requires p <= |s|
    ensures p <= q <= |s|
    ensures forall k :: p <= k < q ==> keep(s[k])
    ensures q == |s| || !keep(s[q])
    decreases |s| - p
  {
    if p < |s| && keep(s[p]) then RunEnd(s, p + 1, keep) else p
  }

  /** A run is maximal in only one place. */
  lemma RunEndUnique(s: string, p: nat, q: nat, keep: char -> bool)
    requires p <= q <= |s|
    requires forall k :: p <= k < q ==> keep(s[k])
    requires q == |s| || !keep(s[q])
    ensures RunEnd(s, p, keep) == q
  {
  }

  // ---------------------------------------------------------------------
  // "tmax"\s*:\s*(\d+)
  // ---------------------------------------------------------------------

  /**
    The tmax pattern matches at `i`: the key occupies [i, i+6), whitespace runs
    up to the colon at `a`, whitespace runs up to `c`, and the capture is the
    digit run [c, e). The greedy `\d+` takes every digit, so `e` is not followed
    by a digit.
   */
  ghost predicate TmaxMatchAt(s: string, i: int, a: int, c: int, e: int) {
    && 0 <= i && i + |TmaxKey| <= a < c < e <= |s|
    && s[i..i + |TmaxKey|] == TmaxKey
    && (forall k :: i + |TmaxKey| <= k < a ==> IsSpace(s[k]))
    && s[a] == ':'
    && (forall k :: a < k < c ==> IsSpace(s[k]))
    && (forall k :: c <= k < e ==> IsDigit(s[k]))
    && (e == |s| || !IsDigit(s[e]))
  }

  /** The tmax pattern tried at position `i` only; the digit capture if it matches. */
  function MatchTmaxAt(s: string, i: nat): (r: Option<string>)
    ensures r.Some? ==> exists a, c, e :: TmaxMatchAt(s, i, a, c, e) && r.value == s[c..e]
  {
    if i + |TmaxKey| <= |s| && s[i..i + |TmaxKey|] == TmaxKey then
      var a := RunEnd(s, i + |TmaxKey|, IsSpace);
      if a < |s| && s[a] == ':' then
        var c := RunEnd(s, a + 1, IsSpace);
        var e := RunEnd(s, c, IsDigit);
        if c < e then
          assert TmaxMatchAt(s, i, a, c, e);
          Some(s[c..e])
        else None
      else None
    else None
  }

  /** Wherever the pattern matches, the matcher finds it, with the same capture. */
  lemma MatchTmaxAtComplete(s: string, i: nat, a: int, c: int, e: int)
    requires TmaxMatchAt(s, i, a, c, e)
    ensures MatchTmaxAt(s, i) == Some(s[c..e])
  {
    RunEndUnique(s, i + |TmaxKey|, a, IsSpace);
    RunEndUnique(s, a + 1, c, IsSpace);
    RunEndUnique(s, c, e, IsDigit);
  }

  // ---------------------------------------------------------------------
  // "id"\s*:\s*"([^"]*)"
  // ---------------------------------------------------------------------

  /**
    The id pattern matches at `i`: the key occupies [i, i+4), whitespace runs up
    to the colon at `a`, whitespace runs up to the opening quote at `b`, and the
    capture [b+1, e) is free of quotes up to the closing quote at `e`.
   */
  ghost predicate IdMatchAt(s: string, i: int, a: int, b: int, e: int) {
    && 0 <= i && i + |IdKey| <= a < b < e < |s|
    && s[i..i + |IdKey|] == IdKey
    && (forall k :: i + |IdKey| <= k < a ==> IsSpace(s[k]))
    && s[a] == ':'
    && (forall k :: a < k < b ==> IsSpace(s[k]))
    && s[b] == '"'
    && (forall k :: b < k < e ==> NotQuote(s[k]))
    && s[e] == '"'
  }

  /** The id pattern tried at position `i` only; the quoted capture if it matches. */
  function MatchIdAt(s: string, i: nat): (r: Option<string>)
    ensures r.Some? ==> exists a, b, e :: IdMatchAt(s, i, a, b, e) && r.value == s[b + 1..e]
    ensures r.Some? ==> '"' !in r.value
  {
    if i + |IdKey| <= |s| && s[i..i + |IdKey|] == IdKey then
      var a := RunEnd(s, i + |IdKey|, IsSpace);
      if a < |s| && s[a] == ':' then
        var b := RunEnd(s, a + 1, IsSpace);
        if b < |s| && s[b] == '"' then
          var e := RunEnd(s, b + 1, NotQuote);
          if e < |s| then
            assert IdMatchAt(s, i, a, b, e);
            Some(s[b + 1..e])
          else None
        else None
      else None
    else None
  }

  /** Wherever the id pattern matches, the matcher finds it, with the same capture. */
  lemma MatchIdAtComplete(s: string, i: nat, a: int, b: int, e: int)
    requires IdMatchAt(s, i, a, b, e)
    ensures MatchIdAt(s, i) == Some(s[b + 1..e])
  {
    RunEndUnique(s, i + |IdKey|, a, IsSpace);
    RunEndUnique(s, a + 1, b, IsSpace);
    RunEndUnique(s, b + 1, e, NotQuote);
  }

  // ---------------------------------------------------------------------
  // Leftmost search, as `exec` performs it
  // ---------------------------------------------------------------------

  datatype Found = Found(start: nat, capture: string)

  /** The first position at or after `from` where `matchAt` succeeds. */
  function Leftmost(s: string, from: nat, matchAt: (string, nat) -> Option<string>): (r: Option<Found>)
    ensures r.Some? ==> from <= r.value.start < |s| && matchAt(s, r.value.start) == Some(r.value.capture)
    ensures r.Some? ==> forall j: nat :: from <= j < r.value.start ==> matchAt(s, j).None?
    ensures r.None? ==> forall j: nat :: from <= j < |s| ==> matchAt(s, j).None?
    decreases |s| - from
  {
    if from >= |s| then None
    else match matchAt(s, from)
      case Some(cap) => Some(Found(from, cap))
      case None => Leftmost(s, from + 1, matchAt)
  }

  // ---------------------------------------------------------------------
  // parseInt on a digit run
  // ---------------------------------------------------------------------

  predicate AllDigits(d: string) {
    forall k :: 0 <= k < |d| ==> IsDigit(d[k])
  }

  function DigitValue(c: char): nat
    requires IsDigit(c)
  {
    (c as int) - ('0' as int)
  }

  function Pow10(k: nat): (p: nat)
    ensures p >= 1
  {
    if k == 0 then 1 else 10 * Pow10(k - 1)
  }

  /**
    `parseInt(d, 10)` for a run of decimal digits, without a width limit: a
    value with as many decimal places as `d` has digits, and exactly that many
    when `d` has no leading zero.
   */
  function DecimalValue(d: string): (v: nat)
    requires AllDigits(d)
    ensures v < Pow10(|d|)
    ensures |d| > 0 && d[0] != '0' ==> v >= Pow10(|d| - 1)
  {
    if |d| == 0 then 0 else 10 * DecimalValue(d[..|d| - 1]) + DigitValue(d[|d| - 1])
  }

  /** The shortest decimal text of `n`: no leading zero, and `"0"` for zero. */
  function DecimalText(n: nat): (d: string)
    ensures |d| >= 1 && AllDigits(d)
  {
    if n < 10 then ['0' + n as char] else DecimalText(n / 10) + ['0' + (n % 10) as char]
  }

  /** Reading back the decimal text of a number gives the number. */
  lemma {:induction false} DecimalRoundTrip(n: nat)
    ensures DecimalValue(DecimalText(n)) == n
  {
    var d := DecimalText(n);
    if n >= 10 {
      DecimalRoundTrip(n / 10);
      assert d[..|d| - 1] == DecimalText(n / 10);
    }
  }

  /** Printing the value of a digit run without a leading zero gives back the run. */
  lemma {:induction false} DecimalCanonical(d: string)
    requires AllDigits(d) && |d| > 0 && d[0] != '0'
    ensures DecimalText(DecimalValue(d)) == d
  {
    var v := DecimalValue(d);
    var init := d[..|d| - 1];
    if |d| == 1 {
      assert v == DigitValue(d[0]);
      assert ['0' + v as char] == d;
    } else {
      assert init[0] == d[0];
      DecimalCanonical(init);
      var vi := DecimalValue(init);
      assert vi >= 1;
      assert v / 10 == vi && v % 10 == DigitValue(d[|d| - 1]);
      assert d == init + [d[|d| - 1]];
    }
  }

  /** A digit run reads as zero exactly when every digit is '0'. */
  lemma {:induction false} DecimalZeroIff(d: string)
    requires AllDigits(d)
    ensures DecimalValue(d) == 0 <==> forall k :: 0 <= k < |d| ==> d[k] == '0'
  {
    if |d| > 0 {
      var init := d[..|d| - 1];
      DecimalZeroIff(init);
      assert forall k :: 0 <= k < |init| ==> init[k] == d[k];
    }
  }

  // ---------------------------------------------------------------------
  // The two sniffs
  // ---------------------------------------------------------------------

  /**
    The deadline: the leftmost tmax capture read as decimal, replaced by the
    fallback when it reads as zero (`|| 300`), and at least 1 (`Math.max(1, …)`);
    the fallback when nothing matches.
   */
  function SniffTmax(s: string): (t: nat)
    ensures t >= 1
  {
    match Leftmost(s, 0, MatchTmaxAt)
    case None => FallbackTmax
    case Some(f) =>
      assert AllDigits(f.capture);
      var v := DecimalValue(f.capture);
      Max(1, if v == 0 then FallbackTmax else v)
  }

  /** The correlation id: the leftmost id capture, or "" when nothing matches. */
  function SniffId(s: string): (id: string)
    ensures '"' !in id
  {
    match Leftmost(s, 0, MatchIdAt)
    case None => ""
    case Some(f) => f.capture
  }

  /**
    When the leftmost match of the tmax pattern starts at `i` with digits
    [c, e), the sniffed deadline is their decimal value, or the fallback when
    that value is zero.
   */
  lemma SniffTmaxLeftmost(s: string, i: nat, a: int, c: int, e: int)
    requires TmaxMatchAt(s, i, a, c, e)
    requires forall j, a', c', e' :: 0 <= j < i ==> !TmaxMatchAt(s, j, a', c', e')
    ensures AllDigits(s[c..e])
    ensures SniffTmax(s) == if DecimalValue(s[c..e]) == 0 then FallbackTmax else DecimalValue(s[c..e])
  {
    MatchTmaxAtComplete(s, i, a, c, e);
    var r := Leftmost(s, 0, MatchTmaxAt);
    assert r.Some?;
    if r.value.start < i {
      assert false;
    }
    assert r.value.start == i;
  }

  /** With no match of the tmax pattern anywhere, the deadline is the fallback. */
  lemma SniffTmaxNoMatch(s: string)
    requires forall j, a, c, e :: !TmaxMatchAt(s, j, a, c, e)
    ensures SniffTmax(s) == FallbackTmax
  {
    var r := Leftmost(s, 0, MatchTmaxAt);
    if r.Some? {
      assert false;
    }
  }

  /** When the leftmost match of the id pattern starts at `i`, the sniffed id is its capture. */
  lemma SniffIdLeftmost(s: string, i: nat, a: int, b: int, e: int)
    requires IdMatchAt(s, i, a, b, e)
    requires forall j, a', b', e' :: 0 <= j < i ==> !IdMatchAt(s, j, a', b', e')
    ensures SniffId(s) == s[b + 1..e]
  {
    MatchIdAtComplete(s, i, a, b, e);
    var r := Leftmost(s, 0, MatchIdAt);
    assert r.Some?;
    if r.value.start < i {
      assert false;
    }
    assert r.value.start == i;
  }

  /** With no match of the id pattern anywhere, the id is empty. */
  lemma SniffIdNoMatch(s: string)
    requires forall j, a, b, e :: !IdMatchAt(s, j, a, b, e)
    ensures SniffId(s) == ""
  {
    var r := Leftmost(s, 0, MatchIdAt);
    if r.Some? {
      assert false;
    }
  }

  // ---------------------------------------------------------------------
  // A well-formed request round-trips through the sniffs
  // ---------------------------------------------------------------------

  /** The body `{"id":"<id>","tmax":<n>}` with the id inserted verbatim. */
  function RequestText(id: string, n: nat): string {
    "{\"id\":\"" + id + "\",\"tmax\":" + DecimalText(n) + "}"
  }

  /** The search reports position `i` when it is the first where `matchAt` succeeds. */
  lemma LeftmostIs(s: string, i: nat, cap: string, matchAt: (string, nat) -> Option<string>)
    requires i < |s| && matchAt(s, i) == Some(cap)
    requires forall j: nat :: j < i ==> matchAt(s, j).None?
    ensures Leftmost(s, 0, matchAt) == Some(Found(i, cap))
  {
  }

  /** Where each part of a serialised request sits. */
  lemma RequestTextLayout(id: string, n: nat)
    ensures var s, L, d := RequestText(id, n), |id|, DecimalText(n);
      && |s| == 17 + L + |d|
      && s[0] == '{' && s[1] == '"' && s[2] == 'i' && s[3] == 'd' && s[4] == '"' && s[5] == ':' && s[6] == '"'
      && (forall k :: 7 <= k < 7 + L ==> s[k] == id[k - 7])
      && s[7 + L] == '"' && s[8 + L] == ',' && s[9 + L] == '"' && s[10 + L] == 't'
      && s[14 + L] == '"' && s[15 + L] == ':'
      && s[9 + L..15 + L] == TmaxKey
      && s[16 + L..16 + L + |d|] == d
      && s[16 + L + |d|] == '}'
  {
  }

  /** The first characters of a matched key. */
  lemma KeyChars(s: string, j: nat)
    requires j + |TmaxKey| <= |s| && s[j..j + |TmaxKey|] == TmaxKey
    ensures s[j] == '"' && s[j + 1] == 't' && s[j + 5] == '"'
  {
    assert s[j..j + |TmaxKey|][0] == s[j];
    assert s[j..j + |TmaxKey|][1] == s[j + 1];
    assert s[j..j + |TmaxKey|][5] == s[j + 5];
  }

  /** A request carrying an id without quotes yields exactly that id. */
  lemma SniffIdRoundTrip(id: string, n: nat)
    requires '"' !in id
    ensures SniffId(RequestText(id, n)) == id
  {
    var s := RequestText(id, n);
    var L := |id|;
    RequestTextLayout(id, n);
    assert s[1..5] == IdKey;
    assert forall k :: 6 < k < 7 + L ==> NotQuote(s[k]) by {
      forall k | 6 < k < 7 + L ensures NotQuote(s[k]) {
        assert s[k] == id[k - 7];
      }
    }
    MatchIdAtComplete(s, 1, 5, 6, 7 + L);
    assert s[7..7 + L] == id;
    LeftmostIs(s, 1, id, MatchIdAt);
  }

  /** A request carrying a positive deadline yields exactly that deadline. */
  lemma SniffTmaxRoundTrip(id: string, n: nat)
    requires '"' !in id
    requires n >= 1
    ensures SniffTmax(RequestText(id, n)) == n
  {
    var s := RequestText(id, n);
    var L := |id|;
    var d := DecimalText(n);
    RequestTextLayout(id, n);
    assert forall k :: 16 + L <= k < 16 + L + |d| ==> IsDigit(s[k]) by {
      forall k | 16 + L <= k < 16 + L + |d| ensures IsDigit(s[k]) {
        assert s[k] == s[16 + L..16 + L + |d|][k - 16 - L];
      }
    }
    MatchTmaxAtComplete(s, 9 + L, 15 + L, 16 + L, 16 + L + |d|);
    forall j: nat | j < 9 + L
      ensures MatchTmaxAt(s, j).None?
    {
      NoTmaxBeforeKey(id, n, j);
    }
    LeftmostIs(s, 9 + L, d, MatchTmaxAt);
    DecimalRoundTrip(n);
  }

  /** No position before the real `"tmax"` key starts a tmax match. */
  lemma NoTmaxBeforeKey(id: string, n: nat, j: nat)
    requires '"' !in id
    requires j < 9 + |id|
    ensures MatchTmaxAt(RequestText(id, n), j).None?
  {
    var s := RequestText(id, n);
    var L := |id|;
    RequestTextLayout(id, n);
    if j + |TmaxKey| <= |s| && s[j..j + |TmaxKey|] == TmaxKey {
      KeyChars(s, j);
      if 7 <= j < 7 + L {
        assert false;
      } else if j == 6 {
        // only an id spelled `tmax` puts a key here, and a comma follows it
        if L != 4 {
          assert false;
        }
        RunEndUnique(s, 12, 12, IsSpace);
      } else {
        assert false;
      }
    }
  }
}
