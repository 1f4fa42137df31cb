/** HKDF-Expand as written for WebCrypto, against section 2.3 of RFC 5869. */
module Hkdf {
  import opened Bytes
  import opened Wrappers

  /** The keyed hash, by its function; it can fail, and else returns `hashLen` bytes. */
  datatype Hmac = Hmac(hashLen: nat, sign: (bytes, bytes) -> Option<bytes>)

  ghost predicate Valid(h: Hmac) {
    h.hashLen > 0 &&
    forall key, data ::
      var out := h.sign(key, data);
      out.Some? ==> |out.value| == h.hashLen
  }

  /** `Panicked` is an addition that overflows in a build that checks it. */
  datatype Outcome = Out(okm: bytes) | HmacFailed | Panicked

  // ------------------------------------------------------------------
  // The RFC
  // ------------------------------------------------------------------

  /** T(i), which exists for blocks 1 to 255 only; T(0) is empty. */
  function RfcT(h: Hmac, prk: bytes, info: bytes, i: nat): Option<bytes>
    requires i <= 255
  {
    if i == 0 then Some([])
    else
      var prev := RfcT(h, prk, info, i - 1);
      var counter: byte := i;
      if prev.None? then None else h.sign(prk, prev.value + info + [counter])
  }

  /** T(1) || ... || T(n). */
  function RfcStream(h: Hmac, prk: bytes, info: bytes, n: nat): Option<bytes>
    requires n <= 255
  {
    if n == 0 then Some([])
    else
      var s := RfcStream(h, prk, info, n - 1);
      var t := RfcT(h, prk, info, n);
      if s.None? || t.None? then None else Some(s.value + t.value)
  }

  /** HKDF-Expand: the first `len` bytes, or none when more than 255 blocks are asked for or the
      keyed hash fails. */
  function RfcExpand(h: Hmac, prk: bytes, info: bytes, len: nat): Option<bytes>
    requires h.hashLen > 0
  {
    BlockCountBound(h, len, 255);
    if len > 255 * h.hashLen then None
    else
      var s := RfcStream(h, prk, info, BlockCount(h, len));
      if s.None? || |s.value| < len then None else Some(s.value[..len])
  }

  // ------------------------------------------------------------------
  // The blocks of the loop
  // ------------------------------------------------------------------

  /** The loop's block `i`: its counter byte is `i` modulo 256, which a `u8` is. */
  function T(h: Hmac, prk: bytes, info: bytes, i: nat): Option<bytes> {
    if i == 0 then Some([])
    else
      var prev := T(h, prk, info, i - 1);
      if prev.None? then None else h.sign(prk, prev.value + info + [i % 256])
  }

  function Stream(h: Hmac, prk: bytes, info: bytes, n: nat): Option<bytes> {
    if n == 0 then Some([])
    else
      var s := Stream(h, prk, info, n - 1);
      var t := T(h, prk, info, n);
      if s.None? || t.None? then None else Some(s.value + t.value)
  }

  /** ceil(len / hashLen). */
  function BlockCount(h: Hmac, len: nat): nat
    requires h.hashLen > 0
  {
    (len + h.hashLen - 1) / h.hashLen
  }

  /** The first `len` bytes of the loop's blocks. */
  function Okm(h: Hmac, prk: bytes, info: bytes, len: nat): Option<bytes>
    requires h.hashLen > 0
  {
    var s := Stream(h, prk, info, BlockCount(h, len));
    if s.None? || |s.value| < len then None else Some(s.value[..len])
  }

  lemma NextMultiple(n: nat, d: nat)
    ensures (n + 1) * d == n * d + d
  {
  }

  lemma {:induction false} StreamLength(h: Hmac, prk: bytes, info: bytes, n: nat)
    requires Valid(h)
    ensures Stream(h, prk, info, n).Some? ==>
              |Stream(h, prk, info, n).value| == n * h.hashLen && T(h, prk, info, n).Some?
  {
    if n > 0 {
      StreamLength(h, prk, info, n - 1);
      NextMultiple(n - 1, h.hashLen);
    }
  }

  lemma {:induction false} StreamPrefix(h: Hmac, prk: bytes, info: bytes, m: nat, n: nat)
    requires m <= n && Stream(h, prk, info, n).Some?
    ensures Stream(h, prk, info, m).Some? && Stream(h, prk, info, m).value <= Stream(h, prk, info, n).value
    decreases n - m
  {
    if m < n { StreamPrefix(h, prk, info, m, n - 1); }
  }

  /** `k` blocks suffice for `len` bytes, and `k - 1` do not: `k` is the block count. */
  lemma BlockCountIs(h: Hmac, len: nat, k: nat)
    requires h.hashLen > 0 && k > 0
    requires (k - 1) * h.hashLen < len <= k * h.hashLen
    ensures BlockCount(h, len) == k
  {
    var r := len - 1 - (k - 1) * h.hashLen;
    assert len + h.hashLen - 1 == k * h.hashLen + r;
    DivModUnique(len + h.hashLen - 1, h.hashLen, k, r);
  }

  lemma BlockCountCovers(h: Hmac, len: nat)
    requires h.hashLen > 0
    ensures len <= BlockCount(h, len) * h.hashLen
  {
    var q := BlockCount(h, len);
    assert len + h.hashLen - 1 == q * h.hashLen + (len + h.hashLen - 1) % h.hashLen;
  }

  lemma QuotientSign(x: int, d: nat)
    requires d > 0 && x * d > 0 - d
    ensures x >= 0
  {
    assert (-x) * d == -(x * d);
    if x < 0 { MulAtLeast(-x, d); }
  }

  lemma DivMonotonic(a: nat, b: nat, d: nat)
    requires d > 0 && a <= b
    ensures a / d <= b / d
  {
    var p, q := a / d, b / d;
    assert (q - p) * d == (b - b % d) - (a - a % d);
    QuotientSign(q - p, d);
  }

  lemma BlockCountMonotonic(h: Hmac, a: nat, b: nat)
    requires h.hashLen > 0 && a <= b
    ensures BlockCount(h, a) <= BlockCount(h, b)
  {
    DivMonotonic(a + h.hashLen - 1, b + h.hashLen - 1, h.hashLen);
  }

  lemma ProductMonotonic(a: nat, b: nat, d: nat)
    requires a <= b
    ensures a * d <= b * d
  {
    assert b * d == (b - a) * d + a * d;
    if a < b { MulAtLeast(b - a, d); }
  }

  lemma BlockCountAtMost(h: Hmac, len: nat, n: nat)
    requires h.hashLen > 0 && len <= n * h.hashLen
    ensures BlockCount(h, len) <= n
  {
    DivMonotonic(len + h.hashLen - 1, n * h.hashLen + (h.hashLen - 1), h.hashLen);
    DivModUnique(n * h.hashLen + (h.hashLen - 1), h.hashLen, n, h.hashLen - 1);
  }

  /** At most `n` blocks exactly when the length is at most `n * hashLen`. */
  lemma BlockCountBound(h: Hmac, len: nat, n: nat)
    requires h.hashLen > 0
    ensures BlockCount(h, len) <= n <==> len <= n * h.hashLen
  {
    if BlockCount(h, len) <= n {
      BlockCountCovers(h, len);
      ProductMonotonic(BlockCount(h, len), n, h.hashLen);
    }
    if len <= n * h.hashLen { BlockCountAtMost(h, len, n); }
  }

  /** Shorter outputs are prefixes of longer ones. */
  lemma OkmPrefix(h: Hmac, prk: bytes, info: bytes, a: nat, b: nat)
    requires Valid(h) && a <= b && Okm(h, prk, info, b).Some?
    ensures Okm(h, prk, info, a).Some?
    ensures Okm(h, prk, info, a).value <= Okm(h, prk, info, b).value
  {
    var m, n := BlockCount(h, a), BlockCount(h, b);
    BlockCountMonotonic(h, a, b);
    BlockCountCovers(h, a);
    StreamPrefix(h, prk, info, m, n);
    StreamLength(h, prk, info, m);
  }

  // ------------------------------------------------------------------
  // The loop
  // ------------------------------------------------------------------

  /** The value of the loop: the bytes of its blocks, except that with overflow checks the counter
      stops it after 255 of them. */
  function Expected(h: Hmac, prk: bytes, info: bytes, len: nat, overflowChecks: bool): Outcome
    requires h.hashLen > 0
  {
    var n := BlockCount(h, len);
    if overflowChecks && n >= 255 then
      if Stream(h, prk, info, 255).None? then HmacFailed else Panicked
    else if Okm(h, prk, info, len).None? then HmacFailed
    else Out(Okm(h, prk, info, len).value)
  }

  /** After `k` blocks: `t` is the last one, and `done` is what has been written. */
  ghost predicate Progress(h: Hmac, prk: bytes, info: bytes, len: nat, k: nat, t: bytes, done: bytes)
    requires h.hashLen > 0
  {
    && (k > 0 ==> (k - 1) * h.hashLen < len)
    && T(h, prk, info, k) == Some(t)
    && Stream(h, prk, info, k).Some?
    && |Stream(h, prk, info, k).value| == k * h.hashLen
    && done == Stream(h, prk, info, k).value[..Min(k * h.hashLen, len)]
  }

  lemma ProgressStep(h: Hmac, prk: bytes, info: bytes, len: nat, k: nat, t: bytes, done: bytes, block: bytes)
    requires Valid(h) && Progress(h, prk, info, len, k, t, done) && k * h.hashLen < len
    requires h.sign(prk, t + info + [(k + 1) % 256]) == Some(block)
    ensures (k + 1) * h.hashLen == k * h.hashLen + h.hashLen && |block| == h.hashLen
    ensures |done| == k * h.hashLen
    ensures Progress(h, prk, info, len, k + 1, block, done + block[..Min(h.hashLen, len - k * h.hashLen)])
  {
    NextMultiple(k, h.hashLen);
    assert T(h, prk, info, k + 1) == Some(block);
    var s := Stream(h, prk, info, k).value;
    assert s[..k * h.hashLen] == s;
    var chunk := Min(h.hashLen, len - k * h.hashLen);
    assert (s + block)[..|s| + chunk] == s + block[..chunk];
  }

  lemma ProgressFails(h: Hmac, prk: bytes, info: bytes, len: nat, k: nat, t: bytes, done: bytes, checks: bool)
    requires Valid(h) && Progress(h, prk, info, len, k, t, done) && k * h.hashLen < len
    requires checks ==> k < 255
    requires h.sign(prk, t + info + [(k + 1) % 256]) == None
    ensures Expected(h, prk, info, len, checks) == HmacFailed
  {
    BlockCountBound(h, len, k);
    forall n | n > k ensures Stream(h, prk, info, n).None? {
      if Stream(h, prk, info, n).Some? { StreamPrefix(h, prk, info, k + 1, n); }
    }
  }

  lemma ProgressPanics(h: Hmac, prk: bytes, info: bytes, len: nat, t: bytes, done: bytes)
    requires Valid(h) && Progress(h, prk, info, len, 255, t, done)
    ensures Expected(h, prk, info, len, true) == Panicked
  {
    BlockCountBound(h, len, 254);
  }

  lemma ProgressEnds(h: Hmac, prk: bytes, info: bytes, len: nat, k: nat, t: bytes, done: bytes, checks: bool)
    requires Valid(h) && Progress(h, prk, info, len, k, t, done) && len <= k * h.hashLen && k > 0
    requires checks ==> k < 255
    ensures Expected(h, prk, info, len, checks) == Out(done)
  {
    BlockCountIs(h, len, k);
  }

  lemma ProgressStarts(h: Hmac, prk: bytes, info: bytes, len: nat)
    requires Valid(h)
    ensures Progress(h, prk, info, len, 0, [], [])
    ensures len == 0 ==> forall checks :: Expected(h, prk, info, len, checks) == Out([])
  {
    assert 0 * h.hashLen == 0;
    if len == 0 {
      DivModUnique(h.hashLen - 1, h.hashLen, 0, h.hashLen - 1);
      assert Okm(h, prk, info, 0) == Some([]);
    }
  }

  /** `i += 1` on a `u8`, when it does not panic. */
  function Incremented(i: byte): byte {
    if i == 255 then 0 else i + 1
  }

  lemma CounterTracks(k: nat)
    ensures Incremented(k % 256) == (k + 1) % 256
  {
  }

  /** `chunk.copy_from_slice(&t[0..chunk.len()])`. */
  method CopyChunk(out: array<byte>, start: nat, block: bytes, chunk: nat)
    requires start + chunk <= out.Length && chunk <= |block|
    modifies out
    ensures out[..start + chunk] == old(out[..start]) + block[..chunk]
  {
    forall j | 0 <= j < chunk { out[start + j] := block[j]; }
    assert forall j :: 0 <= j < start ==> out[j] == old(out[j]);
    assert forall j :: start <= j < start + chunk ==> out[j] == block[j - start];
  }

  /** `Hkdf::expand`: blocks are copied into an output buffer, chunk by chunk, with a `u8`
      counter that is incremented after every block, the last one included. */
  method Expand(h: Hmac, prk: bytes, info: bytes, len: nat, overflowChecks: bool) returns (r: Outcome)
    requires Valid(h)
    ensures r == Expected(h, prk, info, len, overflowChecks)
  {
    ProgressStarts(h, prk, info, len);
    if len == 0 { return Out([]); }
    var out := new byte[len](_ => 0);
    var i: byte, t: bytes, start := 1, [], 0;
    ghost var k := 0;
    while start < len
      invariant start == k * h.hashLen
      invariant Progress(h, prk, info, len, k, t, out[..Min(start, len)])
      invariant i == (k + 1) % 256
      invariant overflowChecks ==> k < 255
      decreases len - start
    {
      var block := h.sign(prk, t + info + [i]);
      if block.None? {
        ProgressFails(h, prk, info, len, k, t, out[..start], overflowChecks);
        return HmacFailed;
      }
      ProgressStep(h, prk, info, len, k, t, out[..start], block.value);
      CounterTracks(k + 1);
      t := block.value;
      CopyChunk(out, start, t, Min(h.hashLen, len - start));
      k := k + 1;
      start := start + h.hashLen;
      if overflowChecks && i == 255 {
        ProgressPanics(h, prk, info, len, t, out[..Min(start, len)]);
        return Panicked;
      }
      i := Incremented(i);
    }
    ProgressEnds(h, prk, info, len, k, t, out[..len], overflowChecks);
    assert out[..len] == out[..];
    r := Out(out[..]);
  }

  // ------------------------------------------------------------------
  // What the loop promises
  // ------------------------------------------------------------------

  function Output(o: Outcome): Option<bytes> {
    if o.Out? then Some(o.okm) else None
  }

  /** The keyed hash never fails. */
  ghost predicate Signs(h: Hmac) {
    forall key, data :: h.sign(key, data).Some?
  }

  lemma {:induction false} RfcBlocks(h: Hmac, prk: bytes, info: bytes, i: nat)
    requires i <= 255
    ensures RfcT(h, prk, info, i) == T(h, prk, info, i)
    ensures RfcStream(h, prk, info, i) == Stream(h, prk, info, i)
  {
    if i > 0 { RfcBlocks(h, prk, info, i - 1); }
  }

  /** Up to 255 blocks the loop's bytes are the RFC's. */
  lemma OkmIsRfc(h: Hmac, prk: bytes, info: bytes, len: nat)
    requires h.hashLen > 0 && len <= 255 * h.hashLen
    ensures Okm(h, prk, info, len) == RfcExpand(h, prk, info, len)
  {
    BlockCountBound(h, len, 255);
    RfcBlocks(h, prk, info, BlockCount(h, len));
  }

  /** With overflow checks the outcome is the RFC's up to 254 blocks; beyond that there is no
      output, although the RFC has one of 255 blocks. */
  lemma CheckedIsRfcIff(h: Hmac, prk: bytes, info: bytes, len: nat)
    requires Valid(h)
    ensures Output(Expected(h, prk, info, len, true)) == RfcExpand(h, prk, info, len)
            <==> len <= 254 * h.hashLen || RfcExpand(h, prk, info, len).None?
    ensures Signs(h) ==> (RfcExpand(h, prk, info, len).None? <==> len > 255 * h.hashLen)
    ensures Signs(h) && len > 254 * h.hashLen ==> Expected(h, prk, info, len, true) == Panicked
  {
    BlockCountBound(h, len, 254);
    if len <= 255 * h.hashLen { OkmIsRfc(h, prk, info, len); }
    if Signs(h) {
      StreamTotal(h, prk, info, 255);
      OkmTotal(h, prk, info, len);
    }
  }

  /** Without checks nothing stops the loop: beyond 255 blocks, where the RFC has an error, it goes
      on with counter byte zero. So its outcome is the RFC's exactly up to 255 blocks. */
  lemma UncheckedIsRfcIff(h: Hmac, prk: bytes, info: bytes, len: nat)
    requires Valid(h)
    ensures len <= 255 * h.hashLen ==> Output(Expected(h, prk, info, len, false)) == RfcExpand(h, prk, info, len)
    ensures Signs(h) ==>
              (Output(Expected(h, prk, info, len, false)) == RfcExpand(h, prk, info, len) <==> len <= 255 * h.hashLen)
    ensures Signs(h) ==>
              Expected(h, prk, info, len, false).Out? && |Expected(h, prk, info, len, false).okm| == len
  {
    if len <= 255 * h.hashLen { OkmIsRfc(h, prk, info, len); }
    if Signs(h) { OkmTotal(h, prk, info, len); }
  }

  lemma OkmTotal(h: Hmac, prk: bytes, info: bytes, len: nat)
    requires Valid(h) && Signs(h)
    ensures Okm(h, prk, info, len).Some?
  {
    StreamTotal(h, prk, info, BlockCount(h, len));
    StreamLength(h, prk, info, BlockCount(h, len));
    BlockCountCovers(h, len);
  }

  lemma {:induction false} StreamTotal(h: Hmac, prk: bytes, info: bytes, n: nat)
    requires Signs(h)
    ensures Stream(h, prk, info, n).Some? && T(h, prk, info, n).Some?
  {
    if n > 0 { StreamTotal(h, prk, info, n - 1); }
  }
}
