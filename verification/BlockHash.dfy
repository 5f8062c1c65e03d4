/** Messages that come in pieces and are hashed in blocks, for any size of block. */
module BlockHash {
  import opened Octets
  import opened Word32

  /** A step for each block of `n` octets, from a state on. */
  function Fold<S>(step: (S, bytes) -> S, s: S, m: bytes, n: nat): S
    requires n >= 1
    decreases |m|
  {
    if |m| < n then s else step(Fold(step, s, m[..|m| - n], n), m[|m| - n..])
  }

  lemma FoldLast<S>(step: (S, bytes) -> S, s: S, m: bytes, block: bytes, n: nat)
    requires |block| == n >= 1
    ensures Fold(step, s, m + block, n) == step(Fold(step, s, m, n), block)
  {
    assert (m + block)[..|m|] == m && (m + block)[|m|..] == block;
  }

  /** The octets in full blocks. */
  function Full(k: nat, n: nat): (r: nat)
    requires n >= 1
    ensures r <= k < r + n
  {
    k - k % n
  }

  lemma FullIs(k: nat, n: nat, f: nat)
    requires n >= 1 && f % n == 0 && f <= k < f + n
    ensures Full(k, n) == f && k % n == k - f
  {
    ModIs(k, n, f / n, k - f);
  }

  lemma FullWhole(k: nat, n: nat)
    requires n >= 1
    ensures Full(k, n) % n == 0
  {
    ModIs(Full(k, n), n, k / n, 0);
  }

  /** The state is the fold over all full blocks, and the buffer starts with the octets left over. */
  ghost predicate Streams<S>(step: (S, bytes) -> S, iv: S, n: nat, s: S, buffer: bytes, m: bytes)
    requires n >= 1
  {
    && s == Fold(step, iv, m[..Full(|m|, n)], n)
    && m[Full(|m|, n)..] <= buffer
  }

  /** A buffer filled up is one more block. */
  lemma StreamsFilled<S>(step: (S, bytes) -> S, iv: S, n: nat, s: S, buffer: bytes, m: bytes, t: bytes)
    requires n >= 1 && Streams(step, iv, n, s, buffer, m) && |buffer| == n && |t| == n - |m| % n
    ensures |m + t| % n == 0
    ensures step(s, buffer[..|m| % n] + t) == Fold(step, iv, m + t, n)
  {
    hide Fold;
    var f := Full(|m|, n);
    FoldLast(step, iv, m[..f], m[f..] + t, n);
    assert buffer[..|m| % n] == m[f..];
    assert m[..f] + (m[f..] + t) == m + t;
    NextMultiple(|m|, n);
  }

  lemma NextMultiple(k: nat, n: nat)
    requires n >= 1
    ensures (k + (n - k % n)) % n == 0
  {
    Distribute(k / n, 1, n);
    ModIs(k + (n - k % n), n, k / n + 1, 0);
  }

  lemma StreamsBlock<S>(step: (S, bytes) -> S, iv: S, n: nat, m: bytes, t: bytes, at: nat)
    requires n >= 1 && at + n <= |t| && (|m| + at) % n == 0
    ensures (|m| + at + n) % n == 0
    ensures step(Fold(step, iv, m + t[..at], n), t[at..at + n]) == Fold(step, iv, m + t[..at + n], n)
  {
    hide Fold;
    NextMultiple(|m| + at, n);
    FoldLast(step, iv, m + t[..at], t[at..at + n], n);
    assert (m + t[..at]) + t[at..at + n] == m + t[..at + n];
  }

  lemma StreamsShort<S>(step: (S, bytes) -> S, iv: S, n: nat, s: S, buffer: bytes, buffer': bytes, m: bytes, t: bytes)
    requires n >= 1 && Streams(step, iv, n, s, buffer, m) && |buffer| == n && |t| < n - |m| % n
    requires buffer[..|m| % n] + t <= buffer'
    ensures Streams(step, iv, n, s, buffer', m + t)
  {
    hide Fold;
    var f := Full(|m|, n);
    FullWhole(|m|, n);
    FullIs(|m + t|, n, f);
    assert (m + t)[..f] == m[..f] && (m + t)[f..] == m[f..] + t;
  }

  lemma StreamsRest<S>(step: (S, bytes) -> S, iv: S, n: nat, s: S, buffer: bytes, m: bytes, t: bytes, at: nat)
    requires n >= 1 && at <= |t| < at + n && (|m| + at) % n == 0
    requires s == Fold(step, iv, m + t[..at], n) && t[at..] <= buffer
    ensures Streams(step, iv, n, s, buffer, m + t)
  {
    hide Fold;
    var f := |m| + at;
    FullIs(|m + t|, n, f);
    assert (m + t)[..f] == m + t[..at] && (m + t)[f..] == t[at..];
  }

  lemma StreamsWhole<S>(step: (S, bytes) -> S, iv: S, n: nat, s: S, buffer: bytes, m: bytes)
    requires n >= 1 && Streams(step, iv, n, s, buffer, m) && |m| % n == 0
    ensures s == Fold(step, iv, m, n)
  {
    hide Fold;
    assert m[..|m|] == m;
  }

  lemma StreamsTail<S>(step: (S, bytes) -> S, iv: S, n: nat, s: S, buffer: bytes, m: bytes)
    requires n >= 1 && Streams(step, iv, n, s, buffer, m)
    ensures s == Fold(step, iv, m[..Full(|m|, n)], n) && m[Full(|m|, n)..] <= buffer
  {
  }
}
