/** Left folds of a compression step over the fixed-size blocks of a message:
    the one-shot definitions that the incremental hashes are proved against. */
module Blocks {
  import opened Bytes

  /** State after all blocks of m, the last one ending where m ends. The step
      also receives the offset of the block. */
  function Fold<S>(f: (S, nat, seq<Byte>) -> S, s: S, m: seq<Byte>, size: nat): S
    requires size > 0
    decreases |m|
  {
    if |m| < size then s
    else
      var d := |m| - size;
      f(Fold(f, s, m[..d], size), d, m[d..])
  }

  lemma FoldNothing<S>(f: (S, nat, seq<Byte>) -> S, s: S, size: nat)
    requires size > 0
    ensures Fold(f, s, [], size) == s
  {
  }

  lemma FoldSnoc<S>(f: (S, nat, seq<Byte>) -> S, s: S, m: seq<Byte>, block: seq<Byte>, size: nat)
    requires size > 0 && |block| == size
    ensures Fold(f, s, m + block, size) == f(Fold(f, s, m, size), |m|, block)
  {
    assert (m + block)[..|m|] == m && (m + block)[|m|..] == block;
  }

  lemma FoldOne<S>(f: (S, nat, seq<Byte>) -> S, s: S, block: seq<Byte>, size: nat)
    requires size > 0 && |block| == size
    ensures Fold(f, s, block, size) == f(s, 0, block)
  {
    assert [] + block == block;
    FoldSnoc(f, s, [], block, size);
  }

  /** Steps that agree on every block inside m fold alike. */
  lemma {:induction false} FoldAgree<S>(f: (S, nat, seq<Byte>) -> S, g: (S, nat, seq<Byte>) -> S, s: S, m: seq<Byte>, size: nat)
    requires size > 0
    requires forall t: S, d: nat, b: seq<Byte> | d + size <= |m| :: f(t, d, b) == g(t, d, b)
    ensures Fold(f, s, m, size) == Fold(g, s, m, size)
    decreases |m|
  {
    if size <= |m| {
      FoldAgree(f, g, s, m[..|m| - size], size);
    }
  }

  /** A context that has received m: s is the fold over its whole blocks, buf
      the bytes that are left. */
  ghost predicate Buffered<S>(f: (S, nat, seq<Byte>) -> S, s0: S, m: seq<Byte>, s: S, buf: seq<Byte>, size: nat)
    requires size > 0
  {
    var k := |m| - |buf|;
    0 <= k && |buf| < size && buf == m[k..] && s == Fold(f, s0, m[..k], size)
  }

  lemma BufferedStart<S>(f: (S, nat, seq<Byte>) -> S, s0: S, size: nat)
    requires size > 0
    ensures Buffered(f, s0, [], s0, [], size)
  {
  }

  lemma BufferedMore<S>(f: (S, nat, seq<Byte>) -> S, s0: S, m: seq<Byte>, s: S, buf: seq<Byte>, size: nat, data: seq<Byte>)
    requires size > 0 && Buffered(f, s0, m, s, buf, size) && |buf| + |data| < size
    ensures Buffered(f, s0, m + data, s, buf + data, size)
  {
    var k := |m| - |buf|;
    assert (m + data)[..k] == m[..k];
  }

  lemma BufferedFull<S>(f: (S, nat, seq<Byte>) -> S, s0: S, m: seq<Byte>, s: S, buf: seq<Byte>, size: nat, data: seq<Byte>)
    requires size > 0 && Buffered(f, s0, m, s, buf, size) && |buf| + |data| == size
    ensures Buffered(f, s0, m + data, f(s, |m| - |buf|, buf + data), [], size)
  {
    var k := |m| - |buf|;
    FoldSnoc(f, s0, m[..k], buf + data, size);
    assert m[..k] + (buf + data) == m + data == (m + data)[..|m + data|];
  }

  /** Folding what completes the last block, and any block after it. */
  lemma BufferedFold<S>(f: (S, nat, seq<Byte>) -> S, s0: S, m: seq<Byte>, s: S, buf: seq<Byte>, size: nat, data: seq<Byte>)
    requires size > 0 && Buffered(f, s0, m, s, buf, size) && |buf| + |data| == size
    ensures Fold(f, s0, m + data, size) == f(s, |m| - |buf|, buf + data)
  {
    BufferedFull(f, s0, m, s, buf, size, data);
    assert (m + data)[..|m + data|] == m + data;
  }
}
