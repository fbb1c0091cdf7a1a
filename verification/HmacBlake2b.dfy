/** HMAC and PBKDF2 over the incremental BLAKE2b, with the HMAC state of the
    password and salt saved and copied for every output block. */
module HmacBlake2b {
  import opened Bytes
  import opened Words
  import B = Blake2b

  // One-shot definitions.

  /** Unkeyed BLAKE2b with 32 bytes of output. */
  function Hash(F: B.Compression, m: seq<Byte>): (h: seq<Byte>)
    ensures |h| == 32
  {
    B.Digest(F, 32, [], m)
  }

  /** Keys longer than the 64-byte pad are hashed first. */
  function ShortKey(F: B.Compression, key: seq<Byte>): (k: seq<Byte>)
    ensures |k| <= 64
  {
    if |key| > 64 then Hash(F, key) else key
  }

  function Pad(key: seq<Byte>, fill: Byte): (p: seq<Byte>)
    requires |key| <= 64
    ensures |p| == 64
  {
    seq(64, i requires 0 <= i < 64 => if i < |key| then Xor8(fill, key[i]) else fill)
  }

  /** Section 2 of RFC 2104, with a 64-byte pad and a 32-byte hash. */
  function Hmac(F: B.Compression, key: seq<Byte>, m: seq<Byte>): (h: seq<Byte>)
    ensures |h| == 32
  {
    var k := ShortKey(F, key);
    Hash(F, Pad(k, 0x5C) + Hash(F, Pad(k, 0x36) + m))
  }

  /** The big-endian code of a 32-bit block index. */
  function Int32(i: nat): (s: seq<Byte>)
    ensures |s| == 4
  {
    BigEndian(i % TWO_32, 4)
  }

  /** Most significant byte first. */
  lemma Int32Value(i: nat)
    ensures FromBig(Int32(i)) == i % TWO_32
  {
    hide BigEndian, FromBig;
    BigReadsBack(i % TWO_32, 4);
    Pow256Four();
    ModUnique(i % TWO_32, TWO_32, 0, i % TWO_32);
  }

  /** The PRF iterate U_j of block i, for j >= 1. */
  function U(F: B.Compression, p: seq<Byte>, s: seq<Byte>, i: nat, j: nat): (u: seq<Byte>)
    requires j >= 1
    ensures |u| == 32
  {
    if j == 1 then Hmac(F, p, s + Int32(i)) else Hmac(F, p, U(F, p, s, i, j - 1))
  }

  function XorSeq(a: seq<Byte>, b: seq<Byte>): (c: seq<Byte>)
    requires |a| == |b|
    ensures |c| == |a|
  {
    seq(|a|, k requires 0 <= k < |a| => Xor8(a[k], b[k]))
  }

  /** The xor of the first c iterates of block i. */
  function T(F: B.Compression, p: seq<Byte>, s: seq<Byte>, c: nat, i: nat): (t: seq<Byte>)
    requires c >= 1
    ensures |t| == 32
  {
    if c == 1 then U(F, p, s, i, 1) else XorSeq(T(F, p, s, c - 1, i), U(F, p, s, i, c))
  }

  /** T_1 || ... || T_l. */
  function Blocks(F: B.Compression, p: seq<Byte>, s: seq<Byte>, c: nat, l: nat): (t: seq<Byte>)
    requires c >= 1
    ensures |t| == 32 * l
  {
    if l == 0 then [] else Blocks(F, p, s, c, l - 1) + T(F, p, s, c, l)
  }

  /** The derived key of section 5.2 of RFC 8018. */
  function DerivedKey(F: B.Compression, p: seq<Byte>, s: seq<Byte>, c: nat, dkLen: nat): (dk: seq<Byte>)
    requires c >= 1
    ensures |dk| == dkLen
  {
    Blocks(F, p, s, c, (dkLen + 31) / 32)[..dkLen]
  }

  lemma Associate(a: seq<Byte>, b: seq<Byte>, c: seq<Byte>)
    ensures a + (b + c) == a + b + c
  {
  }

  class Context {
    const F: B.Compression
    const inner: B.Context
    const outer: B.Context
    ghost var key: seq<Byte>
    ghost var received: seq<Byte>   // message bytes since the last initialization

    ghost predicate Structure()
      reads this, inner, outer
    {
      inner != outer && inner.b != outer.b && inner.F == F && outer.F == F &&
      inner.b.Length == 128 && outer.b.Length == 128
    }

    ghost function Parts(): set<object>
      reads this
    {
      {this, inner, inner.b, outer, outer.b}
    }

    ghost predicate Valid()
      reads Parts()
    {
      Structure() && inner.Valid() && outer.Valid() &&
      inner.outlen == 32 && outer.outlen == 32 &&
      inner.h0 == B.InitialChain(32, 0) && outer.h0 == B.InitialChain(32, 0) &&
      inner.absorbed == Pad(ShortKey(F, key), 0x36) + received &&
      outer.absorbed == Pad(ShortKey(F, key), 0x5C)
    }

    constructor (F: B.Compression)
      ensures Structure() && this.F == F && fresh(Parts())
    {
      this.F := F;
      inner := new B.Context(F);
      outer := new B.Context(F);
    }

    method XorPad(fill: Byte, k: seq<Byte>) returns (pad: array<Byte>)
      requires |k| <= 64
      ensures fresh(pad) && pad[..] == Pad(k, fill)
    {
      pad := new Byte[64];
      Fill(pad, 0, 64, fill);
      assert forall j :: 0 <= j < 64 ==> pad[j] == fill;
      for i := 0 to |k|
        invariant forall j :: 0 <= j < 64 ==> pad[j] == if j < i then Xor8(fill, k[j]) else fill
      {
        pad[i] := Xor8(pad[i], k[i]);
      }
    }

    method Init(key: seq<Byte>)
      requires Structure()
      modifies Parts()
      ensures Valid() && this.key == key && received == []
    {
      hide B.Context.Valid, B.InitialChain, B.HashData, B.OutBytes, Pad;
      var k := key;
      if |key| > 64 {
        var ctx := new B.Context(F);
        var r := ctx.Init(32, []);
        ctx.Update(key);
        assert [] + key == key;
        k := ctx.Final();
      }
      assert k == ShortKey(F, key);
      var ret := inner.Init(32, []);
      var pad := XorPad(0x36, k);
      inner.Update(pad[..]);
      ret := outer.Init(32, []);
      pad := XorPad(0x5C, k);
      outer.Update(pad[..]);
      this.key, received := key, [];
    }

    method Update(data: seq<Byte>)
      requires Valid()
      modifies Parts()
      ensures Valid() && key == old(key) && received == old(received) + data
    {
      hide B.Context.Valid, B.InitialChain, Pad, ShortKey;
      Associate(Pad(ShortKey(F, key), 0x36), received, data);
      inner.Update(data);
      received := received + data;
    }

    method Final() returns (digest: seq<Byte>)
      requires Valid()
      modifies Parts()
      ensures digest == Hmac(F, old(key), old(received))
    {
      hide B.Context.Valid, B.InitialChain, B.HashData, B.OutBytes, Pad;
      var k := ShortKey(F, key);
      var ihash := inner.Final();
      assert [] + (Pad(k, 0x36) + received) == Pad(k, 0x36) + received;
      assert ihash == Hash(F, Pad(k, 0x36) + received);
      outer.Update(ihash);
      assert [] + (Pad(k, 0x5C) + ihash) == Pad(k, 0x5C) + ihash;
      digest := outer.Final();
    }

    method CopyFrom(other: Context)
      requires Structure() && other.Valid() && F == other.F && Parts() !! other.Parts()
      modifies Parts()
      ensures Valid() && key == other.key && received == other.received
    {
      hide B.Context.Valid, B.InitialChain, Pad, ShortKey;
      inner.CopyFrom(other.inner);
      outer.CopyFrom(other.outer);
      key, received := other.key, other.received;
    }
  }

  method HmacHash(F: B.Compression, key: seq<Byte>, input: seq<Byte>) returns (out: seq<Byte>)
    ensures out == Hmac(F, key, input)
  {
    hide Hmac, Context.Valid;
    var hctx := new Context(F);
    hctx.Init(key);
    hctx.Update(input);
    assert [] + input == input;
    out := hctx.Final();
  }

  /** One output block, from the saved state after the password and the salt. */
  method OutputBlock(F: B.Compression, passwd: seq<Byte>, salt: seq<Byte>, c: nat, i: nat, saved: Context, hctx: Context)
    returns (t: seq<Byte>)
    requires c < TWO_64 - 1
    requires saved.Valid() && saved.F == F && saved.key == passwd && saved.received == salt
    requires hctx.Structure() && hctx.F == F && hctx.Parts() !! saved.Parts()
    modifies hctx.Parts()
    ensures hctx.Structure()
    ensures t == T(F, passwd, salt, if c == 0 then 1 else c, i + 1)
  {
    hide Hmac, Context.Valid, Int32;
    hctx.CopyFrom(saved);
    hctx.Update(Int32(i + 1));
    var u := hctx.Final();
    t := u;
    var j := 2;
    while j <= c
      invariant 2 <= j && (j == 2 || j <= c + 1) && hctx.Structure()
      invariant u == U(F, passwd, salt, i + 1, j - 1) && t == T(F, passwd, salt, j - 1, i + 1)
    {
      hctx.Init(passwd);
      hctx.Update(u);
      assert [] + u == u;
      u := hctx.Final();
      t := XorInto(t, u);
      j := j + 1;
    }
  }

  method XorInto(t: seq<Byte>, u: seq<Byte>) returns (r: seq<Byte>)
    requires |t| == |u| == 32
    ensures r == XorSeq(t, u)
  {
    var a := new Byte[32](k requires 0 <= k < 32 => t[k]);
    for k := 0 to 32
      invariant forall j :: 0 <= j < 32 ==> a[j] == if j < k then Xor8(t[j], u[j]) else t[j]
    {
      a[k] := Xor8(a[k], u[k]);
    }
    r := a[..];
  }

  /** For every password, salt and length, the first dkLen bytes of T_1 || T_2 || ...
      are written to buf and nothing else is; an iteration count of zero acts as one. */
  method Pbkdf2(F: B.Compression, passwd: seq<Byte>, salt: seq<Byte>, c: nat, buf: array<Byte>, dkLen: nat)
    requires dkLen <= buf.Length && c < TWO_64 - 1
    modifies buf
    ensures buf[..dkLen] == DerivedKey(F, passwd, salt, if c == 0 then 1 else c, dkLen)
    ensures buf[dkLen..] == old(buf[dkLen..])
  {
    hide Context.Valid, Blocks, T;
    ghost var n := if c == 0 then 1 else c;
    NoBlocks(F, passwd, salt, n);
    var saved := new Context(F);
    saved.Init(passwd);
    saved.Update(salt);
    assert [] + salt == salt;
    var hctx := new Context(F);
    var i := 0;
    while i * 32 < dkLen
      invariant i <= (dkLen + 31) / 32
      invariant fresh(saved.Parts()) && fresh(hctx.Parts())
      invariant saved.Valid() && saved.F == F && saved.key == passwd && saved.received == salt
      invariant hctx.Structure() && hctx.F == F && hctx.Parts() !! saved.Parts()
      invariant buf[..Min(32 * i, dkLen)] == Blocks(F, passwd, salt, n, i)[..Min(32 * i, dkLen)]
      invariant buf[dkLen..] == old(buf[dkLen..])
      decreases dkLen - 32 * i
    {
      var t := OutputBlock(F, passwd, salt, c, i, saved, hctx);
      ghost var end := Min(32 * (i + 1), dkLen);
      MoreBlocks(F, passwd, salt, n, i, t, end - 32 * i);
      PutBlock(buf, dkLen, i, t);
      assert buf[..end] == Blocks(F, passwd, salt, n, i + 1)[..end];
      i := i + 1;
    }
  }

  lemma NoBlocks(F: B.Compression, p: seq<Byte>, s: seq<Byte>, c: nat)
    requires c >= 1
    ensures Blocks(F, p, s, c, 0) == []
  {
  }

  lemma MoreBlocks(F: B.Compression, p: seq<Byte>, s: seq<Byte>, c: nat, i: nat, t: seq<Byte>, len: nat)
    requires c >= 1 && t == T(F, p, s, c, i + 1) && len <= 32
    ensures Blocks(F, p, s, c, i + 1)[..32 * i + len] == Blocks(F, p, s, c, i)[..32 * i] + t[..len]
  {
    hide T;
    var before := Blocks(F, p, s, c, i);
    assert before[..32 * i] == before && (before + t)[..32 * i + len] == before + t[..len];
  }

  /** As much of a block as there is room for. */
  method PutBlock(buf: array<Byte>, dkLen: nat, i: nat, t: seq<Byte>)
    requires i * 32 < dkLen <= buf.Length && |t| == 32
    modifies buf
    ensures var end := Min(32 * (i + 1), dkLen); buf[..end] == old(buf[..32 * i]) + t[..end - 32 * i]
    ensures buf[dkLen..] == old(buf[dkLen..])
  {
    ghost var before := buf[..32 * i];
    var clen := dkLen - i * 32;
    if clen > 32 {
      clen := 32;
    }
    ghost var rest := buf[32 * i + clen..];
    CopyInto(buf, i * 32, t[..clen]);
    Behind(buf[..], before + t[..clen], rest, dkLen);
  }

  lemma Behind(all: seq<Byte>, front: seq<Byte>, rest: seq<Byte>, k: nat)
    requires all == front + rest && |front| <= k <= |all|
    ensures all[k..] == rest[k - |front|..]
  {
  }
}
