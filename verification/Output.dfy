/** The loop that ends a close: words of the chain value go out as bytes. */
module Output {
  import opened Bytes

  function WordBytes(w: nat, size: nat, big: bool): (s: seq<Byte>)
    ensures |s| == size
  {
    if big then BigEndian(w, size) else LittleEndian(w, size)
  }

  /** The first n words of h, each in size bytes. */
  function Written<H>(word: (H, nat) -> nat, h: H, n: nat, size: nat, big: bool): (s: seq<Byte>)
    ensures |s| == n * size
  {
    if n == 0 then []
    else
      assert n * size == (n - 1) * size + size;
      Written(word, h, n - 1, size, big) + WordBytes(word(h, n - 1), size, big)
  }

  method WriteWords<H>(word: (H, nat) -> nat, h: H, n: nat, size: nat, big: bool) returns (out: seq<Byte>)
    ensures out == Written(word, h, n, size, big)
  {
    hide WordBytes;
    out := [];
    for k := 0 to n
      invariant out == Written(word, h, k, size, big)
    {
      out := out + WordBytes(word(h, k), size, big);
    }
  }

  function ReadWord(s: seq<Byte>, big: bool): nat { if big then FromBig(s) else FromLittle(s) }

  lemma WordReadsBack(w: nat, size: nat, big: bool)
    ensures ReadWord(WordBytes(w, size, big), big) == w % Pow256(size)
  {
    hide BigEndian, LittleEndian;
    BigReadsBack(w, size);
    LittleReadsBack(w, size);
  }

  /** Every word can be read back from its place in the output. */
  lemma {:induction false} OutputReadsBack<H>(word: (H, nat) -> nat, h: H, n: nat, size: nat, big: bool, k: nat)
    requires k < n
    ensures k * size + size <= n * size
    ensures ReadWord(Written(word, h, n, size, big)[k * size..k * size + size], big) == word(h, k) % Pow256(size)
  {
    hide WordBytes, ReadWord;
    var before, last := Written(word, h, n - 1, size, big), WordBytes(word(h, n - 1), size, big);
    assert n * size == (n - 1) * size + size;
    if k == n - 1 {
      WordReadsBack(word(h, k), size, big);
      assert (before + last)[k * size..k * size + size] == last;
    } else {
      OutputReadsBack(word, h, n - 1, size, big, k);
      assert (before + last)[k * size..k * size + size] == before[k * size..k * size + size];
    }
  }

  /** A shorter output is the beginning of a longer one. */
  lemma {:induction false} ShorterIsPrefix<H>(word: (H, nat) -> nat, h: H, n: nat, more: nat, size: nat, big: bool)
    requires n <= more
    ensures Written(word, h, n, size, big) <= Written(word, h, more, size, big)
    decreases more
  {
    hide WordBytes;
    if n < more {
      ShorterIsPrefix(word, h, n, more - 1, size, big);
    }
  }
}
