/** 64-bit machine words, page-aligned addresses and the bytes of a word. The bit fields of a
    word are written as quotients and remainders by powers of two. */
module Words {
  const TWO_64: nat := 0x1_0000_0000_0000_0000

  type Word = w: nat | w < 0x1_0000_0000_0000_0000
  type Byte = b: nat | b < 256

  /** Rounds up to a page boundary in 64-bit arithmetic: the addition wraps. */
  function PageAlignUp(x: nat): nat {
    (x + 4095) % TWO_64 / 4096 * 4096
  }

  lemma PageAlignUpExact(x: nat)
    requires x + 4095 < TWO_64
    ensures PageAlignUp(x) % 4096 == 0 && x <= PageAlignUp(x) < x + 4096
  {
  }

  // ---- the eight bytes of a word, least significant first ----

  function GetByte(w: nat, k: nat): Byte {
    if k == 0 then w % 256 else GetByte(w / 256, k - 1)
  }

  function PutByte(w: nat, k: nat, b: Byte): nat {
    if k == 0 then w / 256 * 256 + b else PutByte(w / 256, k - 1, b) * 256 + w % 256
  }

  /** Stores one byte of a word. */
  function SetByte(w: Word, k: nat, b: Byte): Word
    requires k < 8
  {
    PutByteBound(w, k, b, 8);
    PutByte(w, k, b)
  }

  function Pow256(n: nat): nat {
    if n == 0 then 1 else 256 * Pow256(n - 1)
  }

  lemma Digits(high: nat, low: Byte)
    ensures (high * 256 + low) / 256 == high && (high * 256 + low) % 256 == low
  {
  }

  lemma {:induction false} PutByteBound(w: nat, k: nat, b: Byte, n: nat)
    requires k < n && w < Pow256(n)
    ensures PutByte(w, k, b) < Pow256(n)
  {
    var h := w / 256;
    assert w == h * 256 + w % 256;
    assert h < Pow256(n - 1);
    if k > 0 {
      PutByteBound(h, k - 1, b, n - 1);
    }
  }

  /** A byte store changes the byte it names and no other byte of the word. */
  lemma {:induction false} PutGetByte(w: nat, k: nat, b: Byte, j: nat)
    ensures GetByte(PutByte(w, k, b), j) == if j == k then b else GetByte(w, j)
  {
    if k == 0 {
      Digits(w / 256, b);
    } else {
      Digits(PutByte(w / 256, k - 1, b), w % 256);
      if j > 0 {
        PutGetByte(w / 256, k - 1, b, j - 1);
      }
    }
  }
}
