/**
 Bitmaps stored in bytes (lib/bitmap.c, include/bitmap.h): the bit setter and
 getter that work on bytes, and the first-zero search that works on 32-bit words.
 */
module Bitmap {

  /** Row 1 of the mask table: the byte with only bit `k` set. */
  function SetMask(k: nat): (m: bv8)
    requires k < 8
  {
    if k == 0 then 0x01 else if k == 1 then 0x02 else if k == 2 then 0x04 else if k == 3 then 0x08
    else if k == 4 then 0x10 else if k == 5 then 0x20 else if k == 6 then 0x40 else 0x80
  }

  /** Row 0 of the mask table: the byte with only bit `k` clear. */
  function ClearMask(k: nat): (m: bv8)
    requires k < 8
  {
    if k == 0 then 0xFE else if k == 1 then 0xFD else if k == 2 then 0xFB else if k == 3 then 0xF7
    else if k == 4 then 0xEF else if k == 5 then 0xDF else if k == 6 then 0xBF else 0x7F
  }

  /** Bit `k` of one byte. */
  predicate ByteBit(b: bv8, k: nat)
    requires k < 8
  {
    b & SetMask(k) != 0
  }

  /** Bit `i` of the bitmap, as BmapGetBit reads it. */
  predicate Bit(s: seq<bv8>, i: nat)
    requires i / 8 < |s|
  {
    ByteBit(s[i / 8], i % 8)
  }

  /** The bitmap after BmapSetBit. */
  function WithBit(s: seq<bv8>, i: nat, value: bool): (r: seq<bv8>)
    requires i / 8 < |s|
    ensures |r| == |s|
  {
    var b := s[i / 8];
    s[i / 8 := if value then b | SetMask(i % 8) else b & ClearMask(i % 8)]
  }

  /** The setter's mask table and the getter's shift agree: bit `i` is bit i % 8, counted from the lowest,
      of byte i / 8. */
  lemma BitIsShift(s: seq<bv8>, i: nat)
    requires i / 8 < |s|
    ensures Bit(s, i) <==> (s[i / 8] >> (i % 8)) & 1 == 1
  {
    ByteBitIsShift(s[i / 8], i % 8);
  }

  lemma ByteBitIsShift(b: bv8, k: nat)
    requires k < 8
    ensures ByteBit(b, k) <==> (b >> k) & 1 == 1
  {
    if k == 0 {
    } else if k == 1 {
    } else if k == 2 {
    } else if k == 3 {
    } else if k == 4 {
    } else if k == 5 {
    } else if k == 6 {
    } else {
    }
  }

  lemma MasksAreDisjoint(k: nat, j: nat)
    requires k < 8 && j < 8
    ensures ClearMask(k) == !SetMask(k)
    ensures SetMask(k) != 0
    ensures k != j ==> SetMask(k) & SetMask(j) == 0
  {
  }

  lemma BitwiseLaws(b: bv8, m: bv8, n: bv8)
    ensures m & n == 0 ==> (b | m) & n == b & n && (b & !m) & n == b & n
    ensures (b | m) & m == m && (b & !m) & m == 0
  {
  }

  lemma ByteLaw(b: bv8, k: nat, value: bool, l: nat)
    requires k < 8 && l < 8
    ensures ByteBit(if value then b | SetMask(k) else b & ClearMask(k), l) == if k == l then value else ByteBit(b, l)
  {
    hide SetMask, ClearMask;
    MasksAreDisjoint(k, l);
    BitwiseLaws(b, SetMask(k), SetMask(l));
  }

  /** Writing one bit changes that bit and no other one. */
  lemma WithBitLaw(s: seq<bv8>, i: nat, value: bool, j: nat)
    requires i / 8 < |s| && j / 8 < |s|
    ensures Bit(WithBit(s, i, value), j) == if i == j then value else Bit(s, j)
  {
    hide SetMask, ClearMask, ByteBit;
    assert i == 8 * (i / 8) + i % 8 && j == 8 * (j / 8) + j % 8;
    if i / 8 == j / 8 {
      ByteLaw(s[i / 8], i % 8, value, j % 8);
    }
  }

  /** Clearing a bit that has just been set gives the old bitmap back. */
  lemma ClearUndoesSet(s: seq<bv8>, i: nat)
    requires i / 8 < |s| && !Bit(s, i)
    ensures WithBit(WithBit(s, i, true), i, false) == s
  {
    MasksAreDisjoint(i % 8, i % 8);
    SetThenClear(s[i / 8], SetMask(i % 8));
  }

  lemma SetThenClear(b: bv8, m: bv8)
    ensures b & m == 0 ==> (b | m) & !m == b
  {
  }

  /** One step of the scasl loop: does the 32-bit word at bytes 4w .. 4w+3 equal -1? */
  predicate WordIsFull(s: seq<bv8>, w: nat)
    requires 4 * w + 3 < |s|
  {
    s[4 * w] == 0xFF && s[4 * w + 1] == 0xFF && s[4 * w + 2] == 0xFF && s[4 * w + 3] == 0xFF
  }

  lemma FullByte(b: bv8)
    ensures b == 0xFF <==>
            && ByteBit(b, 0) && ByteBit(b, 1) && ByteBit(b, 2) && ByteBit(b, 3)
            && ByteBit(b, 4) && ByteBit(b, 5) && ByteBit(b, 6) && ByteBit(b, 7)
  {
  }

  lemma FullByteBits(b: bv8)
    ensures b == 0xFF <==> forall k: nat :: k < 8 ==> ByteBit(b, k)
  {
    FullByte(b);
  }

  lemma BitOfByte(s: seq<bv8>, q: nat, k: nat)
    requires q < |s| && k < 8
    ensures Bit(s, 8 * q + k) == ByteBit(s[q], k)
  {
  }

  /** A word equals -1 exactly when its 32 bits are set. */
  lemma WordBits(s: seq<bv8>, w: nat)
    requires 4 * w + 3 < |s|
    ensures WordIsFull(s, w) <==> forall j: nat :: 32 * w <= j < 32 * w + 32 ==> Bit(s, j)
  {
    FullByteBits(s[4 * w]); FullByteBits(s[4 * w + 1]); FullByteBits(s[4 * w + 2]); FullByteBits(s[4 * w + 3]);
    if forall j: nat :: 32 * w <= j < 32 * w + 32 ==> Bit(s, j) {
      forall q, k | 4 * w <= q < 4 * w + 4 && 0 <= k < 8
        ensures ByteBit(s[q], k)
      {
        BitOfByte(s, q, k);
      }
    }
  }

  /** BitFindFirstZero: scan whole words for one that is not all ones, then scan that word.
      The scan covers the words that hold `size` bits, so the answer can lie in the padding. */
  method FindFirstZero(s: seq<bv8>, size: nat) returns (r: nat)
    requires 4 * ((size + 31) / 32) <= |s|
    ensures r <= 32 * ((size + 31) / 32)
    ensures forall j: nat :: j < r ==> Bit(s, j)
    ensures r < 32 * ((size + 31) / 32) ==> !Bit(s, r)
  {
    if size == 0 {
      return 0;
    }
    var words := (size + 31) / 32;
    var w := 0;
    while w < words && WordIsFull(s, w)
      invariant w <= words
      invariant forall j: nat :: j < 32 * w ==> Bit(s, j)
    {
      WordBits(s, w);
      w := w + 1;
    }
    if w == words {
      return 32 * words;
    }
    WordBits(s, w);
    r := 32 * w;
    while Bit(s, r)
      invariant 32 * w <= r < 32 * w + 32
      invariant forall j: nat :: j < r ==> Bit(s, j)
      decreases 32 * w + 32 - r
    {
      r := r + 1;
    }
  }
}
