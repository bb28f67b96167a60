/** One bit per physical frame, packed into 64-bit words; a clear bit means free. */
module FrameBitmap {
  import opened Bits
  import opened AddressCodec

  const WORD_BITS: nat := 64
  const ALL_USED: Word := 0xFFFF_FFFF_FFFF_FFFF

  predicate Fits(words: seq<Word>, count: nat) {
    count <= WORD_BITS * |words|
  }

  predicate IsFree(words: seq<Word>, frame: nat)
    requires frame < WORD_BITS * |words|
  {
    !Bit(words[frame / WORD_BITS], frame % WORD_BITS)
  }

  /** The free frames among the first `count`. */
  ghost function FreeFrames(words: seq<Word>, count: nat): set<nat>
    requires Fits(words, count)
  {
    set f: nat | f < count && IsFree(words, f)
  }

  function BitMask(bit: nat): Word { Shl(1, bit) }

  function SetUsed(words: seq<Word>, frame: nat): (r: seq<Word>)
    requires frame < WORD_BITS * |words|
    ensures |r| == |words|
  {
    var w := frame / WORD_BITS;
    OrWord(words[w], BitMask(frame % WORD_BITS));
    words[w := Or(words[w], BitMask(frame % WORD_BITS))]
  }

  function SetFree(words: seq<Word>, frame: nat): (r: seq<Word>)
    requires frame < WORD_BITS * |words|
    ensures |r| == |words|
  {
    var w := frame / WORD_BITS;
    AndBound(words[w], Not(BitMask(frame % WORD_BITS)));
    words[w := And(words[w], Not(BitMask(frame % WORD_BITS)))]
  }

  /** The mask of a bit below 64 is that bit alone. */
  lemma MaskBit(bit: nat, i: nat)
    requires bit < 64 && i < 64
    ensures BitMask(bit) == Pow2(bit)
    ensures Bit(BitMask(bit), i) == (i == bit)
    ensures Bit(Not(BitMask(bit)), i) == (i != bit)
  {
    hide Pow2, Bit;
    Powers();
    PowBelow(bit, 64);
    PowBit(bit, i);
    ComplementBit(BitMask(bit), 64, i);
  }

  lemma OnesBit(i: nat)
    requires i < 64
    ensures Bit(ALL_USED, i)
  {
    Powers();
    ZeroBit(i);
    ComplementBit(0, 64, i);
  }

  lemma UsedBit(w: Word, bit: nat, i: nat)
    requires bit < 64 && i < 64
    ensures Bit(Or(w, BitMask(bit)), i) == (Bit(w, i) || i == bit)
  {
    MaskBit(bit, i);
    OrBit(w, BitMask(bit), i);
  }

  lemma FreeBit(w: Word, bit: nat, i: nat)
    requires bit < 64 && i < 64
    ensures Bit(And(w, Not(BitMask(bit))), i) == (Bit(w, i) && i != bit)
  {
    MaskBit(bit, i);
    AndBit(w, Not(BitMask(bit)), i);
  }

  /** Marking touches one frame. */
  lemma IsFreeAfterUsed(words: seq<Word>, frame: nat, g: nat)
    requires frame < WORD_BITS * |words| && g < WORD_BITS * |words|
    ensures IsFree(SetUsed(words, frame), g) == (IsFree(words, g) && g != frame)
  {
    UsedBit(words[frame / WORD_BITS], frame % WORD_BITS, g % WORD_BITS);
  }

  lemma IsFreeAfterFree(words: seq<Word>, frame: nat, g: nat)
    requires frame < WORD_BITS * |words| && g < WORD_BITS * |words|
    ensures IsFree(SetFree(words, frame), g) == (IsFree(words, g) || g == frame)
  {
    FreeBit(words[frame / WORD_BITS], frame % WORD_BITS, g % WORD_BITS);
  }

  lemma FreeAfterUsed(words: seq<Word>, count: nat, frame: nat)
    requires Fits(words, count) && frame < count
    ensures FreeFrames(SetUsed(words, frame), count) == FreeFrames(words, count) - {frame}
  {
    forall g: nat | g < count ensures IsFree(SetUsed(words, frame), g) == (IsFree(words, g) && g != frame) {
      IsFreeAfterUsed(words, frame, g);
    }
  }

  lemma FreeAfterFree(words: seq<Word>, count: nat, frame: nat)
    requires Fits(words, count) && frame < count
    ensures FreeFrames(SetFree(words, frame), count) == FreeFrames(words, count) + {frame}
  {
    forall g: nat | g < count ensures IsFree(SetFree(words, frame), g) == (IsFree(words, g) || g == frame) {
      IsFreeAfterFree(words, frame, g);
    }
  }

  /** Freeing a frame that was just taken restores the bitmap word for word. */
  lemma UsedThenFree(words: seq<Word>, frame: nat)
    requires frame < WORD_BITS * |words| && IsFree(words, frame)
    ensures SetFree(SetUsed(words, frame), frame) == words
  {
    var w, bit := words[frame / WORD_BITS], frame % WORD_BITS;
    var u := Or(w, BitMask(bit));
    OrWord(w, BitMask(bit));
    var r := And(u, Not(BitMask(bit)));
    AndBound(u, Not(BitMask(bit)));
    Powers();
    forall i: nat | i < 64 ensures Bit(r, i) == Bit(w, i) {
      UsedBit(w, bit, i);
      FreeBit(u, bit, i);
    }
    SameBits(r, w, 64);
  }

  // ---------------------------------------------------------------------------
  // First free bit of a word
  // ---------------------------------------------------------------------------

  /** Number of trailing zero bits. */
  function TrailingZeros(x: nat): nat
    requires x != 0
  {
    if x % 2 == 1 then 0 else 1 + TrailingZeros(x / 2)
  }

  lemma {:induction false} TrailingZerosFirst(x: nat, n: nat)
    requires 0 < x < Pow2(n)
    ensures TrailingZeros(x) < n && Bit(x, TrailingZeros(x))
    ensures forall i: nat :: i < TrailingZeros(x) ==> !Bit(x, i)
  {
    if x % 2 == 0 {
      TrailingZerosFirst(x / 2, n - 1);
      forall i: nat | i < TrailingZeros(x) ensures !Bit(x, i) {
        if i > 0 { assert !Bit(x / 2, i - 1); }
      }
    }
  }

  /** The inverted word's trailing zeros point at the first free bit. */
  lemma FirstFreeBit(w: Word)
    requires w != ALL_USED
    ensures var bit := TrailingZeros(Not(w));
            bit < 64 && !Bit(w, bit) && forall i: nat :: i < bit ==> Bit(w, i)
  {
    Powers();
    TrailingZerosFirst(Not(w), 64);
    var bit := TrailingZeros(Not(w));
    ComplementBit(w, 64, bit);
    forall i: nat | i < bit ensures Bit(w, i) {
      ComplementBit(w, 64, i);
    }
  }
}
