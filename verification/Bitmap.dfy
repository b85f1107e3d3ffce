/** A fixed-size array of bits kept in bytes, as the swap map uses it.

    Source: kern/lib/bitmap.c. */
module Bitmap {
  import opened Common

  const BITS_PER_WORD := 8
  const WORD_ALLBITS: bv8 := 0xff

  /** The mask bitmap_translate computes for a bit of a word. */
  function Mask(offset: nat): bv8
    requires offset < BITS_PER_WORD
  {
    (1 as bv8) << offset
  }

  predicate Bit(w: bv8, offset: nat)
    requires offset < BITS_PER_WORD
  {
    w & Mask(offset) != 0
  }

  lemma MaskValues()
    ensures Mask(0) == 1 && Mask(1) == 2 && Mask(2) == 4 && Mask(3) == 8
    ensures Mask(4) == 16 && Mask(5) == 32 && Mask(6) == 64 && Mask(7) == 128
  {
  }

  lemma MaskIsOneBit(o: nat)
    requires o < BITS_PER_WORD
    ensures OneBit(Mask(o))
  {
    MaskValues();
  }

  lemma MasksDiffer(o: nat, p: nat)
    requires o < BITS_PER_WORD && p < BITS_PER_WORD
    ensures Mask(o) == Mask(p) <==> o == p
  {
    MaskValues();
  }

  /** Or with a mask sets that bit. */
  lemma MaskSets(w: bv8, o: nat, p: nat)
    requires o < BITS_PER_WORD && p < BITS_PER_WORD
    ensures Bit(w | Mask(o), p) <==> o == p || Bit(w, p)
  {
    MaskIsOneBit(o);
    MaskIsOneBit(p);
    MasksDiffer(o, p);
    OrOne(w, Mask(o), Mask(p));
  }

  /** And with its complement clears it. */
  lemma MaskClears(w: bv8, o: nat, p: nat)
    requires o < BITS_PER_WORD && p < BITS_PER_WORD
    ensures Bit(w & !Mask(o), p) <==> o != p && Bit(w, p)
  {
    MaskIsOneBit(o);
    MaskIsOneBit(p);
    MasksDiffer(o, p);
    AndNotOne(w, Mask(o), Mask(p));
  }

  predicate OneBit(m: bv8) { m in {1, 2, 4, 8, 16, 32, 64, 128} }

  lemma OrOne(w: bv8, m: bv8, n: bv8)
    requires OneBit(m) && OneBit(n)
    ensures (w | m) & n != 0 <==> m == n || w & n != 0
  {
  }

  lemma AndNotOne(w: bv8, m: bv8, n: bv8)
    requires OneBit(m) && OneBit(n)
    ensures (w & !m) & n != 0 <==> m != n && w & n != 0
  {
  }

  /** A word is all ones exactly when each of its bits is set. */
  lemma AllBits(w: bv8)
    ensures w == WORD_ALLBITS <==> forall p :: 0 <= p < BITS_PER_WORD ==> Bit(w, p)
  {
    MaskValues();
    if forall p :: 0 <= p < BITS_PER_WORD ==> Bit(w, p) {
      assert Bit(w, 0) && Bit(w, 1) && Bit(w, 2) && Bit(w, 3) && Bit(w, 4) && Bit(w, 5) && Bit(w, 6) && Bit(w, 7);
    }
  }

  /** The index bitmap_alloc picks: the first clear bit from i on. */
  function FirstClear(bits: seq<bool>, i: nat): (r: Option<nat>)
    requires i <= |bits|
    ensures r.Some? ==> i <= r.value < |bits| && !bits[r.value]
    ensures forall k :: i <= k < (if r.Some? then r.value else |bits|) ==> bits[k]
    decreases |bits| - i
  {
    if i == |bits| then None else if !bits[i] then Some(i) else FirstClear(bits, i + 1)
  }

  function BitAt(ws: seq<bv8>, i: nat): bool
    requires i < BITS_PER_WORD * |ws|
  {
    Bit(ws[i / BITS_PER_WORD], i % BITS_PER_WORD)
  }

  function BitsOf(ws: seq<bv8>, nbits: nat): (r: seq<bool>)
    requires nbits <= BITS_PER_WORD * |ws|
    ensures |r| == nbits && forall i :: 0 <= i < nbits ==> r[i] == BitAt(ws, i)
  {
    seq(nbits, i requires 0 <= i < nbits => BitAt(ws, i))
  }

  /** A word after one bit is set, or cleared. */
  function SetMask(w: bv8, o: nat, on: bool): bv8
    requires o < BITS_PER_WORD
  {
    if on then w | Mask(o) else w & !Mask(o)
  }

  lemma SetMaskBit(w: bv8, o: nat, on: bool, p: nat)
    requires o < BITS_PER_WORD && p < BITS_PER_WORD
    ensures Bit(SetMask(w, o, on), p) == if o == p then on else Bit(w, p)
  {
    if on { MaskSets(w, o, p); } else { MaskClears(w, o, p); }
  }

  /** The words after one bit is set, or cleared. */
  function WithBit(ws: seq<bv8>, i: nat, on: bool): (r: seq<bv8>)
    requires i < BITS_PER_WORD * |ws|
    ensures |r| == |ws|
  {
    var ix := i / BITS_PER_WORD;
    ws[ix := SetMask(ws[ix], i % BITS_PER_WORD, on)]
  }

  /** Setting or clearing one bit changes that bit alone. */
  lemma WriteBit(ws: seq<bv8>, i: nat, on: bool, j: nat)
    requires i < BITS_PER_WORD * |ws| && j < BITS_PER_WORD * |ws|
    ensures BitAt(WithBit(ws, i, on), j) == if i == j then on else BitAt(ws, j)
  {
    var ix, jx := i / BITS_PER_WORD, j / BITS_PER_WORD;
    SameIndex(i, j);
    if ix == jx {
      SetMaskBit(ws[ix], i % BITS_PER_WORD, on, j % BITS_PER_WORD);
    } else {
      assert WithBit(ws, i, on)[jx] == ws[jx];
    }
  }

  lemma SameIndex(i: nat, j: nat)
    ensures i == j <==> i / BITS_PER_WORD == j / BITS_PER_WORD && i % BITS_PER_WORD == j % BITS_PER_WORD
  {
  }

  lemma NoBits()
    ensures forall p :: 0 <= p < BITS_PER_WORD ==> !Bit(0, p)
  {
  }

  lemma SetBits(w: bv8, o: nat)
    requires o < BITS_PER_WORD
    ensures forall p :: 0 <= p < BITS_PER_WORD ==> (Bit(w | Mask(o), p) <==> o == p || Bit(w, p))
  {
    forall p | 0 <= p < BITS_PER_WORD ensures Bit(w | Mask(o), p) <==> o == p || Bit(w, p) {
      MaskSets(w, o, p);
    }
  }

  predicate OnesFrom(w: bv8, o: nat) {
    forall p :: 0 <= p < BITS_PER_WORD ==> (Bit(w, p) <==> o <= p)
  }

  /** Words that are zero but for the bits past nbits. */
  lemma TailMarked(ws: seq<bv8>, nbits: nat)
    requires |ws| == (nbits + BITS_PER_WORD - 1) / BITS_PER_WORD
    requires forall k :: 0 <= k < nbits / BITS_PER_WORD ==> ws[k] == 0
    requires |ws| > nbits / BITS_PER_WORD ==> OnesFrom(ws[|ws| - 1], nbits % BITS_PER_WORD)
    ensures forall i :: 0 <= i < BITS_PER_WORD * |ws| ==> (BitAt(ws, i) <==> nbits <= i)
  {
    NoBits();
    forall i | 0 <= i < BITS_PER_WORD * |ws| ensures BitAt(ws, i) <==> nbits <= i {
      var ix, p := i / BITS_PER_WORD, i % BITS_PER_WORD;
      if ix < nbits / BITS_PER_WORD { assert ws[ix] == 0; } else { assert ix == |ws| - 1; }
    }
  }

  /** The inner loop of bitmap_alloc: the lowest clear bit of a word. */
  method ClearOffset(w: bv8) returns (offset: nat)
    requires w != WORD_ALLBITS
    ensures offset < BITS_PER_WORD && !Bit(w, offset) && forall p :: 0 <= p < offset ==> Bit(w, p)
  {
    AllBits(w);
    offset := 0;
    while w & Mask(offset) != 0
      invariant offset < BITS_PER_WORD && forall p :: 0 <= p < offset ==> Bit(w, p)
      decreases BITS_PER_WORD - offset
    {
      assert Bit(w, offset);
      offset := offset + 1;
    }
  }

  lemma FullWord(ws: seq<bv8>, ix: nat)
    requires ix < |ws| && ws[ix] == WORD_ALLBITS
    ensures forall i :: BITS_PER_WORD * ix <= i < BITS_PER_WORD * (ix + 1) ==> BitAt(ws, i)
  {
    AllBits(ws[ix]);
    forall i | BITS_PER_WORD * ix <= i < BITS_PER_WORD * (ix + 1) ensures BitAt(ws, i) {
      assert i / BITS_PER_WORD == ix;
    }
  }

  lemma LeastClear(ws: seq<bv8>, ix: nat, offset: nat)
    requires ix < |ws| && offset < BITS_PER_WORD && !Bit(ws[ix], offset)
    requires forall p :: 0 <= p < offset ==> Bit(ws[ix], p)
    requires forall i :: 0 <= i < BITS_PER_WORD * ix ==> BitAt(ws, i)
    ensures !BitAt(ws, ix * BITS_PER_WORD + offset)
    ensures forall i :: 0 <= i < ix * BITS_PER_WORD + offset ==> BitAt(ws, i)
  {
    forall i | BITS_PER_WORD * ix <= i < ix * BITS_PER_WORD + offset ensures BitAt(ws, i) {
      assert i / BITS_PER_WORD == ix && i % BITS_PER_WORD == i - BITS_PER_WORD * ix;
    }
  }

  class BitArray {
    const nbits: nat
    const v: array<bv8>

    /** The words cover nbits, and the bits past the end are marked in use. */
    ghost predicate Valid()
      reads v
    {
      && v.Length == (nbits + BITS_PER_WORD - 1) / BITS_PER_WORD
      && forall i :: nbits <= i < BITS_PER_WORD * v.Length ==> BitAt(v[..], i)
    }

    ghost function Bits(): seq<bool>
      requires Valid()
      reads v
    {
      BitsOf(v[..], nbits)
    }

    /** bitmap_create. */
    constructor (nbits: nat)
      ensures this.nbits == nbits && fresh(v) && Valid()
      ensures forall i :: 0 <= i < nbits ==> !Bits()[i]
    {
      var words := (nbits + BITS_PER_WORD - 1) / BITS_PER_WORD;
      this.nbits := nbits;
      v := new bv8[words](_ => 0);
      new;
      if words > nbits / BITS_PER_WORD {
        var ix := words - 1;
        var overbits := nbits - ix * BITS_PER_WORD;
        var j := overbits;
        NoBits();
        while j < BITS_PER_WORD
          invariant overbits <= j <= BITS_PER_WORD
          invariant forall k :: 0 <= k < ix ==> v[k] == 0
          invariant forall p :: 0 <= p < BITS_PER_WORD ==> (Bit(v[ix], p) <==> overbits <= p < j)
        {
          var was := v[ix];
          SetBits(was, j);
          v[ix] := was | Mask(j);
          assert forall p :: 0 <= p < BITS_PER_WORD ==> (Bit(v[ix], p) <==> j == p || Bit(was, p));
          j := j + 1;
        }
      }
      TailMarked(v[..], nbits);
    }

    /** bitmap_create: NULL if kmalloc finds no room for the structure or for the words. */
    static method Create(nbits: nat, room: bool) returns (b: BitArray?)
      ensures b != null <==> room
      ensures b != null ==> fresh(b) && fresh(b.v) && b.nbits == nbits && b.Valid()
      ensures b != null ==> forall i :: 0 <= i < nbits ==> !b.Bits()[i]
    {
      b := null;
      if room {
        b := new BitArray(nbits);
      }
    }

    /** bitmap_alloc: take the least clear bit, or report that there is none. */
    method Alloc() returns (r: Option<nat>)
      requires Valid()
      modifies v
      ensures Valid() && r == FirstClear(old(Bits()), 0)
      ensures Bits() == if r.Some? then old(Bits())[r.value := true] else old(Bits())
    {
      var ix := 0;
      while ix < v.Length
        invariant 0 <= ix <= v.Length && v[..] == old(v[..])
        invariant forall i :: 0 <= i < BITS_PER_WORD * ix ==> BitAt(v[..], i)
      {
        if v[ix] != WORD_ALLBITS {
          var offset := ClearOffset(v[ix]);
          var index := ix * BITS_PER_WORD + offset;
          LeastClear(v[..], ix, offset);
          TakenBit(v[..], nbits, index);
          TakeBit(index);
          return Some(index);
        }
        FullWord(v[..], ix);
        ix := ix + 1;
      }
      assert forall i :: 0 <= i < nbits ==> Bits()[i];
      r := None;
    }

    /** The word of a bit, or-ed with its mask. */
    method TakeBit(index: nat)
      requires Valid() && index < nbits
      modifies v
      ensures Valid() && Bits() == old(Bits())[index := true]
    {
      var ix := index / BITS_PER_WORD;
      v[ix] := v[ix] | Mask(index % BITS_PER_WORD);
      assert v[..] == WithBit(old(v[..]), index, true);
      WriteBits(old(v[..]), nbits, index, true);
    }

    /** bitmap_mark. */
    method Mark(index: nat)
      requires Valid() && index < nbits && !Bits()[index]
      modifies v
      ensures Valid() && Bits() == old(Bits())[index := true]
    {
      TakeBit(index);
    }

    /** bitmap_unmark. */
    method Unmark(index: nat)
      requires Valid() && index < nbits && Bits()[index]
      modifies v
      ensures Valid() && Bits() == old(Bits())[index := false]
    {
      var ix := index / BITS_PER_WORD;
      v[ix] := v[ix] & !Mask(index % BITS_PER_WORD);
      assert v[..] == WithBit(old(v[..]), index, false);
      WriteBits(old(v[..]), nbits, index, false);
    }

    /** bitmap_isset. */
    method IsSet(index: nat) returns (r: bool)
      requires Valid() && index < nbits
      ensures r == Bits()[index]
    {
      r := v[index / BITS_PER_WORD] & Mask(index % BITS_PER_WORD) != 0;
    }
  }

  lemma WriteBits(ws: seq<bv8>, nbits: nat, index: nat, on: bool)
    requires index < nbits <= BITS_PER_WORD * |ws|
    ensures var r := WithBit(ws, index, on);
            && BitsOf(r, nbits) == BitsOf(ws, nbits)[index := on]
            && forall j :: nbits <= j < BITS_PER_WORD * |ws| ==> BitAt(r, j) == BitAt(ws, j)
  {
    forall j | 0 <= j < BITS_PER_WORD * |ws|
      ensures BitAt(WithBit(ws, index, on), j) == if index == j then on else BitAt(ws, j)
    {
      WriteBit(ws, index, on, j);
    }
  }

  /** A clear bit with only set bits before it is the one FirstClear finds, and
      lies below nbits when the bits past the end are set. */
  lemma TakenBit(ws: seq<bv8>, nbits: nat, index: nat)
    requires nbits <= BITS_PER_WORD * |ws| && index < BITS_PER_WORD * |ws|
    requires forall i :: nbits <= i < BITS_PER_WORD * |ws| ==> BitAt(ws, i)
    requires !BitAt(ws, index) && forall i :: 0 <= i < index ==> BitAt(ws, i)
    ensures index < nbits && FirstClear(BitsOf(ws, nbits), 0) == Some(index)
  {
  }
}
