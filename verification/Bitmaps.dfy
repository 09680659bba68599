/**
 The bitmap of swap slots: words of 32 bits, the last one filled up with bits that are in use
 from the start. It refines the set of the indices in use.
 */
module Bitmaps {

  const BITS_PER_WORD: nat := 32

  /** A word, as its bits from the least significant one on. */
  type Word = w: seq<bool> | |w| == 32 witness seq(32, _ => false)

  function WordsFor(nbits: nat): (words: nat) {
    (nbits + BITS_PER_WORD - 1) / BITS_PER_WORD
  }

  predicate Full(w: Word) {
    forall b | 0 <= b < BITS_PER_WORD :: w[b]
  }

  /** Bit b of the whole bitmap. */
  predicate Bit(words: seq<Word>, b: nat)
    requires b < |words| * BITS_PER_WORD
  {
    words[b / BITS_PER_WORD][b % BITS_PER_WORD]
  }

  class Bitmap {
    const nbits: nat
    const v: array<Word>

    /** The bits past the end are in use. */
    ghost predicate Valid()
      reads v
    {
      && v.Length == WordsFor(nbits)
      && forall b | nbits <= b < v.Length * BITS_PER_WORD :: Bit(v[..], b)
    }

    /** The indices in use. */
    ghost function Used(): (s: set<nat>)
      requires Valid()
      reads v
    {
      set b: nat | b < nbits && Bit(v[..], b)
    }

    /** `bitmap_create`. */
    constructor (nbits: nat)
      ensures Valid() && fresh(v) && this.nbits == nbits && Used() == {}
    {
      this.nbits := nbits;
      v := new Word[WordsFor(nbits)](_ => seq(32, _ => false));
      new;
      if v.Length > nbits / BITS_PER_WORD {
        var ix := v.Length - 1;
        var overbits := nbits - ix * BITS_PER_WORD;
        for j := overbits to BITS_PER_WORD
          invariant forall w | 0 <= w < ix :: v[w] == seq(32, _ => false)
          invariant forall b | 0 <= b < BITS_PER_WORD :: v[ix][b] <==> overbits <= b < j
        {
          v[ix] := v[ix][j := true];
        }
      }
    }

    /** The word and the bit of an index, as `bitmap_translate` finds them. */
    lemma {:induction false} Translate(index: nat)
      requires Valid() && index < nbits
      ensures index / BITS_PER_WORD < v.Length
    {
    }

    /** `bitmap_isset`. */
    predicate IsSet(index: nat)
      requires Valid() && index < nbits
      reads v
      ensures IsSet(index) <==> index in Used()
    {
      Translate(index);
      v[index / BITS_PER_WORD][index % BITS_PER_WORD]
    }

    /** Store one bit. */
    method SetBit(ix: nat, offset: nat, value: bool)
      requires Valid() && ix < v.Length && offset < BITS_PER_WORD && ix * BITS_PER_WORD + offset < nbits
      modifies v
      ensures Valid()
      ensures Used() == if value then old(Used()) + {ix * BITS_PER_WORD + offset}
                        else old(Used()) - {ix * BITS_PER_WORD + offset}
    {
      v[ix] := v[ix][offset := value];
      forall b | 0 <= b < v.Length * BITS_PER_WORD
        ensures Bit(v[..], b) == if b == ix * BITS_PER_WORD + offset then value else old(Bit(v[..], b))
      {
      }
    }

    /** `bitmap_mark` and `bitmap_unmark`; each insists that the bit changes. */
    method Mark(index: nat)
      requires Valid() && index < nbits && index !in Used()
      modifies v
      ensures Valid() && Used() == old(Used()) + {index}
    {
      Translate(index);
      SetBit(index / BITS_PER_WORD, index % BITS_PER_WORD, true);
    }

    method Unmark(index: nat)
      requires Valid() && index < nbits && index in Used()
      modifies v
      ensures Valid() && Used() == old(Used()) - {index}
    {
      Translate(index);
      SetBit(index / BITS_PER_WORD, index % BITS_PER_WORD, false);
    }

    /** `bitmap_alloc`: the least index that is not in use, unless all are. */
    method Alloc() returns (found: bool, index: nat)
      requires Valid()
      modifies v
      ensures Valid()
      ensures found <==> exists b: nat :: b < nbits && b !in old(Used())
      ensures found ==> index < nbits && index !in old(Used()) && Used() == old(Used()) + {index}
      ensures found ==> forall b: nat | b < index :: b in old(Used())
      ensures !found ==> Used() == old(Used())
    {
      for ix := 0 to v.Length
        invariant Valid() && v[..] == old(v[..])
        invariant forall b | 0 <= b < ix * BITS_PER_WORD :: Bit(v[..], b)
      {
        if !Full(v[ix]) {
          var offset := 0;
          while v[ix][offset]
            invariant offset < BITS_PER_WORD && Valid() && v[..] == old(v[..])
            invariant forall b | 0 <= b < offset :: v[ix][b]
            decreases BITS_PER_WORD - offset
          {
            offset := offset + 1;
          }
          index := ix * BITS_PER_WORD + offset;
          assert !Bit(v[..], index);
          SetBit(ix, offset, true);
          return true, index;
        }
      }
      return false, 0;
    }
  }
}
