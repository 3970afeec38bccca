/** The lock slots a pruning run found busy, one bit each
    (gsym-cache/src/maintenance.rs, `BusySlots`). */
module SlotSet {
  import opened Population

  /** The word and the bit a slot's flag is kept in. */
  function Word(slot: nat): (index: nat)
    requires slot < SLOTS
    ensures index < 64
  {
    slot / 64
  }

  function Index(slot: nat): (index: nat)
    ensures index < 64
  {
    slot % 64
  }

  function Mask(index: nat): bv64
    requires index < 64
  {
    Shifted(index as bv6)
  }

  function Shifted(amount: bv6): bv64 {
    (1 as bv64) << amount
  }

  lemma ShiftsApart(a: bv6, b: bv6)
    requires a != b
    ensures Shifted(a) & Shifted(b) == 0
  {
  }

  lemma ShiftedNonzero(a: bv6)
    ensures Shifted(a) != 0
  {
  }

  lemma IndexKept(i: nat)
    requires i < 64
    ensures (i as bv6) as nat == i
  {
  }

  lemma IndicesApart(i: nat, j: nat)
    requires i < 64 && j < 64 && i != j
    ensures i as bv6 != j as bv6
  {
    IndexKept(i);
    IndexKept(j);
  }

  predicate Flag(word: bv64, mask: bv64) {
    word & mask != 0
  }

  function Raise(word: bv64, mask: bv64): bv64 {
    word | mask
  }

  lemma MaskNonzero(i: nat)
    requires i < 64
    ensures Mask(i) != 0
  {
    hide Shifted;
    ShiftedNonzero(i as bv6);
  }

  lemma MasksApart(i: nat, j: nat)
    requires i < 64 && j < 64 && i != j
    ensures Mask(i) & Mask(j) == 0
  {
    hide Shifted;
    IndicesApart(i, j);
    ShiftsApart(i as bv6, j as bv6);
  }

  lemma RaiseSame(word: bv64, mask: bv64)
    requires mask != 0
    ensures Flag(Raise(word, mask), mask)
  {
  }

  lemma Distributes(word: bv64, mask: bv64, other: bv64)
    ensures (word | mask) & other == (word & other) | (mask & other)
  {
  }

  lemma OrZero(word: bv64)
    ensures word | 0 == word
  {
  }

  lemma RaiseOther(word: bv64, mask: bv64, other: bv64)
    requires mask & other == 0
    ensures Flag(Raise(word, mask), other) == Flag(word, other)
  {
    Distributes(word, mask, other);
    OrZero(word & other);
  }

  /** Raising one flag of a word leaves the others. */
  lemma RaiseReads(word: bv64, i: nat, j: nat)
    requires i < 64 && j < 64
    ensures Flag(Raise(word, Mask(i)), Mask(j)) <==> i == j || Flag(word, Mask(j))
  {
    hide *;
    if i == j {
      MaskNonzero(i);
      RaiseSame(word, Mask(i));
    } else {
      MasksApart(i, j);
      RaiseOther(word, Mask(i), Mask(j));
    }
  }

  lemma SlotDigits(slot: nat, other: nat)
    requires slot < SLOTS && other < SLOTS
    ensures slot == other <==> Word(slot) == Word(other) && Index(slot) == Index(other)
  {
  }

  predicate Bit(words: seq<bv64>, slot: nat)
    requires |words| == 64 && slot < SLOTS
  {
    Flag(words[Word(slot)], Mask(Index(slot)))
  }

  function SetBit(words: seq<bv64>, slot: nat): (after: seq<bv64>)
    requires |words| == 64 && slot < SLOTS
    ensures |after| == 64
  {
    words[Word(slot) := Raise(words[Word(slot)], Mask(Index(slot)))]
  }

  lemma SetBitReads(words: seq<bv64>, slot: nat, other: nat)
    requires |words| == 64 && slot < SLOTS && other < SLOTS
    ensures Bit(SetBit(words, slot), other) <==> slot == other || Bit(words, other)
  {
    hide Flag, Mask, Raise, Word, Index;
    SlotDigits(slot, other);
    RaiseReads(words[Word(slot)], Index(slot), Index(other));
  }

  lemma NoBits(words: seq<bv64>, slot: nat)
    requires |words| == 64 && slot < SLOTS
    requires forall i :: 0 <= i < 64 ==> words[i] == 0
    ensures !Bit(words, slot)
  {
  }

  /** One bit per lock slot in 64 words. */
  class BusySlots {
    const words: array<bv64>
    ghost var slots: set<nat>

    ghost predicate Valid()
      reads this, words
    {
      && words.Length == 64
      && (forall slot :: slot in slots ==> slot < SLOTS)
      && forall slot: nat :: slot < SLOTS ==> (slot in slots <==> Bit(words[..], slot))
    }

    constructor ()
      ensures Valid() && slots == {} && fresh(words)
    {
      words := new bv64[64](_ => 0);
      slots := {};
      new;
      forall slot: nat | slot < SLOTS
        ensures !Bit(words[..], slot)
      {
        NoBits(words[..], slot);
      }
    }

    method Contains(slot: nat) returns (found: bool)
      requires Valid() && slot < SLOTS
      ensures found <==> slot in slots
    {
      hide Flag, Mask, Word, Index;
      found := Flag(words[Word(slot)], Mask(Index(slot)));
      assert found == Bit(words[..], slot);
    }

    /** Whether the slot is new. */
    method Insert(slot: nat) returns (inserted: bool)
      requires Valid() && slot < SLOTS
      modifies this`slots, words
      ensures Valid() && slots == old(slots) + {slot}
      ensures inserted <==> slot !in old(slots)
    {
      hide Flag, Mask, Raise, Word, Index, Bit;
      var found := Contains(slot);
      inserted := !found;
      Mark(slot);
      slots := slots + {slot};
    }

    method Mark(slot: nat)
      requires words.Length == 64 && slot < SLOTS
      modifies words
      ensures forall other: nat :: other < SLOTS ==> (Bit(words[..], other) <==> slot == other || Bit(old(words[..]), other))
    {
      hide Flag, Mask, Raise, Word, Index, Bit;
      words[Word(slot)] := Raise(words[Word(slot)], Mask(Index(slot)));
      assert words[..] == SetBit(old(words[..]), slot);
      forall other: nat | other < SLOTS
        ensures Bit(words[..], other) <==> slot == other || Bit(old(words[..]), other)
      {
        SetBitReads(old(words[..]), slot, other);
      }
    }
  }
}
