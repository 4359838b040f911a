/** Kernel pointers to the modelled memory: byte addresses a constant `offset` above
    the physical ones. */
module Pointers {
  import opened Words
  import opened PageTables

  function SlotPtr(offset: nat, s: nat): nat {
    8 * s + offset
  }

  predicate PagePtr(offset: nat, ptr: nat) {
    ptr >= offset && (ptr - offset) % 0x1000 == 0
  }

  function PageAt(offset: nat, ptr: nat): nat
    requires PagePtr(offset, ptr)
  {
    (ptr - offset) / 0x1000
  }

  predicate WordPtr(words: array<Word>, offset: nat, ptr: nat) {
    ptr >= offset && (ptr - offset) % 8 == 0 && (ptr - offset) / 8 < words.Length
  }

  function WordAt(offset: nat, ptr: nat): nat
    requires ptr >= offset
  {
    (ptr - offset) / 8
  }

  /** The pointer to page `p`. */
  function TableOf(offset: nat, p: nat): (ptr: nat)
    ensures PagePtr(offset, ptr) && PageAt(offset, ptr) == p
  {
    0x1000 * p + offset
  }

  lemma SamePtr(offset: nat, a: nat, b: nat)
    requires PagePtr(offset, a) && PagePtr(offset, b)
    ensures a == b <==> PageAt(offset, a) == PageAt(offset, b)
  {
  }

  lemma SlotPtrOf(words: array<Word>, offset: nat, s: nat)
    ensures WordPtr(words, offset, SlotPtr(offset, s)) <==> s < words.Length
    ensures WordAt(offset, SlotPtr(offset, s)) == s
  {
  }

  lemma EntryAddress(words: array<Word>, offset: nat, p: nat, i: Entry)
    ensures TableOf(offset, p) + 8 * i == SlotPtr(offset, 512 * p + i)
    ensures WordAt(offset, SlotPtr(offset, 512 * p + i)) == 512 * p + i
    ensures WordPtr(words, offset, SlotPtr(offset, 512 * p + i)) <==> 512 * p + i < words.Length
  {
  }

  /** Entry `i` of the table at `table`. */
  method EntryPtr(words: array<Word>, offset: nat, table: nat, i: Entry) returns (ptr: nat)
    requires PagePtr(offset, table) && 512 * PageAt(offset, table) + i < words.Length
    ensures ptr == SlotPtr(offset, 512 * PageAt(offset, table) + i) && WordPtr(words, offset, ptr)
    ensures WordAt(offset, ptr) == 512 * PageAt(offset, table) + i
  {
    SamePtr(offset, table, TableOf(offset, PageAt(offset, table)));
    EntryAddress(words, offset, PageAt(offset, table), i);
    ptr := table + 8 * i;
  }

  /** Entry of the table at `table` for `va`. */
  method SlotAt(f: Format, words: array<Word>, offset: nat, table: nat, va: nat, l: nat, i: Entry) returns (ptr: nat)
    requires PagePtr(offset, table) && i == f.index(va, l) && Slot(f, PageAt(offset, table), va, l) < words.Length
    ensures ptr == SlotPtr(offset, Slot(f, PageAt(offset, table), va, l)) && WordPtr(words, offset, ptr)
    ensures WordAt(offset, ptr) == Slot(f, PageAt(offset, table), va, l)
  {
    ptr := EntryPtr(words, offset, table, i);
  }

  method Load(words: array<Word>, offset: nat, ptr: nat) returns (w: Word)
    requires WordPtr(words, offset, ptr)
    ensures w == words[..][WordAt(offset, ptr)]
  {
    w := words[(ptr - offset) / 8];
  }
}
