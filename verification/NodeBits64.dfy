/** The packed form of a cell in words of 64 bits, as the hash tables keep it: two links, each below two flag
    bits.  In the left word the top bit is the colour, in the right word it is emptiness; the next bit says that the
    link is a thread.  The largest link is the sentinel.  Every setter changes exactly the field it names, so a pool
    of packed cells behaves as a pool of `Cell`s. */
module NodeBits64 {
  import opened Threads
  import opened PathStacks

  type Word = bv64

  // ---- Words.

  predicate HasFlag(w: Word) { w & 0x8000_0000_0000_0000 != 0 }

  function SetFlag(w: Word): Word { w | 0x8000_0000_0000_0000 }

  function ClearFlag(w: Word): Word { w & !0x8000_0000_0000_0000 }

  predicate HasThread(w: Word) { w & 0x4000_0000_0000_0000 != 0 }

  function SetType(w: Word): Word { w | 0x4000_0000_0000_0000 }

  function ClearType(w: Word): Word { w & !0x4000_0000_0000_0000 }

  function LinkBits(w: Word): Word { w & !0xC000_0000_0000_0000 }

  function SetLinkBits(w: Word, link: Word): Word { (w & 0xC000_0000_0000_0000) | link }

  const SENTINEL: Word := 0x3FFF_FFFF_FFFF_FFFF

  /** The two top bits are free. */
  predicate IsLink(w: Word) { LinkBits(w) == w }

  lemma FlagIsPut(w: Word)
    ensures HasFlag(SetFlag(w)) && !HasFlag(ClearFlag(w))
  {
    assert (w & !0x8000_0000_0000_0000) & 0x8000_0000_0000_0000 == 0;
  }

  lemma FlagKeepsLink(w: Word)
    ensures LinkBits(SetFlag(w)) == LinkBits(w) && LinkBits(ClearFlag(w)) == LinkBits(w)
  {
  }

  lemma FlagKeepsThread(w: Word)
    ensures HasThread(SetFlag(w)) == HasThread(w) && HasThread(ClearFlag(w)) == HasThread(w)
  {
    assert (w | 0x8000_0000_0000_0000) & 0x4000_0000_0000_0000 == w & 0x4000_0000_0000_0000;
    assert (w & !0x8000_0000_0000_0000) & 0x4000_0000_0000_0000 == w & 0x4000_0000_0000_0000;
  }

  lemma SetTypeOnly(w: Word)
    ensures HasThread(SetType(w)) && HasFlag(SetType(w)) == HasFlag(w) && LinkBits(SetType(w)) == LinkBits(w)
  {
    assert (w | 0x4000_0000_0000_0000) & 0x8000_0000_0000_0000 == w & 0x8000_0000_0000_0000;
  }

  lemma ClearTypeOnly(w: Word)
    ensures !HasThread(ClearType(w)) && HasFlag(ClearType(w)) == HasFlag(w) && LinkBits(ClearType(w)) == LinkBits(w)
  {
    assert (w & !0x4000_0000_0000_0000) & 0x8000_0000_0000_0000 == w & 0x8000_0000_0000_0000;
  }

  /** Writing a link keeps the flags exactly if the link leaves their bits alone. */
  lemma SetLinkOnly(w: Word, link: Word)
    requires IsLink(link)
    ensures LinkBits(SetLinkBits(w, link)) == link
    ensures HasFlag(SetLinkBits(w, link)) == HasFlag(w) && HasThread(SetLinkBits(w, link)) == HasThread(w)
  {
    assert SetLinkBits(w, link) & 0x8000_0000_0000_0000 == w & 0x8000_0000_0000_0000;
    assert SetLinkBits(w, link) & 0x4000_0000_0000_0000 == w & 0x4000_0000_0000_0000;
  }

  /** The word of a slot below the sentinel is a link, and not the sentinel. */
  lemma SlotWord(w: Word)
    requires w as int < 0x3FFF_FFFF_FFFF_FFFF
    ensures IsLink(w) && w != SENTINEL
  {
    assert w < 0x3FFF_FFFF_FFFF_FFFF;
  }

  // ---- Cells.

  datatype Packed = Packed(left: Word, right: Word)

  function WordOf(p: Packed, left: bool): Word { if left then p.left else p.right }

  function WithWord(p: Packed, left: bool, w: Word): Packed { if left then p.(left := w) else p.(right := w) }

  function PutThread(p: Packed, left: bool, thread: bool): Packed {
    WithWord(p, left, if thread then SetType(WordOf(p, left)) else ClearType(WordOf(p, left)))
  }

  function PutLink(p: Packed, left: bool, link: Word): Packed {
    WithWord(p, left, SetLinkBits(WordOf(p, left), link))
  }

  function PutRed(p: Packed, red: bool): Packed { p.(left := if red then SetFlag(p.left) else ClearFlag(p.left)) }

  function PutEmpty(p: Packed, empty: bool): Packed {
    p.(right := if empty then SetFlag(p.right) else ClearFlag(p.right))
  }

  function Target(link: Word): int { if link == SENTINEL then NIL else link as int }

  function UnpackLink(w: Word): Link { Link(HasThread(w), Target(LinkBits(w))) }

  /** The cell that a packed cell stands for. */
  function Unpack(p: Packed): Cell {
    Cell(UnpackLink(p.left), UnpackLink(p.right), HasFlag(p.left), HasFlag(p.right))
  }

  /** The colour and emptiness are the top bits. */
  lemma TopBit(w: Word)
    ensures HasFlag(w) <==> w >= 0x8000_0000_0000_0000
  {
  }

  /** Threads are the bits below. */
  lemma NextBit(w: Word)
    ensures HasThread(w) <==> w & 0x7FFF_FFFF_FFFF_FFFF >= 0x4000_0000_0000_0000
  {
  }

  /** Links are all the others. */
  lemma OtherBits(w: Word)
    ensures LinkBits(w) == w & 0x3FFF_FFFF_FFFF_FFFF
  {
  }

  lemma CellLayout(p: Packed)
    ensures Unpack(p).red == (p.left >= 0x8000_0000_0000_0000) && Unpack(p).empty == (p.right >= 0x8000_0000_0000_0000)
    ensures Unpack(p).left.thread == (p.left & 0x7FFF_FFFF_FFFF_FFFF >= 0x4000_0000_0000_0000)
    ensures Unpack(p).right.thread == (p.right & 0x7FFF_FFFF_FFFF_FFFF >= 0x4000_0000_0000_0000)
  {
    TopBit(p.left);
    TopBit(p.right);
    NextBit(p.left);
    NextBit(p.right);
  }

  function UnpackAll(ps: seq<Packed>): (nodes: seq<Cell>)
    ensures |nodes| == |ps| && forall i :: 0 <= i < |ps| ==> nodes[i] == Unpack(ps[i])
  {
    seq(|ps|, i requires 0 <= i < |ps| => Unpack(ps[i]))
  }

  lemma PackedThread(p: Packed, left: bool, thread: bool)
    ensures Unpack(PutThread(p, left, thread)) == WithLink(Unpack(p), left, Get(Unpack(p), left).(thread := thread))
  {
    SetTypeOnly(WordOf(p, left));
    ClearTypeOnly(WordOf(p, left));
  }

  lemma PackedLink(p: Packed, left: bool, link: Word)
    requires IsLink(link)
    ensures Unpack(PutLink(p, left, link)) == WithLink(Unpack(p), left, Get(Unpack(p), left).(to := Target(link)))
  {
    SetLinkOnly(WordOf(p, left), link);
  }

  lemma PackedRed(p: Packed, b: bool)
    ensures Unpack(PutRed(p, b)) == Unpack(p).(red := b)
  {
    FlagIsPut(p.left);
    FlagKeepsLink(p.left);
    FlagKeepsThread(p.left);
  }

  lemma PackedEmpty(p: Packed, b: bool)
    ensures Unpack(PutEmpty(p, b)) == Unpack(p).(empty := b)
  {
    FlagIsPut(p.right);
    FlagKeepsLink(p.right);
    FlagKeepsThread(p.right);
  }

  /** Fresh cells are all ones. */
  lemma PackedBlank(ones: Word)
    requires ones == !0
    ensures Unpack(Packed(ones, ones)) == BLANK
  {
  }

  lemma UnpackUpdate(ps: seq<Packed>, i: nat, p: Packed)
    requires i < |ps|
    ensures UnpackAll(ps[i := p]) == UnpackAll(ps)[i := Unpack(p)]
  {
  }

  /** Setters on the packed pool are the setters on the pool it stands for, for every slot below the sentinel and
      for the sentinel. */
  lemma PackedPool(ps: seq<Packed>, i: nat, left: bool, b: bool, link: Word)
    requires i < |ps| && (link as int < 0x3FFF_FFFF_FFFF_FFFF || link == SENTINEL)
    ensures UnpackAll(ps[i := PutThread(ps[i], left, b)]) == SetThread(UnpackAll(ps), i, left, b)
    ensures UnpackAll(ps[i := PutLink(ps[i], left, link)]) == SetLink(UnpackAll(ps), i, left, Target(link))
    ensures UnpackAll(ps[i := PutRed(ps[i], b)]) == SetRed(UnpackAll(ps), i, b)
    ensures UnpackAll(ps[i := PutEmpty(ps[i], b)]) == SetEmpty(UnpackAll(ps), i, b)
  {
    PackedThread(ps[i], left, b);
    if link != SENTINEL { SlotWord(link); }
    PackedLink(ps[i], left, link);
    PackedRed(ps[i], b);
    PackedEmpty(ps[i], b);
    UnpackUpdate(ps, i, PutThread(ps[i], left, b));
    UnpackUpdate(ps, i, PutLink(ps[i], left, link));
    UnpackUpdate(ps, i, PutRed(ps[i], b));
    UnpackUpdate(ps, i, PutEmpty(ps[i], b));
  }

  // ---- Path entries: a slot with the direction in the top bit.

  function PackEntry(slot: Word, left: bool): Word { slot | (if left then 0 else 0x8000_0000_0000_0000) }

  function PackSlot(w: Word, slot: Word): Word { slot | (w & 0x8000_0000_0000_0000) }

  function UnpackEntry(w: Word): Entry { Entry(ClearFlag(w) as nat, !HasFlag(w)) }

  lemma EntryBits(slot: Word, left: bool)
    requires IsLink(slot)
    ensures ClearFlag(PackEntry(slot, left)) == slot && HasFlag(PackEntry(slot, left)) == !left
  {
  }

  lemma SlotBits(w: Word, slot: Word)
    requires IsLink(slot)
    ensures ClearFlag(PackSlot(w, slot)) == slot && HasFlag(PackSlot(w, slot)) == HasFlag(w)
  {
  }

  /** Entries come back as they were, and overwriting the slot keeps the direction. */
  lemma PackedEntry(w: Word, slot: Word, left: bool)
    requires IsLink(slot)
    ensures UnpackEntry(PackEntry(slot, left)) == Entry(slot as nat, left)
    ensures UnpackEntry(PackSlot(w, slot)) == Entry(slot as nat, UnpackEntry(w).left)
  {
    EntryBits(slot, left);
    SlotBits(w, slot);
  }
}
