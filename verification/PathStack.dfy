/** The bounded stack that records a search path. */
module PathStacks {
  import opened Shape

  datatype Entry = Entry(slot: nat, left: bool)

  class PathStack {
    var height: nat
    const entries: array<Entry>
    /** One more than the largest index that was ever written. */
    ghost var reach: nat

    constructor (maxDepth: nat)
      ensures height == 0 && entries.Length == maxDepth && fresh(entries) && reach == 0
    {
      height, reach := 0, 0;
      entries := new Entry[maxDepth](_ => Entry(0, true));
    }

    /** False is the length_error thrown on a full stack. */
    method PushIndex(slot: nat, left: bool) returns (ok: bool)
      requires height <= entries.Length
      modifies this, entries
      ensures ok <==> old(height) < entries.Length
      ensures ok ==> height == old(height) + 1 && entries[..] == old(entries[..])[old(height) := Entry(slot, left)]
      ensures !ok ==> height == old(height) && entries[..] == old(entries[..])
      ensures reach == if ok then Max(old(reach), height) else old(reach)
    {
      if height == entries.Length {
        return false;
      }
      entries[height] := Entry(slot, left);
      height := height + 1;
      reach := Max(reach, height);
      ok := true;
    }

    method UpdateIndex(k: nat, slot: nat, left: bool)
      requires k < entries.Length
      modifies this`reach, entries
      ensures entries[..] == old(entries[..])[k := Entry(slot, left)] && reach == Max(old(reach), k + 1)
    {
      entries[k] := Entry(slot, left);
      reach := Max(reach, k + 1);
    }

    /** Changes the slot and keeps the direction. */
    method UpdateSlot(k: nat, slot: nat)
      requires k < entries.Length
      modifies this`reach, entries
      ensures entries[..] == old(entries[..])[k := Entry(slot, old(entries[k]).left)] && reach == Max(old(reach), k + 1)
    {
      entries[k] := Entry(slot, entries[k].left);
      reach := Max(reach, k + 1);
    }
  }

  /** The first `n` entries of `s` are the path from the root to the hole of `c`. */
  ghost predicate OnStack(c: Ctx, s: seq<Entry>, n: nat)
    requires n <= |s|
  {
    match c
    case Top => n == 0
    case In(up, i, _, left, _) => n > 0 && s[n - 1] == Entry(i, left) && OnStack(up, s, n - 1)
  }

  lemma {:induction false} OnStackFrame(c: Ctx, s: seq<Entry>, s': seq<Entry>, n: nat)
    requires n <= |s| && n <= |s'| && OnStack(c, s, n)
    requires s[..n] == s'[..n]
    ensures OnStack(c, s', n)
    decreases c
  {
    if c.Top? {
    } else {
      assert s[n - 1] == s[..n][n - 1] == s'[..n][n - 1] == s'[n - 1];
      assert s[..n - 1] == s[..n][..n - 1] == s'[..n][..n - 1] == s'[..n - 1];
      OnStackFrame(c.up, s, s', n - 1);
    }
  }

  lemma {:induction false} OnStackDepth(c: Ctx, s: seq<Entry>, n: nat)
    requires n <= |s| && OnStack(c, s, n)
    ensures Depth(c) == n
    decreases c
  {
    if c.Top? {
    } else {
      OnStackDepth(c.up, s, n - 1);
    }
  }
}
