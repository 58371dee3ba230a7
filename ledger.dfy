/** The file-descriptor ledger: a fixed table of 128 `int` slots in which every
    descriptor the command handlers open is recorded, so that all of them can be
    closed together when the client goes away. A slot holding -1 is free. */
module Ledger {
  import opened Optional

  const LEDGE_SIZE: nat := 128
  const FREE: int := -1

  /** Every slot is free. */
  predicate AllFree(s: seq<int>)
  {
    forall i :: 0 <= i < |s| ==> s[i] == FREE
  }

  /** A table of n free slots. */
  function FreeSlots(n: nat): (s: seq<int>)
    ensures |s| == n && AllFree(s)
  {
    seq(n, _ => FREE)
  }

  /** The lowest free slot at index `from` or later, if there is one. */
  function FirstFreeFrom(s: seq<int>, from: nat): (r: Option<nat>)
    requires from <= |s|
    ensures r.Some? ==> from <= r.value < |s| && s[r.value] == FREE
    ensures r.Some? ==> forall j :: from <= j < r.value ==> s[j] != FREE
    ensures r.None? ==> forall j :: from <= j < |s| ==> s[j] != FREE
    decreases |s| - from
  {
    if from == |s| then None
    else if s[from] == FREE then Some(from)
    else FirstFreeFrom(s, from + 1)
  }

  /** The lowest free slot, if there is one. */
  function FirstFree(s: seq<int>): Option<nat>
  {
    FirstFreeFrom(s, 0)
  }

  /** The table after `ledger_add_file_descriptor(fd)`: fd goes into the lowest
      free slot; a full table is left as it is. */
  function Added(s: seq<int>, fd: int): (r: seq<int>)
    ensures |r| == |s|
  {
    match FirstFree(s)
    case None => s
    case Some(i) => s[i := fd]
  }

  /** The occupied slots' descriptors, in slot order: the arguments of the
      `close` calls `ledger_close` makes. */
  function Occupied(s: seq<int>): (r: seq<int>)
    ensures FREE !in r
    ensures forall fd :: fd != FREE ==> multiset(r)[fd] == multiset(s)[fd]
  {
    if s == [] then []
    else
      var init, last := s[..|s| - 1], s[|s| - 1];
      assert s == init + [last];
      Occupied(init) + (if last != FREE then [last] else [])
  }

  /** Once a slot is free, every later slot is free too: the occupied slots
      form a prefix of the table. */
  predicate Packed(s: seq<int>)
  {
    forall i, j :: 0 <= i < j < |s| && s[i] == FREE ==> s[j] == FREE
  }

  /** The table after a sequence of `ledger_add_file_descriptor` calls. */
  function AddedAll(s: seq<int>, fds: seq<int>): (r: seq<int>)
    ensures |r| == |s|
  {
    if fds == [] then s
    else Added(AddedAll(s, fds[..|fds| - 1]), fds[|fds| - 1])
  }

  /** A descriptor lands in the lowest free slot and no other slot changes. */
  lemma {:induction false} AddFillsLowestFree(s: seq<int>, fd: int, i: nat)
    requires i < |s| && s[i] == FREE
    requires forall j :: 0 <= j < i ==> s[j] != FREE
    ensures Added(s, fd) == s[i := fd]
  {
    assert FirstFree(s) == Some(i);
  }

  /** With no free slot, or for a failed open (fd == -1), the table is unchanged. */
  lemma {:induction false} AddUnchanged(s: seq<int>, fd: int)
    requires fd == FREE || forall j :: 0 <= j < |s| ==> s[j] != FREE
    ensures Added(s, fd) == s
  {
    match FirstFree(s)
    case None =>
    case Some(i) =>
      assert s[i] == FREE;
      assert s[i := fd] == s;
  }

  /** Adding keeps the occupied slots a prefix of the table. */
  lemma {:induction false} AddKeepsPacked(s: seq<int>, fd: int)
    requires Packed(s)
    ensures Packed(Added(s, fd))
  {
    match FirstFree(s)
    case None =>
    case Some(k) =>
      var r := s[k := fd];
      forall i, j | 0 <= i < j < |r| && r[i] == FREE ensures r[j] == FREE {
        if i == k {
          assert fd == FREE;
          assert s[j] == FREE;
        } else {
          assert s[i] == FREE;
        }
      }
  }

  /** Starting from a freshly initialized table, registering up to 128 valid
      descriptors stores them in the first slots in registration order. */
  lemma {:induction false} AddedAllFromFree(fds: seq<int>)
    requires |fds| <= LEDGE_SIZE
    requires FREE !in fds
    ensures AddedAll(FreeSlots(LEDGE_SIZE), fds) == fds + FreeSlots(LEDGE_SIZE - |fds|)
  {
    if fds != [] {
      var n := |fds|;
      var init := fds[..n - 1];
      assert FREE !in init by {
        forall x | x in init ensures x != FREE {
          var k :| 0 <= k < |init| && init[k] == x;
          assert fds[k] == x;
        }
      }
      AddedAllFromFree(init);
      var s := init + FreeSlots(LEDGE_SIZE - (n - 1));
      assert AddedAll(FreeSlots(LEDGE_SIZE), fds) == Added(s, fds[n - 1]);
      forall j | 0 <= j < n - 1 ensures s[j] != FREE {
        assert s[j] == fds[j];
      }
      AddFillsLowestFree(s, fds[n - 1], n - 1);
      assert s[n - 1 := fds[n - 1]] == fds + FreeSlots(LEDGE_SIZE - n);
    }
  }

  lemma {:induction false} OccupiedAppend(a: seq<int>, b: seq<int>)
    ensures Occupied(a + b) == Occupied(a) + Occupied(b)
    decreases |b|
  {
    if b == [] {
      assert a + b == a;
    } else {
      var n := |b|;
      assert (a + b)[..|a + b| - 1] == a + b[..n - 1];
      OccupiedAppend(a, b[..n - 1]);
    }
  }

  lemma {:induction false} OccupiedOfFree(s: seq<int>)
    requires AllFree(s)
    ensures Occupied(s) == []
  {
    if s != [] {
      OccupiedOfFree(s[..|s| - 1]);
    }
  }

  lemma {:induction false} OccupiedOfValid(fds: seq<int>)
    requires FREE !in fds
    ensures Occupied(fds) == fds
  {
    if fds != [] {
      var init := fds[..|fds| - 1];
      assert FREE !in init by {
        forall x | x in init ensures x != FREE {
          var k :| 0 <= k < |init| && init[k] == x;
          assert fds[k] == x;
        }
      }
      OccupiedOfValid(init);
      assert fds == init + [fds[|fds| - 1]];
    }
  }

  /** Closing a table filled from a fresh one closes exactly the registered
      descriptors, once each, in registration order. */
  lemma {:induction false} CloseAfterAdds(fds: seq<int>)
    requires |fds| <= LEDGE_SIZE
    requires FREE !in fds
    ensures Occupied(AddedAll(FreeSlots(LEDGE_SIZE), fds)) == fds
  {
    AddedAllFromFree(fds);
    OccupiedAppend(fds, FreeSlots(LEDGE_SIZE - |fds|));
    OccupiedOfFree(FreeSlots(LEDGE_SIZE - |fds|));
    OccupiedOfValid(fds);
    assert fds + [] == fds;
  }

  /** The global `file_descriptor_ledger` array together with the `close` calls
      made on its entries. */
  class FdLedger {
    const slots: array<int>
    /** Every descriptor passed to `close` by `ledger_close`, in call order. */
    var closed: seq<int>

    ghost predicate Valid()
      reads this
    {
      slots.Length == LEDGE_SIZE
    }

    /** A global `int` array starts zero-filled, before `ledger_initialize` runs. */
    constructor ()
      ensures Valid() && fresh(slots)
      ensures slots[..] == seq(LEDGE_SIZE, _ => 0) && closed == []
    {
      slots := new int[LEDGE_SIZE](_ => 0);
      closed := [];
    }

    /** `ledger_initialize`: every slot becomes free. */
    method Initialize()
      requires Valid()
      modifies slots
      ensures slots[..] == FreeSlots(LEDGE_SIZE)
    {
      var i := 0;
      while i < LEDGE_SIZE
        invariant 0 <= i <= LEDGE_SIZE
        invariant forall j :: 0 <= j < i ==> slots[j] == FREE
      {
        slots[i] := FREE;
        i := i + 1;
      }
    }

    /** `ledger_add_file_descriptor`: store fd in the first free slot, if any. */
    method Add(fd: int)
      requires Valid()
      modifies slots
      ensures slots[..] == Added(old(slots[..]), fd)
    {
      var i := 0;
      while i < LEDGE_SIZE
        invariant 0 <= i <= LEDGE_SIZE
        invariant slots[..] == old(slots[..])
        invariant forall j :: 0 <= j < i ==> slots[j] != FREE
      {
        if slots[i] == FREE {
          AddFillsLowestFree(slots[..], fd, i);
          slots[i] := fd;
          return;
        }
        i := i + 1;
      }
      AddUnchanged(slots[..], fd);
    }

    /** `ledger_close`: close every occupied slot's descriptor and free the slot. */
    method Close()
      requires Valid()
      modifies this, slots
      ensures slots[..] == FreeSlots(LEDGE_SIZE)
      ensures closed == old(closed) + Occupied(old(slots[..]))
    {
      var i := 0;
      while i < LEDGE_SIZE
        invariant 0 <= i <= LEDGE_SIZE
        invariant forall j :: 0 <= j < i ==> slots[j] == FREE
        invariant slots[i..] == old(slots[i..])
        invariant closed == old(closed) + Occupied(old(slots[..])[..i])
      {
        ghost var before := old(slots[..]);
        assert before[..i + 1][..i] == before[..i];
        if slots[i] != FREE {
          closed := closed + [slots[i]];
          slots[i] := FREE;
        }
        i := i + 1;
      }
      assert old(slots[..])[..LEDGE_SIZE] == old(slots[..]);
    }
  }
}
