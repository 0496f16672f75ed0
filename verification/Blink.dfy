/** The list of blinking characters of fish/blink.S, over the pool of fish/fish.c
    in which a slot is free when its location is 0. */
module Blink {
  import opened Bytes
  import opened BlinkTiming
  import opened BlinkPool

  class BlinkList {
    const pool: array<Slot>
    const vmem: array<byte>
    var head: int
    ghost var order: seq<int>
    ghost var rank: seq<int>

    ghost function Now(): State
      reads this, pool
    {
      State(pool[..], head, order, rank)
    }

    ghost predicate Sized()
      reads this
    {
      pool.Length == SCREEN && vmem.Length == 2 * SCREEN && |rank| == SCREEN
    }

    ghost predicate Valid()
      reads this, pool
    {
      Sized() && Now().Consistent()
    }

    /** The abstract list: the entries, oldest first. */
    ghost function Entries(): (r: seq<Item>)
      requires Valid()
      reads this, pool
      ensures |r| == |order|
    {
      Now().Entries()
    }

    constructor ()
      ensures Valid() && order == [] && fresh(pool) && fresh(vmem)
    {
      pool := new Slot[SCREEN](i => ZERO);
      vmem := new byte[2 * SCREEN];
      head := NULL;
      order := [];
      rank := seq(SCREEN, i => NULL);
    }

    /** mp1_poke: one byte of video memory. */
    method Poke(offset: nat, c: byte)
      requires offset < vmem.Length
      modifies vmem
      ensures vmem[..] == old(vmem[..])[offset := c]
    {
      vmem[offset] := c;
    }

    /** mp1_malloc: the lowest slot with location 0. */
    method Malloc() returns (p: int)
      requires Sized()
      ensures p == NULL ==> forall i :: 0 <= i < SCREEN ==> pool[i].item.location != 0
      ensures p != NULL ==> 0 <= p < SCREEN && pool[p].item.location == 0
      ensures forall i :: 0 <= i < p ==> pool[i].item.location != 0
    {
      for i := 0 to SCREEN
        invariant forall j :: 0 <= j < i ==> pool[j].item.location != 0
      {
        if pool[i].item.location == 0 {
          return i;
        }
      }
      return NULL;
    }

    /** mp1_ioctl_add, on any state: the lowest free slot becomes the new head of the list. */
    method Add(it: Item) returns (r: int, ghost p: int)
      requires Sized()
      modifies this`head, this`order, this`rank, pool, vmem
      ensures Sized() && (r == -1 || r == 0)
      ensures r == -1 <==> it.location >= SCREEN || forall i :: 0 <= i < SCREEN ==> old(pool[i]).item.location != 0
      ensures r == -1 ==> Now() == old(Now()) && vmem[..] == old(vmem[..])
      ensures r == 0 ==> 0 <= p < SCREEN && old(pool[p]).item.location == 0
      ensures r == 0 ==> forall i :: 0 <= i < p ==> old(pool[i]).item.location != 0
      ensures r == 0 ==> Now() == old(Now()).Added(p, Started(it))
      ensures r == 0 ==> vmem[..] == old(vmem[..])[2 * it.location := it.onChar]
    {
      p := NULL;
      if it.location >= SCREEN {
        return -1, p;
      }
      var temp := it.(status := 1);
      temp := temp.(countdown := temp.onLength);
      var q := Malloc();
      p := q;
      if q == NULL {
        return -1, p;
      }
      pool[q] := Slot(temp, NULL);
      pool[q] := pool[q].(next := head);
      head := q;
      order, rank := order + [q], rank[q := |order|];
      Poke(2 * it.location, it.onChar);
      return 0, p;
    }

    /** A successful add keeps pool and list consistent if and only if the location is not 0. It fails only on
        a location off the screen or when all 2000 slots are listed. */
    method AddEntry(it: Item) returns (r: int)
      requires Valid()
      modifies this`head, this`order, this`rank, pool, vmem
      ensures r == -1 || r == 0
      ensures r == -1 <==> it.location >= SCREEN || forall p :: 0 <= p < SCREEN ==> old(Now()).Listed(p)
      ensures r == -1 ==> Now() == old(Now()) && vmem[..] == old(vmem[..])
      ensures r == 0 ==> (Valid() <==> it.location != 0)
      ensures r == 0 && it.location != 0 ==> Entries() == old(Entries()) + [Started(it)]
      ensures it.location != 0 ==> Entries() == Apply(old(Entries()), AddOp(it))
      ensures r == 0 ==> vmem[..] == old(vmem[..])[2 * it.location := it.onChar]
    {
      ghost var s, p := Now(), NULL;
      r, p := Add(it);
      if r == 0 {
        AddConsistentIff(s, p, Started(it));
      }
      FullExactlyWhen(s);
    }

    /** mp1_find_helper: the most recently added entry with a location. */
    method Find(location: word) returns (node: int)
      requires Valid()
      ensures node == Now().NodeAt(LastAt(Entries(), location))
    {
      ghost var s, k := Now(), |order| - 1;
      node := head;
      while node != NULL
        invariant -1 <= k < |s.order| && node == s.NodeAt(k)
        invariant forall i :: k < i < |s.order| ==> s.pool[s.order[i]].item.location != location
        decreases k
      {
        StepBack(s, k);
        if pool[node].item.location == location {
          FindIsLastAt(s, location, k);
          return;
        }
        node := pool[node].next;
        k := k - 1;
      }
      FindIsLastAt(s, location, k);
    }

    /** The walk of mp1_ioctl_remove to the pointer that points to `node`. */
    method FindPrevious(node: int, ghost k: int) returns (prev: int)
      requires Valid() && 0 <= k < |order| && node == order[k]
      ensures prev == if k + 1 < |order| then order[k + 1] else NULL
    {
      ghost var s, j := Now(), |order| - 1;
      prev := NULL;
      while (if prev == NULL then head else pool[prev].next) != node
        invariant k <= j < |s.order| && prev == (if j + 1 < |s.order| then s.order[j + 1] else NULL)
        invariant prev != NULL ==> 0 <= prev < SCREEN
        invariant (if prev == NULL then head else pool[prev].next) == s.order[j]
        decreases j
      {
        StepBack(s, j);
        prev := if prev == NULL then head else pool[prev].next;
        j := j - 1;
      }
      SamePosition(s, k, j);
    }

    /** mp1_ioctl_remove: the most recently added entry with the location leaves the list; without one, nothing changes. */
    method Remove(location: word) returns (r: int)
      requires Valid()
      modifies this`head, this`order, this`rank, pool
      ensures Valid() && r == (if LastAt(old(Entries()), location) < 0 then -1 else 0)
      ensures r == -1 ==> Now() == old(Now())
      ensures Entries() == Apply(old(Entries()), RemoveOp(location))
    {
      ghost var k := LastAt(Entries(), location);
      var node := Find(location);
      if k >= 0 {
        StepBack(Now(), k);
      }
      if node == NULL {
        return -1;
      }
      TakeOut(node, k);
      return 0;
    }

    /** The removal of the node at position `k`. */
    method TakeOut(node: int, ghost k: int)
      requires Valid() && 0 <= k < |order| && node == order[k]
      modifies this`head, this`order, this`rank, pool
      ensures Valid() && Entries() == Without(old(Entries()), k)
    {
      RemoveConsistent(Now(), k);
      var prev := FindPrevious(node, k);
      Unlink(node, prev, k);
    }

    /** The pointer update of the removal, and mp1_free. */
    method Unlink(node: int, prev: int, ghost k: int)
      requires Valid() && 0 <= k < |order| && node == order[k]
      requires prev == if k + 1 < |order| then order[k + 1] else NULL
      modifies this`head, this`order, this`rank, pool
      ensures Now() == old(Now()).Removed(k)
    {
      ghost var s := Now();
      if prev == NULL {
        head := pool[node].next;
      } else {
        pool[prev] := pool[prev].(next := pool[node].next);
      }
      pool[node] := ZERO;
      order, rank := s.Removed(k).order, s.Removed(k).rank;
    }

    /** Adding an entry and removing its location restores the abstract list. */
    method AddThenRemove(it: Item) returns (r: int)
      requires Valid() && it.location != 0
      modifies this`head, this`order, this`rank, pool, vmem
      ensures Valid() && Entries() == old(Entries())
    {
      r := AddEntry(it);
      if r == 0 {
        ghost var es := Entries();
        r := Remove(it.location);
        assert es[..|es| - 1] + es[|es|..] == old(Entries());
      }
    }

    /** Why location 0 must not be added: the next add takes the same slot again, and the list becomes a loop. */
    method ZeroLocationLoops(zero: Item, it: Item)
      requires Valid() && order == [] && zero.location == 0 && it.location < SCREEN
      modifies this`head, this`order, this`rank, pool, vmem
      ensures 0 <= head < SCREEN && pool[head].next == head
    {
      assert !Now().Listed(0);
      var r, p := Add(zero);
      assert p == 0 && pool[0].item.location == 0;
      r, p := Add(it);
    }

    /** mp1_ioctl_sync: the entry at the low half takes the timing of the entry at the high half and its off character
        is displayed, because the conditional move in the source never fires. So the entry is displayed as it should
        be if and only if it is now off or its two characters are the same. Either one missing, nothing changes. */
    method Sync(arg: nat) returns (r: int)
      requires Valid() && arg < 0x1_0000_0000
      modifies pool, vmem
      ensures Valid()
      ensures r == if LastAt(old(Entries()), arg / 0x1_0000) < 0 || LastAt(old(Entries()), arg % 0x1_0000) < 0 then -1 else 0
      ensures r == -1 ==> Now() == old(Now()) && vmem[..] == old(vmem[..])
      ensures Entries() == Apply(old(Entries()), SyncOp(arg / 0x1_0000, arg % 0x1_0000))
      ensures forall a :: 0 <= a < vmem.Length && a != 2 * (arg % 0x1_0000) ==> vmem[a] == old(vmem[a])
      ensures r == 0 ==> 2 * (arg % 0x1_0000) < vmem.Length && var it := Entries()[LastAt(old(Entries()), arg % 0x1_0000)];
        vmem[2 * (arg % 0x1_0000)] == Shown(it) <==> !On(it) || it.onChar == it.offChar
    {
      ghost var s, from, to := Now(), LastAt(Entries(), arg / 0x1_0000), LastAt(Entries(), arg % 0x1_0000);
      var esi := Find(arg / 0x1_0000);
      var edi := Find(arg % 0x1_0000);
      if from >= 0 && to >= 0 {
        StepBack(s, from);
        StepBack(s, to);
      }
      if esi == NULL || edi == NULL {
        if from >= 0 {
          StepBack(s, from);
        }
        if to >= 0 {
          StepBack(s, to);
        }
        return -1;
      }
      var it := pool[edi].item;
      it := it.(onLength := pool[esi].item.onLength);
      it := it.(offLength := pool[esi].item.offLength);
      it := it.(countdown := pool[esi].item.countdown);
      it := it.(status := pool[esi].item.status);
      ReplaceConsistent(s, to, it);
      pool[edi] := pool[edi].(item := it);
      Poke(2 * it.location, it.offChar);
      return 0;
    }

    /** One node of the tasklet loop. */
    method TickNode(node: int)
      requires Sized() && 0 <= node < SCREEN && pool[node].item.location < SCREEN
      modifies pool, vmem
      ensures pool[..] == old(pool[..])[node := Passed(old(pool[node]))]
      ensures var it := old(pool[node]).item;
        vmem[..] == if Expires(it) then old(vmem[..])[2 * it.location := Shown(Tick(it))] else old(vmem[..])
    {
      var it := pool[node].item;
      it := it.(countdown := Decremented(it.countdown));
      pool[node] := pool[node].(item := it);
      if Signed(it.countdown) > 0 {
        return;
      }
      var offset := 2 * it.location;
      var length;
      if it.status % 2 == 1 {
        Poke(offset, it.offChar);
        length := it.offLength;
      } else {
        Poke(offset, it.onChar);
        length := it.onLength;
      }
      pool[node] := pool[node].(item := it.(countdown := length, status := Flipped(it.status)));
    }

    /** One step of the tasklet's walk, from position `k` to the one before. */
    method PassOne(ebx: int, ghost s: State, ghost v0: seq<byte>, ghost k: int) returns (next: int)
      requires Sized() && s.Linked() && s.OnScreen() && |v0| == 2 * SCREEN && 0 <= k < |s.order| && ebx == s.order[k]
      requires PartlyTicked(s, pool[..], k) && StaysDisplayed(s, v0, vmem[..], k)
      modifies pool, vmem
      ensures next == s.NodeAt(k - 1)
      ensures PartlyTicked(s, pool[..], k - 1) && StaysDisplayed(s, v0, vmem[..], k - 1)
    {
      StepBack(s, k);
      PassNode(s, pool[..], k);
      PassDisplay(s, v0, vmem[..], k);
      assert pool[..][ebx] == s.pool[ebx];
      TickNode(ebx);
      next := pool[ebx].next;
    }

    /** mp1_rtc_tasklet: every entry advances by one tick, and an entry that is alone on its location stays displayed. */
    method Tasklet()
      requires Valid()
      modifies pool, vmem
      ensures Valid() && Now() == old(Now()).(pool := pool[..])
      ensures Entries() == Apply(old(Entries()), TickOp)
      ensures StaysDisplayed(old(Now()), old(vmem[..]), vmem[..], -1)
    {
      ghost var s := Now();
      Walk(s, vmem[..]);
      PassedConsistent(s, pool[..]);
    }

    /** The tasklet's walk down the list. */
    method Walk(ghost s: State, ghost v0: seq<byte>)
      requires Valid() && s == Now() && v0 == vmem[..]
      modifies pool, vmem
      ensures PartlyTicked(s, pool[..], -1) && StaysDisplayed(s, v0, vmem[..], -1)
    {
      var ebx := head;
      ghost var k := |order| - 1;
      while ebx != NULL
        invariant -1 <= k < |s.order| && ebx == s.NodeAt(k)
        invariant PartlyTicked(s, pool[..], k) && StaysDisplayed(s, v0, vmem[..], k)
        decreases k
      {
        ebx := PassOne(ebx, s, v0, k);
        k := k - 1;
      }
    }

    method SyncBoth(from: word, to: word) returns (r: int)
      requires Valid()
      modifies pool, vmem
      ensures Valid() && Entries() == Apply(old(Entries()), SyncOp(from, to))
      ensures forall a :: 0 <= a < vmem.Length && a != 2 * to ==> vmem[a] == old(vmem[a])
    {
      var arg := 0x1_0000 * from + to;
      assert arg / 0x1_0000 == from && arg % 0x1_0000 == to;
      r := Sync(arg);
    }

    /** The screen shows the lone entry at location `l` as it should. */
    ghost predicate Lit(l: int, it: Item)
      requires Valid()
      reads this, pool, vmem
    {
      0 <= l < SCREEN && Lone(Entries(), l, it) && vmem[2 * l] == Shown(it)
    }

    /** One operation does to the list in the pool what `Apply` does to a plain list. A lone entry that the operation
        spares stays displayed. */
    method Perform(op: Op)
      requires Valid() && (op.AddOp? ==> op.item.location != 0)
      modifies this`head, this`order, this`rank, pool, vmem
      ensures Valid() && Entries() == Apply(old(Entries()), op)
      ensures forall l: int, it :: Spares(op, l) && old(Lit(l, it)) ==> Lit(l, Aged(it, op))
    {
      var r;
      ghost var es, v := Entries(), vmem[..];
      match op {
        case AddOp(it) => r := AddEntry(it);
        case RemoveOp(l) => r := Remove(l);
        case SyncOp(f, t) => r := SyncBoth(f, t);
        case TickOp => TickLit();
      }
      forall l: int, it | Spares(op, l) && old(Lit(l, it))
        ensures Lit(l, Aged(it, op))
      {
        ApplyKeepsLone(es, op, l, it);
        assert !op.TickOp? ==> vmem[2 * l] == v[2 * l];
      }
    }

    /** A tick keeps every lone displayed entry displayed. */
    method TickLit()
      requires Valid()
      modifies pool, vmem
      ensures Valid() && Entries() == Apply(old(Entries()), TickOp)
      ensures forall l: int, it :: old(Lit(l, it)) ==> vmem[2 * l] == Shown(Tick(it))
    {
      ghost var s, v0 := Now(), vmem[..];
      Tasklet();
      forall l: int, it | old(Lit(l, it))
        ensures vmem[2 * l] == Shown(Tick(it))
      {
        LoneStaysDisplayed(s, v0, vmem[..], l, it);
      }
    }

    /** Over every run of adds at non-zero locations, removals, syncs and ticks, pool and list stay consistent and
        hold exactly the entries of a plain list, and every lone entry that the run spares stays displayed. */
    method PerformAll(ops: seq<Op>)
      requires Valid() && forall op :: op in ops && op.AddOp? ==> op.item.location != 0
      modifies this`head, this`order, this`rank, pool, vmem
      ensures Valid() && Entries() == ApplyAll(old(Entries()), ops)
      ensures forall l: int, it :: SparesAll(ops, l) && old(Lit(l, it)) ==> Lit(l, Ticks(it, TicksIn(ops)))
    {
      for n := 0 to |ops|
        invariant Valid() && Entries() == ApplyAll(old(Entries()), ops[..n])
        invariant forall l: int, it :: SparesAll(ops, l) && old(Lit(l, it)) ==> Lit(l, Ticks(it, TicksIn(ops[..n])))
      {
        assert ops[..n + 1][..n] == ops[..n];
        Perform(ops[n]);
        forall l: int, it | SparesAll(ops, l) && old(Lit(l, it))
          ensures Lit(l, Ticks(it, TicksIn(ops[..n + 1])))
        {
          TicksSnoc(it, ops, n);
        }
      }
      assert ops[..|ops|] == ops;
    }

    /** An entry added where no other entry is, followed by any run that spares its location, shows its on character
        exactly when n mod (a + b) < a, where n is the number of ticks in the run and a and b are the ticks that its
        two lengths hold. */
    method AddAndRun(it: Item, ops: seq<Op>) returns (r: int)
      requires Valid() && 0 < it.location < SCREEN
      requires forall i :: 0 <= i < |order| ==> Entries()[i].location != it.location
      requires SparesAll(ops, it.location) && forall op :: op in ops && op.AddOp? ==> op.item.location != 0
      modifies this`head, this`order, this`rank, pool, vmem
      ensures Valid() && vmem.Length == 2 * SCREEN
      ensures r == 0 ==> Entries() == ApplyAll(old(Entries()) + [Started(it)], ops)
      ensures r == 0 ==> vmem[2 * it.location] == Due(it, TicksIn(ops))
      ensures r == 0 && 1 <= it.onLength <= 0x8000 && 1 <= it.offLength <= 0x8000 ==>
        vmem[2 * it.location] == if TicksIn(ops) % (it.onLength + it.offLength) < it.onLength then it.onChar else it.offChar
    {
      ghost var n := |order|;
      r := AddEntry(it);
      if r == 0 {
        LoneIs(Entries(), n, it.location, Started(it));
        assert Lit(it.location, Started(it));
        OnExactlyWhen(it, TicksIn(ops));
        if 1 <= it.onLength <= 0x8000 && 1 <= it.offLength <= 0x8000 {
          DueIsPlain(it, TicksIn(ops));
        }
        PerformAll(ops);
      }
    }
  }
}
