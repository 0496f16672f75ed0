/** When pool and list of fish/blink.S and fish/fish.c are consistent, on plain values. */
module BlinkPool {
  import opened BlinkTiming
  import opened Bytes

  const NULL := -1

  /** A pool slot; `next` is the index of the next list node, or NULL. */
  datatype Slot = Slot(item: Item, next: int)

  const ZERO := Slot(Item(0, 0, 0, 0, 0, 0, 0), NULL)

  /** `order` lists the nodes, oldest first, and `rank` gives the position of a listed slot in it. */
  datatype State = State(pool: seq<Slot>, head: int, order: seq<int>, rank: seq<int>) {
    /** The node at position `i` of `order`, NULL before the first. */
    function NodeAt(i: int): int
      requires i < |order|
    {
      if 0 <= i then order[i] else NULL
    }

    predicate Sized() {
      |pool| == |rank| == SCREEN
    }

    ghost predicate Nodes() {
      Sized() && forall i :: 0 <= i < |order| ==> 0 <= order[i] < SCREEN && rank[order[i]] == i
    }

    predicate Listed(p: int)
      requires Sized() && 0 <= p < SCREEN
    {
      0 <= rank[p] < |order| && order[rank[p]] == p
    }

    /** Following the pointers from the head visits `order` backwards, without repeats, and ends. */
    ghost predicate Linked() {
      && Nodes() && head == NodeAt(|order| - 1)
      && forall i :: 0 <= i < |order| ==> PointsBack(i)
    }

    /** A node points to the one added just before it. */
    ghost predicate PointsBack(i: int)
      requires Nodes() && 0 <= i < |order|
    {
      pool[order[i]].next == NodeAt(i - 1)
    }

    /** The listed nodes are exactly the slots in use. */
    ghost predicate Covers()
      requires Sized()
    {
      forall p :: 0 <= p < SCREEN ==> (pool[p].item.location != 0 <==> Listed(p))
    }

    ghost predicate OnScreen() {
      forall p :: 0 <= p < |pool| ==> pool[p].item.location < SCREEN
    }

    ghost predicate Consistent() {
      Linked() && Covers() && OnScreen()
    }

    /** The abstract list: the entries, oldest first. */
    ghost function Entries(): (r: seq<Item>)
      requires Nodes()
      ensures |r| == |order|
    {
      seq(|order|, i requires 0 <= i < |order| => pool[order[i]].item)
    }

    /** Pushing a node. */
    function Added(p: int, it: Item): State
      requires Sized() && 0 <= p < SCREEN
    {
      State(pool[p := Slot(it, head)], p, order + [p], rank[p := |order|])
    }

    /** Unlinking the node at position `k`. */
    ghost function Removed(k: int): State
      requires Nodes() && 0 <= k < |order|
    {
      var p := order[k];
      var linked := if k == |order| - 1 then pool else pool[order[k + 1] := pool[order[k + 1]].(next := pool[p].next)];
      State(linked[p := ZERO], if k == |order| - 1 then pool[p].next else head,
            order[..k] + order[k + 1..],
            seq(SCREEN, q requires 0 <= q < SCREEN =>
              if q == p then NULL else if rank[q] > k then rank[q] - 1 else rank[q]))
    }
  }

  /** The list has no repeated node. */
  lemma NoRepeats(s: State, i: int, j: int)
    requires s.Nodes() && 0 <= i < j < |s.order|
    ensures s.order[i] != s.order[j]
  {
  }

  lemma AddNodes(s: State, p: int, it: Item)
    requires s.Nodes() && 0 <= p < SCREEN && !s.Listed(p)
    ensures s.Added(p, it).Nodes() && s.Added(p, it).Entries() == s.Entries() + [it]
  {
    assert forall i :: 0 <= i < |s.order| ==> s.order[i] != p;
  }

  lemma AddLinked(s: State, p: int, it: Item)
    requires s.Linked() && 0 <= p < SCREEN && !s.Listed(p)
    ensures s.Added(p, it).Linked()
  {
    AddNodes(s, p, it);
    assert forall i :: 0 <= i < |s.order| ==> s.order[i] != p;
    assert forall i :: 0 <= i < |s.order| && s.PointsBack(i) ==> s.Added(p, it).PointsBack(i);
  }

  lemma AddCovers(s: State, p: int, it: Item)
    requires s.Nodes() && s.Covers() && 0 <= p < SCREEN && !s.Listed(p)
    ensures s.Added(p, it).Covers() <==> it.location != 0
  {
    var t := s.Added(p, it);
    assert t.Listed(p);
    assert forall q :: 0 <= q < SCREEN && q != p ==> (t.Listed(q) <==> s.Listed(q));
  }

  /** A slot taken from the free ones and pushed keeps the state consistent if and only if its location is not 0. */
  lemma AddConsistentIff(s: State, p: int, it: Item)
    requires s.Consistent() && 0 <= p < SCREEN && s.pool[p].item.location == 0 && it.location < SCREEN
    ensures s.Added(p, it).Consistent() <==> it.location != 0
    ensures s.Added(p, it).Linked() && s.Added(p, it).Entries() == s.Entries() + [it]
  {
    AddNodes(s, p, it);
    AddLinked(s, p, it);
    AddCovers(s, p, it);
  }

  /** With a free slot at the head of the list, no list at all is consistent with the pool. */
  lemma FreeHeadIsInconsistent(s: State)
    requires s.Sized() && 0 <= s.head < SCREEN && s.pool[s.head].item.location == 0
    ensures forall order, rank :: !State(s.pool, s.head, order, rank).Consistent()
  {
    forall order, rank
      ensures !State(s.pool, s.head, order, rank).Consistent()
    {
      var t := State(s.pool, s.head, order, rank);
      if t.Linked() {
        assert t.order[|t.order| - 1] == t.head && t.Listed(t.head);
      }
    }
  }

  lemma RemoveNodes(s: State, k: int)
    requires s.Nodes() && 0 <= k < |s.order|
    ensures s.Removed(k).Nodes()
    ensures s.Removed(k).Entries() == Without(s.Entries(), k)
  {
    var t := s.Removed(k);
    assert forall i :: 0 <= i < |t.order| ==> t.order[i] == s.order[if i < k then i else i + 1];
  }

  lemma RemoveLinked(s: State, k: int)
    requires s.Linked() && 0 <= k < |s.order|
    ensures s.Removed(k).Linked()
  {
    RemoveNodes(s, k);
    var t := s.Removed(k);
    var n := |t.order| - 1;
    assert s.PointsBack(k);
    assert n >= 0 ==> t.order[n] == s.order[if n < k then n else n + 1];
    assert t.head == t.NodeAt(n);
    forall i | 0 <= i < |t.order|
      ensures t.PointsBack(i)
    {
      assert s.PointsBack(if i < k then i else i + 1) && s.PointsBack(k);
      assert t.order[i] == s.order[if i < k then i else i + 1];
    }
  }

  lemma RemoveCovers(s: State, k: int)
    requires s.Nodes() && s.Covers() && 0 <= k < |s.order|
    ensures s.Removed(k).Covers()
  {
    var t := s.Removed(k);
    forall q | 0 <= q < SCREEN
      ensures t.pool[q].item.location != 0 <==> t.Listed(q)
    {
      if q != s.order[k] && s.Listed(q) {
        assert t.order[t.rank[q]] == q;
      }
    }
  }

  lemma RemoveConsistent(s: State, k: int)
    requires s.Consistent() && 0 <= k < |s.order|
    ensures s.Removed(k).Consistent()
    ensures s.Removed(k).Entries() == Without(s.Entries(), k)
  {
    RemoveNodes(s, k);
    RemoveLinked(s, k);
    RemoveCovers(s, k);
  }

  /** Position `k` holds the most recently added entry with a location, or is -1 when there is none. */
  ghost predicate IsFind(s: State, location: int, k: int)
    requires s.Nodes()
  {
    && -1 <= k < |s.order|
    && (k >= 0 ==> s.pool[s.order[k]].item.location == location)
    && forall i :: k < i < |s.order| ==> s.pool[s.order[i]].item.location != location
  }

  lemma FindIsUnique(s: State, location: int, k: int, j: int)
    requires s.Nodes() && IsFind(s, location, k) && IsFind(s, location, j)
    ensures k == j
  {
  }

  lemma StepBack(s: State, k: int)
    requires s.Linked() && 0 <= k < |s.order|
    ensures 0 <= s.order[k] < SCREEN && s.pool[s.order[k]].next == s.NodeAt(k - 1)
    ensures k > 0 ==> 0 <= s.order[k - 1] < SCREEN
  {
    assert s.PointsBack(k);
  }

  lemma SamePosition(s: State, k: int, j: int)
    requires s.Nodes() && 0 <= k < |s.order| && 0 <= j < |s.order| && s.order[k] == s.order[j]
    ensures k == j
  {
  }

  /** Replacing the entry at position `k` by one with the same location keeps the state consistent. */
  lemma ReplaceConsistent(s: State, k: int, it: Item)
    requires s.Consistent() && 0 <= k < |s.order| && it.location == s.pool[s.order[k]].item.location
    ensures var t := s.(pool := s.pool[s.order[k] := s.pool[s.order[k]].(item := it)]);
      t.Consistent() && t.Entries() == s.Entries()[k := it]
  {
    var p := s.order[k];
    var t := s.(pool := s.pool[p := s.pool[p].(item := it)]);
    assert forall i :: 0 <= i < |s.order| && i != k ==> s.order[i] != p;
    assert forall q :: 0 <= q < SCREEN ==> t.Listed(q) == s.Listed(q) && t.pool[q].next == s.pool[q].next;
    assert forall i :: 0 <= i < |s.order| && s.PointsBack(i) ==> t.PointsBack(i);
  }

  /** No other entry uses the location of the one at position `i`. */
  ghost predicate Alone(s: State, i: int)
    requires s.Nodes() && 0 <= i < |s.order|
  {
    forall j :: 0 <= j < |s.order| && j != i ==> s.pool[s.order[j]].item.location != s.pool[s.order[i]].item.location
  }

  /** A slot after the tasklet has passed it. */
  function Passed(slot: Slot): Slot {
    slot.(item := Tick(slot.item))
  }

  /** The pool when the tasklet has passed the nodes above position `k`. */
  ghost predicate PartlyTicked(s: State, pool: seq<Slot>, k: int)
    requires s.Sized()
  {
    |pool| == SCREEN && forall p :: 0 <= p < SCREEN ==>
      pool[p] == if s.Listed(p) && s.rank[p] > k then Passed(s.pool[p]) else s.pool[p]
  }

  lemma PassNode(s: State, pool: seq<Slot>, k: int)
    requires s.Nodes() && 0 <= k < |s.order| && PartlyTicked(s, pool, k)
    ensures PartlyTicked(s, pool[s.order[k] := Passed(pool[s.order[k]])], k - 1)
  {
    assert s.Listed(s.order[k]);
  }

  /** After the whole pass the state is consistent and every entry has advanced by one tick. */
  lemma PassedConsistent(s: State, pool: seq<Slot>)
    requires s.Consistent() && PartlyTicked(s, pool, -1)
    ensures s.(pool := pool).Consistent()
    ensures s.(pool := pool).Entries() == Apply(s.Entries(), TickOp)
  {
    var t := s.(pool := pool);
    assert forall i :: 0 <= i < |s.order| ==> s.Listed(s.order[i]);
    assert forall p :: 0 <= p < SCREEN ==> t.Listed(p) == s.Listed(p);
    assert forall i :: 0 <= i < |s.order| && s.PointsBack(i) ==> t.PointsBack(i);
  }

  /** The video byte of the entry at position `i`. */
  function Cell(s: State, i: int, v: seq<byte>): byte
    requires 0 <= i < |s.order| && 0 <= s.order[i] < |s.pool| && 2 * s.pool[s.order[i]].item.location < |v|
  {
    v[2 * s.pool[s.order[i]].item.location]
  }

  /** Every entry that is alone on its location and was displayed stays displayed, when the tasklet has passed
      the nodes above position `k`. */
  ghost predicate StaysDisplayed(s: State, v0: seq<byte>, v: seq<byte>, k: int)
    requires s.Nodes() && s.OnScreen() && |v0| == |v| == 2 * SCREEN
  {
    forall i :: 0 <= i < |s.order| && Alone(s, i) && Cell(s, i, v0) == Shown(s.pool[s.order[i]].item) ==>
      Cell(s, i, v) == Shown(if i > k then Tick(s.pool[s.order[i]].item) else s.pool[s.order[i]].item)
  }

  lemma PassDisplay(s: State, v0: seq<byte>, v: seq<byte>, k: int)
    requires s.Nodes() && s.OnScreen() && |v0| == |v| == 2 * SCREEN && 0 <= k < |s.order| && StaysDisplayed(s, v0, v, k)
    ensures var it := s.pool[s.order[k]].item;
      StaysDisplayed(s, v0, if Expires(it) then v[2 * it.location := Shown(Tick(it))] else v, k - 1)
  {
  }

  /** Once the whole pass is over, a lone displayed entry is still displayed. */
  lemma LoneStaysDisplayed(s: State, v0: seq<byte>, v: seq<byte>, l: int, it: Item)
    requires s.Consistent() && |v0| == |v| == 2 * SCREEN && StaysDisplayed(s, v0, v, -1)
    requires 0 <= l < SCREEN && Lone(s.Entries(), l, it) && v0[2 * l] == Shown(it)
    ensures v[2 * l] == Shown(Tick(it))
  {
    var es := s.Entries();
    var k := LastAt(es, l);
    forall j | 0 <= j < |s.order|
      ensures s.pool[s.order[j]].item == es[j]
    {
    }
    assert Alone(s, k) && Cell(s, k, v0) == Shown(s.pool[s.order[k]].item);
  }

  /** What mp1_find_helper finds is `LastAt` of the abstract list. */
  lemma FindIsLastAt(s: State, location: int, k: int)
    requires s.Nodes() && IsFind(s, location, k)
    ensures k == LastAt(s.Entries(), location)
  {
    var j := LastAt(s.Entries(), location);
    assert forall i :: 0 <= i < |s.order| ==> s.Entries()[i] == s.pool[s.order[i]].item;
    FindIsUnique(s, location, k, j);
  }

  /** The slots of the first n nodes, as a set. */
  lemma {:induction false} UsedSlots(s: State, n: nat) returns (used: set<int>)
    requires s.Nodes() && n <= |s.order|
    ensures |used| == n
    ensures forall p :: p in used <==> 0 <= p < SCREEN && s.Listed(p) && s.rank[p] < n
  {
    used := {};
    if n > 0 {
      used := UsedSlots(s, n - 1);
      var p := s.order[n - 1];
      assert s.Listed(p) && p !in used;
      used := used + {p};
    }
  }

  lemma {:induction false} SlotsBelow(n: nat) returns (all: set<int>)
    ensures |all| == n && forall p :: p in all <==> 0 <= p < n
  {
    all := {};
    if n > 0 {
      all := SlotsBelow(n - 1);
      all := all + {n - 1};
    }
  }

  /** The list holds at most 2000 entries, and exactly 2000 when every slot is listed. */
  lemma FullExactlyWhen(s: State)
    requires s.Nodes()
    ensures |s.order| <= SCREEN
    ensures |s.order| == SCREEN <==> forall p :: 0 <= p < SCREEN ==> s.Listed(p)
  {
    var used := UsedSlots(s, |s.order|);
    var all := SlotsBelow(SCREEN);
    assert forall p :: p in used ==> p in all;
    AllUsed(used, all);
    if |s.order| == SCREEN {
      forall p | 0 <= p < SCREEN
        ensures s.Listed(p)
      {
        assert p in all;
      }
    }
    if forall p :: 0 <= p < SCREEN ==> s.Listed(p) {
      assert forall p :: p in all ==> s.Listed(p);
    }
  }

  lemma AllUsed(used: set<int>, all: set<int>)
    requires used <= all
    ensures |used| <= |all| && (|used| == |all| <==> forall p :: p in all ==> p in used)
  {
    assert |all - used| == |all| - |used|;
    if forall p :: p in all ==> p in used {
      assert all == used;
    }
    if |used| == |all| {
      assert all - used == {};
    }
  }
}
