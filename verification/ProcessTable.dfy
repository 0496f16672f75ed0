/** The process table of student-distrib/systemcalls.c as three stacks of process
    ids, one for each terminal. */
module ProcessTable {

  const SLOTS := 6
  const TERMINALS := 3

  /** The first free slot, -1 when all are taken. */
  function FirstFree(occupied: seq<bool>): (p: int)
    ensures -1 <= p < |occupied|
    ensures p >= 0 ==> !occupied[p] && forall i :: 0 <= i < p ==> occupied[i]
    ensures p == -1 ==> forall i :: 0 <= i < |occupied| ==> occupied[i]
  {
    if occupied == [] then -1
    else if !occupied[0] then 0
    else if FirstFree(occupied[1..]) < 0 then -1 else 1 + FirstFree(occupied[1..])
  }

  /** Process `p` on top of chain `t`. */
  function Pushed(chains: seq<seq<int>>, t: int, p: int): seq<seq<int>>
    requires 0 <= t < |chains|
  {
    chains[t := chains[t] + [p]]
  }

  /** Chain `t` without its top. */
  function Popped(chains: seq<seq<int>>, t: int): seq<seq<int>>
    requires 0 <= t < |chains| && chains[t] != []
  {
    chains[t := chains[t][..|chains[t]| - 1]]
  }

  lemma PoppedPushed(chains: seq<seq<int>>, t: int, p: int)
    requires 0 <= t < |chains|
    ensures Popped(Pushed(chains, t, p), t) == chains
  {
    var c := Pushed(chains, t, p);
    assert c[t][..|c[t]| - 1] == chains[t];
  }

  /** `occupied`, `previous` and `top` are pcb_occupants, process_previous and the process_num of each terminal.
      `chains[t]` lists the processes of terminal t from its root shell to the one running; `owner` and `depth`
      give the place of a process in the chains. */
  datatype Table = Table(
    occupied: seq<bool>, previous: seq<int>, top: seq<int>,
    chains: seq<seq<int>>, owner: seq<int>, depth: seq<int>)
  {
    predicate Sized() {
      |occupied| == |previous| == |owner| == |depth| == SLOTS && |top| == |chains| == TERMINALS
    }

    /** Process `p` stands in a chain. */
    predicate Placed(p: int)
      requires Sized() && 0 <= p < SLOTS
    {
      0 <= owner[p] < TERMINALS && 0 <= depth[p] < |chains[owner[p]]| && chains[owner[p]][depth[p]] == p
    }

    /** The entry at depth `i` of chain `t` is a process id whose only place this is. */
    predicate PlaceOk(t: int, i: int)
      requires Sized() && 0 <= t < TERMINALS && 0 <= i < |chains[t]|
    {
      var p := chains[t][i];
      0 <= p < SLOTS && owner[p] == t && depth[p] == i
    }

    /** process_previous leads one step down the chain. */
    predicate LinkOk(t: int, i: int)
      requires Sized() && 0 <= t < TERMINALS && 0 < i < |chains[t]|
    {
      0 <= chains[t][i] < SLOTS && previous[chains[t][i]] == chains[t][i - 1]
    }

    /** No process stands in two places. */
    ghost predicate Disjoint()
      requires Sized()
    {
      forall t, i :: 0 <= t < TERMINALS && 0 <= i < |chains[t]| ==> PlaceOk(t, i)
    }

    ghost predicate Chained()
      requires Sized()
    {
      forall t, i :: 0 <= t < TERMINALS && 0 < i < |chains[t]| ==> LinkOk(t, i)
    }

    /** The occupied slots are exactly the processes in the chains. */
    ghost predicate Covered()
      requires Sized()
    {
      forall p :: 0 <= p < SLOTS ==> (occupied[p] <==> Placed(p))
    }

    /** Terminals below `b` have their root shell t in slot t; the others have not started. */
    ghost predicate Rooted(b: int)
      requires Sized()
    {
      forall t :: 0 <= t < TERMINALS ==>
        if t < b then chains[t] != [] && chains[t][0] == t && top[t] == chains[t][|chains[t]| - 1] else chains[t] == []
    }

    /** The invariant when `b` root shells have booted. */
    ghost predicate Inv(b: int) {
      && Sized() && 0 <= b <= TERMINALS && Disjoint() && Chained() && Covered() && Rooted(b)
      && (b < TERMINALS ==> forall t :: 0 <= t < b ==> chains[t] == [t])
    }

    /** execute on terminal `t`, into slot `p`. */
    function Exec(t: int, p: int): Table
      requires Sized() && 0 <= t < TERMINALS && 0 <= p < SLOTS
    {
      Table(occupied[p := true], previous[p := top[t]], top[t := p],
            Pushed(chains, t, p), owner[p := t], depth[p := |chains[t]|])
    }

    /** Root shell `p` taken out of its slot. */
    function Freed(p: int): Table
      requires Sized() && 0 <= p < TERMINALS
    {
      this.(occupied := occupied[p := false], chains := chains[p := []], owner := owner[p := -1])
    }

    /** halt of the process on top of terminal `t`, which is not a root shell. */
    function Pop(t: int): Table
      requires Sized() && 0 <= t < TERMINALS && 0 <= top[t] < SLOTS && chains[t] != []
    {
      this.(occupied := occupied[top[t] := false], top := top[t := previous[top[t]]],
            chains := Popped(chains, t), owner := owner[top[t] := -1])
    }
  }

  /** The occupied slots are the disjoint union of the chains: a slot is taken exactly when it stands in some chain,
      and it stands in one place only. */
  lemma ChainsPartition(s: Table, b: int, p: int)
    requires s.Inv(b) && 0 <= p < SLOTS
    ensures s.occupied[p] <==> exists t, i :: 0 <= t < TERMINALS && 0 <= i < |s.chains[t]| && s.chains[t][i] == p
    ensures forall t, i, u, j ::
      0 <= t < TERMINALS && 0 <= i < |s.chains[t]| && 0 <= u < TERMINALS && 0 <= j < |s.chains[u]| ==>
      s.chains[t][i] == s.chains[u][j] ==> t == u && i == j
  {
    if t, i :| 0 <= t < TERMINALS && 0 <= i < |s.chains[t]| && s.chains[t][i] == p {
      assert s.PlaceOk(t, i) && s.Placed(p);
    }
    forall t, i, u, j | 0 <= t < TERMINALS && 0 <= i < |s.chains[t]| && 0 <= u < TERMINALS && 0 <= j < |s.chains[u]| &&
        s.chains[t][i] == s.chains[u][j]
      ensures t == u && i == j
    {
      assert s.PlaceOk(t, i) && s.PlaceOk(u, j);
    }
  }

  lemma ExecDisjoint(s: Table, t: int, p: int)
    requires s.Sized() && s.Disjoint() && 0 <= t < TERMINALS && 0 <= p < SLOTS && !s.Placed(p)
    ensures s.Exec(t, p).Disjoint()
  {
    var r := s.Exec(t, p);
    forall u, i | 0 <= u < TERMINALS && 0 <= i < |r.chains[u]|
      ensures r.PlaceOk(u, i)
    {
      if !(u == t && i == |s.chains[t]|) {
        assert r.chains[u][i] == s.chains[u][i] && s.PlaceOk(u, i);
      }
    }
  }

  lemma ExecChained(s: Table, t: int, p: int)
    requires s.Sized() && s.Disjoint() && s.Chained() && 0 <= t < TERMINALS && 0 <= p < SLOTS && !s.Placed(p)
    requires s.chains[t] != [] ==> s.top[t] == s.chains[t][|s.chains[t]| - 1]
    ensures s.Exec(t, p).Chained()
  {
    var r := s.Exec(t, p);
    forall u, i | 0 <= u < TERMINALS && 0 < i < |r.chains[u]|
      ensures r.LinkOk(u, i)
    {
      if !(u == t && i == |s.chains[t]|) {
        assert r.chains[u][i] == s.chains[u][i] && s.PlaceOk(u, i) && s.LinkOk(u, i);
        assert r.chains[u][i - 1] == s.chains[u][i - 1];
      }
    }
  }

  lemma ExecCovered(s: Table, t: int, p: int)
    requires s.Sized() && s.Covered() && 0 <= t < TERMINALS && 0 <= p < SLOTS && !s.Placed(p)
    ensures s.Exec(t, p).Covered()
  {
    var r := s.Exec(t, p);
    forall q | 0 <= q < SLOTS
      ensures r.occupied[q] <==> r.Placed(q)
    {
      if q != p && 0 <= s.owner[q] < TERMINALS {
        var c, d := s.chains[s.owner[q]], r.chains[s.owner[q]];
        assert r.owner[q] == s.owner[q] && r.depth[q] == s.depth[q];
        assert d == c || d == c + [p];
      }
    }
  }

  /** A successful execute keeps the invariant; on a terminal without a root shell it boots one. */
  lemma ExecInv(s: Table, b: int, t: int)
    requires s.Inv(b) && 0 <= t < TERMINALS && (b == TERMINALS || t == b) && FirstFree(s.occupied) >= 0
    ensures var p := FirstFree(s.occupied);
      s.Exec(t, p).Inv(if t == b then b + 1 else b) && (t == b ==> p == t)
  {
    var p := FirstFree(s.occupied);
    if t == b {
      BootSlot(s, b);
    }
    ExecDisjoint(s, t, p);
    ExecChained(s, t, p);
    ExecCovered(s, t, p);
  }

  /** While booting, the first free slot is the number of the next terminal. */
  lemma BootSlot(s: Table, b: int)
    requires s.Inv(b) && b < TERMINALS
    ensures FirstFree(s.occupied) == b
  {
    forall t | 0 <= t < b
      ensures s.occupied[t]
    {
      assert s.PlaceOk(t, 0);
      assert s.Placed(t);
    }
    assert forall u :: 0 <= u < TERMINALS ==> s.chains[u] == if u < b then [u] else [];
    assert !s.Placed(b);
  }

  lemma BootChains()
    ensures Pushed(Pushed(Pushed([[], [], []], 0, 0), 1, 1), 2, 2) == [[0], [1], [2]]
  {
    var none: seq<int> := [];
    assert none + [0] == [0] && none + [1] == [1] && none + [2] == [2];
    var a := Pushed([none, none, none], 0, 0);
    assert a == [[0], none, none];
    var b := Pushed(a, 1, 1);
    assert b == [[0], [1], none];
  }

  /** With the three root shells alone, slot 3 is the first free one. */
  lemma ThreeShells(s: Table)
    requires s.Inv(TERMINALS) && s.chains == [[0], [1], [2]]
    ensures FirstFree(s.occupied) == 3 && s.top == [0, 1, 2]
  {
    RootsTaken(s);
    assert !s.Placed(3);
  }

  /** Every root shell sits in its own slot, which is therefore taken. */
  lemma RootsTaken(s: Table)
    requires s.Inv(TERMINALS)
    ensures s.occupied[0] && s.occupied[1] && s.occupied[2]
    ensures s.owner[..3] == [0, 1, 2] && s.depth[..3] == [0, 0, 0]
  {
    assert s.PlaceOk(0, 0) && s.PlaceOk(1, 0) && s.PlaceOk(2, 0);
    assert s.Placed(0) && s.Placed(1) && s.Placed(2);
  }

  /** A process is a root shell exactly when its id is below 3. */
  lemma RootIff(s: Table, t: int, i: int)
    requires s.Inv(TERMINALS) && 0 <= t < TERMINALS && 0 <= i < |s.chains[t]|
    ensures 0 <= s.chains[t][i] < SLOTS
    ensures s.chains[t][i] < 3 <==> i == 0
  {
    RootsTaken(s);
    assert s.PlaceOk(t, i);
    assert forall q :: 0 <= q < 3 ==> s.depth[..3][q] == 0;
  }

  /** The top process of a terminal belongs to that terminal alone. */
  lemma TopIsHere(s: Table, t: int, u: int)
    requires s.Inv(TERMINALS) && 0 <= t < TERMINALS && 0 <= u < TERMINALS
    ensures 0 <= s.top[t] < SLOTS && s.occupied[s.top[t]]
    ensures s.top[t] == s.top[u] ==> t == u
  {
    assert s.PlaceOk(t, |s.chains[t]| - 1) && s.PlaceOk(u, |s.chains[u]| - 1);
    assert s.Placed(s.top[t]);
  }

  lemma PopInv(s: Table, t: int)
    requires s.Inv(TERMINALS) && 0 <= t < TERMINALS && s.top[t] >= 3
    ensures s.top[t] < SLOTS && s.Pop(t).Inv(TERMINALS)
    ensures |s.chains[t]| > 1 && s.previous[s.top[t]] == s.chains[t][|s.chains[t]| - 2]
  {
    var n := |s.chains[t]| - 1;
    TopIsHere(s, t, t);
    RootIff(s, t, n);
    assert s.LinkOk(t, n) && s.PlaceOk(t, n);
    PopDisjoint(s, t);
    PopChained(s, t);
    PopCovered(s, t);
  }

  lemma PopDisjoint(s: Table, t: int)
    requires s.Sized() && s.Disjoint() && 0 <= t < TERMINALS && s.chains[t] != []
    requires s.top[t] == s.chains[t][|s.chains[t]| - 1] && 0 <= s.top[t] < SLOTS
    ensures s.Pop(t).Disjoint()
  {
    var r := s.Pop(t);
    assert s.PlaceOk(t, |s.chains[t]| - 1);
    forall u, i | 0 <= u < TERMINALS && 0 <= i < |r.chains[u]|
      ensures r.PlaceOk(u, i)
    {
      assert r.chains[u][i] == s.chains[u][i] && s.PlaceOk(u, i);
    }
  }

  lemma PopChained(s: Table, t: int)
    requires s.Sized() && s.Chained() && 0 <= t < TERMINALS && s.chains[t] != [] && 0 <= s.top[t] < SLOTS
    ensures s.Pop(t).Chained()
  {
    var r := s.Pop(t);
    forall u, i | 0 <= u < TERMINALS && 0 < i < |r.chains[u]|
      ensures r.LinkOk(u, i)
    {
      assert r.chains[u][i] == s.chains[u][i] && r.chains[u][i - 1] == s.chains[u][i - 1] && s.LinkOk(u, i);
    }
  }

  lemma PopCovered(s: Table, t: int)
    requires s.Sized() && s.Disjoint() && s.Covered() && 0 <= t < TERMINALS && s.chains[t] != []
    requires s.top[t] == s.chains[t][|s.chains[t]| - 1] && 0 <= s.top[t] < SLOTS
    ensures s.Pop(t).Covered()
  {
    var r := s.Pop(t);
    var n := |s.chains[t]| - 1;
    assert s.PlaceOk(t, n);
    forall q | 0 <= q < SLOTS
      ensures r.occupied[q] <==> r.Placed(q)
    {
      if q != s.top[t] && s.owner[q] == t && 0 <= s.depth[q] < n {
        assert r.chains[t][s.depth[q]] == s.chains[t][s.depth[q]];
      }
    }
  }

  /** The chains alone determine which slots are taken and which process each terminal runs. */
  lemma ChainsDetermine(s: Table, r: Table, b: int)
    requires s.Inv(b) && r.Inv(b) && s.chains == r.chains
    ensures s.occupied == r.occupied
    ensures forall t :: 0 <= t < b ==> s.top[t] == r.top[t]
  {
    forall p | 0 <= p < SLOTS
      ensures s.occupied[p] == r.occupied[p]
    {
      if s.Placed(p) {
        assert r.PlaceOk(s.owner[p], s.depth[p]);
      }
      if r.Placed(p) {
        assert s.PlaceOk(r.owner[p], r.depth[p]);
      }
    }
  }

  /** What process_previous says about a root shell does not matter. */
  lemma RootPrevious(s: Table, p: int, q: int)
    requires s.Inv(TERMINALS) && 0 <= p < 3
    ensures s.(previous := s.previous[p := q]).Inv(TERMINALS)
  {
    var r := s.(previous := s.previous[p := q]);
    forall t, i | 0 <= t < TERMINALS && 0 < i < |r.chains[t]|
      ensures r.LinkOk(t, i)
    {
      RootIff(s, t, i);
      assert s.LinkOk(t, i);
    }
    forall t, i | 0 <= t < TERMINALS && 0 <= i < |r.chains[t]|
      ensures r.PlaceOk(t, i)
    {
      assert s.PlaceOk(t, i);
    }
    assert forall x :: 0 <= x < SLOTS ==> r.Placed(x) == s.Placed(x);
  }

  /** Freeing a root shell that is alone on its terminal and executing into its slot changes no chain. */
  lemma RestartTable(s: Table, p: int)
    requires s.Inv(TERMINALS) && 0 <= p < TERMINALS && s.chains[p] == [p]
    ensures s.Freed(p).Exec(p, p) == s.(previous := s.previous[p := p])
  {
    assert s.PlaceOk(p, 0) && s.Placed(p);
    assert s.Freed(p).chains[p] + [p] == s.chains[p];
    assert s.Freed(p).Exec(p, p).chains == s.chains;
    assert s.Freed(p).Exec(p, p).occupied == s.occupied;
  }
}
