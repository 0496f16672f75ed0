/** One blinking character (struct mp1_blink_struct of fish/blink.h) and what
    the timer tasklet of fish/blink.S does to it. */
module BlinkTiming {
  import opened Bytes

  type word = x: int | 0 <= x < 0x1_0000

  datatype Item = Item(
    location: word, onChar: byte, offChar: byte,
    onLength: word, offLength: word, countdown: word, status: word)

  /** A 16-bit word as the signed comparison `jg` sees it. */
  function Signed(w: word): int {
    if w < 0x8000 then w else w - 0x1_0000
  }

  /** The countdown after `decw`. */
  function Decremented(w: word): word {
    if w == 0 then 0xFFFF else w - 1
  }

  predicate On(it: Item) {
    it.status % 2 == 1
  }

  /** The status after `xorw $1`. */
  function Flipped(status: word): word {
    if status % 2 == 1 then status - 1 else status + 1
  }

  /** The countdown runs out on this tick. */
  predicate Expires(it: Item) {
    Signed(Decremented(it.countdown)) <= 0
  }

  /** One tick: when the countdown runs out, the other character's length is loaded and the status flips. */
  function Tick(it: Item): Item {
    if !Expires(it) then it.(countdown := Decremented(it.countdown))
    else it.(countdown := if On(it) then it.offLength else it.onLength, status := Flipped(it.status))
  }

  /** The character that belongs on the screen. */
  function Shown(it: Item): byte {
    if On(it) then it.onChar else it.offChar
  }

  function Ticks(it: Item, n: nat): Item {
    if n == 0 then it else Tick(Ticks(it, n - 1))
  }

  lemma {:induction false} TicksKeepLocation(it: Item, n: nat)
    ensures var r := Ticks(it, n);
      r.location == it.location && r.onChar == it.onChar && r.offChar == it.offChar &&
      r.onLength == it.onLength && r.offLength == it.offLength
  {
    if n > 0 {
      TicksKeepLocation(it, n - 1);
    }
  }

  /** An entry as mp1_ioctl_add stores it. */
  function Started(it: Item): Item {
    it.(status := 1, countdown := it.onLength)
  }

  lemma ModIs(n: nat, p: nat, q: nat, r: nat)
    requires r < p && n == q * p + r
    ensures n % p == r
  {
    var k := n / p - q;
    assert k * p == r - n % p;
    assert k >= 1 ==> k * p >= p;
    assert k <= -1 ==> k * p <= -1 * p;
  }

  /** For how many ticks a length holds its character. The countdown is compared as a signed word after the
      decrement, so a length of 0 or above 0x8000 runs out at the first tick. */
  function Held(length: word): (n: nat)
    ensures n > 0
  {
    if 1 <= length <= 0x8000 then length else 1
  }

  function Cycle(it: Item): (n: nat)
    ensures n > 0
  {
    Held(it.onLength) + Held(it.offLength)
  }

  /** An entry `m` ticks into its cycle. */
  function InCycle(it: Item, m: nat): Item
    requires m < Cycle(it)
  {
    if m < Held(it.onLength) then it.(status := 1, countdown := it.onLength - m)
    else it.(status := 0, countdown := it.offLength - (m - Held(it.onLength)))
  }

  lemma CycleStep(it: Item, m: nat)
    requires m < Cycle(it)
    ensures Tick(InCycle(it, m)) == InCycle(it, if m + 1 == Cycle(it) then 0 else m + 1)
  {
  }

  /** How far into a cycle of `p` ticks tick `n` is. */
  function Phase(n: nat, p: nat): (m: nat)
    requires p > 0
    ensures m < p
  {
    if n == 0 then 0 else if Phase(n - 1, p) + 1 == p then 0 else Phase(n - 1, p) + 1
  }

  /** Tick `n` lies in some whole number of cycles and the phase. */
  lemma {:induction false} PhaseSplits(n: nat, p: nat) returns (q: nat)
    requires p > 0
    ensures n == q * p + Phase(n, p)
  {
    q := 0;
    if n > 0 {
      q := PhaseSplits(n - 1, p);
      if Phase(n, p) == 0 {
        assert (q + 1) * p == q * p + p;
        q := q + 1;
      }
    }
  }

  lemma PhaseIsMod(n: nat, p: nat)
    requires p > 0
    ensures Phase(n, p) == n % p
  {
    var q := PhaseSplits(n, p);
    ModIs(n, p, q, Phase(n, p));
  }

  /** The closed form of the timer, for all 16-bit lengths: on for its on length, then off for its off length, for ever. */
  lemma {:induction false} BlinksInPhase(it: Item, n: nat)
    ensures Ticks(Started(it), n) == InCycle(it, Phase(n, Cycle(it)))
  {
    if n > 0 {
      BlinksInPhase(it, n - 1);
      CycleStep(it, Phase(n - 1, Cycle(it)));
    }
  }

  /** The character due `n` ticks after an entry was added. */
  function Due(it: Item, n: nat): byte {
    if n % Cycle(it) < Held(it.onLength) then it.onChar else it.offChar
  }

  /** For lengths from 1 to 0x8000 this is the plain rule. */
  lemma DueIsPlain(it: Item, n: nat)
    requires 1 <= it.onLength <= 0x8000 && 1 <= it.offLength <= 0x8000
    ensures Due(it, n) == if n % (it.onLength + it.offLength) < it.onLength then it.onChar else it.offChar
  {
    assert Cycle(it) == it.onLength + it.offLength && Held(it.onLength) == it.onLength;
  }

  /** Lengths of 0 and above 0x8000 hold for one tick each. */
  lemma DueIsOneTick(it: Item, n: nat)
    requires (it.onLength == 0 || it.onLength > 0x8000) && (it.offLength == 0 || it.offLength > 0x8000)
    ensures Due(it, n) == if n % 2 == 0 then it.onChar else it.offChar
  {
  }

  /** The on character is due after n ticks exactly when n mod (a + b) < a, where a and b are the ticks that the two
      lengths hold. */
  lemma OnExactlyWhen(it: Item, n: nat)
    ensures Shown(Ticks(Started(it), n)) == Due(it, n)
  {
    BlinksInPhase(it, n);
    PhaseIsMod(n, Cycle(it));
  }

  /** The timing fields that mp1_ioctl_sync copies. */
  function Synced(to: Item, from: Item): Item {
    to.(onLength := from.onLength, offLength := from.offLength, countdown := from.countdown, status := from.status)
  }

  /** Two entries just synced stay in step at every later tick, whatever their lengths. */
  lemma {:induction false} SyncedStayInStep(to: Item, from: Item, n: nat)
    ensures Ticks(Synced(to, from), n) == Synced(to, Ticks(from, n))
    ensures var r, f := Ticks(Synced(to, from), n), Ticks(from, n);
      && r.countdown == f.countdown && r.status == f.status && r.onLength == from.onLength && r.offLength == from.offLength
      && r.location == to.location && r.onChar == to.onChar && r.offChar == to.offChar
  {
    if n > 0 {
      SyncedStayInStep(to, from, n - 1);
    }
    TicksKeepLocation(from, n);
  }

  // ---- A blink list as a plain list of entries, oldest first ----------------------

  datatype Op = AddOp(item: Item) | RemoveOp(location: word) | SyncOp(from: word, to: word) | TickOp

  /** The position of the most recently added entry at a location, -1 when there is none. */
  function LastAt(es: seq<Item>, location: int): (k: int)
    ensures -1 <= k < |es|
    ensures k >= 0 ==> es[k].location == location
    ensures forall i :: k < i < |es| ==> es[i].location != location
  {
    LastBelow(es, location, |es|)
  }

  /** The same among the first `n` entries. */
  function LastBelow(es: seq<Item>, location: int, n: nat): (k: int)
    requires n <= |es|
    ensures -1 <= k < n
    ensures k >= 0 ==> es[k].location == location
    ensures forall i :: k < i < n ==> es[i].location != location
  {
    if n == 0 then -1 else if es[n - 1].location == location then n - 1 else LastBelow(es, location, n - 1)
  }

  /** A list without the entry at position `k`. */
  function Without(es: seq<Item>, k: int): seq<Item>
    requires 0 <= k < |es|
  {
    es[..k] + es[k + 1..]
  }

  /** The list holds at most 2000 entries; removal takes out the most recently added entry at a location. */
  function Apply(es: seq<Item>, op: Op): seq<Item> {
    match op
    case AddOp(it) => if it.location < SCREEN && |es| < SCREEN then es + [Started(it)] else es
    case RemoveOp(l) => var k := LastAt(es, l); if k < 0 then es else Without(es, k)
    case SyncOp(f, t) =>
      var i, j := LastAt(es, f), LastAt(es, t);
      if i < 0 || j < 0 then es else es[j := Synced(es[j], es[i])]
    case TickOp => seq(|es|, i requires 0 <= i < |es| => Tick(es[i]))
  }

  /** `r` is `es` without its entry at position `k`, which is the last one at location `l`; all others keep their order. */
  ghost predicate TakenOut(es: seq<Item>, k: int, l: word, r: seq<Item>) {
    && 0 <= k < |es| && es[k].location == l && |r| == |es| - 1
    && (forall i :: k < i < |es| ==> es[i].location != l)
    && (forall i :: 0 <= i < |r| ==> r[i] == es[if i < k then i else i + 1])
  }

  /** A removal takes out exactly one entry, the last one at its location, when there is one. */
  lemma RemoveTakesOne(es: seq<Item>, l: word)
    ensures var r := Apply(es, RemoveOp(l));
      if exists i :: 0 <= i < |es| && es[i].location == l then exists k :: TakenOut(es, k, l, r) else r == es
  {
    var k := LastAt(es, l);
    if k >= 0 {
      assert TakenOut(es, k, l, Apply(es, RemoveOp(l)));
    }
  }

  function ApplyAll(es: seq<Item>, ops: seq<Op>): seq<Item> {
    if ops == [] then es else Apply(ApplyAll(es, ops[..|ops| - 1]), ops[|ops| - 1])
  }

  // ---- An entry that is alone on its location ---------------------------------------

  /** The only entry at location `l` is `it`. */
  ghost predicate Lone(es: seq<Item>, l: int, it: Item) {
    var k := LastAt(es, l);
    k >= 0 && es[k] == it && forall i :: 0 <= i < |es| && i != k ==> es[i].location != l
  }

  lemma LoneIs(es: seq<Item>, k: nat, l: int, it: Item)
    requires k < |es| && es[k] == it && it.location == l && forall i :: 0 <= i < |es| && i != k ==> es[i].location != l
    ensures Lone(es, l, it)
  {
  }

  /** An operation that neither adds at location `l`, nor removes there, nor syncs the entry there. */
  predicate Spares(op: Op, l: int) {
    match op
    case AddOp(it) => it.location != l
    case RemoveOp(m) => m != l
    case SyncOp(_, t) => t != l
    case TickOp => true
  }

  ghost predicate SparesAll(ops: seq<Op>, l: int) {
    forall op :: op in ops ==> Spares(op, l)
  }

  /** What an operation that spares an entry makes of it: only a tick counts. */
  function Aged(it: Item, op: Op): Item {
    if op.TickOp? then Tick(it) else it
  }

  lemma ApplyKeepsLone(es: seq<Item>, op: Op, l: int, it: Item)
    requires Lone(es, l, it) && Spares(op, l)
    ensures Lone(Apply(es, op), l, Aged(it, op))
  {
    var k, r := LastAt(es, l), Apply(es, op);
    match op
    case AddOp(_) => LoneIs(r, k, l, it);
    case RemoveOp(m) =>
      var j := LastAt(es, m);
      if j >= 0 {
        WithoutKeepsLone(es, j, l, it);
      }
    case SyncOp(_, _) => LoneIs(r, k, l, it);
    case TickOp => LoneIs(r, k, l, Tick(it));
  }

  lemma WithoutKeepsLone(es: seq<Item>, j: nat, l: int, it: Item)
    requires Lone(es, l, it) && j < |es| && es[j].location != l
    ensures Lone(Without(es, j), l, it)
  {
    var k, r := LastAt(es, l), Without(es, j);
    assert forall i :: 0 <= i < |r| ==> r[i] == es[if i < j then i else i + 1];
    LoneIs(r, if k < j then k else k - 1, l, it);
  }

  function TicksIn(ops: seq<Op>): nat {
    if ops == [] then 0 else TicksIn(ops[..|ops| - 1]) + if ops[|ops| - 1].TickOp? then 1 else 0
  }

  lemma TicksSnoc(it: Item, ops: seq<Op>, n: nat)
    requires n < |ops|
    ensures Ticks(it, TicksIn(ops[..n + 1])) == Aged(Ticks(it, TicksIn(ops[..n])), ops[n])
  {
    assert ops[..n + 1][..n] == ops[..n];
  }

  /** Over every run that spares location `l`, the lone entry there stays the only one and counts exactly the ticks,
      whatever else is added, removed or synced. */
  lemma {:induction false} LoneRun(es: seq<Item>, ops: seq<Op>, l: int, it: Item)
    requires Lone(es, l, it) && SparesAll(ops, l)
    ensures Lone(ApplyAll(es, ops), l, Ticks(it, TicksIn(ops)))
  {
    if ops != [] {
      var before, n := ops[..|ops| - 1], TicksIn(ops[..|ops| - 1]);
      LoneRun(es, before, l, it);
      ApplyKeepsLone(ApplyAll(es, before), ops[|ops| - 1], l, Ticks(it, n));
    }
  }

  /** Two entries just synced keep equal countdown, status and lengths over every run that spares both of them, and each
      keeps its own two characters. */
  lemma SyncedRun(es: seq<Item>, f: word, t: word, from: Item, to: Item, ops: seq<Op>)
    requires f != t && Lone(es, f, from) && Lone(es, t, to)
    requires SparesAll(ops, f) && SparesAll(ops, t)
    ensures var r, now := ApplyAll(Apply(es, SyncOp(f, t)), ops), Ticks(from, TicksIn(ops));
      Lone(r, f, now) && Lone(r, t, Synced(to, now)) &&
      Synced(to, now) == Item(to.location, to.onChar, to.offChar, now.onLength, now.offLength, now.countdown, now.status) &&
      now.onChar == from.onChar && now.offChar == from.offChar
  {
    var synced := Apply(es, SyncOp(f, t));
    ApplyKeepsLone(es, SyncOp(f, t), f, from);
    LoneIs(synced, LastAt(es, t), t, Synced(to, from));
    LoneRun(synced, ops, f, from);
    LoneRun(synced, ops, t, Synced(to, from));
    SyncedStayInStep(to, from, TicksIn(ops));
    TicksKeepLocation(from, TicksIn(ops));
  }
}
