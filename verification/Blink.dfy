/**
 The blinking characters of the fish program (fish/blink.S): a linked list threaded through a fixed
 pool of nodes, in which a node is free when its location is 0 (fish/fish.c, lines 161-176).
 */
module Blink {
  import opened FileSystem

  type word = x: int | 0 <= x < 0x1_0000

  const POOL := 80 * 25
  const NULL := -1

  /** struct mp1_blink_struct; `next` is an index into the pool, or NULL. */
  datatype Node = Node(
    location: word, onChar: byte, offChar: byte, onLength: word, offLength: word,
    countdown: word, status: word, next: int)

  const ZeroNode := Node(0, 0, 0, 0, 0, 0, 0, NULL)

  // ---- one node ----

  predicate IsOn(n: Node) { n.status % 2 == 1 }

  function Face(n: Node): byte { if IsOn(n) then n.onChar else n.offChar }

  /** `decw` and the signed test after it: the countdown as it is when it is still positive. */
  function Decremented(n: Node): word { (n.countdown + 0xFFFF) % 0x1_0000 }

  predicate Toggles(n: Node) { !(0 < Decremented(n) < 0x8000) }

  /** What one tick does to a node. */
  function TickNode(n: Node): Node {
    if !Toggles(n) then n.(countdown := Decremented(n))
    else if IsOn(n) then n.(countdown := n.offLength, status := n.status - 1)
    else n.(countdown := n.onLength, status := n.status + 1)
  }

  function TickTimes(n: Node, t: nat): Node { if t == 0 then n else TickNode(TickTimes(n, t - 1)) }

  /** How many ticks a phase of the given length lasts: the countdown is decremented before it is
      tested and tested as a signed number. */
  function Duration(length: word): nat { if 1 <= length <= 0x8000 then length else 1 }

  /** A node as `mp1_ioctl_add` makes it. */
  predicate JustAdded(n: Node) { n.status == 1 && n.countdown == n.onLength }

  function Period(n: Node): (p: nat)
    ensures p > 0
  {
    Duration(n.onLength) + Duration(n.offLength)
  }

  /** The countdown `m` ticks into a phase. */
  function CountdownAt(length: word, m: nat): word { (length + 0x1_0000 - m) % 0x1_0000 }

  /** A node `m` ticks into its period. */
  function Phase(n: Node, m: nat): Node
    requires m < Period(n)
  {
    if m < Duration(n.onLength) then n.(status := 1, countdown := CountdownAt(n.onLength, m))
    else n.(status := 0, countdown := CountdownAt(n.offLength, m - Duration(n.onLength)))
  }

  lemma CountdownStep(n: Node, length: word, m: nat)
    requires m < Duration(length) && n.countdown == CountdownAt(length, m)
    ensures Toggles(n) <==> m + 1 == Duration(length)
    ensures m + 1 < Duration(length) ==> Decremented(n) == CountdownAt(length, m + 1)
    ensures CountdownAt(length, 0) == length
  {
  }

  lemma PhaseStep(n: Node, m: nat)
    requires m < Period(n)
    ensures TickNode(Phase(n, m)) == Phase(n, if m + 1 == Period(n) then 0 else m + 1)
  {
    hide Toggles, CountdownAt, Decremented, Duration;
    CountdownZero(n.onLength);
    CountdownZero(n.offLength);
    if m < Duration(n.onLength) {
      CountdownStep(Phase(n, m), n.onLength, m);
    } else {
      CountdownStep(Phase(n, m), n.offLength, m - Duration(n.onLength));
    }
  }

  lemma CountdownZero(length: word)
    ensures CountdownAt(length, 0) == length && Duration(length) > 0
  {
  }

  lemma {:induction false} RunsThroughPhases(n: Node, t: nat)
    requires JustAdded(n)
    ensures TickTimes(n, t) == Phase(n, t % Period(n))
  {
    hide Period, TickNode;
    if t == 0 {
      CountdownZero(n.onLength);
      assert t % Period(n) == 0;
    } else {
      hide Phase;
      RunsThroughPhases(n, t - 1);
      PhaseStep(n, (t - 1) % Period(n));
      NextPhase(t - 1, Period(n));
    }
  }

  /** After any number of ticks a node just added is on exactly in the first part of its period. For
      lengths in 1..32767 the parts last exactly `onLength` and `offLength` ticks. */
  lemma {:induction false} BlinkPeriod(n: Node, t: nat)
    requires JustAdded(n)
    ensures TickTimes(n, t) == Phase(n, t % Period(n))
    ensures IsOn(TickTimes(n, t)) <==> t % (Duration(n.onLength) + Duration(n.offLength)) < Duration(n.onLength)
  {
    hide TickTimes, Duration, CountdownAt;
    RunsThroughPhases(n, t);
  }

  lemma NextPhase(t: nat, period: nat)
    requires period > 0
    ensures (t + 1) % period == if t % period + 1 == period then 0 else t % period + 1
  {
    var q, m := t / period, t % period;
    assert t == q * period + m;
    if m + 1 == period {
      assert t + 1 == (q + 1) * period;
      ModIs(t + 1, period, q + 1, 0);
    } else {
      ModIs(t + 1, period, q, m + 1);
    }
  }

  lemma ModIs(x: nat, d: nat, q: nat, m: nat)
    requires d > 0 && x == q * d + m && m < d
    ensures x % d == m
  {
    var k := x / d - q;
    assert x == x / d * d + x % d;
    assert k * d == m - x % d;
    assert (k - 1) * d == k * d - d && (k + 1) * d == k * d + d;
    ProductSign(k - 1, d);
    ProductSign(-k - 1, d);
    assert (-k - 1) * d == -((k + 1) * d);
  }

  lemma ProductSign(a: int, d: nat)
    ensures a >= 0 ==> a * d >= 0
  {
  }

  /** Nodes that were given the same lengths, countdown and status stay in step for ever. */
  predicate InStep(a: Node, b: Node) {
    a.onLength == b.onLength && a.offLength == b.offLength && a.countdown == b.countdown && a.status == b.status
  }

  lemma {:induction false} SyncedStayInStep(a: Node, b: Node, t: nat)
    requires InStep(a, b)
    ensures InStep(TickTimes(a, t), TickTimes(b, t))
  {
    if t > 0 { SyncedStayInStep(a, b, t - 1); }
  }

  // ---- the list ----

  ghost predicate Distinct(list: seq<nat>) { forall i, j :: 0 <= i < j < |list| ==> list[i] != list[j] }

  function LinkAt(list: seq<nat>, i: nat): int { if i < |list| then list[i] else NULL }

  /** The nodes from `head` on are those of `list`, without a cycle, and exactly they are in use. */
  ghost predicate Linked(nodes: seq<Node>, head: int, list: seq<nat>) {
    && |nodes| == POOL && Distinct(list) && (forall i :: 0 <= i < |list| ==> list[i] < POOL)
    && head == LinkAt(list, 0)
    && (forall i :: 0 <= i < |list| ==> nodes[list[i]].next == LinkAt(list, i + 1))
    && (forall k :: 0 <= k < POOL ==> (k in list <==> nodes[k].location != 0))
    && (forall k :: 0 <= k < POOL ==> nodes[k].location < POOL)
  }

  /** The first position from `i` on whose node is at `location`, the length of the list if none is. */
  ghost function FirstAt(nodes: seq<Node>, list: seq<nat>, location: int, i: nat): (p: nat)
    requires |nodes| == POOL && (forall j :: 0 <= j < |list| ==> list[j] < POOL) && i <= |list|
    ensures i <= p <= |list| && (p < |list| ==> nodes[list[p]].location == location)
    ensures forall j :: i <= j < p ==> nodes[list[j]].location != location
    decreases |list| - i
  {
    if i == |list| || nodes[list[i]].location == location then i else FirstAt(nodes, list, location, i + 1)
  }

  /** No two nodes of the list are at one location. */
  ghost predicate Separate(nodes: seq<Node>, list: seq<nat>)
    requires |nodes| == POOL && forall j :: 0 <= j < |list| ==> list[j] < POOL
  {
    forall i, j :: 0 <= i < j < |list| ==> nodes[list[i]].location != nodes[list[j]].location
  }

  /** Every node's cell shows the character its status says. */
  ghost predicate Displayed(nodes: seq<Node>, list: seq<nat>, vmem: seq<byte>)
    requires |nodes| == POOL && forall j :: 0 <= j < |list| ==> list[j] < POOL
  {
    && |vmem| == POOL
    && forall i :: 0 <= i < |list| && nodes[list[i]].location < POOL ==> vmem[nodes[list[i]].location] == Face(nodes[list[i]])
  }

  /** What a tick writes: the new faces of the nodes that toggle, in list order. */
  ghost function Poked(nodes: seq<Node>, list: seq<nat>, vmem: seq<byte>, k: nat): (v: seq<byte>)
    requires Linked(nodes, LinkAt(list, 0), list) && |vmem| == POOL && k <= |list|
    ensures |v| == POOL
    decreases k
  {
    if k == 0 then vmem
    else
      var n := nodes[list[k - 1]];
      var v := Poked(nodes, list, vmem, k - 1);
      if Toggles(n) then v[n.location := Face(TickNode(n))] else v
  }

  lemma {:induction false} PokedAt(nodes: seq<Node>, list: seq<nat>, vmem: seq<byte>, k: nat, j: nat)
    requires Linked(nodes, LinkAt(list, 0), list) && |vmem| == POOL && k <= |list| && j < |list| && Separate(nodes, list)
    ensures Poked(nodes, list, vmem, k)[nodes[list[j]].location] ==
            if j < k && Toggles(nodes[list[j]]) then Face(TickNode(nodes[list[j]])) else vmem[nodes[list[j]].location]
    decreases k
  {
    hide Linked, Separate, TickNode, Face, Toggles;
    InPool(nodes, list, j);
    if k > 0 {
      InPool(nodes, list, k - 1);
      PokedAt(nodes, list, vmem, k - 1, j);
      if j != k - 1 { SeparateAt(nodes, list, j, k - 1); }
    }
  }

  lemma InPool(nodes: seq<Node>, list: seq<nat>, j: nat)
    requires Linked(nodes, LinkAt(list, 0), list) && j < |list|
    ensures |nodes| == POOL && list[j] < POOL && nodes[list[j]].location < POOL
    ensures forall i :: 0 <= i < |list| ==> list[i] < POOL
  {
  }

  lemma SeparateAt(nodes: seq<Node>, list: seq<nat>, i: nat, j: nat)
    requires Linked(nodes, LinkAt(list, 0), list) && Separate(nodes, list) && i < |list| && j < |list| && i != j
    ensures nodes[list[i]].location != nodes[list[j]].location
  {
    var low, high := (if i < j then i else j), (if i < j then j else i);
    assert nodes[list[low]].location != nodes[list[high]].location;
  }

  /** The nodes when the first `k` of the list have been ticked. */
  ghost function Ticked(nodes: seq<Node>, list: seq<nat>, k: nat): (after: seq<Node>)
    requires |nodes| == POOL && (forall j :: 0 <= j < |list| ==> list[j] < POOL) && k <= |list|
    ensures |after| == POOL
    decreases k
  {
    if k == 0 then nodes else Ticked(nodes, list, k - 1)[list[k - 1] := TickNode(nodes[list[k - 1]])]
  }

  /** The node at position `j` has been ticked once its turn has come, and only then. */
  lemma {:induction false} TickedAt(nodes: seq<Node>, list: seq<nat>, k: nat, j: nat)
    requires |nodes| == POOL && Distinct(list) && (forall i :: 0 <= i < |list| ==> list[i] < POOL)
    requires k <= |list| && j < |list|
    ensures Ticked(nodes, list, k)[list[j]] == if j < k then TickNode(nodes[list[j]]) else nodes[list[j]]
    decreases k
  {
    if k > 0 {
      TickedAt(nodes, list, k - 1, j);
      assert j != k - 1 ==> list[j] != list[k - 1];
    }
  }

  lemma {:induction false} TickedLinks(nodes: seq<Node>, list: seq<nat>, k: nat)
    requires |nodes| == POOL && (forall i :: 0 <= i < |list| ==> list[i] < POOL) && k <= |list|
    ensures forall x :: 0 <= x < POOL ==> Ticked(nodes, list, k)[x].location == nodes[x].location
    decreases k
  {
    if k > 0 { TickedLinks(nodes, list, k - 1); }
  }

  lemma TickKeepsLinks(nodes: seq<Node>, head: int, list: seq<nat>)
    requires Linked(nodes, head, list)
    ensures Linked(Ticked(nodes, list, |list|), head, list)
    ensures Separate(nodes, list) ==> Separate(Ticked(nodes, list, |list|), list)
  {
    TickedLinks(nodes, list, |list|);
    forall j: nat | j < |list| ensures Ticked(nodes, list, |list|)[list[j]] == TickNode(nodes[list[j]]) {
      TickedAt(nodes, list, |list|, j);
    }
  }

  lemma TickDisplaysAt(nodes: seq<Node>, head: int, list: seq<nat>, vmem: seq<byte>, j: nat)
    requires Linked(nodes, head, list) && Separate(nodes, list) && j < |list|
    requires |vmem| == POOL && vmem[nodes[list[j]].location] == Face(nodes[list[j]])
    ensures Ticked(nodes, list, |list|)[list[j]] == TickNode(nodes[list[j]])
    ensures Poked(nodes, list, vmem, |list|)[nodes[list[j]].location] == Face(TickNode(nodes[list[j]]))
  {
    TickedAt(nodes, list, |list|, j);
    PokedAt(nodes, list, vmem, |list|, j);
  }

  /** A tick leaves every cell showing its node's new status, when no two nodes share a cell. */
  lemma TickDisplays(nodes: seq<Node>, head: int, list: seq<nat>, vmem: seq<byte>)
    requires Linked(nodes, head, list) && Separate(nodes, list) && Displayed(nodes, list, vmem)
    ensures Displayed(Ticked(nodes, list, |list|), list, Poked(nodes, list, vmem, |list|))
  {
    hide Ticked, Poked, Separate;
    var after := Ticked(nodes, list, |list|);
    var v := Poked(nodes, list, vmem, |list|);
    forall j: nat | j < |list| ensures after[list[j]].location < POOL && v[after[list[j]].location] == Face(after[list[j]]) {
      TickDisplaysAt(nodes, head, list, vmem, j);
    }
  }

  ghost function Members(list: seq<nat>): set<nat> { set i | 0 <= i < |list| :: list[i] }

  lemma {:induction false} MembersCount(list: seq<nat>)
    requires Distinct(list)
    ensures |Members(list)| == |list|
    decreases |list|
  {
    if list != [] {
      var n := |list| - 1;
      MembersCount(list[..n]);
      assert Members(list) == Members(list[..n]) + {list[n]};
      assert list[n] !in Members(list[..n]);
    }
  }

  ghost function Below(n: nat): (r: set<nat>)
    ensures forall k: nat :: k in r <==> k < n
    ensures |r| == n
  {
    if n == 0 then {} else Below(n - 1) + {n - 1}
  }

  /** The pool has no free node exactly when all 2000 are in the list. */
  lemma PoolFull(nodes: seq<Node>, head: int, list: seq<nat>)
    requires Linked(nodes, head, list)
    ensures (forall k :: 0 <= k < POOL ==> nodes[k].location != 0) <==> |list| == POOL
    ensures |list| <= POOL
  {
    ListFull(list);
    assert forall k :: 0 <= k < POOL ==> (k in list <==> nodes[k].location != 0);
  }

  lemma ListFull(list: seq<nat>)
    requires Distinct(list) && forall i :: 0 <= i < |list| ==> list[i] < POOL
    ensures (forall k :: 0 <= k < POOL ==> k in list) <==> |list| == POOL
    ensures |list| <= POOL
  {
    var used, all := Members(list), Below(POOL);
    MembersCount(list);
    MembersAre(list);
    hide Members, Below, Distinct;
    assert used <= all;
    SubsetCount(used, all);
  }

  lemma MembersAre(list: seq<nat>)
    ensures forall k: nat :: k in Members(list) <==> k in list
  {
  }

  lemma SubsetCount(a: set<nat>, b: set<nat>)
    requires a <= b
    ensures |a| <= |b| && (|a| == |b| <==> b <= a)
  {
    assert |b - a| == |b| - |a|;
    assert b <= a <==> b - a == {};
  }

  // ---- adding and removing ----

  lemma LongerList(list: seq<nat>, i: nat)
    requires Distinct(list) && i !in list && i < POOL && forall j :: 0 <= j < |list| ==> list[j] < POOL
    ensures Distinct([i] + list) && forall j :: 0 <= j < |[i] + list| ==> ([i] + list)[j] < POOL
    ensures forall k: nat :: k in [i] + list <==> k == i || k in list
  {
    var longer := [i] + list;
    forall a: nat, b: nat | a < b < |longer| ensures longer[a] != longer[b] {
      assert longer[b] == list[b - 1] && list[b - 1] in list;
      assert a > 0 ==> longer[a] == list[a - 1];
    }
  }

  lemma LongerLink(nodes: seq<Node>, head: int, list: seq<nat>, i: nat, n: Node, j: nat)
    requires Linked(nodes, head, list) && i < POOL && i !in list && n.next == head && j <= |list|
    ensures var longer := [i] + list; longer[j] < POOL && nodes[i := n][longer[j]].next == LinkAt(longer, j + 1)
  {
    var longer := [i] + list;
    if j > 0 {
      assert longer[j] == list[j - 1] && list[j - 1] in list;
      assert nodes[list[j - 1]].next == LinkAt(list, j) == LinkAt(longer, j + 1);
    }
  }

  lemma AddLinked(nodes: seq<Node>, head: int, list: seq<nat>, i: nat, n: Node)
    requires Linked(nodes, head, list) && i < POOL && nodes[i].location == 0
    requires 0 < n.location < POOL && n.next == head
    ensures Linked(nodes[i := n], i, [i] + list)
  {
    var after, longer := nodes[i := n], [i] + list;
    assert i !in list;
    LongerList(list, i);
    forall j: nat | j < |longer| ensures after[longer[j]].next == LinkAt(longer, j + 1) {
      LongerLink(nodes, head, list, i, n, j);
    }
    forall k: nat | k < POOL ensures k in longer <==> after[k].location != 0 {
      assert k != i ==> (k in list <==> nodes[k].location != 0);
    }
  }

  /** A node added at location 0 counts as free while it is in the list. So after adding `n` at the
      front some list fits the pool exactly when its location is not 0. */
  lemma AddExactly(nodes: seq<Node>, head: int, list: seq<nat>, i: nat, n: Node, after: seq<Node>)
    requires Linked(nodes, head, list) && i < POOL && nodes[i].location == 0 && after == nodes[i := n]
    requires n.location < POOL && n.next == head
    ensures (exists l :: Linked(after, i, l)) <==> n.location != 0
    ensures Linked(after, i, [i] + list) <==> n.location != 0
  {
    if n.location != 0 {
      AddLinked(nodes, head, list, i, n);
    } else {
      forall l: seq<nat> ensures !Linked(after, i, l) {
        assert l != [] ==> l[0] in l;
      }
    }
  }

  /** A node added where no other node is shows at once, and disturbs no other cell. */
  lemma AddDisplay(nodes: seq<Node>, head: int, list: seq<nat>, vmem: seq<byte>, i: nat, n: Node)
    requires Linked(nodes, head, list) && i < POOL && nodes[i].location == 0
    requires 0 < n.location < POOL && n.next == head && IsOn(n)
    requires Separate(nodes, list) && Displayed(nodes, list, vmem) && FirstAt(nodes, list, n.location, 0) == |list|
    ensures Linked(nodes[i := n], i, [i] + list)
    ensures Separate(nodes[i := n], [i] + list) && Displayed(nodes[i := n], [i] + list, vmem[n.location := n.onChar])
  {
    AddLinked(nodes, head, list, i, n);
    var after, longer, v := nodes[i := n], [i] + list, vmem[n.location := n.onChar];
    forall j: nat | 0 < j < |longer|
      ensures after[longer[j]] == nodes[list[j - 1]] && after[longer[j]].location != n.location
    {
      AddedBefore(nodes, head, list, i, n, j);
    }
    assert longer[0] == i && after[i] == n;
    forall a: nat, b: nat | a < b < |longer| ensures after[longer[a]].location != after[longer[b]].location {
      assert a > 0 ==> nodes[list[a - 1]].location != nodes[list[b - 1]].location;
    }
    hide Linked, FirstAt;
  }

  lemma AddedBefore(nodes: seq<Node>, head: int, list: seq<nat>, i: nat, n: Node, j: nat)
    requires Linked(nodes, head, list) && i < POOL && nodes[i].location == 0 && 0 < j <= |list|
    requires FirstAt(nodes, list, n.location, 0) == |list|
    ensures var longer := [i] + list;
            && longer[j] == list[j - 1] < POOL && nodes[i := n][longer[j]] == nodes[list[j - 1]]
            && nodes[list[j - 1]].location != n.location
  {
    assert list[j - 1] in list;
  }

  function Without(list: seq<nat>, p: nat): seq<nat>
    requires p < |list|
  {
    list[..p] + list[p + 1..]
  }

  /** `nodes` with the node at position `p` of the list bypassed and cleared. */
  function Unlinked(nodes: seq<Node>, list: seq<nat>, p: nat): seq<Node>
    requires |nodes| == POOL && p < |list| && forall i :: 0 <= i < |list| ==> list[i] < POOL
  {
    var x := list[p];
    if p == 0 then nodes[x := ZeroNode]
    else nodes[list[p - 1] := nodes[list[p - 1]].(next := nodes[x].next)][x := ZeroNode]
  }

  lemma RemoveLinked(nodes: seq<Node>, head: int, list: seq<nat>, p: nat)
    requires Linked(nodes, head, list) && p < |list|
    ensures Linked(Unlinked(nodes, list, p), if p == 0 then nodes[list[0]].next else head, Without(list, p))
  {
    var after, shorter := Unlinked(nodes, list, p), Without(list, p);
    RemoveLinks(nodes, head, list, p);
    forall k: nat | k < POOL ensures (k in shorter <==> after[k].location != 0) && after[k].location < POOL {
      WithoutMembers(list, p, k);
      assert after[k].location == if k == list[p] then 0 else nodes[k].location;
    }
  }

  lemma WithoutAt(list: seq<nat>, p: nat, i: nat)
    requires p < |list| && i < |list| - 1
    ensures |Without(list, p)| == |list| - 1 && Without(list, p)[i] == list[if i < p then i else i + 1]
  {
  }

  lemma RemoveLinks(nodes: seq<Node>, head: int, list: seq<nat>, p: nat)
    requires |nodes| == POOL && Distinct(list) && (forall i :: 0 <= i < |list| ==> list[i] < POOL) && p < |list|
    requires forall i :: 0 <= i < |list| ==> nodes[list[i]].next == LinkAt(list, i + 1)
    ensures Distinct(Without(list, p))
    ensures forall i :: 0 <= i < |list| - 1 ==>
              Without(list, p)[i] < POOL && Unlinked(nodes, list, p)[Without(list, p)[i]].next == LinkAt(Without(list, p), i + 1)
  {
    var shorter := Without(list, p);
    forall i: nat, j: nat | i < j < |shorter| ensures shorter[i] != shorter[j] {
      WithoutAt(list, p, i);
      WithoutAt(list, p, j);
    }
    forall i: nat | i < |shorter|
      ensures shorter[i] < POOL && Unlinked(nodes, list, p)[shorter[i]].next == LinkAt(shorter, i + 1)
    {
      RemoveLink(nodes, list, p, i);
    }
  }

  lemma RemoveLink(nodes: seq<Node>, list: seq<nat>, p: nat, i: nat)
    requires |nodes| == POOL && Distinct(list) && (forall i :: 0 <= i < |list| ==> list[i] < POOL) && p < |list|
    requires forall i :: 0 <= i < |list| ==> nodes[list[i]].next == LinkAt(list, i + 1)
    requires i < |list| - 1
    ensures Without(list, p)[i] < POOL
    ensures Unlinked(nodes, list, p)[Without(list, p)[i]].next == LinkAt(Without(list, p), i + 1)
  {
    hide Without, LinkAt, Unlinked;
    WithoutAt(list, p, i);
    if i + 1 < |list| - 1 { WithoutAt(list, p, i + 1); }
    LinkOf(list, Without(list, p), p, i);
    UnlinkedNext(nodes, list, p, if i < p then i else i + 1);
  }

  lemma UnlinkedNext(nodes: seq<Node>, list: seq<nat>, p: nat, j: nat)
    requires |nodes| == POOL && Distinct(list) && (forall i :: 0 <= i < |list| ==> list[i] < POOL) && p < |list|
    requires j < |list| && j != p
    ensures |Unlinked(nodes, list, p)| == POOL
    ensures Unlinked(nodes, list, p)[list[j]].next == nodes[list[if j + 1 == p then p else j]].next
  {
    assert list[j] != list[p] && (p > 0 && j != p - 1 ==> list[j] != list[p - 1]);
  }

  /** The link after position `i` of the shorter list is that of the longer one, except before the gap. */
  lemma LinkOf(list: seq<nat>, shorter: seq<nat>, p: nat, i: nat)
    requires p < |list| && i < |list| - 1 == |shorter|
    requires i + 1 < |shorter| ==> shorter[i + 1] == list[if i + 1 < p then i + 1 else i + 2]
    ensures LinkAt(shorter, i + 1) == LinkAt(list, if i + 1 < p then i + 1 else i + 2)
  {
  }

  /** Removing a node leaves every other cell showing its node, and no new pair of nodes shares one. */
  lemma RemoveDisplay(nodes: seq<Node>, head: int, list: seq<nat>, vmem: seq<byte>, p: nat)
    requires Linked(nodes, head, list) && p < |list| && Separate(nodes, list) && Displayed(nodes, list, vmem)
    ensures forall j :: 0 <= j < |Without(list, p)| ==> Without(list, p)[j] < POOL
    ensures Separate(Unlinked(nodes, list, p), Without(list, p))
    ensures Displayed(Unlinked(nodes, list, p), Without(list, p), vmem)
  {
    RemoveSeparate(nodes, head, list, p);
    var after, shorter := Unlinked(nodes, list, p), Without(list, p);
    forall i: nat | i < |list| - 1 ensures ShownAt(after, shorter, vmem, i) {
      KeptShown(nodes, list, vmem, p, i);
    }
    assert |after| == POOL && |vmem| == POOL;
    hide *;
    AllShown(after, shorter, vmem);
  }

  ghost predicate ShownAt(nodes: seq<Node>, list: seq<nat>, vmem: seq<byte>, i: nat) {
    && |nodes| == POOL == |vmem| && i < |list| && list[i] < POOL
    && nodes[list[i]].location < POOL && vmem[nodes[list[i]].location] == Face(nodes[list[i]])
  }

  lemma AllShown(nodes: seq<Node>, list: seq<nat>, vmem: seq<byte>)
    requires |nodes| == POOL == |vmem| && forall j :: 0 <= j < |list| ==> list[j] < POOL
    requires forall i: nat :: i < |list| ==> ShownAt(nodes, list, vmem, i)
    ensures Displayed(nodes, list, vmem)
  {
    forall i: nat | i < |list| ensures nodes[list[i]].location < POOL && vmem[nodes[list[i]].location] == Face(nodes[list[i]]) {
      assert ShownAt(nodes, list, vmem, i);
    }
  }

  lemma KeptShown(nodes: seq<Node>, list: seq<nat>, vmem: seq<byte>, p: nat, i: nat)
    requires Linked(nodes, LinkAt(list, 0), list) && Displayed(nodes, list, vmem) && p < |list| && i < |list| - 1
    ensures ShownAt(Unlinked(nodes, list, p), Without(list, p), vmem, i)
  {
    KeptNode(nodes, list, p, i);
  }

  lemma RemoveSeparate(nodes: seq<Node>, head: int, list: seq<nat>, p: nat)
    requires Linked(nodes, head, list) && p < |list| && Separate(nodes, list)
    ensures |Without(list, p)| == |list| - 1 && forall j :: 0 <= j < |list| - 1 ==> Without(list, p)[j] < POOL
    ensures Separate(Unlinked(nodes, list, p), Without(list, p))
  {
    WithoutInPool(list, p);
    var after, shorter := Unlinked(nodes, list, p), Without(list, p);
    forall i: nat, j: nat | i < j < |list| - 1 ensures Apart(after, shorter, i, j) {
      KeptApart(nodes, list, p, i, j);
    }
    assert |after| == POOL && |shorter| == |list| - 1;
    hide *;
    AllApart(after, shorter);
  }

  lemma AllApart(nodes: seq<Node>, list: seq<nat>)
    requires |nodes| == POOL && forall j :: 0 <= j < |list| ==> list[j] < POOL
    requires forall i: nat, j: nat :: i < j < |list| ==> Apart(nodes, list, i, j)
    ensures Separate(nodes, list)
  {
    forall i: nat, j: nat | i < j < |list| ensures nodes[list[i]].location != nodes[list[j]].location {
      assert Apart(nodes, list, i, j);
    }
  }

  ghost predicate Apart(nodes: seq<Node>, list: seq<nat>, i: nat, j: nat) {
    && |nodes| == POOL && i < |list| && j < |list| && list[i] < POOL && list[j] < POOL
    && nodes[list[i]].location != nodes[list[j]].location
  }

  lemma WithoutInPool(list: seq<nat>, p: nat)
    requires p < |list| && forall i :: 0 <= i < |list| ==> list[i] < POOL
    ensures |Without(list, p)| == |list| - 1 && forall j :: 0 <= j < |list| - 1 ==> Without(list, p)[j] < POOL
  {
  }

  lemma KeptApart(nodes: seq<Node>, list: seq<nat>, p: nat, i: nat, j: nat)
    requires Linked(nodes, LinkAt(list, 0), list) && Separate(nodes, list) && p < |list| && i < j < |list| - 1
    ensures Apart(Unlinked(nodes, list, p), Without(list, p), i, j)
  {
    KeptNode(nodes, list, p, i);
    KeptNode(nodes, list, p, j);
    SeparateAt(nodes, list, if i < p then i else i + 1, if j < p then j else j + 1);
    hide *;
    ApartIs(nodes, Unlinked(nodes, list, p), Without(list, p), i, j);
  }

  lemma ApartIs(nodes: seq<Node>, after: seq<Node>, list: seq<nat>, i: nat, j: nat)
    requires |nodes| == POOL == |after| && i < |list| && j < |list| && list[i] < POOL && list[j] < POOL
    requires nodes[list[i]].location != nodes[list[j]].location
    requires after[list[i]].location == nodes[list[i]].location && after[list[j]].location == nodes[list[j]].location
    ensures Apart(after, list, i, j)
  {
  }

  lemma KeptNode(nodes: seq<Node>, list: seq<nat>, p: nat, i: nat)
    requires |nodes| == POOL && Distinct(list) && (forall j :: 0 <= j < |list| ==> list[j] < POOL)
    requires p < |list| && i < |list| - 1
    ensures |Unlinked(nodes, list, p)| == POOL && |Without(list, p)| == |list| - 1
    ensures Without(list, p)[i] == list[if i < p then i else i + 1] < POOL
    ensures var x := Without(list, p)[i];
            Unlinked(nodes, list, p)[x].location == nodes[x].location && Face(Unlinked(nodes, list, p)[x]) == Face(nodes[x])
  {
    WithoutAt(list, p, i);
    assert list[if i < p then i else i + 1] != list[p];
  }

  lemma WithoutMembers(list: seq<nat>, p: nat, k: nat)
    requires Distinct(list) && p < |list|
    ensures k in Without(list, p) <==> k in list && k != list[p]
  {
    var shorter := Without(list, p);
    if k in list && k != list[p] {
      var i :| 0 <= i < |list| && list[i] == k;
      assert shorter[if i < p then i else i - 1] == k;
    }
    if k in shorter {
      var i :| 0 <= i < |shorter| && shorter[i] == k;
      assert list[if i < p then i else i + 1] == k;
    }
  }

  class Pool {
    const nodes: array<Node>
    const vmem: array<byte>
    var head: int
    ghost var list: seq<nat>

    ghost predicate Valid()
      reads this, nodes, vmem
    {
      vmem.Length == POOL && Linked(nodes[..], head, list)
    }

    /** Every cell of a listed node shows that node's status, and no two share a cell. */
    ghost predicate Shown()
      requires Valid()
      reads this, nodes, vmem
    {
      Separate(nodes[..], list) && Displayed(nodes[..], list, vmem[..])
    }

    constructor (vmem: array<byte>)
      requires vmem.Length == POOL
      ensures Valid() && list == [] && this.vmem == vmem && fresh(nodes) && Shown()
    {
      nodes := new Node[POOL](_ => ZeroNode);
      this.vmem := vmem;
      head := NULL;
      list := [];
    }

    /** `mp1_malloc`: never a node of the list; NULL only if the list has all 2000. */
    method Malloc() returns (i: int)
      requires Valid()
      ensures i == NULL <==> |list| == POOL
      ensures i != NULL ==> 0 <= i < POOL && i !in list && nodes[i].location == 0
    {
      PoolFull(nodes[..], head, list);
      i := FirstFree();
    }

    method FirstFree() returns (i: int)
      requires nodes.Length == POOL
      ensures i == NULL <==> forall k :: 0 <= k < POOL ==> nodes[k].location != 0
      ensures i != NULL ==> 0 <= i < POOL && nodes[i].location == 0 && forall k :: 0 <= k < i ==> nodes[k].location != 0
    {
      i := 0;
      while i < POOL
        invariant 0 <= i <= POOL
        invariant forall k :: 0 <= k < i ==> nodes[k].location != 0
      {
        if nodes[i].location == 0 {
          return;
        }
        i := i + 1;
      }
      return NULL;
    }

    /** `mp1_ioctl_add`. The pool stays a proper list exactly when the location is not 0. */
    method Add(location: word, onChar: byte, offChar: byte, onLength: word, offLength: word) returns (ret: int)
      requires Valid()
      modifies this, nodes, vmem
      ensures ret == if location < POOL && |old(list)| < POOL then 0 else -1
      ensures ret == -1 ==> head == old(head) && list == old(list) && nodes[..] == old(nodes[..]) && vmem[..] == old(vmem[..])
      ensures ret == 0 ==>
        && 0 <= head < POOL && old(nodes[..])[head].location == 0 && list == [head] + old(list)
        && nodes[..] == old(nodes[..])[head := Node(location, onChar, offChar, onLength, offLength, onLength, 1, old(head))]
        && vmem[..] == old(vmem[..])[location := onChar]
      ensures Valid() <==> ret == -1 || location != 0
      ensures old(Shown() && FirstAt(nodes[..], list, location, 0) == |list|) && (ret == 0 ==> location != 0) ==> Shown()
    {
      if location >= POOL {
        PoolFull(nodes[..], head, list);
        return -1;
      }
      var i := Malloc();
      if i == NULL {
        return -1;
      }
      PoolFull(nodes[..], head, list);
      Insert(i, Node(location, onChar, offChar, onLength, offLength, onLength, 1, head));
      return 0;
    }

    /** The new node is written, put at the front of the list, and shown. */
    method Insert(i: nat, n: Node)
      requires Valid() && i < POOL && nodes[i].location == 0 && n.location < POOL && n.next == head && IsOn(n)
      modifies this, nodes, vmem
      ensures head == i && list == [i] + old(list) && nodes[..] == old(nodes[..])[i := n]
      ensures vmem[..] == old(vmem[..])[n.location := n.onChar]
      ensures Valid() <==> n.location != 0
      ensures n.location != 0 && old(Shown() && FirstAt(nodes[..], list, n.location, 0) == |list|) ==> Shown()
    {
      ghost var before, head0, list0, screen := nodes[..], head, list, vmem[..];
      AddExactly(before, head0, list0, i, n, before[i := n]);
      nodes[i] := n;
      head := i;
      list := [i] + list;
      vmem[n.location] := n.onChar;
      if n.location != 0 && Separate(before, list0) && Displayed(before, list0, screen)
         && FirstAt(before, list0, n.location, 0) == |list0|
      {
        hide Linked, Separate, Displayed, FirstAt;
        AddDisplay(before, head0, list0, screen, i, n);
      }
    }

    /** `mp1_find_helper`. */
    method Find(location: word) returns (i: int, ghost p: nat)
      requires Valid()
      ensures i == LinkAt(list, FirstAt(nodes[..], list, location, 0))
      ensures p == FirstAt(nodes[..], list, location, 0)
    {
      i, p := head, 0;
      while i != NULL
        invariant 0 <= p <= |list| && i == LinkAt(list, p)
        invariant FirstAt(nodes[..], list, location, 0) == FirstAt(nodes[..], list, location, p)
        decreases |list| - p
      {
        if nodes[i].location == location {
          return;
        }
        i := nodes[i].next;
        p := p + 1;
      }
    }

    /** `mp1_ioctl_remove`: the first node at the location leaves the list and is free again; the
        others keep their order and contents. */
    method Remove(location: word) returns (ret: int)
      requires Valid()
      modifies this, nodes
      ensures Valid()
      ensures var p := old(FirstAt(nodes[..], list, location, 0));
              if p == |old(list)| then ret == -1 && list == old(list) && nodes[..] == old(nodes[..]) && head == old(head)
              else ret == 0 && list == Without(old(list), p) && nodes[..] == old(Unlinked(nodes[..], list, p))
      ensures old(Shown()) ==> Shown()
    {
      var i;
      ghost var p;
      i, p := Find(location);
      if i == NULL {
        return -1;
      }
      Unlink(i, p);
      return 0;
    }

    /** From `remove_find_prev` on: the pointer to node `i` is found and changed, and the node freed. */
    method Unlink(i: nat, ghost p: nat)
      requires Valid() && p < |list| && i == list[p]
      modifies this, nodes
      ensures Valid() && list == Without(old(list), p) && nodes[..] == old(Unlinked(nodes[..], list, p))
      ensures old(Shown()) ==> Shown()
    {
      ghost var before, head0, list0 := nodes[..], head, list;
      var prev := Predecessor(i, p);
      if prev == NULL {
        head := nodes[i].next;
      } else {
        nodes[prev] := nodes[prev].(next := nodes[i].next);
      }
      nodes[i] := ZeroNode;
      assert nodes[..] == Unlinked(before, list, p);
      list := Without(list, p);
      hide Linked, Unlinked, Without, Separate, Displayed;
      RemoveLinked(before, head0, list0, p);
      if Separate(before, list0) && Displayed(before, list0, vmem[..]) { RemoveDisplay(before, head0, list0, vmem[..], p); }
    }

    /** The loop `remove_find_prev`: NULL if the pointer to `i` is the list head itself. */
    method Predecessor(i: nat, ghost p: nat) returns (prev: int)
      requires Valid() && p < |list| && i == list[p]
      ensures prev == if p == 0 then NULL else list[p - 1]
    {
      var link := head;
      prev := NULL;
      ghost var q := 0;
      while link != i
        invariant 0 <= q <= p && link == LinkAt(list, q) && prev == if q == 0 then NULL else list[q - 1]
        decreases p - q
      {
        prev := link;
        link := nodes[link].next;
        q := q + 1;
      }
      assert q == p;
    }

    method TickAt(i: nat)
      requires nodes.Length == POOL == vmem.Length && i < POOL && nodes[i].location < POOL
      modifies nodes, vmem
      ensures nodes[..] == old(nodes[..][i := TickNode(nodes[i])])
      ensures vmem[..] == old(if Toggles(nodes[i]) then vmem[..][nodes[i].location := Face(TickNode(nodes[i]))] else vmem[..])
    {
      var n := nodes[i];
      n := n.(countdown := Decremented(n));
      if !(0 < n.countdown < 0x8000) {
        if IsOn(n) {
          vmem[n.location] := n.offChar;
          n := n.(countdown := n.offLength, status := n.status - 1);
        } else {
          vmem[n.location] := n.onChar;
          n := n.(countdown := n.onLength, status := n.status + 1);
        }
      }
      nodes[i] := n;
    }

    /** `mp1_rtc_tasklet`: one tick for every node of the list, in list order. */
    method Tasklet()
      requires Valid()
      modifies nodes, vmem
      ensures Valid()
      ensures nodes[..] == old(Ticked(nodes[..], list, |list|))
      ensures vmem[..] == old(Poked(nodes[..], list, vmem[..], |list|))
      ensures old(Shown()) ==> Shown()
    {
      ghost var before := nodes[..];
      ghost var screen := vmem[..];
      var i := head;
      ghost var p := 0;
      while i != NULL
        invariant 0 <= p <= |list| && i == LinkAt(list, p)
        invariant nodes[..] == Ticked(before, list, p)
        invariant vmem[..] == Poked(before, list, screen, p)
        decreases |list| - p
      {
        TickedAt(before, list, p, p);
        InPool(before, list, p);
        assert nodes[i] == before[list[p]] && before[list[p]].next == LinkAt(list, p + 1);
        hide Linked, Distinct;
        TickAt(i);
        assert nodes[i] == TickNode(before[list[p]]);
        i := nodes[i].next;
        p := p + 1;
      }
      hide Linked, Ticked, Poked, Distinct;
      TickKeepsLinks(before, head, list);
      if Separate(before, list) && Displayed(before, list, screen) { TickDisplays(before, head, list, screen); }
    }

    /** `mp1_ioctl_sync`: the node at the low half takes over the timing of the one at the high half,
        and its off character is drawn. */
    method Sync(from: word, to: word) returns (ret: int)
      requires Valid()
      modifies nodes, vmem
      ensures Valid()
      ensures var p := old(FirstAt(nodes[..], list, from, 0));
              var q := old(FirstAt(nodes[..], list, to, 0));
              if p == |list| || q == |list| then ret == -1 && nodes[..] == old(nodes[..]) && vmem[..] == old(vmem[..])
              else && ret == 0
                   && nodes[..] == old(nodes[..][list[q] := Timed(nodes[list[q]], nodes[list[p]])])
                   && vmem[..] == old(vmem[..][nodes[list[q]].location := nodes[list[q]].offChar])
                   && (old(Shown()) ==> (Shown() <==> old(!IsOn(nodes[list[p]]) || nodes[list[q]].onChar == nodes[list[q]].offChar)))
    {
      ghost var before, screen := nodes[..], vmem[..];
      ghost var p, q;
      var i, j;
      i, p := Find(from);
      if i == NULL {
        return -1;
      }
      j, q := Find(to);
      if j == NULL {
        return -1;
      }
      TimedKeepsLinks(nodes[..], head, list, q, nodes[i]);
      var src := nodes[i];
      nodes[j] := nodes[j].(onLength := src.onLength, offLength := src.offLength,
                            countdown := src.countdown, status := src.status);
      vmem[nodes[j].location] := nodes[j].offChar;
      if Separate(before, list) && Displayed(before, list, screen) { SyncDisplay(before, head, list, screen, q, src); }
      hide Linked, Separate, Displayed, FirstAt, Timed;
      return 0;
    }
  }

  /** `to` with the timing of `from`. */
  function Timed(to: Node, from: Node): (n: Node)
    ensures InStep(n, from) && n.location == to.location && n.next == to.next
    ensures n.onChar == to.onChar && n.offChar == to.offChar
  {
    to.(onLength := from.onLength, offLength := from.offLength, countdown := from.countdown, status := from.status)
  }

  lemma TimedKeepsLinks(nodes: seq<Node>, head: int, list: seq<nat>, q: nat, from: Node)
    requires Linked(nodes, head, list) && q < |list|
    ensures Linked(nodes[list[q] := Timed(nodes[list[q]], from)], head, list)
  {
  }

  /** The instruction that should choose the character to draw (`cmovl`, blink.S, line 282) never does.
      The cell is right afterwards exactly if the node is off or its two characters are the same. */
  lemma SyncDisplay(nodes: seq<Node>, head: int, list: seq<nat>, vmem: seq<byte>, q: nat, from: Node)
    requires Linked(nodes, head, list) && q < |list| && Separate(nodes, list) && Displayed(nodes, list, vmem)
    ensures var n := Timed(nodes[list[q]], from);
            && Separate(nodes[list[q] := n], list)
            && (Displayed(nodes[list[q] := n], list, vmem[n.location := n.offChar]) <==> !IsOn(from) || n.onChar == n.offChar)
  {
    var n := Timed(nodes[list[q]], from);
    var after, v := nodes[list[q] := n], vmem[n.location := n.offChar];
    assert v[after[list[q]].location] == n.offChar;
    forall i: nat | i < |list| && i != q ensures v[after[list[i]].location] == Face(after[list[i]]) {
      assert list[i] != list[q] && nodes[list[i]].location != n.location;
    }
  }
}
