/**
 Whole runs of the pool (fish/blink.S): any sequence of adds, removals, synchronisations and ticks. The
 list is looked at as the sequence of its nodes, without the pool and the links.
 */
module BlinkRuns {
  import opened FileSystem
  import opened Blink

  /** A request of `mp1_ioctl`, or a tick. */
  datatype Op =
    | Add(location: word, onChar: byte, offChar: byte, onLength: word, offLength: word)
    | Remove(location: word)
    | Sync(from: word, to: word)
    | Tick

  function Bare(n: Node): Node { n.(next := NULL) }

  /** The nodes of the list in order. */
  ghost function View(nodes: seq<Node>, list: seq<nat>): (v: seq<Node>)
    requires |nodes| == POOL && forall j :: 0 <= j < |list| ==> list[j] < POOL
    ensures |v| == |list| && forall i :: 0 <= i < |list| ==> v[i] == Bare(nodes[list[i]])
  {
    seq(|list|, i requires 0 <= i < |list| => Bare(nodes[list[i]]))
  }

  /** The first position from `i` on with a node at `location`. */
  function FirstIn(v: seq<Node>, location: int, i: nat): (p: nat)
    requires i <= |v|
    ensures i <= p <= |v| && (p < |v| ==> v[p].location == location)
    ensures forall j :: i <= j < p ==> v[j].location != location
    decreases |v| - i
  {
    if i == |v| || v[i].location == location then i else FirstIn(v, location, i + 1)
  }

  function Fresh(op: Op): Node
    requires op.Add?
  {
    Node(op.location, op.onChar, op.offChar, op.onLength, op.offLength, op.onLength, 1, NULL)
  }

  function AllTicked(v: seq<Node>): (w: seq<Node>)
    ensures |w| == |v| && forall i :: 0 <= i < |v| ==> w[i] == TickNode(v[i])
  {
    seq(|v|, i requires 0 <= i < |v| => TickNode(v[i]))
  }

  function Apply(v: seq<Node>, op: Op): seq<Node> {
    match op
    case Add(location, _, _, _, _) => if location < POOL && |v| < POOL then [Fresh(op)] + v else v
    case Remove(location) =>
      var p := FirstIn(v, location, 0);
      if p == |v| then v else v[..p] + v[p + 1..]
    case Sync(from, to) =>
      var p, q := FirstIn(v, from, 0), FirstIn(v, to, 0);
      if p == |v| || q == |v| then v else v[q := Timed(v[q], v[p])]
    case Tick => AllTicked(v)
  }

  function ApplyAll(v: seq<Node>, ops: seq<Op>): seq<Node>
    decreases |ops|
  {
    if ops == [] then v else Apply(ApplyAll(v, ops[..|ops| - 1]), ops[|ops| - 1])
  }

  function Ticks(ops: seq<Op>): nat
    decreases |ops|
  {
    if ops == [] then 0 else Ticks(ops[..|ops| - 1]) + if ops[|ops| - 1].Tick? then 1 else 0
  }

  // ---- following a node ----

  /** The operation leaves the timing of a node at `location` to the ticks. */
  predicate Spares(op: Op, location: int) {
    (op.Remove? ==> op.location != location) && (op.Sync? ==> op.to != location)
  }

  lemma StepFollows(v: seq<Node>, op: Op, n: Node)
    requires n in v && Spares(op, n.location)
    ensures (if op.Tick? then TickNode(n) else n) in Apply(v, op)
  {
    var k: nat :| k < |v| && v[k] == n;
    match op
    case Add(location, _, _, _, _) =>
      if location < POOL && |v| < POOL { assert ([Fresh(op)] + v)[k + 1] == n; }
    case Remove(location) =>
      var p := FirstIn(v, location, 0);
      if p < |v| { assert (v[..p] + v[p + 1..])[if k < p then k else k - 1] == n; }
    case Sync(from, to) =>
      var p, q := FirstIn(v, from, 0), FirstIn(v, to, 0);
      if p < |v| && q < |v| { assert v[q := Timed(v[q], v[p])][k] == n; }
    case Tick =>
      assert AllTicked(v)[k] == TickNode(n);
  }

  lemma {:induction false} TicksKeepPlace(n: Node, t: nat)
    ensures TickTimes(n, t).location == n.location && TickTimes(n, t).next == n.next
    ensures TickTimes(n, t).onChar == n.onChar && TickTimes(n, t).offChar == n.offChar
  {
    if t > 0 { TicksKeepPlace(n, t - 1); }
  }

  /** Through any operations that spare it, a listed node stays in the list and is ticked exactly as often
      as there are ticks, whatever is added, removed or synchronised around it. */
  lemma {:induction false} NodeFollows(v: seq<Node>, ops: seq<Op>, n: Node)
    requires n in v && forall k :: 0 <= k < |ops| ==> Spares(ops[k], n.location)
    ensures TickTimes(n, Ticks(ops)) in ApplyAll(v, ops)
    decreases |ops|
  {
    if ops != [] {
      var shorter, last := ops[..|ops| - 1], ops[|ops| - 1];
      NodeFollows(v, shorter, n);
      TicksKeepPlace(n, Ticks(shorter));
      StepFollows(ApplyAll(v, shorter), last, TickTimes(n, Ticks(shorter)));
      assert last.Tick? ==> TickTimes(n, Ticks(ops)) == TickNode(TickTimes(n, Ticks(shorter)));
    }
  }

  /** So a node just added is on exactly in the first part of its period, counted in the ticks since. */
  lemma AddedNodeBlinks(v: seq<Node>, op: Op, ops: seq<Op>)
    requires op.Add? && op.location < POOL && |v| < POOL
    requires forall k :: 0 <= k < |ops| ==> Spares(ops[k], op.location)
    ensures var n := TickTimes(Fresh(op), Ticks(ops));
            && n in ApplyAll(Apply(v, op), ops) && n.location == op.location
            && Face(n) == if Ticks(ops) % (Duration(op.onLength) + Duration(op.offLength)) < Duration(op.onLength)
                          then op.onChar else op.offChar
  {
    var n := Fresh(op);
    assert Apply(v, op)[0] == n;
    NodeFollows(Apply(v, op), ops, n);
    BlinkPeriod(n, Ticks(ops));
    TicksKeepPlace(n, Ticks(ops));
  }

  /** And two nodes of the list that are in step stay in step, both still listed. */
  lemma PairStaysInStep(v: seq<Node>, ops: seq<Op>, a: Node, b: Node)
    requires a in v && b in v && InStep(a, b)
    requires forall k :: 0 <= k < |ops| ==> Spares(ops[k], a.location) && Spares(ops[k], b.location)
    ensures var a', b' := TickTimes(a, Ticks(ops)), TickTimes(b, Ticks(ops));
            a' in ApplyAll(v, ops) && b' in ApplyAll(v, ops) && InStep(a', b')
  {
    NodeFollows(v, ops, a);
    NodeFollows(v, ops, b);
    SyncedStayInStep(a, b, Ticks(ops));
  }

  /** A synchronisation puts two nodes in step, and they stay so through any operations that spare them. */
  lemma SyncedPairStays(v: seq<Node>, from: word, to: word, ops: seq<Op>) returns (a: Node, b: Node)
    requires FirstIn(v, from, 0) < |v| && FirstIn(v, to, 0) < |v|
    requires forall k :: 0 <= k < |ops| ==> Spares(ops[k], from) && Spares(ops[k], to)
    ensures var w := ApplyAll(Apply(v, Sync(from, to)), ops);
            a in w && b in w && a.location == from && b.location == to && InStep(a, b)
    ensures var p, q := FirstIn(v, from, 0), FirstIn(v, to, 0);
            a.onChar == v[p].onChar && a.offChar == v[p].offChar && b.onChar == v[q].onChar && b.offChar == v[q].offChar
  {
    var p, q := FirstIn(v, from, 0), FirstIn(v, to, 0);
    var w := Apply(v, Sync(from, to));
    assert w[q] == Timed(v[q], v[p]) && (p != q ==> w[p] == v[p]);
    PairStaysInStep(w, ops, w[p], w[q]);
    TicksKeepPlace(w[p], Ticks(ops));
    TicksKeepPlace(w[q], Ticks(ops));
    a, b := TickTimes(w[p], Ticks(ops)), TickTimes(w[q], Ticks(ops));
  }

  /** Some node at `location` blinks between these two characters. */
  ghost predicate Blinks(v: seq<Node>, location: int, on: byte, off: byte) {
    exists k :: 0 <= k < |v| && v[k].location == location && v[k].onChar == on && v[k].offChar == off
  }

  lemma StepKeepsCharacters(v: seq<Node>, op: Op, location: int, on: byte, off: byte)
    requires Blinks(v, location, on, off) && op != Remove(location)
    ensures Blinks(Apply(v, op), location, on, off)
  {
    var k: nat :| k < |v| && v[k].location == location && v[k].onChar == on && v[k].offChar == off;
    match op
    case Add(place, _, _, _, _) =>
      if place < POOL && |v| < POOL { assert ([Fresh(op)] + v)[k + 1] == v[k]; }
    case Remove(place) =>
      var p := FirstIn(v, place, 0);
      if p < |v| { assert (v[..p] + v[p + 1..])[if k < p then k else k - 1] == v[k]; }
    case Sync(from, to) =>
      var p, q := FirstIn(v, from, 0), FirstIn(v, to, 0);
      if p < |v| && q < |v| { assert v[q := Timed(v[q], v[p])][k].location == location; }
    case Tick =>
      assert AllTicked(v)[k] == TickNode(v[k]);
  }

  /** Ticks, synchronisations, adds and removals elsewhere never change what a node looks like. */
  lemma {:induction false} CharactersStay(v: seq<Node>, ops: seq<Op>, location: word, on: byte, off: byte)
    requires Blinks(v, location, on, off) && Remove(location) !in ops
    ensures Blinks(ApplyAll(v, ops), location, on, off)
    decreases |ops|
  {
    if ops != [] {
      var shorter := ops[..|ops| - 1];
      CharactersStay(v, shorter, location, on, off);
      hide Apply, Blinks;
      StepKeepsCharacters(ApplyAll(v, shorter), ops[|ops| - 1], location, on, off);
    }
  }

  /** An add is accepted exactly for a cell of the screen and while fewer than 2000 characters blink; the
      new node then comes first, on, with a whole on phase before it. */
  lemma AddAccepted(v: seq<Node>, op: Op)
    requires op.Add?
    ensures Apply(v, op) != v <==> op.location < 2000 && |v| < 2000
    ensures Apply(v, op) != v ==>
      |Apply(v, op)| == |v| + 1 && Apply(v, op)[1..] == v && Face(Apply(v, op)[0]) == op.onChar
      && Apply(v, op)[0].location == op.location && Apply(v, op)[0].countdown == op.onLength == Apply(v, op)[0].onLength
      && Apply(v, op)[0].offLength == op.offLength && Apply(v, op)[0].offChar == op.offChar
  {
    assert |[Fresh(op)] + v| == |v| + 1;
  }

  /** A removal takes out exactly the first node at its location, if there is one. */
  lemma RemovesFirst(v: seq<Node>, before: seq<Node>, n: Node, behind: seq<Node>)
    requires v == before + [n] + behind && forall k :: 0 <= k < |before| ==> before[k].location != n.location
    ensures Apply(v, Remove(n.location)) == before + behind
    ensures forall location: word :: (forall k :: 0 <= k < |v| ==> v[k].location != location) ==> Apply(v, Remove(location)) == v
  {
    var p := FirstIn(v, n.location, 0);
    assert v[|before|] == n && forall k :: 0 <= k < |before| ==> v[k] == before[k];
    assert p == |before|;
  }

  // ---- the pool ----

  lemma FirstAlike(nodes: seq<Node>, list: seq<nat>, location: int)
    requires |nodes| == POOL && forall j :: 0 <= j < |list| ==> list[j] < POOL
    ensures FirstAt(nodes, list, location, 0) == FirstIn(View(nodes, list), location, 0)
  {
    var v := View(nodes, list);
    var p, q := FirstAt(nodes, list, location, 0), FirstIn(v, location, 0);
    assert forall j :: 0 <= j < |list| ==> v[j].location == nodes[list[j]].location;
    assert p < |list| ==> v[p].location == location;
    assert q < |list| ==> nodes[list[q]].location == location;
  }

  /** A view is known by its nodes. */
  lemma ViewIs(nodes: seq<Node>, list: seq<nat>, w: seq<Node>)
    requires |nodes| == POOL && (forall j :: 0 <= j < |list| ==> list[j] < POOL) && |w| == |list|
    requires forall j :: 0 <= j < |list| ==> Seen(nodes, list, j, w[j])
    ensures View(nodes, list) == w
  {
    forall j: nat | j < |list| ensures View(nodes, list)[j] == w[j] {
      assert Seen(nodes, list, j, w[j]);
    }
  }

  ghost predicate Seen(nodes: seq<Node>, list: seq<nat>, j: nat, n: Node) {
    |nodes| == POOL && j < |list| && list[j] < POOL && Bare(nodes[list[j]]) == n
  }

  lemma AddSeen(nodes: seq<Node>, head: int, list: seq<nat>, i: nat, n: Node, j: nat)
    requires Linked(nodes, head, list) && i < POOL && nodes[i].location == 0 && j <= |list|
    ensures Seen(nodes[i := n], [i] + list, j, ([Bare(n)] + View(nodes, list))[j])
  {
    if j > 0 {
      assert list[j - 1] in list && list[j - 1] != i;
      assert View(nodes, list)[j - 1] == Bare(nodes[list[j - 1]]);
    }
    hide Linked, View, Bare;
  }

  lemma AddView(nodes: seq<Node>, head: int, list: seq<nat>, i: nat, n: Node)
    requires Linked(nodes, head, list) && i < POOL && nodes[i].location == 0
    ensures forall j :: 0 <= j < |[i] + list| ==> ([i] + list)[j] < POOL
    ensures View(nodes[i := n], [i] + list) == [Bare(n)] + View(nodes, list)
  {
    var w := [Bare(n)] + View(nodes, list);
    forall j: nat | j < |[i] + list| ensures Seen(nodes[i := n], [i] + list, j, w[j]) {
      AddSeen(nodes, head, list, i, n, j);
    }
    hide Linked, View;
    ViewIs(nodes[i := n], [i] + list, w);
  }

  lemma UnlinkedAt(nodes: seq<Node>, list: seq<nat>, p: nat, x: nat)
    requires |nodes| == POOL && p < |list| && x < POOL && x != list[p] && forall j :: 0 <= j < |list| ==> list[j] < POOL
    ensures |Unlinked(nodes, list, p)| == POOL && Bare(Unlinked(nodes, list, p)[x]) == Bare(nodes[x])
  {
  }

  lemma GapAt(v: seq<Node>, p: nat, i: nat)
    requires p < |v| && i < |v| - 1
    ensures (v[..p] + v[p + 1..])[i] == v[if i < p then i else i + 1]
  {
  }

  lemma RemoveSeen(nodes: seq<Node>, head: int, list: seq<nat>, p: nat, i: nat)
    requires Linked(nodes, head, list) && p < |list| && i < |list| - 1
    ensures var v := View(nodes, list); Seen(Unlinked(nodes, list, p), Without(list, p), i, (v[..p] + v[p + 1..])[i])
  {
    var v, j := View(nodes, list), if i < p then i else i + 1;
    WithoutAt(list, p, i);
    assert list[j] != list[p] && v[j] == Bare(nodes[list[j]]);
    hide Without, Unlinked, Bare, View;
    UnlinkedAt(nodes, list, p, list[j]);
    GapAt(v, p, i);
  }

  lemma RemoveView(nodes: seq<Node>, head: int, list: seq<nat>, p: nat)
    requires Linked(nodes, head, list) && p < |list|
    ensures forall j :: 0 <= j < |Without(list, p)| ==> Without(list, p)[j] < POOL
    ensures View(Unlinked(nodes, list, p), Without(list, p)) == View(nodes, list)[..p] + View(nodes, list)[p + 1..]
  {
    var v := View(nodes, list);
    var w := v[..p] + v[p + 1..];
    WithoutInPool(list, p);
    forall i: nat | i < |list| - 1 ensures Seen(Unlinked(nodes, list, p), Without(list, p), i, w[i]) {
      RemoveSeen(nodes, head, list, p, i);
    }
    assert |Unlinked(nodes, list, p)| == POOL;
    hide Linked, Unlinked, View, Without;
    ViewIs(Unlinked(nodes, list, p), Without(list, p), w);
  }

  lemma TickSeen(nodes: seq<Node>, head: int, list: seq<nat>, j: nat)
    requires Linked(nodes, head, list) && j < |list|
    ensures Seen(Ticked(nodes, list, |list|), list, j, AllTicked(View(nodes, list))[j])
  {
    hide Ticked, TickNode, Bare, View;
    TickedAt(nodes, list, |list|, j);
    BareTick(nodes[list[j]]);
    hide Linked, Distinct;
    assert View(nodes, list)[j] == Bare(nodes[list[j]]);
  }

  lemma BareTick(n: Node)
    ensures Bare(TickNode(n)) == TickNode(Bare(n))
  {
  }

  lemma TickView(nodes: seq<Node>, head: int, list: seq<nat>)
    requires Linked(nodes, head, list)
    ensures View(Ticked(nodes, list, |list|), list) == AllTicked(View(nodes, list))
  {
    assert forall j :: 0 <= j < |list| ==> list[j] < POOL;
    hide Ticked, View, AllTicked;
    var w := AllTicked(View(nodes, list));
    forall j: nat | j < |list| ensures Seen(Ticked(nodes, list, |list|), list, j, w[j]) {
      TickSeen(nodes, head, list, j);
    }
    hide Linked;
    ViewIs(Ticked(nodes, list, |list|), list, w);
  }

  lemma SyncView(nodes: seq<Node>, head: int, list: seq<nat>, p: nat, q: nat)
    requires Linked(nodes, head, list) && p < |list| && q < |list|
    ensures var v := View(nodes, list);
            View(nodes[list[q] := Timed(nodes[list[q]], nodes[list[p]])], list) == v[q := Timed(v[q], v[p])]
  {
    var v := View(nodes, list);
    var after := nodes[list[q] := Timed(nodes[list[q]], nodes[list[p]])];
    var w := v[q := Timed(v[q], v[p])];
    forall j: nat | j < |list| ensures Seen(after, list, j, w[j]) {
      SyncSeen(nodes, head, list, p, q, j);
    }
    hide Linked, View, Timed;
    ViewIs(after, list, w);
  }

  lemma SyncSeen(nodes: seq<Node>, head: int, list: seq<nat>, p: nat, q: nat, j: nat)
    requires Linked(nodes, head, list) && p < |list| && q < |list| && j < |list|
    ensures var v := View(nodes, list);
            Seen(nodes[list[q] := Timed(nodes[list[q]], nodes[list[p]])], list, j, v[q := Timed(v[q], v[p])][j])
  {
    var v := View(nodes, list);
    assert v[j] == Bare(nodes[list[j]]) && v[p] == Bare(nodes[list[p]]) && v[q] == Bare(nodes[list[q]]);
    assert j != q ==> list[j] != list[q];
    hide Linked, View, Distinct;
  }

  /** An operation after which every cell still shows its node: not an add that succeeds where a node is, and
      not a synchronisation with a node that is on of one whose characters differ. */
  predicate Clear(v: seq<Node>, op: Op) {
    match op
    case Add(location, _, _, _, _) => location < POOL && |v| < POOL ==> FirstIn(v, location, 0) == |v|
    case Sync(from, to) =>
      var p, q := FirstIn(v, from, 0), FirstIn(v, to, 0);
      p < |v| && q < |v| && IsOn(v[p]) ==> v[q].onChar == v[q].offChar
    case _ => true
  }

  /** One request or tick. A location of 0 is excluded for an add that would succeed: AddExactly says why. */
  method Perform(pool: Pool, op: Op) returns (ret: int)
    requires pool.Valid() && (op.Add? ==> op.location != 0)
    modifies pool, pool.nodes, pool.vmem
    ensures pool.Valid()
    ensures View(pool.nodes[..], pool.list) == Apply(old(View(pool.nodes[..], pool.list)), op)
    ensures old(pool.Shown()) ==> (pool.Shown() <==> old(Clear(View(pool.nodes[..], pool.list), op)))
  {
    hide View, Apply, FirstIn, Linked, Separate, Displayed, IsOn;
    match op {
      case Add(_, _, _, _, _) => ret := PerformAdd(pool, op);
      case Remove(_) => ret := PerformRemove(pool, op);
      case Sync(_, _) => ret := PerformSync(pool, op);
      case Tick =>
        PerformTick(pool);
        ret := 0;
    }
  }

  method PerformRemove(pool: Pool, op: Op) returns (ret: int)
    requires pool.Valid() && op.Remove?
    modifies pool, pool.nodes
    ensures pool.Valid()
    ensures View(pool.nodes[..], pool.list) == Apply(old(View(pool.nodes[..], pool.list)), op)
    ensures old(pool.Shown()) ==> pool.Shown()
  {
    ghost var nodes, head, list := pool.nodes[..], pool.head, pool.list;
    assert |nodes| == POOL && forall j :: 0 <= j < |list| ==> list[j] < POOL;
    hide View, Unlinked, Without, Separate, Displayed, FirstAt;
    FirstAlike(nodes, list, op.location);
    ret := pool.Remove(op.location);
    if ret == 0 { RemoveView(nodes, head, list, FirstAt(nodes, list, op.location, 0)); }
  }

  method PerformSync(pool: Pool, op: Op) returns (ret: int)
    requires pool.Valid() && op.Sync?
    modifies pool, pool.nodes, pool.vmem
    ensures pool.Valid()
    ensures View(pool.nodes[..], pool.list) == Apply(old(View(pool.nodes[..], pool.list)), op)
    ensures old(pool.Shown()) ==> (pool.Shown() <==> old(Clear(View(pool.nodes[..], pool.list), op)))
  {
    ghost var nodes, head, list := pool.nodes[..], pool.head, pool.list;
    assert |nodes| == POOL && forall j :: 0 <= j < |list| ==> list[j] < POOL;
    hide View, FirstAt, Timed, Separate, Displayed;
    FirstAlike(nodes, list, op.from);
    FirstAlike(nodes, list, op.to);
    ret := pool.Sync(op.from, op.to);
    if ret == 0 { SyncView(nodes, head, list, FirstAt(nodes, list, op.from, 0), FirstAt(nodes, list, op.to, 0)); }
  }

  method PerformTick(pool: Pool)
    requires pool.Valid()
    modifies pool.nodes, pool.vmem
    ensures pool.Valid()
    ensures View(pool.nodes[..], pool.list) == Apply(old(View(pool.nodes[..], pool.list)), Tick)
    ensures old(pool.Shown()) ==> pool.Shown()
  {
    hide View, Ticked, Poked, Separate, Displayed;
    TickView(pool.nodes[..], pool.head, pool.list);
    pool.Tasklet();
  }

  method PerformAdd(pool: Pool, op: Op) returns (ret: int)
    requires pool.Valid() && op.Add? && op.location != 0
    modifies pool, pool.nodes, pool.vmem
    ensures pool.Valid()
    ensures View(pool.nodes[..], pool.list) == Apply(old(View(pool.nodes[..], pool.list)), op)
    ensures old(pool.Shown()) ==> (pool.Shown() <==> old(Clear(View(pool.nodes[..], pool.list), op)))
  {
    ghost var nodes, head, list := pool.nodes[..], pool.head, pool.list;
    assert |nodes| == POOL && forall j :: 0 <= j < |list| ==> list[j] < POOL;
    hide View, Unlinked, Without, Ticked, Poked, Separate, Displayed, FirstAt;
    FirstAlike(nodes, list, op.location);
    ret := pool.Add(op.location, op.onChar, op.offChar, op.onLength, op.offLength);
    if ret == 0 {
      AddView(nodes, head, list, pool.head, pool.nodes[pool.head]);
      if FirstAt(nodes, list, op.location, 0) < |list| {
        AddOccupied(nodes, list, pool.head, pool.nodes[pool.head]);
      }
    }
  }

  lemma AddOccupied(nodes: seq<Node>, list: seq<nat>, i: nat, n: Node)
    requires |nodes| == POOL && i < POOL && nodes[i].location == 0 && forall j :: 0 <= j < |list| ==> list[j] < POOL
    requires n.location != 0 && FirstAt(nodes, list, n.location, 0) < |list|
    ensures forall j :: 0 <= j < |[i] + list| ==> ([i] + list)[j] < POOL
    ensures !Separate(nodes[i := n], [i] + list)
  {
    var p := FirstAt(nodes, list, n.location, 0);
    assert nodes[i := n][list[p]].location == n.location;
    hide *;
    TwiceOccupied(nodes[i := n], [i] + list, p + 1);
  }

  lemma TwiceOccupied(nodes: seq<Node>, list: seq<nat>, p: nat)
    requires |nodes| == POOL && (forall j :: 0 <= j < |list| ==> list[j] < POOL) && 0 < p < |list|
    requires nodes[list[0]].location == nodes[list[p]].location
    ensures !Separate(nodes, list)
  {
  }

  /** Any sequence of requests and ticks. */
  method Run(pool: Pool, ops: seq<Op>)
    requires pool.Valid() && forall k :: 0 <= k < |ops| && ops[k].Add? ==> ops[k].location != 0
    modifies pool, pool.nodes, pool.vmem
    ensures pool.Valid()
    ensures View(pool.nodes[..], pool.list) == ApplyAll(old(View(pool.nodes[..], pool.list)), ops)
    ensures old(pool.Shown()) && (forall k :: 0 <= k < |ops| ==> old(Clear(ApplyAll(View(pool.nodes[..], pool.list), ops[..k]), ops[k])))
            ==> pool.Shown()
  {
    hide Apply, Clear;
    ghost var start := View(pool.nodes[..], pool.list);
    ghost var shown := pool.Shown();
    for i := 0 to |ops|
      invariant pool.Valid() && View(pool.nodes[..], pool.list) == ApplyAll(start, ops[..i])
      invariant shown && (forall k :: 0 <= k < i ==> Clear(ApplyAll(start, ops[..k]), ops[k])) ==> pool.Shown()
    {
      var _ := Perform(pool, ops[i]);
      assert ops[..i + 1][..i] == ops[..i];
    }
    assert ops[..|ops|] == ops;
  }

  /** The cell of a node that was added and spared since, on a pool that shows its nodes. */
  lemma CellBlinks(pool: Pool, v: seq<Node>, op: Op, ops: seq<Op>)
    requires pool.Valid() && pool.Shown() && View(pool.nodes[..], pool.list) == ApplyAll(Apply(v, op), ops)
    requires op.Add? && op.location < POOL && |v| < POOL
    requires forall k :: 0 <= k < |ops| ==> Spares(ops[k], op.location)
    ensures pool.vmem[op.location] ==
            if Ticks(ops) % (Duration(op.onLength) + Duration(op.offLength)) < Duration(op.onLength) then op.onChar else op.offChar
  {
    AddedNodeBlinks(v, op, ops);
    var n := TickTimes(Fresh(op), Ticks(ops));
    var w := View(pool.nodes[..], pool.list);
    var k: nat :| k < |w| && w[k] == n;
    assert Bare(pool.nodes[..][pool.list[k]]) == n;
  }
}
