/**
 The concurrent ordered set as a transition system over values.

 Nodes live in a heap and are named by identities, as they are shared by reference in the
 program; the index maps a key to a node identity.  A call runs in at most two atomic phases:
 `EditForPut`/`EditForRemove` under the shared index lock and the lock of one node, and `Commit`
 under the exclusive index lock.
 */
module ConcurrentState {
  import opened Basics
  import opened NodeOps
  import opened OrderedKeys

  type NodeId = nat

  /** A change event; `max` names the node by its greatest key before the change. */
  datatype Event =
    | CreateNode(first: Pair)
    | RemoveNode(max: int)
    | InsertAt(max: int, value: Pair, at: nat)
    | RemoveAt(max: int, value: Pair, at: nat)
    | SplitNode(max: int, at: nat)

  /** An event with its id. */
  datatype Logged = Logged(id: nat, event: Event)

  /** Event ids are taken from the shared counter, in order. */
  function Number(events: seq<Event>, first: nat): (r: seq<Logged>)
    ensures |r| == |events| && forall i :: 0 <= i < |r| ==> r[i] == Logged(first + i, events[i])
  {
    seq(|events|, i requires 0 <= i < |events| => Logged(first + i, events[i]))
  }

  lemma NumberAppend(xs: seq<Event>, ys: seq<Event>, first: nat)
    ensures Number(xs, first) + Number(ys, first + |xs|) == Number(xs + ys, first)
  {
  }

  datatype Op =
    | Split(node: NodeId, oldMax: int, value: Pair)
    | UpdateMax(node: NodeId, oldMax: int)
    | MakeUnreachable(node: NodeId, oldMax: int)

  datatype State = State(
    index: map<int, NodeId>,
    heap: map<NodeId, Node>,
    nextNode: nat,
    nextEvent: nat,
    cap: nat)

  /** What the first phase of a call hands on: a result, its events and perhaps a commit to do. */
  datatype Edit = Edit(result: Option<Pair>, events: seq<Event>, next: Option<Op>)

  /** `Panicked` is the failed expectation that a node being split is not empty. */
  datatype Verdict = Done(prior: Option<Pair>, events: seq<Event>) | Rejected | Panicked

  /** Representation facts that every step of every call keeps. */
  ghost predicate WellFormed(s: State) {
    && 2 <= s.cap
    && (forall k :: k in s.index ==> s.index[k] in s.heap)
    && (forall id :: id in s.heap ==> id < s.nextNode && Sorted(s.heap[id]) && |s.heap[id]| <= s.cap)
  }

  function NodeAt(s: State, k: int): Node
    requires k in s.index && s.index[k] in s.heap
  {
    s.heap[s.index[k]]
  }

  function Empty(cap: nat): State {
    State(map[], map[], 0, 0, cap)
  }

  // ---------------------------------------------------------------- first phase

  /** The events of replacing the entry whose key is already present. */
  ghost function ReplaceEvents(n: Node, v: Pair): seq<Event>
    requires Has(n, v.key)
  {
    var i := Point(n, v.key);
    if |n| == 1 then [RemoveNode(Max(n)), CreateNode(v)]
    else if i == |n| - 1 then [RemoveAt(Max(n), v, i), InsertAt(n[|n| - 2].key, v, i)]
    else [RemoveAt(Max(n), v, i), InsertAt(Max(n), v, i)]
  }

  /** A put that found the index empty installs a first node, without looking at the index again. */
  function Install(s: State, v: Pair): State {
    s.(index := s.index[v.key := s.nextNode], heap := s.heap[s.nextNode := [v]],
       nextNode := s.nextNode + 1, nextEvent := s.nextEvent + 1)
  }

  ghost function EditForPut(s: State, v: Pair): (State, Edit)
    requires s.index != map[] && forall k :: k in s.index ==> s.index[k] in s.heap
  {
    var k := Locate(s.index.Keys, v.key);
    var id := s.index[k];
    var n := s.heap[id];
    if s.cap <= |n| then
      (s, Edit(None, [], Some(Split(id, k, v))))
    else if Has(n, v.key) then
      var events := ReplaceEvents(n, v);
      (s.(heap := s.heap[id := Stored(n, v)], nextEvent := s.nextEvent + |events|),
       Edit(Find(n, v.key), events, None))
    else
      var events := [InsertAt(if n == [] then v.key else Max(n), v, Point(n, v.key))];
      (s.(heap := s.heap[id := Stored(n, v)], nextEvent := s.nextEvent + |events|),
       Edit(None, events,
            if n == [] || Max(Stored(n, v)) == Max(n) then None else Some(UpdateMax(id, Max(n)))))
  }

  ghost function EditForRemove(s: State, key: int): (State, Edit)
    requires forall k :: k in s.index ==> s.index[k] in s.heap
  {
    match Ceiling(s.index.Keys, key)
    case None => (s, Edit(None, [], None))
    case Some(k) =>
      var id := s.index[k];
      var n := s.heap[id];
      if !Has(n, key) then
        (s, Edit(None, [], None))
      else
        var i := Point(n, key);
        var rest := Removed(n, i);
        if rest == [] then
          (s.(heap := s.heap[id := rest]), Edit(Some(n[i]), [], Some(MakeUnreachable(id, Max(n)))))
        else
          (s.(heap := s.heap[id := rest], nextEvent := s.nextEvent + 1),
           Edit(Some(n[i]), [RemoveAt(Max(n), n[i], i)],
                if Max(rest) == Max(n) then None else Some(UpdateMax(id, Max(n)))))
  }

  // ---------------------------------------------------------------- second phase

  /** The two nodes that a split leaves, with v stored in one of them, and the upper one's key. */
  datatype Halves = Halves(left: Node, right: Node, rightKey: int, prior: Option<Pair>, events: seq<Event>)

  ghost function StoreEvents(n: Node, v: Pair): seq<Event>
    requires n != []
  {
    var i := Point(n, v.key);
    (if Has(n, v.key) then [RemoveAt(Max(n), n[i], i)] else []) + [InsertAt(Max(n), v, i)]
  }

  ghost function StoreInHalf(l: Node, r: Node, v: Pair): Halves
    requires r != []
  {
    if l != [] && v.key <= Max(l) then
      Halves(Stored(l, v), r, Max(r), Find(l, v.key), StoreEvents(l, v))
    else
      Halves(l, Stored(r, v), if !Has(r, v.key) && Max(r) < v.key then v.key else Max(r),
             Find(r, v.key), StoreEvents(r, v))
  }

  /** The lower half keeps its identity and is indexed, unless empty, by its greatest key before
      the store; the upper half gets a new identity. */
  ghost function CommitSplit(s: State, id: NodeId, k: int, v: Pair): (State, Verdict)
    requires id in s.heap
  {
    if k !in s.index || s.index[k] != id then (s, Rejected)
    else if s.heap[id] == [] then (s, Panicked)
    else
      var n := s.heap[id];
      var h := |n| / 2;
      var p := StoreInHalf(n[..h], n[h..], v);
      var events := [SplitNode(Max(n), h)] + p.events;
      var lower := if h == 0 then s.index - {k} else (s.index - {k})[Max(n[..h]) := id];
      (s.(index := lower[p.rightKey := s.nextNode],
          heap := s.heap[id := p.left][s.nextNode := p.right],
          nextNode := s.nextNode + 1,
          nextEvent := s.nextEvent + |events|),
       Done(p.prior, events))
  }

  ghost function CommitUpdateMax(s: State, id: NodeId, k: int): (State, Verdict)
    requires id in s.heap
  {
    var n := s.heap[id];
    if n == [] then (s, Done(None, []))
    else if k !in s.index || s.index[k] != id then (s, Rejected)
    else if Max(n) == k then (s, Done(None, []))
    else (s.(index := (s.index - {k})[Max(n) := id]), Done(None, []))
  }

  ghost function CommitMakeUnreachable(s: State, id: NodeId, k: int): (State, Verdict)
    requires id in s.heap
  {
    var n := s.heap[id];
    if k !in s.index || s.index[k] != id || (n != [] && k <= Max(n)) then (s, Rejected)
    else (s.(index := s.index - {k}, nextEvent := s.nextEvent + 1), Done(None, [RemoveNode(k)]))
  }

  ghost function Commit(s: State, op: Op): (State, Verdict)
    requires op.node in s.heap
  {
    match op
    case Split(id, k, v) => CommitSplit(s, id, k, v)
    case UpdateMax(id, k) => CommitUpdateMax(s, id, k)
    case MakeUnreachable(id, k) => CommitMakeUnreachable(s, id, k)
  }

  // ---------------------------------------------------------------- what each phase keeps

  ghost predicate Below(a: Node, b: Node) {
    forall x, y :: x in a && y in b ==> x.key < y.key
  }

  /** Splitting is lossless: the halves hold what the node held, with v stored. */
  lemma StoreInHalfMeaning(l: Node, r: Node, v: Pair)
    requires Sorted(l) && Sorted(r) && r != [] && Below(l, r)
    ensures var p := StoreInHalf(l, r, v);
            && Sorted(p.left) && Sorted(p.right) && Below(p.left, p.right)
            && (forall e :: e in p.left || e in p.right <==> e == v || ((e in l || e in r) && e.key != v.key))
            && Answers(p.prior, e => e in l || e in r, v.key)
  {
    if l != [] && v.key <= Max(l) {
      StoredMeaning(l, v);
      FindMeaning(l, v.key);
      assert l[|l| - 1] in l;
    } else {
      StoredMeaning(r, v);
      FindMeaning(r, v.key);
      forall e | e in l ensures e.key < v.key { AtMostMax(l, e); }
    }
  }

  /** The halves are indexed by their greatest keys and gain one entry at most. */
  lemma StoreInHalfShape(l: Node, r: Node, v: Pair)
    requires Sorted(l) && Sorted(r) && r != [] && Below(l, r)
    ensures var p := StoreInHalf(l, r, v);
            && p.right != [] && p.rightKey == Max(p.right)
            && p.rightKey == (if Max(r) < v.key then v.key else Max(r))
            && (p.left == [] <==> l == []) && (l != [] ==> Max(p.left) == Max(l))
            && |p.left| <= |l| + 1 && |p.right| <= |r| + 1
            && (l == [] ==> p.left == l)
  {
    if l != [] && v.key <= Max(l) {
      StoredMeaning(l, v);
      assert l[|l| - 1] in l && r[|r| - 1] in r;
    } else {
      StoredMeaning(r, v);
    }
  }

  lemma HalvesFit(n: Node)
    requires Sorted(n) && n != []
    ensures var h := |n| / 2;
            && h < |n| && (h == 0 <==> |n| == 1)
            && Sorted(n[..h]) && Sorted(n[h..]) && Below(n[..h], n[h..])
            && (forall e :: e in n <==> e in n[..h] || e in n[h..])
            && Max(n[h..]) == Max(n)
            && |n[..h]| == h && |n[h..]| == |n| - h
  {
    CutMeaning(n, |n| / 2);
  }

  /** Both phases of every call keep the representation well formed: in particular no node ever
      outgrows the configured capacity, whatever the interleaving. */
  lemma EditForPutKeeps(s: State, v: Pair)
    requires WellFormed(s) && s.index != map[]
    ensures var (t, e) := EditForPut(s, v);
            && WellFormed(t) && t.index == s.index && t.nextNode == s.nextNode && t.heap.Keys == s.heap.Keys && t.cap == s.cap
            && (e.next.Some? ==> e.next.value.node in t.heap)
            && (e.next.Some? ==> e.result == None && (e.next.value.Split? ==> e.events == []))
            && t.nextEvent == s.nextEvent + |e.events|
  {
    hide Stored, Sorted, Find;
    var k := Locate(s.index.Keys, v.key);
    StoredMeaning(NodeAt(s, k), v);
  }

  /** The first phase of a put either hands the split on or stores v, and whenever storing moves
      the maximum of the node it hands on the re-keying. */
  lemma EditForPutShape(s: State, v: Pair)
    requires WellFormed(s) && s.index != map[]
    ensures var (t, e) := EditForPut(s, v);
            var k := Locate(s.index.Keys, v.key);
            var id, n := s.index[k], NodeAt(s, k);
            && (s.cap <= |n| ==> t == s && e == Edit(None, [], Some(Split(id, k, v))))
            && (|n| < s.cap ==>
                  && t == s.(heap := s.heap[id := Stored(n, v)], nextEvent := t.nextEvent)
                  && e.result == Find(n, v.key)
                  && e.next == if n == [] || Max(Stored(n, v)) == Max(n) then None else Some(UpdateMax(id, Max(n))))
  {
    StoredMeaning(NodeAt(s, Locate(s.index.Keys, v.key)), v);
  }

  lemma EditForRemoveKeeps(s: State, key: int)
    requires WellFormed(s)
    ensures var (t, e) := EditForRemove(s, key);
            && WellFormed(t) && t.index == s.index && t.nextNode == s.nextNode && t.heap.Keys == s.heap.Keys && t.cap == s.cap
            && (e.next.Some? ==> e.next.value.node in t.heap && !e.next.value.Split?)
            && t.nextEvent == s.nextEvent + |e.events|
  {
    var c := Ceiling(s.index.Keys, key);
    if c.Some? && Has(NodeAt(s, c.value), key) {
      RemovedMeaning(NodeAt(s, c.value), Point(NodeAt(s, c.value), key));
    }
  }

  /** An accepted split, spelled out. */
  ghost predicate Accepted(s: State, id: NodeId, k: int) {
    k in s.index && s.index[k] == id && id in s.heap && s.heap[id] != []
  }

  lemma CommitSplitShape(s: State, id: NodeId, k: int, v: Pair) returns (p: Halves)
    requires WellFormed(s) && Accepted(s, id, k)
    ensures var (t, verdict) := CommitSplit(s, id, k, v);
            var n := s.heap[id];
            && p == StoreInHalf(n[..|n| / 2], n[|n| / 2..], v)
            && verdict == Done(p.prior, [SplitNode(Max(n), |n| / 2)] + p.events)
            && t.heap == s.heap[id := p.left][s.nextNode := p.right]
            && t.index == (if p.left == [] then s.index - {k} else (s.index - {k})[Max(p.left) := id])[p.rightKey := s.nextNode]
            && p.right != [] && p.rightKey == Max(p.right)
            && p.rightKey == (if Max(n) < v.key then v.key else Max(n))
            && |p.left| <= |n| / 2 + 1 && |p.right| <= |n| - |n| / 2 + 1 && (|n| == 1 <==> p.left == [])
            && (p.left != [] ==> Max(p.left) == n[|n| / 2 - 1].key)
  {
    var n := s.heap[id];
    HalvesFit(n);
    StoreInHalfShape(n[..|n| / 2], n[|n| / 2..], v);
    p := StoreInHalf(n[..|n| / 2], n[|n| / 2..], v);
  }

  lemma CommitSplitContents(n: Node, v: Pair, p: Halves)
    requires Sorted(n) && n != [] && p == StoreInHalf(n[..|n| / 2], n[|n| / 2..], v)
    ensures Sorted(p.left) && Sorted(p.right) && Below(p.left, p.right)
    ensures forall e :: e in p.left || e in p.right <==> e == v || (e in n && e.key != v.key)
    ensures Answers(p.prior, e => e in n, v.key)
  {
    HalvesFit(n);
    StoreInHalfMeaning(n[..|n| / 2], n[|n| / 2..], v);
  }

  lemma CommitKeeps(s: State, op: Op)
    requires WellFormed(s) && op.node in s.heap
    ensures var (t, verdict) := Commit(s, op);
            && WellFormed(t) && s.heap.Keys <= t.heap.Keys && t.cap == s.cap
            && (!verdict.Done? ==> t == s)
            && (!op.Split? ==> !verdict.Panicked? && (verdict.Done? ==> verdict.prior == None))
            && t.nextEvent == s.nextEvent + (if verdict.Done? then |verdict.events| else 0)
  {
    hide StoreInHalf, Answers, Below;
    if op.Split? && Accepted(s, op.node, op.oldMax) {
      var p := CommitSplitShape(s, op.node, op.oldMax, op.value);
      CommitSplitContents(s.heap[op.node], op.value, p);
    }
  }
}
