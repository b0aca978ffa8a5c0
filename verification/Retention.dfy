/**
 Deleting many entries by positions collected beforehand.

 The positions are collected in ascending order and deleted in reverse.  A deletion may drop a
 whole node, but every position before it still names the same entry.
 */
module Retention {
  import opened Basics
  import opened NodeOps
  import opened Flattening
  import opened Spine
  import opened SetSpec

  /** Node, and position within the node. */
  datatype Place = Place(node: nat, position: nat)

  predicate Precedes(a: Place, b: Place) {
    a.node < b.node || (a.node == b.node && a.position < b.position)
  }

  predicate Within(ss: seq<Node>, a: Place) {
    a.node < |ss| && a.position < |ss[a.node]|
  }

  function Global(ss: seq<Node>, a: Place): nat
    requires a.node <= |ss|
  {
    Offset(ss, a.node) + a.position
  }

  /** `places` lists, in order, exactly the entries before `limit` that f rejects. */
  ghost predicate Lists(places: seq<Place>, ss: seq<Node>, f: Pair -> bool, limit: Place) {
    && (forall x :: 0 <= x < |places| ==> Within(ss, places[x]) && Precedes(places[x], limit))
    && (forall x, y :: 0 <= x < y < |places| ==> Precedes(places[x], places[y]))
    && (forall a :: Within(ss, a) && Precedes(a, limit) ==> (a in places <==> !f(ss[a.node][a.position])))
  }

  // ---------------------------------------------------------------- places and positions

  lemma {:induction false} PlaceOf(ss: seq<Node>, g: nat, n: nat) returns (a: Place)
    requires n <= |ss| && g < Offset(ss, n)
    ensures a.node < n && Within(ss, a) && Global(ss, a) == g
  {
    if n == 0 {
      OffsetEnds(ss);
    } else {
      OffsetStep(ss, n - 1);
      if Offset(ss, n - 1) <= g {
        a := Place(n - 1, g - Offset(ss, n - 1));
      } else {
        a := PlaceOf(ss, g, n - 1);
      }
    }
  }

  lemma GlobalOrder(ss: seq<Node>, a: Place, b: Place)
    requires Within(ss, a) && b.node <= |ss| && Precedes(a, b)
    ensures Global(ss, a) < Global(ss, b)
  {
    OffsetStep(ss, a.node);
    if a.node < b.node { OffsetMonotone(ss, a.node + 1, b.node); }
  }

  /** The entries before a place differ from the entry there. */
  lemma EarlierDiffers(ss: seq<Node>, a: Place, b: Place)
    requires Sorted(Flatten(ss)) && Within(ss, a) && Within(ss, b) && Precedes(a, b)
    ensures ss[a.node][a.position] != ss[b.node][b.position]
  {
    GlobalOrder(ss, a, b);
    FlattenAt(ss, a.node, a.position);
    FlattenAt(ss, b.node, b.position);
  }

  /** The decisions about the entries p, as remembered in `kept`. */
  ghost predicate Remembers<S>(p: Node, f: (S, Pair) -> (S, bool), s: S, state: S, kept: set<Pair>) {
    && Decide(p, f, s).0 == state
    && (forall g :: 0 <= g < |p| ==> (p[g] in kept <==> Decide(p, f, s).1[g]))
    && (forall e :: e in kept ==> e in p)
  }

  lemma RemembersOne<S>(p: Node, e: Pair, f: (S, Pair) -> (S, bool), s: S, state: S, kept: set<Pair>)
    requires Remembers(p, f, s, state, kept) && e !in p
    ensures var (after, keep) := f(state, e);
            Remembers(p + [e], f, s, after, if keep then kept + {e} else kept)
  {
    var q := p + [e];
    var (after, keep) := f(state, e);
    assert q[..|q| - 1] == p;
    assert Decide(q, f, s) == (after, Decide(p, f, s).1 + [keep]);
    forall g | 0 <= g < |q| ensures q[g] in (if keep then kept + {e} else kept) <==> Decide(q, f, s).1[g] {
      if g < |p| { assert q[g] == p[g] && p[g] in p; }
    }
  }

  /** The decisions so far, listed and remembered. */
  ghost predicate Decided<S>(ss: seq<Node>, f: (S, Pair) -> (S, bool), s: S, limit: Place, state: S, places: seq<Place>, kept: set<Pair>)
    requires limit.node <= |ss|
  {
    && Global(ss, limit) <= |Flatten(ss)|
    && Lists(places, ss, e => e in kept, limit)
    && Remembers(Flatten(ss)[..Global(ss, limit)], f, s, state, kept)
  }

  lemma IsNew(ss: seq<Node>, a: Place)
    requires Sorted(Flatten(ss)) && Within(ss, a)
    ensures Global(ss, a) < |Flatten(ss)| && ss[a.node][a.position] == Flatten(ss)[Global(ss, a)]
    ensures ss[a.node][a.position] !in Flatten(ss)[..Global(ss, a)]
  {
    FlattenAt(ss, a.node, a.position);
    var p, e := Flatten(ss)[..Global(ss, a)], ss[a.node][a.position];
    assert forall g :: 0 <= g < |p| ==> p[g].key < e.key;
  }

  lemma DecideOne<S>(ss: seq<Node>, f: (S, Pair) -> (S, bool), s: S, limit: Place, state: S, places: seq<Place>, kept: set<Pair>)
    requires Sorted(Flatten(ss)) && Within(ss, limit) && Decided(ss, f, s, limit, state, places, kept)
    ensures var e := ss[limit.node][limit.position];
            var (after, keep) := f(state, e);
            Decided(ss, f, s, limit.(position := limit.position + 1), after,
                    if keep then places else places + [limit], if keep then kept + {e} else kept)
  {
    hide Flatten, Sorted, Lists, Decide;
    var e := ss[limit.node][limit.position];
    var p := Flatten(ss)[..Global(ss, limit)];
    IsNew(ss, limit);
    RemembersOne(p, e, f, s, state, kept);
    assert Flatten(ss)[..Global(ss, limit) + 1] == p + [e];
    DecideLists(ss, limit, f(state, e).1, places, kept);
  }

  lemma DecideLists(ss: seq<Node>, limit: Place, keep: bool, places: seq<Place>, kept: set<Pair>)
    requires Sorted(Flatten(ss)) && Within(ss, limit) && Lists(places, ss, e => e in kept, limit)
    requires ss[limit.node][limit.position] !in kept
    ensures Lists(if keep then places else places + [limit], ss,
                  x => x in (if keep then kept + {ss[limit.node][limit.position]} else kept),
                  limit.(position := limit.position + 1))
  {
    hide Flatten, Sorted;
    var next := limit.(position := limit.position + 1);
    assert forall a :: Within(ss, a) && Precedes(a, next) ==> Precedes(a, limit) || a == limit;
    forall a | Within(ss, a) && Precedes(a, limit)
      ensures ss[a.node][a.position] != ss[limit.node][limit.position]
    {
      EarlierDiffers(ss, a, limit);
    }
  }

  /** At the end of a node the next node begins. */
  lemma DecidedNode<S>(ss: seq<Node>, f: (S, Pair) -> (S, bool), s: S, i: nat, state: S, places: seq<Place>, kept: set<Pair>)
    requires i < |ss| && Decided(ss, f, s, Place(i, |ss[i]|), state, places, kept)
    ensures Decided(ss, f, s, Place(i + 1, 0), state, places, kept)
  {
    OffsetStep(ss, i);
    assert forall a :: Within(ss, a) && Precedes(a, Place(i + 1, 0)) ==> Precedes(a, Place(i, |ss[i]|));
  }

  lemma DecidedStarts<S>(ss: seq<Node>, f: (S, Pair) -> (S, bool), s: S)
    ensures Decided(ss, f, s, Place(0, 0), s, [], {})
  {
    OffsetEnds(ss);
    assert Flatten(ss)[..0] == [];
  }

  lemma DecidedEnds<S>(ss: seq<Node>, f: (S, Pair) -> (S, bool), s: S, state: S, places: seq<Place>, kept: set<Pair>)
    requires Decided(ss, f, s, Place(|ss|, 0), state, places, kept)
    ensures Lists(places, ss, e => e in kept, Place(|ss|, 0))
    ensures forall g :: 0 <= g < |Flatten(ss)| ==> (Flatten(ss)[g] in kept <==> Decide(Flatten(ss), f, s).1[g])
  {
    OffsetEnds(ss);
    assert Flatten(ss)[..|Flatten(ss)|] == Flatten(ss);
  }

  /** Asks about every entry once, in order, and lists the places of those rejected. */
  method Rejected<S>(ss: seq<Node>, f: (S, Pair) -> (S, bool), s: S) returns (places: seq<Place>, ghost kept: set<Pair>)
    requires Sorted(Flatten(ss))
    ensures Lists(places, ss, e => e in kept, Place(|ss|, 0))
    ensures forall g :: 0 <= g < |Flatten(ss)| ==> (Flatten(ss)[g] in kept <==> Decide(Flatten(ss), f, s).1[g])
  {
    hide Lists, Remembers, Flatten, Sorted;
    var state := s;
    places, kept := [], {};
    DecidedStarts(ss, f, s);
    for i := 0 to |ss|
      invariant Decided(ss, f, s, Place(i, 0), state, places, kept)
    {
      for j := 0 to |ss[i]|
        invariant Decided(ss, f, s, Place(i, j), state, places, kept)
      {
        DecideOne(ss, f, s, Place(i, j), state, places, kept);
        var (after, keep) := f(state, ss[i][j]);
        state := after;
        if !keep {
          places := places + [Place(i, j)];
        } else {
          kept := kept + {ss[i][j]};
        }
      }
      DecidedNode(ss, f, s, i, state, places, kept);
    }
    DecidedEnds(ss, f, s, state, places, kept);
  }

  /** The place before which everything is still as it was: a listed place, or the very end. */
  function Frontier(places: seq<Place>, ss: seq<Node>, m: nat): Place
    requires m <= |places|
  {
    if m < |places| then places[m] else Place(|ss|, 0)
  }

  /** Between the listed places f accepts everything. */
  lemma AcceptedBetween(places: seq<Place>, ss: seq<Node>, f: Pair -> bool, m: nat, g: nat)
    requires Lists(places, ss, f, Place(|ss|, 0)) && m <= |places|
    requires g < |Flatten(ss)| && g < Global(ss, Frontier(places, ss, m))
    requires 0 < m ==> Global(ss, places[m - 1]) < g
    ensures f(Flatten(ss)[g])
  {
    OffsetEnds(ss);
    var a := PlaceOf(ss, g, |ss|);
    FlattenAt(ss, a.node, a.position);
    if a in places {
      var x :| 0 <= x < |places| && places[x] == a;
      if m <= x {
        if m < x { GlobalOrder(ss, places[m], places[x]); }
      } else {
        if x < m - 1 { GlobalOrder(ss, places[x], places[m - 1]); }
      }
    }
  }

  // ---------------------------------------------------------------- what deletions leave alone

  /** The two spines agree before place a. */
  ghost predicate Agree(ss: seq<Node>, tt: seq<Node>, a: Place) {
    && a.node <= |ss| && a.node <= |tt| && ss[..a.node] == tt[..a.node]
    && (0 < a.position ==>
          && a.node < |ss| && a.position <= |ss[a.node]|
          && a.node < |tt| && a.position <= |tt[a.node]|
          && ss[a.node][..a.position] == tt[a.node][..a.position])
  }

  lemma AgreeEarlier(ss: seq<Node>, tt: seq<Node>, a: Place, b: Place)
    requires Agree(ss, tt, b) && Within(tt, a) && Precedes(a, b)
    ensures Within(ss, a) && Offset(ss, a.node) == Offset(tt, a.node) && Agree(ss, tt, a)
  {
    assert ss[..a.node] == ss[..b.node][..a.node] && tt[..a.node] == tt[..b.node][..a.node];
    if a.node < b.node {
      assert ss[a.node] == ss[..b.node][a.node] && tt[a.node] == tt[..b.node][a.node];
    } else {
      assert ss[a.node][..a.position] == ss[b.node][..b.position][..a.position];
      assert tt[a.node][..a.position] == tt[b.node][..b.position][..a.position];
    }
  }

  lemma WithoutAgrees(ss: seq<Node>, tt: seq<Node>, a: Place)
    requires Agree(ss, tt, a) && Within(ss, a)
    ensures Agree(Without(ss, a.node, a.position), tt, a)
  {
    var r := Without(ss, a.node, a.position);
    assert r[..a.node] == ss[..a.node];
    if 0 < a.position { assert r[a.node][..a.position] == ss[a.node][..a.position]; }
  }

  // ---------------------------------------------------------------- the contents on the way

  /** Deleted from position g on. */
  ghost predicate FilteredFrom(now: Node, was: Node, f: Pair -> bool, g: nat) {
    g <= |was| && now == was[..g] + Filtered(was[g..], f)
  }

  /** Deleting the entry at h, with everything between h and g accepted. */
  lemma FilterStep(now: Node, was: Node, f: Pair -> bool, h: nat, g: nat)
    requires FilteredFrom(now, was, f, g) && h < g && !f(was[h])
    requires forall x :: h < x < g ==> f(was[x])
    ensures h < |now| && FilteredFrom(Removed(now, h), was, f, h)
  {
    var tail := was[h + 1..];
    assert was[h..][1..] == tail && was[h..][0] == was[h];
    FilterTail(was, f, h, g);
    RemovedBefore(was, Filtered(was[g..], f), h, g);
  }

  lemma FilterTail(was: Node, f: Pair -> bool, h: nat, g: nat)
    requires h < g <= |was| && forall x :: h < x < g ==> f(was[x])
    ensures Filtered(was[h + 1..], f) == was[h + 1..g] + Filtered(was[g..], f)
  {
    var tail := was[h + 1..];
    assert forall x :: 0 <= x < g - h - 1 ==> tail[x] == was[h + 1 + x];
    FilteredSkipsKept(tail, f, g - h - 1);
    assert tail[g - h - 1..] == was[g..];
    assert tail[..g - h - 1] == was[h + 1..g];
  }

  lemma RemovedBefore(was: Node, rest: Node, h: nat, g: nat)
    requires h < g <= |was|
    ensures Removed(was[..g] + rest, h) == was[..h] + (was[h + 1..g] + rest)
  {
  }

  lemma FilterDone(now: Node, was: Node, f: Pair -> bool, g: nat)
    requires FilteredFrom(now, was, f, g) && forall x :: 0 <= x < g ==> f(was[x])
    ensures now == Filtered(was, f)
  {
    FilteredSkipsKept(was, f, g);
  }

  // ---------------------------------------------------------------- one deletion

  /** The last of the places still to be deleted names the same entry as at the beginning. */
  lemma NextPlace(ss: seq<Node>, before: seq<Node>, places: seq<Place>, f: Pair -> bool, m: nat)
    requires Lists(places, before, f, Place(|before|, 0)) && 0 < m <= |places|
    requires Agree(ss, before, Frontier(places, before, m))
    ensures var a := places[m - 1];
            && Within(ss, a) && Offset(ss, a.node) == Offset(before, a.node)
            && Agree(Without(ss, a.node, a.position), before, a)
  {
    hide Flatten, Offset;
    var a, b := places[m - 1], Frontier(places, before, m);
    assert Precedes(a, b);
    AgreeEarlier(ss, before, a, b);
    WithoutAgrees(ss, before, a);
  }

  lemma ListedPlace(places: seq<Place>, ss: seq<Node>, f: Pair -> bool, limit: Place, x: nat)
    requires Lists(places, ss, f, limit) && x < |places|
    ensures Within(ss, places[x]) && !f(ss[places[x].node][places[x].position])
    ensures Precedes(places[x], if x + 1 < |places| then places[x + 1] else limit)
    ensures x + 1 < |places| ==> Within(ss, places[x + 1])
  {
    assert places[x] in places;
  }

  /** The place deleted next comes before the frontier, and its entry is rejected. */
  lemma NextIsRejected(before: seq<Node>, was: Node, places: seq<Place>, f: Pair -> bool, m: nat)
    requires Lists(places, before, f, Place(|before|, 0)) && 0 < m <= |places| && was == Flatten(before)
    ensures var h := Global(before, places[m - 1]);
            h < Global(before, Frontier(places, before, m)) && h < |was| && !f(was[h])
  {
    hide Lists, Flatten, Offset;
    ListedPlace(places, before, f, Place(|before|, 0), m - 1);
    var a, b := places[m - 1], Frontier(places, before, m);
    GlobalOrder(before, a, b);
    FlattenAt(before, a.node, a.position);
  }

  /** From there up to the frontier f accepts everything else. */
  lemma Gap(before: seq<Node>, was: Node, places: seq<Place>, f: Pair -> bool, m: nat, h: nat, g: nat)
    requires Lists(places, before, f, Place(|before|, 0)) && 0 < m <= |places| && was == Flatten(before)
    requires h == Global(before, places[m - 1]) && g == Global(before, Frontier(places, before, m))
    requires g <= |was|
    ensures forall x :: h < x < g ==> f(was[x])
  {
    hide Flatten, Lists, Global;
    forall x | h < x < g ensures f(was[x]) {
      AcceptedBetween(places, before, f, m, x);
    }
  }

  /** The state of the deletions when m places are left. */
  ghost predicate Deleting(ss: seq<Node>, before: seq<Node>, places: seq<Place>, f: Pair -> bool, m: nat) {
    && m <= |places|
    && Agree(ss, before, Frontier(places, before, m))
    && FilteredFrom(Flatten(ss), Flatten(before), f, Global(before, Frontier(places, before, m)))
  }

  lemma DeletingStarts(ss: seq<Node>, places: seq<Place>, f: Pair -> bool)
    ensures Deleting(ss, ss, places, f, |places|)
  {
    OffsetEnds(ss);
    var was := Flatten(ss);
    assert was[|was|..] == [] && was[..|was|] == was;
  }

  lemma DeletingNext(ss: seq<Node>, before: seq<Node>, places: seq<Place>, f: Pair -> bool, m: nat)
    requires Lists(places, before, f, Place(|before|, 0)) && 0 < m && Deleting(ss, before, places, f, m)
    requires Shape(ss)
    ensures Within(ss, places[m - 1])
    ensures Deleting(Without(ss, places[m - 1].node, places[m - 1].position), before, places, f, m - 1)
  {
    hide Flatten, Lists, Shape, Offset;
    var a := places[m - 1];
    ListedPlace(places, before, f, Place(|before|, 0), m - 1);
    var h, g := Global(before, a), Global(before, Frontier(places, before, m));
    NextPlace(ss, before, places, f, m);
    NextIsRejected(before, Flatten(before), places, f, m);
    Gap(before, Flatten(before), places, f, m, h, g);
    FilterStep(Flatten(ss), Flatten(before), f, h, g);
    WithoutMeaning(ss, a.node, a.position);
  }

  lemma DeletingEnds(ss: seq<Node>, before: seq<Node>, places: seq<Place>, f: Pair -> bool)
    requires Lists(places, before, f, Place(|before|, 0)) && Deleting(ss, before, places, f, 0)
    ensures Flatten(ss) == Filtered(Flatten(before), f)
  {
    var g := Global(before, Frontier(places, before, 0));
    forall x | 0 <= x < g ensures f(Flatten(before)[x]) {
      AcceptedBetween(places, before, f, 0, x);
    }
    FilterDone(Flatten(ss), Flatten(before), f, g);
  }
}
