/** The single-threaded map: a set of entries compared by key, values overwritten in place. */
module TreeMap {
  import opened Basics
  import opened NodeOps
  import opened Flattening
  import opened Spine
  import opened TreeSet

  datatype NodeEntry = Exist(node: nat, position: nat) | Empty(node: nat)

  class BTreeMap {
    const tree: BTreeSet

    ghost predicate Valid()
      reads tree
    {
      tree.Valid()
    }

    constructor (maximumNodeSize: nat)
      requires 2 <= maximumNodeSize
      ensures Valid() && fresh(tree) && tree.Contents() == []
    {
      tree := new BTreeSet(maximumNodeSize);
    }

    method FindKey(key: int) returns (e: NodeEntry)
      requires Valid()
      ensures e.Exist? <==> Has(tree.Contents(), key)
      ensures e.Exist? ==> Home(tree.inner, e.node, key) && Has(tree.inner[e.node], key)
      ensures e.Exist? ==> e.position == Point(tree.inner[e.node], key)
      ensures e.Exist? ==> Find(tree.Contents(), key) == Some(tree.inner[e.node][e.position])
      ensures e.Empty? ==> Home(tree.inner, e.node, key)
    {
      var node, position := tree.LocateValue(key);
      AtHome(tree.inner, node, key);
      if position < |tree.inner[node]| && tree.inner[node][position].key == key {
        FlattenAt(tree.inner, node, position);
        return Exist(node, position);
      }
      return Empty(node);
    }

    /** Overwrites the value of the key's entry, else adds an entry. */
    method Insert(key: int, val: int) returns (prior: Option<int>)
      requires Valid()
      modifies tree
      ensures Valid()
      ensures tree.Contents() == Stored(old(tree.Contents()), Pair(key, val))
      ensures prior == match old(Find(tree.Contents(), key)) { case Some(e) => Some(e.val) case None => None }
      ensures old(tree.WithinCapacity()) ==> tree.WithinCapacity()
    {
      var e := FindKey(key);
      match e {
        case Exist(node, position) =>
          prior := Some(tree.inner[node][position].val);
          tree.Overwrite(node, position, Pair(key, val));
        case Empty(node) =>
          var _ := tree.InsertAt(node, Pair(key, val));
          prior := None;
      }
    }

    /** A vacant entry's insert: the slot is looked up by the rank computed beforehand, after an
        insertion that may have split the node. */
    method InsertVacant(key: int, val: int) returns (node: nat, position: nat)
      requires Valid() && !Has(tree.Contents(), key)
      modifies tree
      ensures Valid()
      ensures tree.Contents() == Stored(old(tree.Contents()), Pair(key, val))
      ensures node < |tree.inner| && position < |tree.inner[node]| && tree.inner[node][position] == Pair(key, val)
    {
      StoredMeaning(tree.Contents(), Pair(key, val));
      var rank := tree.Rank(key);
      var _ := Insert(key, val);
      node, position := tree.LocateIth(rank);
      FlattenAt(tree.inner, node, position);
    }
  }
}
