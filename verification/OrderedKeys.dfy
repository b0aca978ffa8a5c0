/**
 The ordered index of the concurrent set, seen through its set of keys.

 Only the neighbourhood queries of the ordered map are modelled; `Routes` states, without
 reference to how the lookup is carried out, to which key a value belongs.
 */
module OrderedKeys {
  import opened Basics

  lemma Member<T>(s: set<T>) returns (x: T)
    requires s != {}
    ensures x in s
  {
    x :| x in s;
  }

  ghost predicate IsLeast(m: int, s: set<int>) {
    m in s && forall x :: x in s ==> m <= x
  }

  lemma {:induction false} LeastExists(s: set<int>)
    requires s != {}
    ensures exists m :: IsLeast(m, s)
    decreases s
  {
    var a := Member(s);
    var rest := s - {a};
    var m := a;
    if rest != {} {
      LeastExists(rest);
      var least :| IsLeast(least, rest);
      if least < a { m := least; }
    }
    forall x | x in s ensures m <= x {
      if x != a { assert x in rest; }
    }
    assert IsLeast(m, s);
  }

  ghost function Least(s: set<int>): (m: int)
    requires s != {}
    ensures IsLeast(m, s)
  {
    LeastExists(s);
    var m :| IsLeast(m, s);
    m
  }

  ghost function Greatest(s: set<int>): (m: int)
    requires s != {}
    ensures m in s && forall x :: x in s ==> x <= m
  {
    var negated := set x | x in s :: -x;
    assert negated != {} by {
      var a := Member(s);
      assert -a in negated;
    }
    var m := -Least(negated);
    assert forall x :: x in s ==> -x in negated;
    m
  }

  /** The least key that is not below v. */
  ghost function Ceiling(keys: set<int>, v: int): (r: Option<int>)
    ensures r.None? <==> forall k :: k in keys ==> k < v
    ensures r.Some? ==> r.value in keys && v <= r.value
    ensures r.Some? ==> forall k :: k in keys && v <= k ==> r.value <= k
  {
    var above := set k | k in keys && v <= k;
    if above == {} then
      assert forall k :: k in keys && v <= k ==> k in above;
      None
    else
      assert forall k :: k in keys && v <= k ==> k in above;
      Some(Least(above))
  }

  /** The key at which the locating code looks for v: the ceiling, else the greatest key. */
  ghost function Locate(keys: set<int>, v: int): (k: int)
    requires keys != {}
    ensures Routes(keys, k, v)
  {
    match Ceiling(keys, v)
    case Some(k) => k
    case None => Greatest(keys)
  }

  /** v belongs to k: it lies above all smaller keys, and not above k unless k is the greatest. */
  ghost predicate Routes(keys: set<int>, k: int, v: int) {
    && k in keys
    && (forall j :: j in keys && j < k ==> j < v)
    && (v <= k || forall j :: j in keys ==> j <= k)
  }

  /** Every value belongs to one key only. */
  lemma RoutesUnique(keys: set<int>, k: int, j: int, v: int)
    requires Routes(keys, k, v) && Routes(keys, j, v)
    ensures k == j
  {
  }

  /** Takes some element out of a set. */
  method TakeOne<T(==)>(s: set<T>) returns (x: T, rest: set<T>)
    requires s != {}
    ensures x in s && rest == s - {x}
  {
    x :| x in s;
    rest := s - {x};
  }

  /** The ordered map's lookup of the first key that is not below v. */
  method LowerBound(keys: set<int>, v: int) returns (r: Option<int>)
    ensures r == Ceiling(keys, v)
  {
    var rest := keys;
    r := None;
    while rest != {}
      invariant rest <= keys
      invariant r.Some? ==> r.value in keys && v <= r.value
      invariant forall k :: k in keys && k !in rest && v <= k ==> r.Some? && r.value <= k
      decreases rest
    {
      var k, others := TakeOne(rest);
      if v <= k && (r.None? || k < r.value) {
        r := Some(k);
      }
      rest := others;
    }
  }

  method Back(keys: set<int>) returns (r: Option<int>)
    ensures r == if keys == {} then None else Some(Greatest(keys))
  {
    var rest := keys;
    r := None;
    while rest != {}
      invariant rest <= keys
      invariant r.Some? ==> r.value in keys
      invariant forall k :: k in keys && k !in rest ==> r.Some? && k <= r.value
      decreases rest
    {
      var k, others := TakeOne(rest);
      if r.None? || r.value < k {
        r := Some(k);
      }
      rest := others;
    }
  }
}
