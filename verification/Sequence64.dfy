/** 64-bit wrapping sequence numbers (lp::Sequence), and the cyclic order that a send window
    imposes on the keys of an ordered map. */
module Sequence64 {

  datatype Option<+T> = None | Some(value: T)

  const MODULUS: int := 0x1_0000_0000_0000_0000

  type Sequence = n: int | 0 <= n < MODULUS witness 0

  /** Pre-increment of an unsigned 64-bit counter. */
  function Next(s: Sequence): Sequence {
    if s + 1 == MODULUS then 0 else s + 1
  }

  function Plus(s: Sequence, n: nat): Sequence {
    (s + n) % MODULUS
  }

  function Minus(s: Sequence, n: nat): Sequence {
    (s - n) % MODULUS
  }

  /** How many increments lead from `a` to `b`. */
  function Distance(a: Sequence, b: Sequence): Sequence {
    if a <= b then b - a else b - a + MODULUS
  }

  /** `k` is the key met first when walking upwards from `from`, wrapping past the largest number. */
  ghost predicate IsNearest(keys: set<Sequence>, from: Sequence, k: Sequence) {
    k in keys && forall j | j in keys :: Distance(from, k) <= Distance(from, j)
  }

  lemma {:induction false} NearestExists(keys: set<Sequence>, from: Sequence)
    requires keys != {}
    ensures exists k :: IsNearest(keys, from, k)
    decreases keys
  {
    var k :| k in keys;
    if keys == {k} {
      assert IsNearest(keys, from, k);
    } else {
      var rest := keys - {k};
      NearestExists(rest, from);
      var j :| IsNearest(rest, from, j);
      if Distance(from, k) <= Distance(from, j) {
        assert IsNearest(keys, from, k);
      } else {
        assert IsNearest(keys, from, j);
      }
    }
  }

  ghost function Nearest(keys: set<Sequence>, from: Sequence): (k: Sequence)
    requires keys != {}
    ensures IsNearest(keys, from, k)
  {
    NearestExists(keys, from);
    var k :| IsNearest(keys, from, k); k
  }

  lemma NearestUnique(keys: set<Sequence>, from: Sequence, k: Sequence)
    requires IsNearest(keys, from, k)
    ensures keys != {} && Nearest(keys, from) == k
  {
    assert Distance(from, Nearest(keys, from)) == Distance(from, k);
  }

  /** The keys listed in the order in which a window starting at `from` contains them. */
  ghost function CyclicList(keys: set<Sequence>, from: Sequence): (list: seq<Sequence>)
    ensures forall k :: k in list <==> k in keys
    decreases keys
  {
    if keys == {} then []
    else
      var k := Nearest(keys, from);
      [k] + CyclicList(keys - {k}, from)
  }

  lemma {:induction false} CyclicListSnoc(keys: set<Sequence>, from: Sequence, last: Sequence)
    requires last !in keys
    requires forall k | k in keys :: Distance(from, k) < Distance(from, last)
    ensures CyclicList(keys + {last}, from) == CyclicList(keys, from) + [last]
    decreases keys
  {
    var all := keys + {last};
    if keys == {} {
      NearestUnique(all, from, last);
      assert all - {last} == {};
    } else {
      var k := Nearest(keys, from);
      assert IsNearest(all, from, k);
      NearestUnique(all, from, k);
      assert all - {k} == (keys - {k}) + {last};
      CyclicListSnoc(keys - {k}, from, last);
    }
  }

  // ---- std::map iterators: None plays the part of end() ----

  /** The smallest key, or end(): std::map::begin(). */
  function Begin(keys: set<Sequence>): (it: Option<Sequence>)
    ensures it.None? <==> keys == {}
    ensures it.Some? ==> it.value in keys && forall k | k in keys :: it.value <= k
  {
    if keys == {} then None
    else
      NearestExists(keys, 0);
      assert exists k :: k in keys && forall j | j in keys :: k <= j by {
        var n :| IsNearest(keys, 0, n);
        assert n in keys && forall j | j in keys :: n <= j by {
          forall j | j in keys ensures n <= j { assert Distance(0, n) <= Distance(0, j); }
        }
      }
      var k :| k in keys && forall j | j in keys :: k <= j;
      Some(k)
  }

  /** The smallest key above `k`, or end(): what `++it` yields. */
  function Successor(keys: set<Sequence>, k: Sequence): (it: Option<Sequence>)
    ensures it.None? <==> forall j | j in keys :: j <= k
    ensures it.Some? ==> it.value in keys && k < it.value && forall j | j in keys && k < j :: it.value <= j
  {
    var above := set j | j in keys && k < j;
    assert forall j | j in keys && k < j :: j in above;
    Begin(above)
  }

  /** Incrementing an iterator and wrapping from end() to begin() visits the keys in cyclic order:
      from `k`, no key of the map lies strictly between `k` and the key reached. */
  lemma WrappedSuccessorIsNearest(keys: set<Sequence>, k: Sequence)
    requires keys != {} && k !in keys
    ensures var it := Successor(keys, k);
            Nearest(keys, k) == if it.Some? then it.value else Begin(keys).value
  {
    var it := Successor(keys, k);
    var n := if it.Some? then it.value else Begin(keys).value;
    forall j | j in keys ensures Distance(k, n) <= Distance(k, j) {
      if it.Some? && k < j { assert it.value <= j; }
    }
    NearestUnique(keys, k, n);
  }
}
