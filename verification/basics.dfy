/** Result and option types, and the machine widths lotl relies on. */
module Basics {

  datatype Option<+T> = None | Some(value: T)

  /** Why an operation stopped.  `Overflow` is an arithmetic panic of a build with overflow
      checks; the others are errors lotl returns. */
  datatype Error =
    | Overflow
    | InvalidKeyId
    | KeyNotFound
    | NoIdentity
    | NoRegistrationId
    | NoRow
    | ForeignKey
    | PubkeyTaken

  datatype Result<+T> = Success(value: T) | Failure(error: Error)

  const U32_MAX: nat := 0xFFFF_FFFF
  const U64_MAX: nat := 0xFFFF_FFFF_FFFF_FFFF

  type u32 = n: nat | n <= U32_MAX
  type u64 = n: nat | n <= U64_MAX

  /** Key material, drawn at random by libsignal and never inspected here. */
  datatype KeyPair = KeyPair(secret: nat)
}

/** Finite sets of key ids: the largest id, enumerations, intervals. */
module Ids {
  import opened Basics

  predicate IsMax(ids: set<u32>, m: u32) {
    m in ids && forall i | i in ids :: i <= m
  }

  lemma {:induction false} MaxExists(ids: set<u32>)
    requires ids != {}
    ensures exists m :: IsMax(ids, m)
    decreases |ids|
  {
    var x :| x in ids;
    if ids == {x} {
      assert IsMax(ids, x);
    } else {
      var rest := ids - {x};
      assert rest != {};
      MaxExists(rest);
      var m :| IsMax(rest, m);
      assert forall i | i in ids :: i == x || i in rest;
      if x > m {
        assert IsMax(ids, x);
      } else {
        assert IsMax(ids, m);
      }
    }
  }

  function Max(ids: set<u32>): (m: u32)
    requires ids != {}
    ensures IsMax(ids, m)
  {
    MaxExists(ids);
    var m: u32 :| m in ids && IsMax(ids, m);
    m
  }

  /** `order` lists every element of `ids` exactly once. */
  ghost predicate Enumerates(order: seq<u32>, ids: set<u32>) {
    && (forall i, j | 0 <= i < j < |order| :: order[i] != order[j])
    && (forall x :: x in order <==> x in ids)
  }

  ghost predicate Ascending(order: seq<u32>) {
    forall i, j | 0 <= i < j < |order| :: order[i] < order[j]
  }

  lemma EnumerationTail(order: seq<u32>, ids: set<u32>)
    requires Enumerates(order, ids) && order != []
    ensures order[0] in ids && Enumerates(order[1..], ids - {order[0]})
  {
  }

  lemma {:induction false} EnumerationLength(order: seq<u32>, ids: set<u32>)
    requires Enumerates(order, ids)
    ensures |order| == |ids|
    decreases |order|
  {
    if order == [] {
      assert ids == {};
    } else {
      EnumerationTail(order, ids);
      EnumerationLength(order[1..], ids - {order[0]});
    }
  }

  predicate InInterval(lo: nat, n: nat, i: u32) {
    lo <= i < lo + n
  }

  /** The ids `lo`, `lo + 1`, ..., `lo + n - 1`. */
  function Interval(lo: nat, n: nat): set<u32>
    requires lo + n <= U32_MAX + 1
  {
    set i: u32 | lo <= i < lo + n && InInterval(lo, n, i)
  }

  lemma {:induction false} IntervalSize(lo: nat, n: nat)
    requires lo + n <= U32_MAX + 1
    ensures |Interval(lo, n)| == n
    decreases n
  {
    if n == 0 {
      assert Interval(lo, n) == {};
    } else {
      IntervalSize(lo, n - 1);
      assert Interval(lo, n) == Interval(lo, n - 1) + {lo + n - 1};
    }
  }
}
