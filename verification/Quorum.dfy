/** The arithmetic of `swarm::honest_majority_size` and what it buys for sets of nodes. */
module Quorum {
  const SIZE_T_RANGE := 0x1_0000_0000_0000_0000

  /** The number of matching answers a non-fastest request waits for. The subtraction is on
      `size_t`, so an empty node map wraps around. */
  function HonestMajoritySize(nodeCount: nat): nat {
    ((nodeCount - 1) % SIZE_T_RANGE) / 3 * 2 + 1
  }

  /** The number of faulty nodes a swarm of this size tolerates. */
  function FaultBound(nodeCount: nat): nat {
    if nodeCount == 0 then 0 else (nodeCount - 1) / 3
  }

  /** It is the f with 3f + 1 <= n <= 3f + 3. */
  lemma FaultBoundIs(nodeCount: nat, f: nat)
    requires 3 * f + 1 <= nodeCount <= 3 * f + 3
    ensures FaultBound(nodeCount) == f
  {
  }

  lemma {:induction false} FirstNumbers(n: nat) returns (s: set<nat>)
    ensures |s| == n && forall i <- s :: i < n
  {
    if n == 0 {
      s := {};
    } else {
      var t := FirstNumbers(n - 1);
      s := t + {n - 1};
    }
  }

  /** Any set leaves at most what is beyond its size of a set that holds it. */
  lemma TakeAway<T>(supporters: set<T>, faulty: set<T>)
    ensures |supporters - faulty| >= |supporters| - |faulty|
    ensures faulty <= supporters ==> |supporters - faulty| == |supporters| - |faulty|
  {
    assert supporters == (supporters - faulty) + (supporters * faulty);
    SubsetSize(supporters * faulty, faulty);
    if faulty <= supporters {
      assert supporters * faulty == faulty;
    }
  }

  lemma {:induction false} SubsetOfSize(s: set<nat>, n: nat) returns (t: set<nat>)
    requires n <= |s|
    ensures t <= s && |t| == n
  {
    if n == 0 {
      t := {};
    } else {
      var x :| x in s;
      var u := SubsetOfSize(s - {x}, n - 1);
      t := u + {x};
    }
  }

  /** The quorum is the least sound size: sets of q senders keep f + 1 members whatever f are taken away
      exactly when q is at least the quorum. */
  lemma LeastSoundSize(nodeCount: nat, f: nat, q: nat)
    requires 3 * f + 1 <= nodeCount <= 3 * f + 3 && nodeCount < SIZE_T_RANGE
    ensures q >= HonestMajoritySize(nodeCount) <==>
            forall supporters: set<nat>, faulty: set<nat> | |supporters| == q && |faulty| <= f ::
              |supporters - faulty| >= f + 1
  {
    if q >= HonestMajoritySize(nodeCount) {
      forall supporters: set<nat>, faulty: set<nat> | |supporters| == q && |faulty| <= f
        ensures |supporters - faulty| >= f + 1
      {
        TakeAway(supporters, faulty);
      }
    } else {
      var supporters := FirstNumbers(q);
      var faulty := SubsetOfSize(supporters, if q < f then q else f);
      TakeAway(supporters, faulty);
      assert |supporters - faulty| < f + 1;
    }
  }

  /** The correct nodes alone can reach the quorum exactly when the swarm has a node. */
  lemma AttainableIffNonEmpty(nodeCount: nat)
    requires nodeCount < SIZE_T_RANGE
    ensures HonestMajoritySize(nodeCount) <= nodeCount - FaultBound(nodeCount) <==> nodeCount >= 1
  {
    if nodeCount == 0 {
      assert (nodeCount - 1) % SIZE_T_RANGE == SIZE_T_RANGE - 1;
    }
  }

  /** A subset is no larger than the set it comes from. */
  lemma SubsetSize<T>(a: set<T>, b: set<T>)
    requires a <= b
    ensures |a| <= |b|
  {
    assert b == a + (b - a);
  }

  /** Behind every quorum stand more correct nodes than there can be faulty ones. */
  lemma CorrectSupport<T>(members: set<T>, faulty: set<T>, supporters: set<T>)
    requires 1 <= |members| < SIZE_T_RANGE
    requires |faulty| <= FaultBound(|members|)
    requires |supporters| >= HonestMajoritySize(|members|)
    ensures |supporters - faulty| >= FaultBound(|members|) + 1
  {
    TakeAway(supporters, faulty);
  }

  /** Two quorums of one swarm always share at least `2 * quorum - n` nodes. */
  lemma QuorumsOverlap<T>(members: set<T>, a: set<T>, b: set<T>)
    requires 1 <= |members| < SIZE_T_RANGE
    requires a <= members && b <= members
    requires |a| >= HonestMajoritySize(|members|) && |b| >= HonestMajoritySize(|members|)
    ensures |a * b| >= 2 * HonestMajoritySize(|members|) - |members|
    ensures |members| % 3 == 1 ==> |a * b| >= FaultBound(|members|) + 1
  {
    assert a == (a - b) + (a * b);
    assert |(a - b) + b| == |a - b| + |b|;
    SubsetSize((a - b) + b, members);
  }
}
