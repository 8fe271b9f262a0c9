/** Quorum writes to the replicas of a key. */
module Quorum {
  import opened Common
  import opened Rendezvous

  type Key = string
  type Value = string
  type Stores = map<NodeId, map<Key, Value>>

  datatype WriteError = NoReplicas | QuorumFailed(successes: nat, replicas: nat)

  function Majority(n: nat): nat { n / 2 + 1 }

  /** The nodes among `nodes` that store this value under this key. */
  function Holders(stores: Stores, nodes: set<NodeId>, key: Key, value: Value): set<NodeId> {
    set n | n in nodes && n in stores && key in stores[n] && stores[n][key] == value
  }

  /** Write to every replica, then count the answers in whatever order they come in.
      `reached` are the replicas whose store took the write and `answered` those whose success
      came back; a write may land and its answer be lost. */
  method SetReplicated(stores: Stores, replicaSet: seq<NodeId>, key: Key, value: Value,
                       reached: set<NodeId>, answered: set<NodeId>, arrivals: seq<NodeId>)
    returns (stores': Stores, r: Result<(), WriteError>)
    requires Distinct(replicaSet) && multiset(arrivals) == multiset(replicaSet)
    requires answered <= reached && forall n | n in replicaSet :: n in stores
    ensures r.Success? <==> |Elements(replicaSet) * answered| >= Majority(|replicaSet|)
    ensures r == (var successes := |Elements(replicaSet) * answered|;
                  if |replicaSet| == 0 then Failure(NoReplicas)
                  else if 2 * successes > |replicaSet| then Success(())
                  else Failure(QuorumFailed(successes, |replicaSet|)))
    ensures |replicaSet| > 0 && (forall n | n in replicaSet :: n in answered) ==> r.Success?
    ensures r.Success? ==> 2 * |Holders(stores', Elements(replicaSet), key, value)| > |replicaSet|
    ensures r.Success? ==> |Holders(stores', Elements(replicaSet), key, value)| >= Majority(|replicaSet|)
    ensures stores'.Keys == stores.Keys
    ensures forall n | n in stores :: stores'[n] ==
              if n in replicaSet && n in reached then stores[n][key := value] else stores[n]
  {
    if |replicaSet| == 0 {
      assert Elements(replicaSet) * answered == {};
      return stores, Failure(NoReplicas);
    }
    stores' := WriteAll(stores, replicaSet, key, value, reached);
    var successCount := CountSuccesses(replicaSet, answered, arrivals);
    ElementsSize(replicaSet);
    if forall n | n in replicaSet :: n in answered {
      assert Elements(replicaSet) * answered == Elements(replicaSet);
    }
    var quorum := |replicaSet| / 2 + 1;
    if successCount < quorum {
      return stores', Failure(QuorumFailed(successCount, |replicaSet|));
    }
    SetShrinks(Elements(replicaSet) * answered, Holders(stores', Elements(replicaSet), key, value));
    return stores', Success(());
  }

  method WriteAll(stores: Stores, replicaSet: seq<NodeId>, key: Key, value: Value, reached: set<NodeId>)
    returns (stores': Stores)
    requires forall n | n in replicaSet :: n in stores
    ensures stores'.Keys == stores.Keys
    ensures forall n | n in stores :: stores'[n] ==
              if n in replicaSet && n in reached then stores[n][key := value] else stores[n]
  {
    stores' := stores;
    for i := 0 to |replicaSet|
      invariant stores'.Keys == stores.Keys
      invariant forall n | n in stores :: stores'[n] ==
                  if n in replicaSet[..i] && n in reached then stores[n][key := value] else stores[n]
    {
      var rep := replicaSet[i];
      assert replicaSet[..i + 1] == replicaSet[..i] + [rep];
      if rep in reached {
        stores' := stores'[rep := stores'[rep][key := value]];
      }
    }
    assert replicaSet[..|replicaSet|] == replicaSet;
  }

  method CountSuccesses(replicaSet: seq<NodeId>, answered: set<NodeId>, arrivals: seq<NodeId>)
    returns (successCount: nat)
    requires Distinct(replicaSet) && multiset(arrivals) == multiset(replicaSet)
    ensures successCount == |Elements(replicaSet) * answered|
  {
    ArrivalsAreReplicas(arrivals, replicaSet);
    successCount := 0;
    for i := 0 to |arrivals|
      invariant successCount == |Elements(arrivals[..i]) * answered|
    {
      assert arrivals[..i + 1] == arrivals[..i] + [arrivals[i]];
      CountOne(arrivals[..i], arrivals[i], answered);
      if arrivals[i] in answered {
        successCount := successCount + 1;
      }
    }
    assert arrivals[..|arrivals|] == arrivals;
  }

  lemma CountOne(s: seq<NodeId>, n: NodeId, answered: set<NodeId>)
    requires n !in s
    ensures |Elements(s + [n]) * answered| == |Elements(s) * answered| + (if n in answered then 1 else 0)
  {
    ElementsSnoc(s, n);
    if n in answered {
      assert Elements(s + [n]) * answered == Elements(s) * answered + {n};
    } else {
      assert Elements(s + [n]) * answered == Elements(s) * answered;
    }
  }

  lemma ArrivalsAreReplicas(arrivals: seq<NodeId>, replicaSet: seq<NodeId>)
    requires Distinct(replicaSet) && multiset(arrivals) == multiset(replicaSet)
    ensures Distinct(arrivals) && Elements(arrivals) == Elements(replicaSet)
  {
    forall x ensures x in arrivals <==> x in replicaSet {
      assert x in multiset(arrivals) <==> x in multiset(replicaSet);
    }
    assert Elements(arrivals) == Elements(replicaSet);
    assert |arrivals| == |multiset(arrivals)| == |multiset(replicaSet)| == |replicaSet|;
    ElementsSize(replicaSet);
    CoverIsDistinct(arrivals);
  }

  // ----- which quorums are sure to meet

  ghost predicate IsQuorum(w: set<NodeId>, replicas: set<NodeId>) {
    w <= replicas && |w| >= Majority(|replicas|)
  }

  /** Every quorum of the one replica set shares a node with every quorum of the other. */
  ghost predicate AlwaysMeet(replicas: set<NodeId>, replicas': set<NodeId>) {
    forall w, w' | IsQuorum(w, replicas) && IsQuorum(w', replicas') :: w * w' != {}
  }

  lemma EnoughToMeet(replicas: set<NodeId>, replicas': set<NodeId>)
    requires Majority(|replicas|) + Majority(|replicas'|) > |replicas + replicas'|
    ensures AlwaysMeet(replicas, replicas')
  {
    forall w, w' | IsQuorum(w, replicas) && IsQuorum(w', replicas') ensures w * w' != {} {
      SetShrinks(w + w', replicas + replicas');
      assert |w + w'| == |w| + |w'| - |w * w'|;
    }
  }

  /** Under one membership, two successful writes of a key share a node. */
  lemma SameReplicasMeet(replicas: set<NodeId>)
    ensures AlwaysMeet(replicas, replicas)
  {
    assert replicas + replicas == replicas;
    EnoughToMeet(replicas, replicas);
  }

  lemma {:induction false} SubsetOfSize(s: set<NodeId>, k: nat) returns (t: set<NodeId>)
    requires k <= |s|
    ensures t <= s && |t| == k
  {
    if k == 0 {
      t := {};
    } else {
      var x :| x in s;
      var u := SubsetOfSize(s - {x}, k - 1);
      t := u + {x};
    }
  }

  /** Any two subsets of this size share an element. */
  ghost predicate SizeMeets(s: set<NodeId>, q: nat) {
    forall w, w' | w <= s && w' <= s && |w| == q && |w'| == q :: w * w' != {}
  }

  lemma HalvesMeetIff(s: set<NodeId>, q: nat)
    requires q <= |s|
    ensures SizeMeets(s, q) <==> 2 * q > |s|
  {
    if 2 * q > |s| {
      forall w, w' | w <= s && w' <= s && |w| == q && |w'| == q ensures w * w' != {} {
        SetShrinks(w + w', s);
        assert |w + w'| == |w| + |w'| - |w * w'|;
      }
    } else {
      var w := SubsetOfSize(s, q);
      assert |s - w| == |s| - q by {
        assert s == w + (s - w);
      }
      var w' := SubsetOfSize(s - w, q);
      assert w * w' == {};
    }
  }

  /** The threshold is the least number of replicas that makes any two successful writes share
      one, and it can always be reached. */
  lemma MajorityIsLeast(s: set<NodeId>, q: nat)
    requires s != {}
    ensures q == Majority(|s|) <==> 1 <= q <= |s| && SizeMeets(s, q) && !SizeMeets(s, q - 1)
  {
    var x :| x in s;
    SetShrinks({x}, s);
    if 1 <= q <= |s| {
      HalvesMeetIff(s, q);
      HalvesMeetIff(s, q - 1);
    }
  }

  /** Odd replica sets that differ in one node have quorums that miss each other. */
  lemma OddSwapMisses(replicas: set<NodeId>, replicas': set<NodeId>, d: NodeId, j: NodeId)
    requires |replicas| % 2 == 1 && d in replicas && j !in replicas
    requires replicas' == replicas - {d} + {j}
    ensures !AlwaysMeet(replicas, replicas')
  {
    var common := replicas - {d};
    var half := SubsetOfSize(common, |common| / 2);
    assert replicas' == common + {j};
    var w, w' := half + {d}, (common - half) + {j};
    assert IsQuorum(w, replicas) && IsQuorum(w', replicas');
    assert w * w' == {};
  }

  lemma SwappedOut(before: set<NodeId>, after: set<NodeId>, j: NodeId) returns (d: NodeId)
    requires after <= before + {j} && j in after && j !in before && |before - after| == 1
    ensures d in before && after == before - {d} + {j}
  {
    var lost := before - after;
    d :| d in lost;
    SetShrinks({d}, lost);
    assert lost == {d};
  }

  /** Across one join the quorums of a key are sure to meet exactly when N is even, or the
      cluster had fewer than N nodes, or the joiner is no replica of the key. */
  lemma QuorumsAcrossJoin(score: Scores, n: nat, members: set<NodeId>, j: NodeId)
    requires n >= 1 && DistinctScores(score, members + {j}) && j !in members
    ensures AlwaysMeet(Top(score, n, members), Top(score, n, members + {j})) <==>
            n % 2 == 0 || |members| < n || j !in Top(score, n, members + {j})
  {
    hide AlwaysMeet, Top, DistinctScores;
    var before, after := Top(score, n, members), Top(score, n, members + {j});
    TopSizesAroundJoin(score, n, members, j);
    JoinMovesAtMostOne(score, n, members, j);
    if j !in after {
      SameReplicasMeet(before);
    } else if |members| < n {
      SetShrinks(before + after, members + {j});
      EnoughToMeet(before, after);
    } else {
      var d := SwappedOut(before, after, j);
      SwapMeetsIffEven(before, after, d, j);
    }
  }

  lemma TopSizesAroundJoin(score: Scores, n: nat, members: set<NodeId>, j: NodeId)
    requires DistinctScores(score, members + {j}) && j !in members
    ensures |members + {j}| == |members| + 1
    ensures Top(score, n, members) <= members && Top(score, n, members + {j}) <= members + {j}
    ensures |Top(score, n, members)| == if n < |members| then n else |members|
    ensures |Top(score, n, members + {j})| == if n < |members| + 1 then n else |members| + 1
  {
    TopSize(score, n, members);
    TopSize(score, n, members + {j});
  }

  lemma SwapMeetsIffEven(before: set<NodeId>, after: set<NodeId>, d: NodeId, j: NodeId)
    requires d in before && j !in before && after == before - {d} + {j}
    ensures AlwaysMeet(before, after) <==> |before| % 2 == 0
  {
    if |before| % 2 == 0 {
      assert before + after == before + {j};
      EnoughToMeet(before, after);
    } else {
      OddSwapMisses(before, after, d, j);
    }
  }

  /** The same condition for one leave: it is a join seen backwards. */
  lemma QuorumsAcrossLeave(score: Scores, n: nat, members: set<NodeId>, x: NodeId)
    requires n >= 1 && DistinctScores(score, members) && x in members
    ensures AlwaysMeet(Top(score, n, members), Top(score, n, members - {x})) <==>
            n % 2 == 0 || |members| <= n || x !in Top(score, n, members)
  {
    var rest := members - {x};
    assert rest + {x} == members;
    QuorumsAcrossJoin(score, n, rest, x);
    MeetSymmetric(Top(score, n, rest), Top(score, n, members));
  }

  lemma MeetSymmetric(a: set<NodeId>, b: set<NodeId>)
    ensures AlwaysMeet(a, b) <==> AlwaysMeet(b, a)
  {
    forall w: set<NodeId>, w': set<NodeId> ensures w * w' == w' * w {
    }
  }
}
