/** Rendezvous selection: every node scores a key, and the N best nodes replicate it. */
module Rendezvous {
  import opened Common

  /** The scores that the nodes give to one key. The hash behind them is uninterpreted. */
  type Scores = NodeId -> nat

  /** The assumption on the hash: no two nodes give a key the same score. */
  ghost predicate DistinctScores(score: Scores, members: set<NodeId>) {
    forall x, y | x in members && y in members && x != y :: score(x) != score(y)
  }

  // ----- the reference definition: by rank, without any order of enumeration

  function Better(score: Scores, members: set<NodeId>, x: NodeId): set<NodeId> {
    set y | y in members && score(y) > score(x)
  }

  function Rank(score: Scores, members: set<NodeId>, x: NodeId): nat {
    |Better(score, members, x)|
  }

  /** The n best members. */
  function Top(score: Scores, n: nat, members: set<NodeId>): set<NodeId> {
    set x | x in members && Rank(score, members, x) < n
  }

  lemma RankBelowSize(score: Scores, members: set<NodeId>, x: NodeId)
    requires x in members
    ensures Rank(score, members, x) < |members|
  {
    SetShrinks(Better(score, members, x), members);
    assert x !in Better(score, members, x);
  }

  lemma {:induction false} WorstExists(score: Scores, members: set<NodeId>) returns (w: NodeId)
    requires members != {}
    ensures w in members && forall x | x in members :: score(w) <= score(x)
  {
    w :| w in members;
    if members != {w} {
      var v := WorstExists(score, members - {w});
      if score(v) < score(w) {
        w := v;
      }
    }
  }

  lemma {:induction false} BestExists(score: Scores, members: set<NodeId>) returns (b: NodeId)
    requires members != {}
    ensures b in members && forall x | x in members :: score(x) <= score(b)
  {
    b :| b in members;
    if members != {b} {
      var v := BestExists(score, members - {b});
      if score(v) > score(b) {
        b := v;
      }
    }
  }

  /** A cluster that wants at least one replica of a key has one. */
  lemma TopNonempty(score: Scores, n: nat, members: set<NodeId>)
    requires n >= 1 && members != {}
    ensures Top(score, n, members) != {}
  {
    var b := BestExists(score, members);
    assert Better(score, members, b) == {};
    assert b in Top(score, n, members);
  }

  /** The top n are exactly n nodes, or everyone when there are fewer. */
  lemma {:induction false} TopSize(score: Scores, n: nat, members: set<NodeId>)
    requires DistinctScores(score, members)
    ensures |Top(score, n, members)| == if n < |members| then n else |members|
    decreases |members|
  {
    if n >= |members| {
      forall x | x in members ensures Rank(score, members, x) < n {
        RankBelowSize(score, members, x);
      }
      assert Top(score, n, members) == members;
    } else {
      var w := WorstExists(score, members);
      var rest := members - {w};
      assert Better(score, members, w) == rest;
      forall x | x in rest ensures Rank(score, rest, x) == Rank(score, members, x) {
        assert Better(score, rest, x) == Better(score, members, x);
      }
      TopSize(score, n, rest);
      assert Top(score, n, members) == Top(score, n, rest);
    }
  }

  /** Ranks follow scores, whoever else is a member: survivors never change their order. */
  lemma RankFollowsScore(score: Scores, members: set<NodeId>, x: NodeId, y: NodeId)
    requires DistinctScores(score, members) && x in members && y in members
    ensures Rank(score, members, x) < Rank(score, members, y) <==> score(x) > score(y)
  {
    if score(x) > score(y) {
      SetShrinks(Better(score, members, x), Better(score, members, y));
      assert x in Better(score, members, y) && x !in Better(score, members, x);
    } else {
      SetShrinks(Better(score, members, y), Better(score, members, x));
    }
  }

  // ----- stability under membership changes

  lemma RankAfterJoin(score: Scores, members: set<NodeId>, j: NodeId, x: NodeId)
    requires j !in members
    ensures Rank(score, members + {j}, x) == Rank(score, members, x) + (if score(j) > score(x) then 1 else 0)
  {
    if score(j) > score(x) {
      assert Better(score, members + {j}, x) == Better(score, members, x) + {j};
    } else {
      assert Better(score, members + {j}, x) == Better(score, members, x);
    }
  }

  /** A join adds only the joiner and displaces at most one replica; when the joiner is not
      among the best, nothing moves. */
  lemma JoinMovesAtMostOne(score: Scores, n: nat, members: set<NodeId>, j: NodeId)
    requires DistinctScores(score, members + {j}) && j !in members
    ensures Top(score, n, members + {j}) <= Top(score, n, members) + {j}
    ensures |Top(score, n, members) - Top(score, n, members + {j})| <= 1
    ensures j !in Top(score, n, members + {j}) ==> Top(score, n, members + {j}) == Top(score, n, members)
    ensures j in Top(score, n, members + {j}) && n <= |members| ==>
              |Top(score, n, members) - Top(score, n, members + {j})| == 1
  {
    var before, after := Top(score, n, members), Top(score, n, members + {j});
    forall x | x in after && x != j ensures x in before {
      RankAfterJoin(score, members, j, x);
    }
    TopSize(score, n, members);
    TopSize(score, n, members + {j});
    assert |members + {j}| == |members| + 1;
    CountMoved(before, after, j);
  }

  lemma CountMoved<T>(before: set<T>, after: set<T>, j: T)
    requires after <= before + {j} && j !in before
    ensures |before - after| == |before| - |after| + (if j in after then 1 else 0)
    ensures j !in after && |after| == |before| ==> after == before
  {
    var kept := after - {j};
    assert before == kept + (before - after);
    assert |before| == |kept| + |before - after|;
    assert j in after ==> after == kept + {j};
    assert j !in after ==> after == kept;
    SetShrinks(kept, before);
  }

  /** A leave keeps every remaining replica and promotes at most one node. */
  lemma LeaveMovesAtMostOne(score: Scores, n: nat, members: set<NodeId>, x: NodeId)
    requires DistinctScores(score, members) && x in members
    ensures Top(score, n, members) - {x} <= Top(score, n, members - {x})
    ensures |Top(score, n, members - {x}) - Top(score, n, members)| <= 1
  {
    var rest := members - {x};
    assert rest + {x} == members;
    JoinMovesAtMostOne(score, n, rest, x);
  }

  // ----- the list the code computes

  datatype Replica = Replica(id: NodeId, score: nat)

  predicate SortedDescending(rs: seq<Replica>) {
    forall i, j | 0 <= i < j < |rs| :: rs[i].score >= rs[j].score
  }

  function Ids(rs: seq<Replica>): (ids: seq<NodeId>)
    ensures |ids| == |rs| && forall i | 0 <= i < |rs| :: ids[i] == rs[i].id
  {
    seq(|rs|, i requires 0 <= i < |rs| => rs[i].id)
  }

  /** A list of scored members, best first, that lists each of them once. */
  ghost predicate RanksMembers(rs: seq<Replica>, score: Scores, members: set<NodeId>) {
    SortedDescending(rs) && Distinct(Ids(rs)) && Elements(Ids(rs)) == members &&
    forall i | 0 <= i < |rs| :: rs[i].score == score(rs[i].id)
  }

  /** Position i of a ranked list holds the member of rank i. */
  lemma PositionIsRank(rs: seq<Replica>, score: Scores, members: set<NodeId>, i: nat)
    requires RanksMembers(rs, score, members) && DistinctScores(score, members) && i < |rs|
    ensures Rank(score, members, rs[i].id) == i
  {
    var ids := Ids(rs);
    forall j | 0 <= j < |rs| ensures ids[j] in members && (score(ids[j]) > score(ids[i]) <==> j < i) {
      assert ids[j] in Elements(ids) && ids[i] in Elements(ids);
      assert j != i ==> score(ids[j]) != score(ids[i]);
    }
    assert Better(score, members, ids[i]) == Elements(ids[..i]) by {
      forall y | y in Better(score, members, ids[i]) ensures y in ids[..i] {
        var j :| 0 <= j < |ids| && ids[j] == y;
        assert ids[..i][j] == y;
      }
    }
    ElementsSize(ids[..i]);
  }

  /** The first n entries of a ranked list are the top n. */
  lemma PrefixIsTop(rs: seq<Replica>, score: Scores, members: set<NodeId>, n: nat)
    requires RanksMembers(rs, score, members) && DistinctScores(score, members) && n <= |rs|
    ensures Elements(Ids(rs[..n])) == Top(score, n, members)
  {
    var ids := Ids(rs);
    forall i | 0 <= i < |rs| ensures Rank(score, members, ids[i]) == i && ids[i] in members {
      PositionIsRank(rs, score, members, i);
      assert ids[i] in Elements(ids);
    }
    forall x | x in Top(score, n, members) ensures x in Ids(rs[..n]) {
      assert x in Elements(ids);
      var i :| 0 <= i < |ids| && ids[i] == x;
      assert Ids(rs[..n])[i] == x;
    }
    forall x | x in Ids(rs[..n]) ensures x in Top(score, n, members) {
      var i :| 0 <= i < n && Ids(rs[..n])[i] == x;
      assert ids[i] == x;
    }
  }

  /** There is only one ranked list: it does not depend on how the members were enumerated. */
  lemma RankedListUnique(rs: seq<Replica>, rs': seq<Replica>, score: Scores, members: set<NodeId>)
    requires DistinctScores(score, members)
    requires RanksMembers(rs, score, members) && RanksMembers(rs', score, members)
    ensures rs == rs'
  {
    ElementsSize(Ids(rs));
    ElementsSize(Ids(rs'));
    forall i | 0 <= i < |rs| ensures rs[i] == rs'[i] {
      PositionIsRank(rs, score, members, i);
      assert rs[i].id in Elements(Ids(rs'));
      var j :| 0 <= j < |rs'| && Ids(rs')[j] == rs[i].id;
      PositionIsRank(rs', score, members, j);
    }
  }

  /** Sorting by score, best first. */
  function InsertByScore(rs: seq<Replica>, r: Replica): seq<Replica> {
    if rs == [] || r.score >= rs[0].score then [r] + rs else [rs[0]] + InsertByScore(rs[1..], r)
  }

  function SortByScore(rs: seq<Replica>): seq<Replica> {
    if rs == [] then [] else InsertByScore(SortByScore(rs[1..]), rs[0])
  }

  lemma {:induction false} InsertByScoreAdds(rs: seq<Replica>, r: Replica)
    ensures multiset(InsertByScore(rs, r)) == multiset(rs) + multiset{r}
  {
    if rs != [] {
      assert rs == [rs[0]] + rs[1..];
      if r.score < rs[0].score {
        InsertByScoreAdds(rs[1..], r);
      }
    }
  }

  lemma {:induction false} InsertByScoreSorts(rs: seq<Replica>, r: Replica)
    requires SortedDescending(rs)
    ensures SortedDescending(InsertByScore(rs, r))
  {
    if rs != [] && r.score < rs[0].score {
      InsertByScoreSorts(rs[1..], r);
      InsertByScoreAdds(rs[1..], r);
      var rest := InsertByScore(rs[1..], r);
      forall i | 0 <= i < |rest| ensures rs[0].score >= rest[i].score {
        assert rest[i] in multiset(rest);
        assert rest[i] == r || rest[i] in rs[1..];
      }
    }
  }

  lemma {:induction false} SortByScoreSorts(rs: seq<Replica>)
    ensures SortedDescending(SortByScore(rs)) && multiset(SortByScore(rs)) == multiset(rs)
  {
    if rs != [] {
      SortByScoreSorts(rs[1..]);
      InsertByScoreSorts(SortByScore(rs[1..]), rs[0]);
      InsertByScoreAdds(SortByScore(rs[1..]), rs[0]);
      assert rs == [rs[0]] + rs[1..];
    }
  }

  /** Score every known node and this one, and sort. The connected nodes never include this
      one and are listed once each. */
  method GetReplicas(score: Scores, nodes: seq<NodeId>, self: NodeId) returns (rs: seq<Replica>)
    requires Distinct(nodes) && self !in nodes
    ensures RanksMembers(rs, score, Elements(nodes) + {self})
  {
    var all := nodes + [self];
    var scored := [];
    for i := 0 to |all|
      invariant |scored| == i
      invariant forall k | 0 <= k < i :: scored[k] == Replica(all[k], score(all[k]))
    {
      scored := scored + [Replica(all[i], score(all[i]))];
    }
    rs := SortByScore(scored);
    SortByScoreSorts(scored);
    ScoredRanks(rs, scored, score, all);
    ElementsSnoc(nodes, self);
  }

  lemma ScoredRanks(rs: seq<Replica>, scored: seq<Replica>, score: Scores, all: seq<NodeId>)
    requires SortedDescending(rs) && multiset(rs) == multiset(scored) && Distinct(all) && |scored| == |all|
    requires forall k | 0 <= k < |all| :: scored[k] == Replica(all[k], score(all[k]))
    ensures RanksMembers(rs, score, Elements(all))
  {
    forall i | 0 <= i < |rs| ensures rs[i].score == score(rs[i].id) && rs[i].id in all {
      assert rs[i] in multiset(rs);
      assert rs[i] in scored;
    }
    forall x | x in all ensures x in Ids(rs) {
      var k :| 0 <= k < |all| && all[k] == x;
      assert scored[k] in multiset(scored);
      assert scored[k] in rs;
      var i :| 0 <= i < |rs| && rs[i] == scored[k];
      assert Ids(rs)[i] == x;
    }
    assert |rs| == |multiset(rs)| == |scored|;
    ElementsSize(all);
    assert Elements(Ids(rs)) == Elements(all);
    CoverIsDistinct(Ids(rs));
  }

  /** The replica nodes of a key: the best min(N, cluster size) nodes. */
  method GetReplicaNodes(score: Scores, nodes: seq<NodeId>, self: NodeId, replicas: nat) returns (rs: seq<Replica>)
    requires Distinct(nodes) && self !in nodes && DistinctScores(score, Elements(nodes) + {self})
    ensures Elements(Ids(rs)) == Top(score, replicas, Elements(nodes) + {self})
    ensures Distinct(Ids(rs))
  {
    ghost var members := Elements(nodes) + {self};
    var ranked := GetReplicas(score, nodes, self);
    var limit := replicas;
    if |ranked| < limit {
      limit := |ranked|;
    }
    rs := ranked[..limit];
    PrefixIsTop(ranked, score, members, limit);
    ElementsSize(Ids(ranked));
    forall x | x in members ensures Rank(score, members, x) < |ranked| {
      RankBelowSize(score, members, x);
    }
  }

  /** Whether a node is among the listed replicas. */
  method IsAmong(rs: seq<Replica>, id: NodeId) returns (found: bool)
    ensures found <==> id in Ids(rs)
  {
    for i := 0 to |rs|
      invariant id !in Ids(rs)[..i]
    {
      if rs[i].id == id {
        assert Ids(rs)[i] == id;
        return true;
      }
    }
    return false;
  }
}
