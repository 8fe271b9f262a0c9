/** Keys as the cache composes them, and the two caches of routing answers. */
module Routing {
  import opened Common
  import opened Rendezvous

  // ----- composite keys

  function Digit(d: nat): (c: char)
    requires d < 10
    ensures c != ':'
  {
    "0123456789"[d]
  }

  /** Decimal notation. */
  function Itoa(n: nat): string {
    if n < 10 then [Digit(n)] else Itoa(n / 10) + [Digit(n % 10)]
  }

  function RoutingKey(bucket: string, key: string): string {
    Itoa(|bucket|) + ":" + bucket + key
  }

  /** The key of the node map: bucket and key, with nothing between them. */
  function PlainKey(bucket: string, key: string): string {
    bucket + key
  }

  lemma {:induction false} ItoaNoColon(n: nat)
    ensures |Itoa(n)| > 0 && forall i | 0 <= i < |Itoa(n)| :: Itoa(n)[i] != ':'
  {
    if n >= 10 {
      ItoaNoColon(n / 10);
    }
  }

  lemma DigitInjective(d: nat, e: nat)
    requires d < 10 && e < 10 && Digit(d) == Digit(e)
    ensures d == e
  {
  }

  lemma {:induction false} ItoaInjective(m: nat, n: nat)
    requires Itoa(m) == Itoa(n)
    ensures m == n
  {
    ItoaNoColon(m / 10);
    ItoaNoColon(n / 10);
    var s := Itoa(m);
    assert s[|s| - 1] == Digit(m % 10) == Digit(n % 10);
    DigitInjective(m % 10, n % 10);
    if m >= 10 && n >= 10 {
      assert s[..|s| - 1] == Itoa(m / 10) == Itoa(n / 10);
      ItoaInjective(m / 10, n / 10);
    }
  }

  /** The number that a string of digits stands for. */
  function DecimalValue(s: string): int {
    if s == [] then 0 else 10 * DecimalValue(s[..|s| - 1]) + (s[|s| - 1] as int - '0' as int)
  }

  lemma {:induction false} ItoaIsDecimal(n: nat)
    ensures DecimalValue(Itoa(n)) == n && forall i | 0 <= i < |Itoa(n)| :: '0' <= Itoa(n)[i] <= '9'
  {
    if n >= 10 {
      ItoaIsDecimal(n / 10);
      assert Itoa(n)[..|Itoa(n)| - 1] == Itoa(n / 10);
    }
  }

  /** A routing key is the length of the bucket name in decimal digits, a colon, the bucket name
      and the key. */
  lemma RoutingKeyLayout(bucket: string, key: string) returns (i: nat)
    ensures var s := RoutingKey(bucket, key);
            i < |s| && s[i] == ':' && (forall j | 0 <= j < i :: '0' <= s[j] <= '9') &&
            DecimalValue(s[..i]) == |bucket| && s[i + 1..] == bucket + key
  {
    ItoaIsDecimal(|bucket|);
    var s := RoutingKey(bucket, key);
    i := |Itoa(|bucket|)|;
    assert s == Itoa(|bucket|) + ":" + (bucket + key);
    assert s[..i] == Itoa(|bucket|);
    forall j | 0 <= j < i ensures '0' <= s[j] <= '9' {
      assert s[j] == Itoa(|bucket|)[j];
    }
  }

  /** The part before the first colon decides the rest. */
  lemma SplitAtColon(a: string, s: string, b: string, t: string)
    requires (forall i | 0 <= i < |a| :: a[i] != ':') && (forall i | 0 <= i < |b| :: b[i] != ':')
    requires a + ":" + s == b + ":" + t
    ensures a == b && s == t
  {
    var whole := a + ":" + s;
    assert whole[|a|] == ':' && whole[|b|] == ':';
    assert forall i | 0 <= i < |a| :: whole[i] == a[i];
    assert forall i | 0 <= i < |b| :: whole[i] == b[i];
    assert |a| == |b|;
    assert a == whole[..|a|] && b == whole[..|b|];
    assert s == whole[|a| + 1..] && t == whole[|b| + 1..];
  }

  /** No two pairs of bucket and key share a routing key, whatever characters they hold. */
  lemma RoutingKeyInjective(bucket: string, key: string, bucket': string, key': string)
    requires RoutingKey(bucket, key) == RoutingKey(bucket', key')
    ensures bucket == bucket' && key == key'
  {
    ItoaNoColon(|bucket|);
    ItoaNoColon(|bucket'|);
    assert Itoa(|bucket|) + ":" + (bucket + key) == RoutingKey(bucket, key);
    assert Itoa(|bucket'|) + ":" + (bucket' + key') == RoutingKey(bucket', key');
    SplitAtColon(Itoa(|bucket|), bucket + key, Itoa(|bucket'|), bucket' + key');
    ItoaInjective(|bucket|, |bucket'|);
    SplitAt(bucket, key, bucket', key');
  }

  lemma SplitAt(a: string, s: string, b: string, t: string)
    requires a + s == b + t && |a| == |b|
    ensures a == b && s == t
  {
    assert a == (a + s)[..|a|] && b == (b + t)[..|b|];
    assert s == (a + s)[|a|..] && t == (b + t)[|b|..];
  }

  lemma OneIsPrefix(a: string, s: string, b: string, t: string)
    requires a + s == b + t
    ensures if |a| <= |b| then a <= b else b <= a
  {
    var whole := a + s;
    assert a == whole[..|a|] && whole == b + t && b == whole[..|b|];
  }

  ghost predicate PlainKeysInjective(buckets: set<string>) {
    forall a, k, b, k' | a in buckets && b in buckets && PlainKey(a, k) == PlainKey(b, k') :: a == b && k == k'
  }

  predicate PrefixFree(buckets: set<string>) {
    forall a, b | a in buckets && b in buckets && a <= b :: a == b
  }

  /** The keys of the node map tell all entries apart exactly when no bucket name is a prefix
      of another. */
  lemma PlainKeysInjectiveIffPrefixFree(buckets: set<string>)
    ensures PlainKeysInjective(buckets) <==> PrefixFree(buckets)
  {
    if PlainKeysInjective(buckets) {
      forall a, b | a in buckets && b in buckets && a <= b ensures a == b {
        var rest := b[|a|..];
        assert a + rest == b + "";
        assert PlainKey(a, rest) == PlainKey(b, "");
      }
    }
    if PrefixFree(buckets) {
      forall a, k, b, k' | a in buckets && b in buckets && PlainKey(a, k) == PlainKey(b, k')
        ensures a == b && k == k'
      {
        OneIsPrefix(a, k, b, k');
        SplitAt(a, k, b, k');
      }
    }
  }

  // ----- the caches of routing answers

  class RoutingCache {
    const self: NodeId
    const replicas: nat
    const scores: string -> Scores
    var nodes: seq<NodeId>              // the connected nodes
    var primaryOf: map<string, NodeId>
    var localOf: map<string, bool>

    function Members(): set<NodeId>
      reads this
    {
      Elements(nodes) + {self}
    }

    /** Every cached answer is what a computation from the present members would give. */
    ghost predicate Valid()
      reads this
    {
      Distinct(nodes) && self !in nodes &&
      (forall k :: DistinctScores(scores(k), Members())) &&
      (forall k | k in primaryOf :: Top(scores(k), 1, Members()) == {primaryOf[k]}) &&
      (forall k | k in localOf :: localOf[k] <==> self in Top(scores(k), replicas, Members()))
    }

    constructor (self: NodeId, replicas: nat, scores: string -> Scores)
      ensures Valid() && nodes == []
    {
      this.self, this.replicas, this.scores := self, replicas, scores;
      nodes, primaryOf, localOf := [], map[], map[];
    }

    /** The primary node of a key: its best-scoring member, from the cache or computed. */
    method GetPrimaryNode(bucket: string, key: string) returns (id: NodeId)
      requires Valid()
      modifies this`primaryOf
      ensures Valid()
      ensures Top(scores(RoutingKey(bucket, key)), 1, Members()) == {id}
    {
      var fullKey := RoutingKey(bucket, key);
      if fullKey in primaryOf {
        return primaryOf[fullKey];
      }
      var ranked := GetReplicas(scores(fullKey), nodes, self);
      FirstIsPrimary(ranked, scores(fullKey), Members());
      id := ranked[0].id;
      primaryOf := primaryOf[fullKey := id];
    }

    /** Whether this node is a replica of a key, from the cache or computed. */
    method IsLocal(bucket: string, key: string) returns (local: bool)
      requires Valid()
      modifies this`localOf
      ensures Valid()
      ensures local <==> self in Top(scores(RoutingKey(bucket, key)), replicas, Members())
    {
      var fullKey := RoutingKey(bucket, key);
      if fullKey in localOf {
        return localOf[fullKey];
      }
      var top := GetReplicaNodes(scores(fullKey), nodes, self, replicas);
      local := IsAmong(top, self);
      assert local <==> self in Elements(Ids(top));
      localOf := localOf[fullKey := local];
    }

    /** A membership change, with the invalidation that its hook triggers. */
    method ChangeMembers(nodes': seq<NodeId>)
      requires Valid() && Distinct(nodes') && self !in nodes'
      requires forall k :: DistinctScores(scores(k), Elements(nodes') + {self})
      modifies this
      ensures Valid() && nodes == nodes' && primaryOf == map[] && localOf == map[]
    {
      nodes := nodes';
      primaryOf := map[];
      localOf := map[];
    }

    /** A local delete forgets the cached primary under the plain key, which is no routing key
        in general: it can only make the cache smaller. */
    method ForgetPrimary(plainKey: string)
      requires Valid()
      modifies this`primaryOf
      ensures Valid() && primaryOf == old(primaryOf) - {plainKey}
    {
      primaryOf := primaryOf - {plainKey};
    }
  }

  lemma FirstIsPrimary(ranked: seq<Replica>, score: Scores, members: set<NodeId>)
    requires RanksMembers(ranked, score, members) && DistinctScores(score, members) && members != {}
    ensures ranked != [] && Top(score, 1, members) == {ranked[0].id}
  {
    var x :| x in members;
    assert x in Elements(Ids(ranked));
    PrefixIsTop(ranked, score, members, 1);
    assert Ids(ranked[..1]) == [ranked[0].id];
  }
}
