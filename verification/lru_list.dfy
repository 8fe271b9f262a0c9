/** The LRU bucket as the cache holds it: a doubly linked list of nodes with a hash map
    beside it. Every operation is proved against the sequence of LruSpec. */
module LruList {
  import opened Common
  import opened LruSpec

  class Node {
    var next: Node?
    var prev: Node?
    const key: Key
    var value: Value
    var expiresAt: Option<int>

    constructor (key: Key, value: Value, expiresAt: Option<int>)
      ensures next == null && prev == null
      ensures this.key == key && this.value == value && this.expiresAt == expiresAt
    {
      next, prev := null, null;
      this.key, this.value, this.expiresAt := key, value, expiresAt;
    }
  }

  /** The node at a position, null past either end. */
  function At(s: seq<Node>, i: int): Node? {
    if 0 <= i < |s| then s[i] else null
  }

  /** The links of the nodes of s mirror each other along s. */
  ghost predicate Chained(s: seq<Node>)
    reads s`next, s`prev
  {
    (forall i {:trigger s[i].next} | 0 <= i < |s| :: s[i].next == At(s, i + 1)) &&
    (forall i {:trigger s[i].prev} | 0 <= i < |s| :: s[i].prev == At(s, i - 1)) &&
    Distinct(s)
  }

  /** The ends of the list without position p. */
  lemma EndsWithout(s: seq<Node>, p: nat)
    requires p < |s| && Distinct(s)
    ensures var rest := RemoveAt(s, p);
            At(rest, 0) == (if p == 0 then At(s, 1) else s[0]) &&
            At(rest, |rest| - 1) == (if p == |s| - 1 then At(s, p - 1) else s[|s| - 1]) &&
            s[p] !in rest
  {
  }

  class Bucket {
    var head: Node?
    var tail: Node?
    var len: int
    ghost var nodes: seq<Node>

    /** The list is `nodes`: head, tail and len agree with it and the links run along it. */
    ghost predicate Linked()
      reads this, nodes`next, nodes`prev
    {
      Ends(nodes) && len == |nodes| && Chained(nodes)
    }

    ghost predicate Ends(s: seq<Node>)
      reads this`head, this`tail
    {
      head == At(s, 0) && tail == At(s, |s| - 1)
    }

    lemma LinkedDistinct()
      requires Linked()
      ensures Distinct(nodes) && len == |nodes|
    {
    }

    lemma WalkOn(p: nat)
      requires Linked() && p < |nodes|
      ensures nodes[p].next == At(nodes, p + 1)
    {
    }

    lemma LinkedEnds()
      requires Linked()
      ensures Ends(nodes) && Chained(nodes)
    {
    }

    constructor ()
      ensures Linked() && nodes == []
    {
      head, tail, len, nodes := null, null, 0, [];
    }

    /** Bring a node to the front, linking it in when it is new. `p` is its position, or -1. */
    method Push(n: Node, ghost p: int)
      requires Linked() && -1 <= p < |nodes|
      requires p >= 0 ==> nodes[p] == n
      requires p == -1 ==> n !in nodes && n.next == null && n.prev == null
      modifies this`head, this`tail, this`len, this`nodes, nodes`next, nodes`prev, n`next, n`prev
      ensures Linked()
      ensures nodes == if p >= 0 then MoveToFront(old(nodes), p) else [n] + old(nodes)
    {
      hide RemoveAt, Chained, Bucket.Ends;
      if head == n {
        HeadStays(n, p);
        return;
      }
      ghost var rest := RestOf(n, p);
      if n.next == null && n.prev == null {
        len := len + 1;
      }
      Unstitch(n, p, rest);
      LinkFront(n, rest);
      assert len == |rest| + 1;
    }

    lemma HeadStays(n: Node, p: int)
      requires Linked() && -1 <= p < |nodes| && head == n
      requires if p >= 0 then nodes[p] == n else n !in nodes
      ensures p == 0 && MoveToFront(nodes, p) == nodes
    {
    }

    lemma RestOf(n: Node, p: int) returns (rest: seq<Node>)
      requires Ends(nodes) && Chained(nodes) && -1 <= p < |nodes| && head != n
      requires if p >= 0 then nodes[p] == n else n !in nodes
      ensures p != 0 && (p > 0 ==> n.prev != null)
      ensures rest == if p > 0 then RemoveAt(nodes, p) else nodes
      ensures n !in rest && (rest == [] ==> p == -1) && |rest| == if p > 0 then |nodes| - 1 else |nodes|
      ensures forall i | 0 <= i < |rest| :: rest[i] in nodes
    {
      rest := if p > 0 then RemoveAt(nodes, p) else nodes;
      assert p > 0 ==> nodes[p].prev == nodes[p - 1];
      assert p > 0 ==> forall i | 0 <= i < |rest| :: rest[i] == nodes[if i < p then i else i + 1];
    }

    /** Take a node that is not the head out of its place; its own links stay as they were. */
    method Unstitch(n: Node, ghost p: int, ghost rest: seq<Node>)
      requires Ends(nodes) && Chained(nodes) && -1 <= p < |nodes| && p != 0
      requires p > 0 ==> nodes[p] == n
      requires p == -1 ==> n !in nodes && n.next == null && n.prev == null
      requires rest == if p > 0 then RemoveAt(nodes, p) else nodes
      modifies this`tail, nodes`next, nodes`prev
      ensures n.next == old(n.next) && n.prev == old(n.prev)
      ensures Ends(rest) && Chained(rest)
    {
      hide RemoveAt;
      if p > 0 {
        EndsWithout(nodes, p);
        assert nodes[p].next == At(nodes, p + 1) && nodes[p].prev == At(nodes, p - 1);
      }
      if n.next != null && n.prev != null {
        var next, prev := n.next, n.prev;
        assert next == nodes[p + 1] && prev == nodes[p - 1];
        next.prev := prev;
        prev.next := next;
        ClosedUp(p);
        assert Chained(rest);
      }
      if n.next == null && n.prev != null {
        assert n.prev == nodes[p - 1];
        tail := n.prev;
        n.prev.next := null;
        ClosedUp(p);
        assert Chained(rest);
      }
    }

    /** Where the neighbours of position p point at each other, the list without p is chained. */
    lemma ClosedUp(p: nat)
      requires p < |nodes| && Distinct(nodes)
      requires forall i {:trigger nodes[i].next} | 0 <= i < |nodes| && i != p ::
                 nodes[i].next == At(nodes, if i == p - 1 then p + 1 else i + 1)
      requires forall i {:trigger nodes[i].prev} | 0 <= i < |nodes| && i != p ::
                 nodes[i].prev == At(nodes, if i == p + 1 then p - 1 else i - 1)
      ensures Chained(RemoveAt(nodes, p))
    {
      var rest := RemoveAt(nodes, p);
      assert forall i | 0 <= i < p :: rest[i] == nodes[i];
      assert forall i | p <= i < |rest| :: rest[i] == nodes[i + 1];
    }

    /** Put a node in front of the list `rest`. */
    method LinkFront(n: Node, ghost rest: seq<Node>)
      requires Ends(rest) && Chained(rest) && n !in rest
      requires rest == [] ==> n.next == null && n.prev == null
      modifies this`head, this`tail, this`nodes, n`next, n`prev, rest`prev
      ensures nodes == [n] + rest && Ends(nodes) && Chained(nodes)
    {
      if head == null {
        head := n;
        tail := n;
        nodes := [n];
        return;
      }
      head.prev := n;
      n.next := head;
      head := n;
      n.prev := null;
      nodes := [n] + rest;
    }

    /** Walk from the head to the node with this key, unlink it and clear it. */
    method Delete(key: Key) returns (found: bool, ghost p: nat)
      requires Linked()
      modifies this`head, this`tail, this`len, this`nodes, nodes
      ensures Linked()
      ensures found <==> exists m | m in old(nodes) :: m.key == key
      ensures found ==> p < |old(nodes)| && old(nodes)[p].key == key && nodes == RemoveAt(old(nodes), p)
      ensures forall m | m in old(nodes) && !(found && m == old(nodes)[p]) :: m.value == old(m.value)
      ensures forall m | m in old(nodes) :: m.expiresAt == old(m.expiresAt)
      ensures forall i | 0 <= i < (if found then p else |old(nodes)|) :: old(nodes)[i].key != key
      ensures !found ==> nodes == old(nodes)
    {
      var n := head;
      p := 0;
      while n != null
        invariant p <= |nodes| && n == At(nodes, p)
        invariant forall i | 0 <= i < p :: nodes[i].key != key
        invariant Linked() && nodes == old(nodes)
        invariant forall m | m in nodes :: m.value == old(m.value) && m.expiresAt == old(m.expiresAt)
        decreases |nodes| - p
      {
        if n.key == key {
          assert n in nodes;
          Unlink(n, p);
          n.value := Nil;
          return true, p;
        }
        assert nodes[p].next == At(nodes, p + 1);
        n := n.next;
        p := p + 1;
      }
      found := false;
    }

    /** Take the node at position p out of the list. */
    method Unlink(n: Node, ghost p: nat)
      requires Linked() && p < |nodes| && nodes[p] == n
      modifies this`head, this`tail, this`len, this`nodes, nodes`next, nodes`prev
      ensures Linked() && nodes == RemoveAt(old(nodes), p) && n !in nodes
    {
      hide RemoveAt;
      ghost var rest := RemoveAt(nodes, p);
      EndsWithout(nodes, p);
      assert nodes[p].next == At(nodes, p + 1) && nodes[p].prev == At(nodes, p - 1);
      if n.prev == null {
        head := n.next;
      }
      if n.next == null {
        tail := n.prev;
      }
      if n.next != null && n.prev != null {
        var prev, next := n.prev, n.next;
        next.prev := prev;
        prev.next := next;
      }
      if n.prev == null && n.next != null {
        n.next.prev := null;
      }
      if n.next == null && n.prev != null {
        n.prev.next := null;
      }
      n.next := null;
      n.prev := null;
      ClosedUp(p);
      len := len - 1;
      nodes := rest;
    }

    /** The meant eviction: the last node goes and its predecessor becomes a proper tail. */
    method EvictTail() returns (evicted: Node)
      requires Linked() && |nodes| >= 2
      modifies this`tail, this`len, this`nodes, nodes`next, nodes`prev, nodes`value
      ensures Linked()
      ensures evicted == old(nodes)[|old(nodes)| - 1] && nodes == RemoveAt(old(nodes), |old(nodes)| - 1)
      ensures forall m | m in nodes :: m.value == old(m.value)
    {
      evicted := tail;
      assert evicted in nodes && nodes[|nodes| - 1].prev == nodes[|nodes| - 2];
      tail := evicted.prev;
      tail.next := null;
      evicted.next := null;
      evicted.prev := null;
      evicted.value := Nil;
      len := len - 1;
      nodes := RemoveAt(nodes, |nodes| - 1);
    }

    /** The eviction as the code writes it: the new tail keeps its link to the evicted node,
        and a list of one node keeps it as its head. */
    method EvictTailLiteral() returns (evicted: Node)
      requires Linked() && |nodes| >= 1
      modifies this`tail, this`len, nodes`next, nodes`prev, nodes`value
      ensures evicted == nodes[|nodes| - 1] && tail == At(nodes, |nodes| - 2)
      ensures if tail != null then tail.next == evicted else head == evicted
    {
      evicted := tail;
      assert nodes[|nodes| - 1].prev == At(nodes, |nodes| - 2);
      assert |nodes| >= 2 ==> nodes[|nodes| - 2].next == nodes[|nodes| - 1];
      tail := evicted.prev;
      evicted.next := null;
      evicted.prev := null;
      evicted.value := Nil;
      len := len - 1;
    }
  }

  /** A tail that still points on, and a head without a tail, belong to no well-formed list
      at all. */
  lemma TailMustEnd(b: Bucket, s: seq<Node>)
    requires if b.tail != null then b.tail.next != null else b.head != null
    ensures !(b.Ends(s) && Chained(s))
  {
    var last := At(s, |s| - 1);
    assert last != null && Chained(s) ==> last.next == null;
  }

  /** What the nodes hold, front first. */
  function ItemsOf(nodes: seq<Node>): (items: seq<Item>)
    reads nodes`value, nodes`expiresAt
    ensures |items| == |nodes|
    ensures forall i | 0 <= i < |nodes| :: items[i] == Item(nodes[i].key, nodes[i].value, nodes[i].expiresAt)
  {
    if nodes == [] then []
    else [Item(nodes[0].key, nodes[0].value, nodes[0].expiresAt)] + ItemsOf(nodes[1..])
  }

  twostate lemma ItemsUnchanged(nodes: seq<Node>)
    requires forall m | m in nodes :: m.value == old(m.value) && m.expiresAt == old(m.expiresAt)
    ensures ItemsOf(nodes) == old(ItemsOf(nodes))
  {
  }

  lemma ItemsMoveToFront(nodes: seq<Node>, p: nat)
    requires p < |nodes|
    ensures ItemsOf(MoveToFront(nodes, p)) == MoveToFront(ItemsOf(nodes), p)
    ensures forall m :: m in MoveToFront(nodes, p) <==> m in nodes
  {
    var a, b := ItemsOf(MoveToFront(nodes, p)), MoveToFront(ItemsOf(nodes), p);
    forall j | 0 <= j < |nodes| ensures a[j] == b[j] && MoveToFront(nodes, p)[j] in nodes {
      MoveToFrontAt(nodes, p, j);
      MoveToFrontAt(ItemsOf(nodes), p, j);
    }
    forall j | 0 <= j < |nodes| ensures nodes[j] in MoveToFront(nodes, p) {
      MoveToFrontAt(nodes, p, if j < p then j + 1 else if j == p then 0 else j);
    }
  }

  lemma ItemsRemoveAt(nodes: seq<Node>, p: nat)
    requires p < |nodes|
    ensures ItemsOf(RemoveAt(nodes, p)) == RemoveAt(ItemsOf(nodes), p)
  {
    var a, b := ItemsOf(RemoveAt(nodes, p)), RemoveAt(ItemsOf(nodes), p);
    forall j | 0 <= j < |nodes| - 1 ensures a[j] == b[j] {
      RemoveAtAt(nodes, p, j);
      RemoveAtAt(ItemsOf(nodes), p, j);
    }
  }

  /** The map holds exactly the listed nodes, under their own keys. */
  ghost predicate MapMatches(name: string, kv: map<string, Node>, nodes: seq<Node>) {
    (forall m | m in nodes :: name + m.key in kv && kv[name + m.key] == m) &&
    (forall s | s in kv :: kv[s] in nodes && s == name + kv[s].key)
  }

  lemma KeysDistinct(name: string, kv: map<string, Node>, nodes: seq<Node>)
    requires MapMatches(name, kv, nodes) && Distinct(nodes)
    ensures forall i, j | 0 <= i < j < |nodes| :: nodes[i].key != nodes[j].key
  {
    forall i, j | 0 <= i < j < |nodes| ensures nodes[i].key != nodes[j].key {
      assert kv[name + nodes[i].key] == nodes[i];
      assert kv[name + nodes[j].key] == nodes[j];
    }
  }

  lemma MapMoved(name: string, kv: map<string, Node>, nodes: seq<Node>, p: nat)
    requires MapMatches(name, kv, nodes) && p < |nodes|
    ensures MapMatches(name, kv, MoveToFront(nodes, p))
  {
    ItemsMoveToFront(nodes, p);
  }

  lemma MapAdded(name: string, kv: map<string, Node>, nodes: seq<Node>, n: Node)
    requires MapMatches(name, kv, nodes) && name + n.key !in kv
    ensures MapMatches(name, kv[name + n.key := n], [n] + nodes)
  {
    assert forall m :: m in [n] + nodes <==> m == n || m in nodes;
  }

  lemma MapRemoved(name: string, kv: map<string, Node>, nodes: seq<Node>, p: nat)
    requires MapMatches(name, kv, nodes) && Distinct(nodes) && p < |nodes|
    ensures MapMatches(name, kv - {name + nodes[p].key}, RemoveAt(nodes, p))
  {
    var rest := RemoveAt(nodes, p);
    forall m ensures m in rest <==> m in nodes && m != nodes[p] {
      if m in nodes && m != nodes[p] {
        var i :| 0 <= i < |nodes| && nodes[i] == m;
        assert rest[if i < p then i else i - 1] == m;
      }
    }
  }

  /** One bucket of the local cache: the list, and the map that finds a node by bucket and key. */
  class LocalCache {
    const bucketName: string
    const bucket: Bucket
    const maxLen: nat
    const defaultTtl: int
    var keyVal: map<string, Node>

    ghost predicate Coherent()
      reads this, bucket, bucket.nodes`next, bucket.nodes`prev
    {
      bucket.Linked() && MapMatches(bucketName, keyVal, bucket.nodes)
    }

    ghost predicate Valid()
      reads this, bucket, bucket.nodes`next, bucket.nodes`prev
    {
      Coherent() && |bucket.nodes| <= maxLen
    }

    /** The abstract value: the items, most recently used first. */
    ghost function Contents(): seq<Item>
      reads this, bucket, bucket.nodes`value, bucket.nodes`expiresAt
    {
      ItemsOf(bucket.nodes)
    }

    constructor (name: string, maxLen: nat, defaultTtl: int)
      ensures Valid() && Contents() == [] && fresh(bucket) && this.maxLen == maxLen && this.defaultTtl == defaultTtl
    {
      bucketName, this.maxLen, this.defaultTtl, keyVal := name, maxLen, defaultTtl, map[];
      bucket := new Bucket();
    }

    /** The map entry of a key is the node at the position where the sequence has it. */
    lemma Lookup(k: Key) returns (p: int)
      requires Valid()
      ensures DistinctKeys(Contents())
      ensures bucketName + k in keyVal <==> HasKey(Contents(), k)
      ensures if bucketName + k in keyVal
              then p == Find(Contents(), k) && p < |bucket.nodes| && bucket.nodes[p] == keyVal[bucketName + k]
              else p == -1
    {
      var nodes := bucket.nodes;
      KeysDistinct(bucketName, keyVal, nodes);
      p := -1;
      if bucketName + k in keyVal {
        p :| 0 <= p < |nodes| && nodes[p] == keyVal[bucketName + k];
        assert nodes[p].key == k by {
          assert (bucketName + k)[|bucketName|..] == k;
          assert (bucketName + nodes[p].key)[|bucketName|..] == nodes[p].key;
        }
        assert Contents()[p].key == k;
      }
      forall i | 0 <= i < |nodes| ensures Contents()[i].key == k ==> bucketName + k in keyVal {
        assert bucketName + nodes[i].key in keyVal;
      }
    }

    method Get(k: Key) returns (r: Option<Value>)
      requires Valid()
      modifies bucket, bucket.nodes`next, bucket.nodes`prev
      ensures Valid()
      ensures Contents() == Apply(old(Contents()), maxLen, Op.Get(k))
      ensures r == if HasKey(old(Contents()), k) then Some(old(Contents())[Find(old(Contents()), k)].value) else None
    {
      ghost var p := Lookup(k);
      if bucketName + k in keyVal {
        var n := keyVal[bucketName + k];
        Bump(n, p);
        return Some(n.value);
      }
      return None;
    }

    /** Bring a listed node to the front. */
    method Bump(n: Node, ghost p: nat)
      requires Coherent() && p < |bucket.nodes| && bucket.nodes[p] == n
      modifies bucket, bucket.nodes`next, bucket.nodes`prev
      ensures Coherent() && |bucket.nodes| == |old(bucket.nodes)|
      ensures Elements(bucket.nodes) == Elements(old(bucket.nodes))
      ensures Contents() == MoveToFront(old(Contents()), p)
    {
      hide Bucket.Linked;
      ghost var moved := MoveToFront(bucket.nodes, p);
      ItemsMoveToFront(bucket.nodes, p);
      MapMoved(bucketName, keyVal, bucket.nodes, p);
      bucket.Push(n, p);
      ItemsUnchanged(moved);
    }

    /** Put a new node with a new key in front. */
    method Insert(n: Node)
      requires Coherent() && bucketName + n.key !in keyVal
      requires n !in bucket.nodes && n.next == null && n.prev == null
      modifies this`keyVal, bucket, bucket.nodes`next, bucket.nodes`prev, n`next, n`prev
      ensures Coherent() && |bucket.nodes| == |old(bucket.nodes)| + 1
      ensures Elements(bucket.nodes) == Elements(old(bucket.nodes)) + {n}
      ensures Contents() == [Item(n.key, n.value, n.expiresAt)] + old(Contents())
    {
      hide Bucket.Linked;
      ghost var nodes := bucket.nodes;
      MapAdded(bucketName, keyVal, nodes, n);
      keyVal := keyVal[bucketName + n.key := n];
      bucket.Push(n, -1);
      assert bucket.nodes[1..] == nodes;
      ItemsUnchanged(nodes);
    }

    /** Evict the least recently used node from the list and the map. */
    method Evict()
      requires Coherent() && |bucket.nodes| >= 2
      modifies this`keyVal, bucket, bucket.nodes
      ensures Coherent() && |bucket.nodes| == |old(bucket.nodes)| - 1
      ensures Elements(bucket.nodes) <= Elements(old(bucket.nodes))
      ensures Contents() == RemoveAt(old(Contents()), |old(Contents())| - 1)
    {
      hide Bucket.Linked, MapMatches;
      ghost var last := |bucket.nodes| - 1;
      ghost var kept := RemoveAt(bucket.nodes, last);
      bucket.LinkedDistinct();
      MapRemoved(bucketName, keyVal, bucket.nodes, last);
      ItemsRemoveAt(bucket.nodes, last);
      var evicted := bucket.EvictTail();
      keyVal := keyVal - {bucketName + evicted.key};
      ItemsUnchanged(kept);
    }

    /** A present key gets its new value and deadline and moves to the front; a new key goes
        in front, and when the bucket is then too long the last node is evicted. The default
        ttl of the bucket is not consulted: the deadline is the documented one if and only if
        a ttl was given or there is no default. */
    method Set(k: Key, v: Value, ttl: int, now: int)
      requires Valid() && maxLen >= 1
      modifies this`keyVal, bucket, bucket.nodes
      ensures Valid() && fresh(Elements(bucket.nodes) - old(Elements(bucket.nodes)))
      ensures Contents() == Apply(old(Contents()), maxLen, Op.Set(k, v, Expiry(ttl, now)))
      ensures Contents() != [] && Contents()[0] == Item(k, v, if ttl != 0 then Some(now + ttl) else None)
      ensures Contents()[0].expiresAt == DocumentedExpiry(ttl, defaultTtl, now) <==> ttl != 0 || defaultTtl == 0
    {
      hide Bucket.Linked, Put, MoveToFront, RemoveAt, MapMatches, DocumentedExpiry;
      ghost var p := Lookup(k);
      ghost var items := Contents();
      DeadlineSet(items, maxLen, k, v, ttl, defaultTtl, now);
      if bucketName + k in keyVal {
        var n := keyVal[bucketName + k];
        Rewrite(n, p, v, Expiry(ttl, now));
        Bump(n, p);
        PutPresent(items, maxLen, Item(k, v, Expiry(ttl, now)));
        return;
      }
      var n := new Node(k, v, Expiry(ttl, now));
      Admit(n);
    }

    /** Put a new node in front, then evict the last one if the bucket is too long. */
    method Admit(n: Node)
      requires Valid() && maxLen >= 1 && bucketName + n.key !in keyVal && !HasKey(Contents(), n.key)
      requires n !in bucket.nodes && n.next == null && n.prev == null
      modifies this`keyVal, bucket, bucket.nodes, n
      ensures Valid() && Elements(bucket.nodes) <= Elements(old(bucket.nodes)) + {n}
      ensures Contents() == Put(old(Contents()), maxLen, Item(n.key, old(n.value), old(n.expiresAt)))
    {
      hide Bucket.Linked, Put, MapMatches;
      PutAbsent(Contents(), maxLen, Item(n.key, n.value, n.expiresAt));
      Insert(n);
      bucket.LinkedDistinct();
      if bucket.len > maxLen {
        forall i | 0 <= i < |bucket.nodes| ensures bucket.nodes[i] in old(bucket.nodes) || bucket.nodes[i] == n {
          assert bucket.nodes[i] in Elements(bucket.nodes);
        }
        Evict();
      }
    }

    /** Overwrite the value and deadline of a listed node in place. */
    method Rewrite(n: Node, ghost p: nat, v: Value, expiry: Option<int>)
      requires Coherent() && p < |bucket.nodes| && bucket.nodes[p] == n
      modifies n`value, n`expiresAt
      ensures Coherent()
      ensures Contents() == old(Contents())[p := Item(n.key, v, expiry)]
    {
      n.value := v;
      n.expiresAt := expiry;
      assert forall i | 0 <= i < |bucket.nodes| && i != p :: bucket.nodes[i] != n;
    }

    method Delete(k: Key) returns (found: bool)
      requires Valid()
      modifies this`keyVal, bucket, bucket.nodes
      ensures Valid()
      ensures Contents() == Apply(old(Contents()), maxLen, Op.Delete(k))
      ensures found <==> HasKey(old(Contents()), k)
    {
      hide Bucket.Linked, MapMatches, RemoveAt;
      ghost var p := Lookup(k);
      found := Unlist(k, p);
      if found {
        keyVal := keyVal - {bucketName + k};
      }
    }

    /** Delete from the list; `p` is where the key stands, or -1. */
    method Unlist(k: Key, ghost p: int) returns (found: bool)
      requires Coherent() && -1 <= p < |bucket.nodes|
      requires if p >= 0 then bucket.nodes[p].key == k else forall m | m in bucket.nodes :: m.key != k
      modifies bucket, bucket.nodes
      ensures found <==> p >= 0
      ensures bucket.Linked()
      ensures MapMatches(bucketName, if found then keyVal - {bucketName + k} else keyVal, bucket.nodes)
      ensures |bucket.nodes| <= |old(bucket.nodes)|
      ensures Contents() == if found then RemoveAt(old(Contents()), p) else old(Contents())
    {
      hide Bucket.Linked;
      ghost var nodes := bucket.nodes;
      bucket.LinkedDistinct();
      KeysDistinct(bucketName, keyVal, nodes);
      if p >= 0 {
        MapRemoved(bucketName, keyVal, nodes, p);
        ItemsRemoveAt(nodes, p);
      }
      ghost var q;
      found, q := bucket.Delete(k);
      ItemsUnchanged(bucket.nodes);
    }

    /** A ttl change rewrites the deadline where the node stands; it is not a use of the key. */
    method SetTtl(k: Key, ttl: int, now: int) returns (found: bool)
      requires Valid()
      modifies this`keyVal, bucket.nodes`value, bucket.nodes`expiresAt
      ensures Valid()
      ensures Contents() == Apply(old(Contents()), maxLen, Op.SetTtl(k, now + ttl))
      ensures found <==> HasKey(old(Contents()), k)
    {
      hide Bucket.Linked, MapMatches, Find, MoveToFront, RemoveAt, Retime;
      RetimeIs(Contents(), k, now + ttl);
      ghost var p := Lookup(k);
      if bucketName + k !in keyVal {
        return false;
      }
      var n := keyVal[bucketName + k];
      Rewrite(n, p, n.value, Some(now + ttl));
      assert keyVal[bucketName + k := n] == keyVal;
      keyVal := keyVal[bucketName + k := n];
      return true;
    }

    /** The set operation with the eviction as the code writes it. What is left is a
        well-formed list exactly when nothing had to be evicted; in a bucket of capacity zero
        every set evicts. */
    method SetLiteral(k: Key, v: Value, ttl: int, now: int)
      requires Valid()
      modifies this`keyVal, bucket, bucket.nodes
      ensures var evicts := !HasKey(old(Contents()), k) && |old(Contents())| == maxLen;
              (evicts <==> !exists s: seq<Node> :: bucket.Ends(s) && Chained(s)) &&
              (!evicts ==> Valid() && Contents() == Apply(old(Contents()), maxLen, Op.Set(k, v, Expiry(ttl, now))) &&
                           fresh(Elements(bucket.nodes) - old(Elements(bucket.nodes))))
    {
      hide Bucket.Linked, Put, MapMatches;
      ghost var p := Lookup(k);
      bucket.LinkedDistinct();
      if bucketName + k in keyVal || bucket.len < maxLen {
        Set(k, v, ttl, now);
        bucket.LinkedEnds();
        return;
      }
      var n := new Node(k, v, Expiry(ttl, now));
      AdmitLiteral(n);
      forall s: seq<Node> ensures !(bucket.Ends(s) && Chained(s)) {
        TailMustEnd(bucket, s);
      }
    }

    method AdmitLiteral(n: Node)
      requires Valid() && bucketName + n.key !in keyVal && |bucket.nodes| == maxLen
      requires n !in bucket.nodes && n.next == null && n.prev == null
      modifies this`keyVal, bucket, bucket.nodes, n
      ensures if bucket.tail != null then bucket.tail.next != null else bucket.head != null
    {
      hide Bucket.Linked, Put, MapMatches;
      Insert(n);
      forall i | 0 <= i < |bucket.nodes| ensures bucket.nodes[i] in old(bucket.nodes) || bucket.nodes[i] == n {
        assert bucket.nodes[i] in Elements(bucket.nodes);
      }
      var evicted := bucket.EvictTailLiteral();
      keyVal := keyVal - {bucketName + evicted.key};
    }

    /** The walk of the ttl worker: the keys whose deadline has passed, front first. */
    method ExpiredKeys(now: int) returns (keys: seq<Key>)
      requires Valid()
      ensures keys == Expired(Contents(), now)
    {
      hide MapMatches, Bucket.Linked, Expired;
      keys := [];
      var n := bucket.head;
      ghost var p := 0;
      bucket.LinkedEnds();
      assert Contents()[0..] == Contents();
      while n != null
        invariant p <= |bucket.nodes| && n == At(bucket.nodes, p)
        invariant Expired(Contents(), now) == keys + Expired(Contents()[p..], now)
        decreases |bucket.nodes| - p
      {
        bucket.WalkOn(p);
        ExpiredHead(Contents(), p, now);
        if n.expiresAt.Some? && now > n.expiresAt.value {
          keys := keys + [n.key];
        }
        n := n.next;
        p := p + 1;
      }
      ExpiredNone(now);
      assert Contents()[p..] == [];
    }
  }

  /** A cache of capacity one that is set twice under the code's eviction: its tail is gone
      while its head still points at a node, so it is no list any more. */
  method LiteralEvictionBreaks() returns (c: LocalCache)
    ensures !exists s: seq<Node> :: c.bucket.Ends(s) && Chained(s)
  {
    c := new LocalCache("b", 1, 0);
    c.SetLiteral("x", Nil, 0, 0);
    assert forall m | m in c.bucket.nodes :: m in Elements(c.bucket.nodes);
    assert c.Contents() == [Item("x", Nil, None)];
    c.SetLiteral("y", Nil, 0, 0);
  }

  /** A set without a ttl in a bucket with a default ttl: the item never expires. */
  method DefaultTtlIgnored(defaultTtl: int, now: int) returns (c: LocalCache)
    ensures c.defaultTtl == defaultTtl && c.Contents() == [Item("x", Nil, None)]
    ensures defaultTtl != 0 ==> c.Contents()[0].expiresAt != DocumentedExpiry(0, defaultTtl, now)
  {
    c := new LocalCache("b", 1, defaultTtl);
    c.Set("x", Nil, 0, now);
  }

  function Expiry(ttl: int, now: int): Option<int> {
    if ttl != 0 then Some(now + ttl) else None
  }

  lemma DeadlineSet(items: seq<Item>, cap: nat, k: Key, v: Value, ttl: int, defaultTtl: int, now: int)
    requires cap >= 1
    ensures var after := Put(items, cap, Item(k, v, Expiry(ttl, now)));
            after != [] && after[0] == Item(k, v, if ttl != 0 then Some(now + ttl) else None) &&
            (after[0].expiresAt == DocumentedExpiry(ttl, defaultTtl, now) <==> ttl != 0 || defaultTtl == 0)
  {
    PutInFront(items, cap, Item(k, v, Expiry(ttl, now)));
  }

  /** The deadline that the description of the data entry asks for: by the ttl of the set, or
      else by the default of the bucket. */
  function DocumentedExpiry(ttl: int, defaultTtl: int, now: int): Option<int> {
    if ttl != 0 then Some(now + ttl) else if defaultTtl != 0 then Some(now + defaultTtl) else None
  }
}
