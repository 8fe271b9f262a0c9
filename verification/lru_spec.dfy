/** The meaning of an LRU bucket: a sequence of items, most recently used first. */
module LruSpec {
  import opened Common

  type Key = string
  datatype Value = Nil | Val(data: string)

  datatype Item = Item(key: Key, value: Value, expiresAt: Option<int>)

  predicate DistinctKeys(items: seq<Item>) {
    forall i, j | 0 <= i < j < |items| :: items[i].key != items[j].key
  }

  predicate HasKey(items: seq<Item>, k: Key) {
    exists i | 0 <= i < |items| :: items[i].key == k
  }

  /** The position of a key, or the length when it is absent. */
  function Find(items: seq<Item>, k: Key): (i: nat)
    ensures i <= |items|
    ensures i < |items| <==> HasKey(items, k)
    ensures i < |items| ==> items[i].key == k
    ensures forall j | 0 <= j < i :: items[j].key != k
  {
    if items == [] then 0
    else if items[0].key == k then 0
    else
      var r := Find(items[1..], k);
      assert forall j | 0 < j <= r :: items[j] == items[1..][j - 1];
      r + 1
  }

  function RemoveAt<T>(s: seq<T>, i: nat): (r: seq<T>)
    requires i < |s|
    ensures |r| == |s| - 1
  {
    s[..i] + s[i + 1..]
  }

  lemma RemoveAtAt<T>(s: seq<T>, i: nat, j: nat)
    requires i < |s| && j < |s| - 1
    ensures RemoveAt(s, i)[j] == s[if j < i then j else j + 1]
  {
  }

  function MoveToFront<T>(s: seq<T>, i: nat): seq<T>
    requires i < |s|
  {
    [s[i]] + RemoveAt(s, i)
  }

  function Without(items: seq<Item>, k: Key): seq<Item> {
    if HasKey(items, k) then RemoveAt(items, Find(items, k)) else items
  }

  // ----- operations

  datatype Op =
    | Get(k: Key)
    | Set(k: Key, value: Value, expiresAt: Option<int>)
    | Delete(k: Key)
    | SetTtl(k: Key, deadline: int)

  function Touch(items: seq<Item>, k: Key): seq<Item> {
    if HasKey(items, k) then MoveToFront(items, Find(items, k)) else items
  }

  /** Put an item in front; when that makes the bucket too long, the last item goes. */
  function Put(items: seq<Item>, cap: nat, it: Item): seq<Item> {
    var longer := [it] + Without(items, it.key);
    if HasKey(items, it.key) || |longer| <= cap then longer else longer[..|longer| - 1]
  }

  function Retime(items: seq<Item>, k: Key, deadline: int): seq<Item> {
    if HasKey(items, k) then
      var i := Find(items, k);
      items[i := items[i].(expiresAt := Some(deadline))]
    else items
  }

  function Apply(items: seq<Item>, cap: nat, op: Op): seq<Item> {
    match op
    case Get(k) => Touch(items, k)
    case Set(k, v, e) => Put(items, cap, Item(k, v, e))
    case Delete(k) => Without(items, k)
    case SetTtl(k, d) => Retime(items, k, d)
  }

  function Run(cap: nat, ops: seq<Op>): seq<Item> {
    if ops == [] then [] else Apply(Run(cap, ops[..|ops| - 1]), cap, ops[|ops| - 1])
  }

  lemma RetimeIs(items: seq<Item>, k: Key, d: int)
    ensures Retime(items, k, d) ==
            if HasKey(items, k) then items[Find(items, k) := Item(k, items[Find(items, k)].value, Some(d))] else items
  {
  }

  lemma PutPresent(items: seq<Item>, cap: nat, it: Item)
    requires HasKey(items, it.key)
    ensures Put(items, cap, it) == MoveToFront(items[Find(items, it.key) := it], Find(items, it.key))
  {
  }

  lemma PutAbsent(items: seq<Item>, cap: nat, it: Item)
    requires !HasKey(items, it.key) && |items| <= cap
    ensures Put(items, cap, it) == if |items| < cap then [it] + items else RemoveAt([it] + items, |items|)
  {
  }

  /** A bucket that can hold anything holds in front what was just set. */
  lemma PutInFront(items: seq<Item>, cap: nat, it: Item)
    requires cap >= 1
    ensures Put(items, cap, it) != [] && Put(items, cap, it)[0] == it
  {
  }

  /** A ttl change of a resident key leaves it in front exactly when it was in front already:
      unlike a set or a get, it does not move the key there. */
  lemma TtlChangeInFront(items: seq<Item>, cap: nat, k: Key, d: int)
    requires HasKey(items, k)
    ensures var after := Apply(items, cap, SetTtl(k, d));
            HasKey(after, k) && (after[0].key == k <==> items[0].key == k)
  {
    var i := Find(items, k);
    assert Retime(items, k, d)[i].key == k;
  }

  /** A key that was set first and whose ttl was changed last is still behind the other. */
  lemma TtlChangeStaysBehind(v: Value, d: int)
    ensures var ops := [Set("a", v, None), Set("b", v, None), SetTtl("a", d)];
            Run(2, ops) == [Item("b", v, None), Item("a", v, Some(d))]
  {
    var a, b := Item("a", v, None), Item("b", v, None);
    var ops := [Set("a", v, None), Set("b", v, None), SetTtl("a", d)];
    assert ops[..2][..1][..0] == [] && ops[..2][..1][0] == ops[0] && ops[..2][1] == ops[1];
    assert Run(2, ops[..2][..1]) == Put([], 2, a) == [a];
    assert Without([a], "b") == [a];
    assert Run(2, ops[..2]) == [b, a];
    assert [b, a][1].key == "a" && Find([b, a], "a") == 1;
  }

  // ----- every operation keeps the keys distinct and the length bounded

  lemma WithoutKeeps(items: seq<Item>, k: Key)
    requires DistinctKeys(items)
    ensures DistinctKeys(Without(items, k)) && !HasKey(Without(items, k), k)
    ensures forall k' | k' != k :: HasKey(Without(items, k), k') <==> HasKey(items, k')
  {
    if HasKey(items, k) {
      var i := Find(items, k);
      var r := RemoveAt(items, i);
      assert forall j | 0 <= j < |r| :: r[j] == items[if j < i then j else j + 1];
      forall k' | k' != k && HasKey(items, k') ensures HasKey(r, k') {
        var j :| 0 <= j < |items| && items[j].key == k';
        assert r[if j < i then j else j - 1].key == k';
      }
    }
  }

  lemma ApplyKeepsBounds(items: seq<Item>, cap: nat, op: Op)
    requires DistinctKeys(items) && |items| <= cap
    ensures DistinctKeys(Apply(items, cap, op)) && |Apply(items, cap, op)| <= cap
  {
    match op
    case Get(k) => WithoutKeeps(items, k);
    case Set(k, v, e) => WithoutKeeps(items, k);
    case Delete(k) => WithoutKeeps(items, k);
    case SetTtl(k, d) =>
  }

  lemma {:induction false} RunKeepsBounds(cap: nat, ops: seq<Op>)
    ensures DistinctKeys(Run(cap, ops)) && |Run(cap, ops)| <= cap
  {
    if ops != [] {
      RunKeepsBounds(cap, ops[..|ops| - 1]);
      ApplyKeepsBounds(Run(cap, ops[..|ops| - 1]), cap, ops[|ops| - 1]);
    }
  }

  /** The keys whose deadline has passed. */
  function Expired(items: seq<Item>, now: int): seq<Key> {
    if items == [] then []
    else
      (if items[0].expiresAt.Some? && now > items[0].expiresAt.value then [items[0].key] else []) + Expired(items[1..], now)
  }

  lemma ExpiredNone(now: int)
    ensures Expired([], now) == []
  {
  }

  lemma ExpiredHead(items: seq<Item>, p: nat, now: int)
    requires p < |items|
    ensures Expired(items[p..], now) ==
            (if items[p].expiresAt.Some? && now > items[p].expiresAt.value then [items[p].key] else []) +
            Expired(items[p + 1..], now)
  {
    assert items[p..][1..] == items[p + 1..];
  }

  lemma {:induction false} ExpiredExact(items: seq<Item>, now: int, k: Key)
    ensures k in Expired(items, now) <==>
            exists i | 0 <= i < |items| :: items[i].key == k && items[i].expiresAt.Some? && items[i].expiresAt.value < now
  {
    if items != [] {
      ExpiredExact(items[1..], now, k);
      assert forall i | 0 < i < |items| :: items[i] == items[1..][i - 1];
    }
  }

  // ----- a resident key holds what a plain map would hold

  /** What the operations mean when nothing is ever evicted. */
  function MapAfter(ops: seq<Op>): map<Key, (Value, Option<int>)> {
    if ops == [] then map[]
    else
      var m := MapAfter(ops[..|ops| - 1]);
      match ops[|ops| - 1]
      case Get(_) => m
      case Set(k, v, e) => m[k := (v, e)]
      case Delete(k) => m - {k}
      case SetTtl(k, d) => if k in m then m[k := (m[k].0, Some(d))] else m
  }

  ghost predicate Agrees(items: seq<Item>, m: map<Key, (Value, Option<int>)>) {
    forall i | 0 <= i < |items| :: items[i].key in m && m[items[i].key] == (items[i].value, items[i].expiresAt)
  }

  /** The items of a touched bucket were all there before. */
  lemma MovedItems(items: seq<Item>, p: nat)
    requires p < |items|
    ensures forall x | x in RemoveAt(items, p) :: x in items
    ensures forall x | x in MoveToFront(items, p) :: x in items
  {
  }

  /** Evictions lose keys, but what is resident is never stale: every item has the value and
      the deadline that a plain map has for its key after the same operations. */
  lemma {:induction false} ResidentNeverStale(cap: nat, ops: seq<Op>)
    ensures Agrees(Run(cap, ops), MapAfter(ops))
  {
    if ops != [] {
      var n := |ops| - 1;
      ResidentNeverStale(cap, ops[..n]);
      RunKeepsBounds(cap, ops[..n]);
      StepNeverStale(Run(cap, ops[..n]), cap, ops[..n], ops[n]);
      assert ops == ops[..n] + [ops[n]];
    }
  }

  lemma StepNeverStale(items: seq<Item>, cap: nat, ops: seq<Op>, op: Op)
    requires Agrees(items, MapAfter(ops)) && DistinctKeys(items)
    ensures Agrees(Apply(items, cap, op), MapAfter(ops + [op]))
  {
    assert (ops + [op])[..|ops|] == ops;
    match op
    case Get(k) => TouchAgrees(items, MapAfter(ops), k);
    case Set(k, v, e) => PutAgrees(items, cap, MapAfter(ops), Item(k, v, e));
    case Delete(k) => WithoutAgrees(items, MapAfter(ops), k);
    case SetTtl(k, d) =>
  }

  lemma TouchAgrees(items: seq<Item>, m: map<Key, (Value, Option<int>)>, k: Key)
    requires Agrees(items, m)
    ensures Agrees(Touch(items, k), m)
  {
    if HasKey(items, k) {
      MovedItems(items, Find(items, k));
      assert forall i | 0 <= i < |Touch(items, k)| :: Touch(items, k)[i] in items;
    }
  }

  lemma WithoutAgrees(items: seq<Item>, m: map<Key, (Value, Option<int>)>, k: Key)
    requires Agrees(items, m) && DistinctKeys(items)
    ensures Agrees(Without(items, k), m - {k})
  {
    WithoutKeeps(items, k);
    var rest := Without(items, k);
    if HasKey(items, k) {
      MovedItems(items, Find(items, k));
    }
    assert forall i | 0 <= i < |rest| :: rest[i] in items && rest[i].key != k;
  }

  lemma PutAgrees(items: seq<Item>, cap: nat, m: map<Key, (Value, Option<int>)>, it: Item)
    requires Agrees(items, m) && DistinctKeys(items)
    ensures Agrees(Put(items, cap, it), m[it.key := (it.value, it.expiresAt)])
  {
    WithoutAgrees(items, m, it.key);
    var after := Put(items, cap, it);
    assert forall i | 0 < i < |after| :: after[i] == Without(items, it.key)[i - 1];
  }

  // ----- a larger bucket always holds what a smaller one holds

  /** a can be obtained from b by dropping items. */
  predicate Subsequence(a: seq<Item>, b: seq<Item>) {
    if a == [] then true
    else if b == [] then false
    else if a[0] == b[0] then Subsequence(a[1..], b[1..])
    else Subsequence(a, b[1..])
  }

  lemma {:induction false} SubsequenceMembers(a: seq<Item>, b: seq<Item>, k: Key)
    requires Subsequence(a, b) && HasKey(a, k) && DistinctKeys(b)
    ensures HasKey(b, k) && a[Find(a, k)] == b[Find(b, k)]
  {
    assert DistinctKeys(b[1..]);
    if a[0] == b[0] {
      if a[0].key != k {
        HasKeyTail(a, k);
        SubsequenceMembers(a[1..], b[1..], k);
        HasKeyTail(b, k);
      }
    } else {
      SubsequenceMembers(a, b[1..], k);
      HasKeyTail(b, k);
    }
  }

  lemma HasKeyTail(s: seq<Item>, k: Key)
    requires s != []
    ensures HasKey(s, k) <==> s[0].key == k || HasKey(s[1..], k)
  {
    assert forall i | 0 < i < |s| :: s[i] == s[1..][i - 1];
    if HasKey(s[1..], k) {
      var i :| 0 <= i < |s[1..]| && s[1..][i].key == k;
      assert s[i + 1].key == k;
    }
  }

  lemma HeadNotInTail(s: seq<Item>)
    requires s != [] && DistinctKeys(s)
    ensures !HasKey(s[1..], s[0].key)
  {
    assert forall i | 0 <= i < |s[1..]| :: s[1..][i] == s[i + 1];
  }

  lemma WithoutHead(s: seq<Item>, k: Key)
    requires s != []
    ensures s[0].key == k ==> Without(s, k) == s[1..]
    ensures s[0].key != k ==> Without(s, k) == [s[0]] + Without(s[1..], k)
  {
    HasKeyTail(s, k);
    if s[0].key != k && HasKey(s, k) {
      var i := Find(s[1..], k);
      assert Find(s, k) == i + 1;
      assert RemoveAt(s, i + 1) == [s[0]] + RemoveAt(s[1..], i);
    } else if s[0].key != k {
      assert s == [s[0]] + s[1..];
    }
  }

  lemma {:induction false} SubsequenceWithout(a: seq<Item>, b: seq<Item>, k: Key)
    requires Subsequence(a, b) && DistinctKeys(a) && DistinctKeys(b)
    ensures Subsequence(Without(a, k), Without(b, k))
    decreases |b|
  {
    if a != [] {
      WithoutHead(a, k);
      WithoutHead(b, k);
      assert DistinctKeys(b[1..]) && DistinctKeys(a[1..]);
      if a[0] == b[0] {
        SubsequenceWithout(a[1..], b[1..], k);
        if a[0].key != k {
          SubsequenceCons(Without(a[1..], k), Without(b[1..], k), a[0]);
        }
      } else {
        SubsequenceWithout(a, b[1..], k);
        if b[0].key == k {
          HeadNotInTail(b);
        } else {
          SubsequenceSkip(Without(a, k), Without(b[1..], k), b[0]);
        }
      }
    }
  }

  lemma {:induction false} SubsequenceTail(a: seq<Item>, b: seq<Item>)
    requires a != [] && Subsequence(a, b)
    ensures Subsequence(a[1..], b)
    decreases |b|
  {
    if a[0] == b[0] {
      if a[1..] != [] && a[1] == b[0] {
        SubsequenceTail(a[1..], b[1..]);
      }
    } else {
      SubsequenceTail(a, b[1..]);
      if a[1..] != [] && a[1] == b[0] {
        SubsequenceTail(a[1..], b[1..]);
      }
    }
  }

  lemma SubsequenceSkip(a: seq<Item>, b: seq<Item>, x: Item)
    requires Subsequence(a, b)
    ensures Subsequence(a, [x] + b)
  {
    assert ([x] + b)[1..] == b;
    if a != [] && a[0] == x {
      SubsequenceTail(a, b);
    }
  }

  lemma SubsequenceCons(a: seq<Item>, b: seq<Item>, x: Item)
    requires Subsequence(a, b)
    ensures Subsequence([x] + a, [x] + b)
  {
    assert ([x] + a)[1..] == a && ([x] + b)[1..] == b;
  }

  /** Dropping the last item of both, or of the longer one alone when the shorter ends otherwise. */
  lemma {:induction false} SubsequenceDropLast(a: seq<Item>, b: seq<Item>)
    requires Subsequence(a, b) && b != [] && DistinctKeys(b)
    ensures a != [] && a[|a| - 1] == b[|b| - 1] ==> Subsequence(a[..|a| - 1], b[..|b| - 1])
    ensures a == [] || a[|a| - 1] != b[|b| - 1] ==> Subsequence(a, b[..|b| - 1])
    decreases |b|
  {
    if a != [] {
      assert DistinctKeys(b[1..]);
      var b' := b[..|b| - 1];
      if a[0] == b[0] {
        if |b| == 1 {
          assert a[1..] == [];
          assert a[..|a| - 1] == [];
        } else {
          SubsequenceDropLast(a[1..], b[1..]);
          assert b'[1..] == b[1..][..|b| - 2];
          if |a| > 1 {
            var a' := a[..|a| - 1];
            assert a'[1..] == a[1..][..|a| - 2];
          }
        }
      } else {
        assert |b| > 1;
        SubsequenceDropLast(a, b[1..]);
        assert b'[1..] == b[1..][..|b| - 2];
        if a[|a| - 1] == b[|b| - 1] {
          SubsequenceSkip(a[..|a| - 1], b'[1..], b[0]);
          assert b' == [b[0]] + b'[1..];
        }
      }
    }
  }

  lemma {:induction false} SubsequenceRetime(a: seq<Item>, b: seq<Item>, k: Key, d: int)
    requires Subsequence(a, b) && DistinctKeys(a) && DistinctKeys(b)
    ensures Subsequence(Retime(a, k, d), Retime(b, k, d))
    decreases |b|
  {
    if a != [] {
      RetimeHead(a, k, d);
      RetimeHead(b, k, d);
      assert DistinctKeys(b[1..]) && DistinctKeys(a[1..]);
      if a[0] == b[0] {
        SubsequenceRetime(a[1..], b[1..], k, d);
        SubsequenceCons(Retime(a[1..], k, d), Retime(b[1..], k, d), Retimed(a[0], k, d));
      } else {
        SubsequenceRetime(a, b[1..], k, d);
        SubsequenceSkip(Retime(a, k, d), Retime(b[1..], k, d), Retimed(b[0], k, d));
      }
    }
  }

  function Retimed(it: Item, k: Key, d: int): Item {
    if it.key == k then it.(expiresAt := Some(d)) else it
  }

  lemma RetimeHead(s: seq<Item>, k: Key, d: int)
    requires s != [] && DistinctKeys(s)
    ensures Retime(s, k, d) == [Retimed(s[0], k, d)] + Retime(s[1..], k, d)
  {
    RetimeAll(s, k, d);
    assert forall i | 0 <= i < |s[1..]| :: s[1..][i] == s[i + 1];
    assert DistinctKeys(s[1..]);
    RetimeAll(s[1..], k, d);
  }

  lemma RetimeAll(s: seq<Item>, k: Key, d: int)
    requires DistinctKeys(s)
    ensures |Retime(s, k, d)| == |s| && forall i | 0 <= i < |s| :: Retime(s, k, d)[i] == Retimed(s[i], k, d)
  {
  }

  /** How a smaller and a larger bucket compare under the same operations: the smaller is a
      subsequence of the larger, which is ahead by at most the difference in capacity. */
  ghost predicate Dominates(small: seq<Item>, large: seq<Item>, cap: nat, cap': nat) {
    DistinctKeys(small) && DistinctKeys(large) &&
    |small| <= cap && |large| <= cap' &&
    Subsequence(small, large) && |large| - |small| <= cap' - cap
  }

  lemma GetKeepsDominance(small: seq<Item>, large: seq<Item>, cap: nat, cap': nat, k: Key)
    requires Dominates(small, large, cap, cap')
    ensures Dominates(Touch(small, k), Touch(large, k), cap, cap')
  {
    ApplyKeepsBounds(small, |small|, Get(k));
    ApplyKeepsBounds(large, |large|, Get(k));
    SubsequenceWithout(small, large, k);
    if HasKey(small, k) {
      SubsequenceMembers(small, large, k);
      SubsequenceCons(Without(small, k), Without(large, k), small[Find(small, k)]);
    } else if HasKey(large, k) {
      SubsequenceSkip(small, Without(large, k), large[Find(large, k)]);
    }
  }

  lemma DeleteKeepsDominance(small: seq<Item>, large: seq<Item>, cap: nat, cap': nat, k: Key)
    requires Dominates(small, large, cap, cap')
    ensures Dominates(Without(small, k), Without(large, k), cap, cap')
  {
    WithoutKeeps(small, k);
    WithoutKeeps(large, k);
    SubsequenceWithout(small, large, k);
    if HasKey(small, k) {
      SubsequenceMembers(small, large, k);
    }
  }

  /** The step with the eviction. The larger bucket evicts a new key's victim only when it is
      full; it is ahead by no more than the difference in capacity, so the smaller is then
      full too, and if it holds the same victim it also evicts it. */
  lemma SetKeepsDominance(small: seq<Item>, large: seq<Item>, cap: nat, cap': nat, it: Item)
    requires Dominates(small, large, cap, cap') && cap <= cap'
    ensures Dominates(Put(small, cap, it), Put(large, cap', it), cap, cap')
  {
    ApplyKeepsBounds(small, cap, Set(it.key, it.value, it.expiresAt));
    ApplyKeepsBounds(large, cap', Set(it.key, it.value, it.expiresAt));
    WithoutKeeps(small, it.key);
    WithoutKeeps(large, it.key);
    SubsequenceWithout(small, large, it.key);
    var s, l := [it] + Without(small, it.key), [it] + Without(large, it.key);
    SubsequenceCons(Without(small, it.key), Without(large, it.key), it);
    if HasKey(small, it.key) {
      SubsequenceMembers(small, large, it.key);
    } else if |s| > cap {
      SubsequenceDropLast(s, l);
      if HasKey(large, it.key) || |l| <= cap' {
        SubsequencePrefix(s, l);
      } else if s[|s| - 1] != l[|l| - 1] {
        SubsequencePrefix(s, l[..|l| - 1]);
      }
    } else if !HasKey(large, it.key) && |l| > cap' {
      assert false;
    }
  }

  lemma {:induction false} SubsequencePrefix(a: seq<Item>, b: seq<Item>)
    requires a != [] && Subsequence(a, b)
    ensures Subsequence(a[..|a| - 1], b)
    decreases |b|
  {
    if |a| == 1 {
      assert a[..|a| - 1] == [];
    } else if a[0] == b[0] {
      SubsequencePrefix(a[1..], b[1..]);
      assert a[..|a| - 1][1..] == a[1..][..|a| - 2];
    } else {
      SubsequencePrefix(a, b[1..]);
    }
  }

  lemma {:induction false} RunKeepsDominance(cap: nat, cap': nat, ops: seq<Op>)
    requires cap <= cap'
    ensures Dominates(Run(cap, ops), Run(cap', ops), cap, cap')
  {
    if ops != [] {
      var n := |ops| - 1;
      RunKeepsDominance(cap, cap', ops[..n]);
      var small, large := Run(cap, ops[..n]), Run(cap', ops[..n]);
      match ops[n]
      case Get(k) => GetKeepsDominance(small, large, cap, cap', k);
      case Set(k, v, e) => SetKeepsDominance(small, large, cap, cap', Item(k, v, e));
      case Delete(k) => DeleteKeepsDominance(small, large, cap, cap', k);
      case SetTtl(k, d) =>
        SubsequenceRetime(small, large, k, d);
    }
  }

  /** For any run, deletes and ttl changes included, a bucket with a larger capacity holds
      every key the smaller one holds, with the same value and deadline. */
  lemma LargerHoldsMore(cap: nat, cap': nat, ops: seq<Op>, k: Key)
    requires cap <= cap' && HasKey(Run(cap, ops), k)
    ensures HasKey(Run(cap', ops), k)
    ensures Run(cap, ops)[Find(Run(cap, ops), k)] == Run(cap', ops)[Find(Run(cap', ops), k)]
  {
    RunKeepsDominance(cap, cap', ops);
    SubsequenceMembers(Run(cap, ops), Run(cap', ops), k);
  }

  // ----- residency is decided by how many other keys were used since

  /** What an operation was for the recency of its key. A get that misses and a ttl change are
      no use of the key. */
  datatype Use = Used(key: Key) | Removed(key: Key) | NoUse

  function UseOf(op: Op, items: seq<Item>): Use {
    match op
    case Get(k) => if HasKey(items, k) then Used(k) else NoUse
    case Set(k, _, _) => Used(k)
    case Delete(k) => Removed(k)
    case SetTtl(_, _) => NoUse
  }

  function Uses(cap: nat, ops: seq<Op>): (us: seq<Use>)
    ensures |us| == |ops|
    ensures forall i | 0 <= i < |ops| :: us[i] == UseOf(ops[i], Run(cap, ops[..i]))
  {
    seq(|ops|, i requires 0 <= i < |ops| => UseOf(ops[i], Run(cap, ops[..i])))
  }

  /** The other keys that were used since the last use of k and not deleted after that. */
  function Ahead(us: seq<Use>, k: Key): set<Key> {
    set j | 0 <= j < |us| && us[j].Used? &&
            (forall i | j <= i < |us| :: us[i] != Used(k) && us[i] != Removed(us[j].key)) :: us[j].key
  }

  /** The key was used and not deleted after its last use at t, and at no time since did `cap`
      other keys stand ahead of it. */
  ghost predicate Kept(us: seq<Use>, cap: nat, k: Key) {
    exists t :: KeptSince(us, cap, k, t)
  }

  ghost predicate KeptSince(us: seq<Use>, cap: nat, k: Key, t: int) {
    0 <= t < |us| && us[t] == Used(k) &&
    (forall i | t < i < |us| :: us[i] != Used(k) && us[i] != Removed(k)) &&
    (forall n | t < n <= |us| :: |Ahead(us[..n], k)| < cap)
  }

  lemma AheadStep(us: seq<Use>, u: Use, k: Key)
    ensures Ahead(us + [u], k) ==
            match u
            case Used(x) => if x == k then {} else Ahead(us, k) + {x}
            case Removed(x) => Ahead(us, k) - {x}
            case NoUse => Ahead(us, k)
  {
    var us' := us + [u];
    assert us'[|us|] == u && forall i | 0 <= i < |us| :: us'[i] == us[i];
    if u != Used(k) {
      forall x | x in Ahead(us, k) && u != Removed(x) ensures x in Ahead(us', k) {
        var j :| 0 <= j < |us| && us[j] == Used(x) && forall i | j <= i < |us| :: us[i] != Used(k) && us[i] != Removed(x);
        assert us'[j] == Used(x);
      }
      if u.Used? {
        assert us'[|us|] == Used(u.key);
      }
    }
  }

  lemma KeptStep(us: seq<Use>, u: Use, cap: nat, k: Key)
    ensures Kept(us + [u], cap, k) <==>
            if u == Used(k) then cap > 0 else u != Removed(k) && Kept(us, cap, k) && |Ahead(us + [u], k)| < cap
  {
    var us' := us + [u];
    assert us'[..|us'|] == us';
    assert forall n | 0 <= n <= |us| :: us'[..n] == us[..n];
    AheadStep(us, u, k);
    if u == Used(k) {
      if cap > 0 {
        assert KeptSince(us', cap, k, |us|);
      }
    } else {
      forall t ensures KeptSince(us', cap, k, t) <==> u != Removed(k) && KeptSince(us, cap, k, t) && |Ahead(us', k)| < cap {
        KeptSinceStep(us, u, cap, k, t);
      }
    }
  }

  lemma KeptSinceStep(us: seq<Use>, u: Use, cap: nat, k: Key, t: int)
    requires u != Used(k)
    ensures KeptSince(us + [u], cap, k, t) <==>
            u != Removed(k) && KeptSince(us, cap, k, t) && |Ahead(us + [u], k)| < cap
  {
    hide Ahead;
    var us' := us + [u];
    assert us'[|us|] == u && forall i | 0 <= i < |us| :: us'[i] == us[i];
    assert us'[..|us'|] == us' && forall n | 0 <= n <= |us| :: us'[..n] == us[..n];
  }

  function Keys(items: seq<Item>): (ks: seq<Key>)
    ensures |ks| == |items|
    ensures forall k :: k in ks <==> HasKey(items, k)
    ensures DistinctKeys(items) <==> Distinct(ks)
  {
    var ks := seq(|items|, i requires 0 <= i < |items| => items[i].key);
    assert forall i | 0 <= i < |items| :: ks[i] == items[i].key;
    ks
  }

  /** What holds the proof together: each resident is preceded by exactly the keys that are
      ahead of it, and the residents are the keys that were kept. */
  ghost predicate RecencyOrdered(ks: seq<Key>, cap: nat, us: seq<Use>) {
    Distinct(ks) && |ks| <= cap &&
    (forall i | 0 <= i < |ks| :: Ahead(us, ks[i]) == Elements(ks[..i])) &&
    (forall k :: k in ks <==> Kept(us, cap, k))
  }

  lemma MoveToFrontAt<T>(s: seq<T>, p: nat, j: nat)
    requires p < |s| && j < |s|
    ensures MoveToFront(s, p)[j] == if j == 0 then s[p] else if j <= p then s[j - 1] else s[j]
  {
  }

  lemma MoveToFrontPermutes(ks: seq<Key>, p: nat)
    requires Distinct(ks) && p < |ks|
    ensures Distinct(MoveToFront(ks, p)) && Elements(MoveToFront(ks, p)) == Elements(ks)
  {
    var ks' := MoveToFront(ks, p);
    forall i | 0 <= i < |ks| ensures ks[i] in ks' {
      assert ks'[if i < p then i + 1 else if i == p then 0 else i] == ks[i];
    }
  }

  lemma MovedToFront(ks: seq<Key>, p: nat, j: nat)
    requires Distinct(ks) && p < |ks| && j < |ks|
    ensures Elements(MoveToFront(ks, p)[..j]) ==
            if j == 0 then {} else if j <= p then {ks[p]} + Elements(ks[..j - 1]) else Elements(ks[..j])
  {
    var t := MoveToFront(ks, p)[..j];
    forall i | 0 <= i < j ensures t[i] == if i == 0 then ks[p] else if i <= p then ks[i - 1] else ks[i] {
      MoveToFrontAt(ks, p, i);
    }
    if p < j {
      var u := ks[..j];
      assert forall i | 0 <= i < j :: u[i] == t[if i < p then i + 1 else if i == p then 0 else i];
      assert forall i | 0 <= i < j :: t[i] == u[if i == 0 then p else if i <= p then i - 1 else i];
      SameElements(t, u);
    } else if j > 0 {
      assert t == [ks[p]] + ks[..j - 1];
    }
  }

  lemma SameElements<T>(s: seq<T>, t: seq<T>)
    requires (forall i | 0 <= i < |s| :: s[i] in t) && (forall i | 0 <= i < |t| :: t[i] in s)
    ensures Elements(s) == Elements(t)
  {
  }

  /** Using a resident key. */
  lemma TouchKeepsRecency(ks: seq<Key>, cap: nat, us: seq<Use>, p: nat)
    requires RecencyOrdered(ks, cap, us) && p < |ks|
    ensures RecencyOrdered(MoveToFront(ks, p), cap, us + [Used(ks[p])])
  {
    hide Ahead, Kept;
    var ks', us' := MoveToFront(ks, p), us + [Used(ks[p])];
    MoveToFrontPermutes(ks, p);
    forall j | 0 <= j < |ks'| ensures Ahead(us', ks'[j]) == Elements(ks'[..j]) {
      MovedToFront(ks, p, j);
      MoveToFrontAt(ks, p, j);
      AheadStep(us, Used(ks[p]), ks'[j]);
      if j > p {
        assert ks[..j][p] == ks[p];
      }
    }
    forall k ensures k in ks' <==> Kept(us', cap, k) {
      KeptStep(us, Used(ks[p]), cap, k);
      assert Elements(ks') == Elements(ks) && (k in ks' <==> k in Elements(ks'));
      if k in ks' {
        AheadSize(ks', us', k);
      }
    }
  }

  /** Fewer keys are ahead of a listed one than the list has. */
  lemma AheadSize(ks: seq<Key>, us: seq<Use>, k: Key)
    requires Distinct(ks) && (forall i | 0 <= i < |ks| :: Ahead(us, ks[i]) == Elements(ks[..i])) && k in ks
    ensures |Ahead(us, k)| < |ks|
  {
    var i :| 0 <= i < |ks| && ks[i] == k;
    ElementsSize(ks[..i]);
  }

  /** Using a key that is not resident, with or without an eviction. */
  lemma InsertKeepsRecency(ks: seq<Key>, cap: nat, us: seq<Use>, x: Key)
    requires RecencyOrdered(ks, cap, us) && x !in ks
    ensures RecencyOrdered(if |ks| < cap then [x] + ks else ([x] + ks)[..|ks|], cap, us + [Used(x)])
  {
    hide Ahead, Kept;
    var longer, us' := [x] + ks, us + [Used(x)];
    forall j | 0 <= j < |longer| ensures Ahead(us', longer[j]) == Elements(longer[..j]) {
      AheadStep(us, Used(x), longer[j]);
      if 0 < j {
        assert longer[..j] == [x] + ks[..j - 1];
      }
    }
    var ks' := if |ks| < cap then longer else longer[..|ks|];
    assert forall j | 0 <= j < |ks'| :: ks'[j] == longer[j] && ks'[..j] == longer[..j];
    forall k ensures k in ks' <==> Kept(us', cap, k) {
      KeptStep(us, Used(x), cap, k);
      if k == x {
        assert |ks'| > 0 ==> ks'[0] == x;
      } else if k in ks {
        var i :| 0 <= i < |ks| && ks[i] == k;
        assert longer[i + 1] == k;
        ElementsSize(longer[..i + 1]);
        assert i + 1 < |ks'| ==> ks'[i + 1] == k;
      }
    }
  }

  /** Deleting a resident key. */
  lemma DeleteKeepsRecency(ks: seq<Key>, cap: nat, us: seq<Use>, p: nat)
    requires RecencyOrdered(ks, cap, us) && p < |ks|
    ensures RecencyOrdered(RemoveAt(ks, p), cap, us + [Removed(ks[p])])
  {
    hide Ahead, Kept;
    var ks', us' := RemoveAt(ks, p), us + [Removed(ks[p])];
    forall j | 0 <= j < |ks'| ensures ks'[j] != ks[p] && Ahead(us', ks'[j]) == Elements(ks'[..j]) {
      var i := if j < p then j else j + 1;
      RemoveAtAt(ks, p, j);
      AheadStep(us, Removed(ks[p]), ks[i]);
      if j < p {
        assert ks'[..j] == ks[..j];
      } else {
        assert ks[..i] == ks[..p] + [ks[p]] + ks[p + 1..i];
        assert ks'[..j] == ks[..p] + ks[p + 1..i];
        assert Elements(ks[..i]) == Elements(ks'[..j]) + {ks[p]};
        assert forall m | 0 <= m < j :: ks'[..j][m] == ks[if m < p then m else m + 1];
        assert ks[p] !in ks'[..j];
      }
    }
    forall k ensures k in ks' <==> Kept(us', cap, k) {
      KeptStep(us, Removed(ks[p]), cap, k);
      if k in ks && k != ks[p] {
        var i :| 0 <= i < |ks| && ks[i] == k;
        assert ks'[if i < p then i else i - 1] == k;
        AheadSize(ks', us', k);
      }
    }
  }

  /** A step that changes nothing: no use, or the delete of a key that is not resident. */
  lemma OtherKeepsRecency(ks: seq<Key>, cap: nat, us: seq<Use>, u: Use)
    requires RecencyOrdered(ks, cap, us)
    requires u.NoUse? || (u.Removed? && u.key !in ks)
    ensures RecencyOrdered(ks, cap, us + [u])
  {
    hide Ahead, Kept;
    forall i | 0 <= i < |ks| ensures Ahead(us + [u], ks[i]) == Elements(ks[..i]) {
      AheadStep(us, u, ks[i]);
    }
    forall k ensures k in ks <==> Kept(us + [u], cap, k) {
      KeptStep(us, u, cap, k);
      if k in ks {
        AheadSize(ks, us + [u], k);
      }
    }
  }

  lemma UsesStep(cap: nat, ops: seq<Op>)
    requires ops != []
    ensures var n := |ops| - 1; Uses(cap, ops) == Uses(cap, ops[..n]) + [UseOf(ops[n], Run(cap, ops[..n]))]
  {
    var n := |ops| - 1;
    assert forall i | 0 <= i < n :: ops[..n][..i] == ops[..i];
  }

  lemma StepKeepsRecency(items: seq<Item>, cap: nat, us: seq<Use>, op: Op)
    requires RecencyOrdered(Keys(items), cap, us)
    ensures RecencyOrdered(Keys(Apply(items, cap, op)), cap, us + [UseOf(op, items)])
  {
    hide RecencyOrdered;
    RecencyBounds(Keys(items), cap, us);
    var ks := Keys(items);
    var present := HasKey(items, op.k);
    var p := Find(items, op.k);
    match op
    case Get(k) =>
      if present {
        TouchKeepsRecency(ks, cap, us, p);
        KeysMoveToFront(items, p, items[p]);
      } else {
        OtherKeepsRecency(ks, cap, us, NoUse);
      }
    case Set(k, v, e) =>
      if present {
        TouchKeepsRecency(ks, cap, us, p);
        KeysMoveToFront(items, p, Item(k, v, e));
      } else {
        InsertKeepsRecency(ks, cap, us, k);
        KeysPut(items, cap, Item(k, v, e));
      }
    case Delete(k) =>
      if present {
        DeleteKeepsRecency(ks, cap, us, p);
        assert Keys(RemoveAt(items, p)) == RemoveAt(ks, p);
      } else {
        OtherKeepsRecency(ks, cap, us, Removed(k));
      }
    case SetTtl(k, d) =>
      OtherKeepsRecency(ks, cap, us, NoUse);
      KeysRetime(items, k, d);
  }

  lemma RecencyBounds(ks: seq<Key>, cap: nat, us: seq<Use>)
    requires RecencyOrdered(ks, cap, us)
    ensures Distinct(ks) && |ks| <= cap
  {
  }

  lemma {:induction false} RunIsRecencyOrdered(cap: nat, ops: seq<Op>)
    ensures RecencyOrdered(Keys(Run(cap, ops)), cap, Uses(cap, ops))
  {
    if ops != [] {
      hide RecencyOrdered;
      var n := |ops| - 1;
      RunIsRecencyOrdered(cap, ops[..n]);
      StepKeepsRecency(Run(cap, ops[..n]), cap, Uses(cap, ops[..n]), ops[n]);
      UsesStep(cap, ops);
    }
  }

  lemma KeysMoveToFront(items: seq<Item>, p: nat, it: Item)
    requires p < |items| && it.key == items[p].key
    ensures Keys([it] + RemoveAt(items, p)) == MoveToFront(Keys(items), p)
  {
    var a, b := [it] + RemoveAt(items, p), MoveToFront(Keys(items), p);
    assert forall j | 0 <= j < |items| :: a[j].key == b[j];
  }

  lemma KeysPut(items: seq<Item>, cap: nat, it: Item)
    requires |items| <= cap && !HasKey(items, it.key)
    ensures Keys(Put(items, cap, it)) ==
            if |items| < cap then [it.key] + Keys(items) else ([it.key] + Keys(items))[..|items|]
  {
  }

  lemma KeysRetime(items: seq<Item>, k: Key, d: int)
    ensures Keys(Retime(items, k, d)) == Keys(items)
  {
  }

  /** In every run a key is resident if and only if it was used and not deleted since, and at
      no time since its last use did `cap` other keys, used later and not deleted, stand ahead
      of it. Without deletes the keys ahead only grow, so that their number at the end decides
      (ResidentWithoutDeletes). */
  lemma ResidentIffRecent(cap: nat, ops: seq<Op>, k: Key)
    ensures HasKey(Run(cap, ops), k) <==> Kept(Uses(cap, ops), cap, k)
  {
    hide Ahead, Kept;
    RunIsRecencyOrdered(cap, ops);
    assert k in Keys(Run(cap, ops)) <==> HasKey(Run(cap, ops), k);
  }

  lemma {:induction false} AheadGrows(us: seq<Use>, k: Key, t: nat, n: nat)
    requires t < n <= |us| && forall i | t < i < |us| :: us[i] != Used(k) && !us[i].Removed?
    ensures Ahead(us[..n], k) <= Ahead(us, k)
    decreases |us|
  {
    if n < |us| {
      var m := |us| - 1;
      AheadGrows(us[..m], k, t, n);
      assert us[..m][..n] == us[..n] && us == us[..m] + [us[m]];
      AheadStep(us[..m], us[m], k);
    } else {
      assert us[..n] == us;
    }
  }

  lemma {:induction false} LastUse(us: seq<Use>, k: Key) returns (t: nat)
    requires Used(k) in us
    ensures t < |us| && us[t] == Used(k) && forall i | t < i < |us| :: us[i] != Used(k)
  {
    var n := |us| - 1;
    if us[n] == Used(k) {
      t := n;
    } else {
      t := LastUse(us[..n], k);
    }
  }

  lemma KeptWithoutDeletes(us: seq<Use>, cap: nat, k: Key)
    requires forall i | 0 <= i < |us| :: !us[i].Removed?
    ensures Kept(us, cap, k) <==> Used(k) in us && |Ahead(us, k)| < cap
  {
    hide Ahead;
    assert us[..|us|] == us;
    if Kept(us, cap, k) {
      var t :| KeptSince(us, cap, k, t);
      assert us[t] in us;
    }
    if Used(k) in us && |Ahead(us, k)| < cap {
      var t := LastUse(us, k);
      forall n | t < n <= |us| ensures |Ahead(us[..n], k)| < cap {
        AheadGrows(us, k, t, n);
        SetShrinks(Ahead(us[..n], k), Ahead(us, k));
      }
      assert KeptSince(us, cap, k, t);
    }
  }

  /** When nothing was deleted, a key is resident exactly when fewer than `cap` other keys were
      used since it was last used. */
  lemma ResidentWithoutDeletes(cap: nat, ops: seq<Op>, k: Key)
    requires forall i | 0 <= i < |ops| :: !ops[i].Delete?
    ensures HasKey(Run(cap, ops), k) <==> Used(k) in Uses(cap, ops) && |Ahead(Uses(cap, ops), k)| < cap
  {
    hide Ahead, Kept, HasKey;
    ResidentIffRecent(cap, ops, k);
    KeptWithoutDeletes(Uses(cap, ops), cap, k);
  }
}
