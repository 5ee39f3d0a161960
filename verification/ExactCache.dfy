// The exact-match response caches: an OrderedDict with a time to live, evicting the least recently
// touched key. The gateway and the forward proxy differ only in capacity and in what a key is made of.
module ExactCache {
  import opened Prelude

  datatype Entry<V> = Entry(expires: real, value: V)

  // An OrderedDict: its keys, oldest first, and what they map to.
  datatype Lru<K(!new), V> = Lru(order: seq<K>, data: map<K, Entry<V>>)

  function Not<K(==)>(k: K): K -> bool { x => x != k }

  function Drop<K(==, !new)>(order: seq<K>, k: K): (r: seq<K>)
    ensures |r| <= |order|
    ensures forall x :: x in r <==> x in order && x != k
  {
    Filter(order, Not(k))
  }

  function Lookup<K(!new), V>(c: Lru<K, V>, k: K, now: real): (Lru<K, V>, Option<V>) {
    if k !in c.data then (c, None)
    else if now > c.data[k].expires then (Lru(Drop(c.order, k), c.data - {k}), None)
    else (c.(order := Drop(c.order, k) + [k]), Some(c.data[k].value))
  }

  function Stored<K(!new), V>(c: Lru<K, V>, k: K, e: Entry<V>, max: nat): Lru<K, V> {
    var kept := Newest(Drop(c.order, k) + [k], max);
    var data := c.data[k := e];
    Lru(kept, map x | x in data && x in kept :: data[x])
  }

  class Cache<K(!new, ==), V> {
    const max: nat
    var order: seq<K>
    var data: map<K, Entry<V>>

    function State(): Lru<K, V> reads this { Lru(order, data) }

    ghost predicate Valid() reads this {
      |order| <= max && Distinct(order) && forall k :: k in order <==> k in data
    }

    constructor (max: nat)
      ensures Valid() && this.max == max && State() == Lru([], map[])
    {
      this.max, order, data := max, [], map[];
    }

    method Get(k: K, now: real) returns (hit: Option<V>)
      requires Valid()
      modifies this
      ensures Valid() && (State(), hit) == Lookup(old(State()), k, now)
      ensures hit.Some? <==> k in old(data) && now <= old(data)[k].expires
      ensures hit.Some? ==> hit.value == old(data)[k].value && data == old(data) && order[|order| - 1] == k
      ensures hit == None ==> data == old(data) - {k}
    {
      DropDistinct(order, k);
      if k !in data {
        return None;
      }
      var e := data[k];
      if now > e.expires {
        order, data := Drop(order, k), data - {k};
        return None;
      }
      order := Drop(order, k) + [k];
      hit := Some(e.value);
    }

    // popitem(last=False) until the capacity holds.
    method EvictOldest()
      requires Distinct(order) && forall k :: k in order <==> k in data
      modifies this
      ensures Valid() && order == Newest(old(order), max)
      ensures data == map x | x in old(data) && x in order :: old(data)[x]
    {
      ghost var order0, data0, cut := order, data, 0;
      while |order| > max
        invariant 0 <= cut <= |order0| && order == order0[cut..]
        invariant cut > 0 ==> |order| >= max
        invariant Distinct(order)
        invariant forall k :: k in order <==> k in data
        invariant forall k :: k in data ==> k in data0 && data[k] == data0[k]
      {
        PopFirst(order);
        assert order[1..] == order0[cut + 1..];
        data := data - {order[0]};
        order := order[1..];
        cut := cut + 1;
      }
    }

    method Put(k: K, value: V, now: real, ttl: real)
      requires Valid()
      modifies this
      ensures Valid() && State() == Stored(old(State()), k, Entry(now + ttl, value), max)
      ensures max > 0 ==> k in data && data[k] == Entry(now + ttl, value) && order[|order| - 1] == k
      ensures forall x :: x in data && x != k ==> x in old(data) && data[x] == old(data)[x]
    {
      DropDistinct(order, k);
      data := data[k := Entry(now + ttl, value)];
      order := Drop(order, k) + [k];
      EvictOldest();
      assert max > 0 ==> order[|order| - 1] == k && k in order;
    }
  }

  lemma PopFirst<K(!new)>(order: seq<K>)
    requires order != [] && Distinct(order)
    ensures Distinct(order[1..]) && forall k :: k in order[1..] <==> k in order && k != order[0]
  {
    assert order == [order[0]] + order[1..];
  }

  lemma {:induction false} DropDistinct<K(!new)>(order: seq<K>, k: K)
    requires Distinct(order)
    ensures Distinct(Drop(order, k))
    ensures k in order ==> |Drop(order, k)| == |order| - 1
  {
    if order != [] {
      DropDistinct(order[1..], k);
      assert order[0] !in order[1..];
      if order[0] == k { DropAbsent(order[1..], k); }
    }
  }

  lemma {:induction false} DropAbsent<K(!new)>(order: seq<K>, k: K)
    requires k !in order
    ensures Drop(order, k) == order
  {
    if order != [] { DropAbsent(order[1..], k); }
  }

  // ----- whole runs -----

  datatype Op<K, V> = Put(k: K, value: V, now: real, ttl: real) | Get(k: K, now: real)

  function Run<K(!new, ==), V>(ops: seq<Op<K, V>>, max: nat): Lru<K, V> {
    if ops == [] then Lru([], map[])
    else
      var c := Run(ops[..|ops| - 1], max);
      match ops[|ops| - 1]
      case Put(k, v, now, ttl) => Stored(c, k, Entry(now + ttl, v), max)
      case Get(k, now) => Lookup(c, k, now).0
  }

  // The unbounded map with expiry: what was stored last under k.
  function LastPut<K(==), V>(ops: seq<Op<K, V>>, k: K): Option<Entry<V>> {
    if ops == [] then None
    else
      var op := ops[|ops| - 1];
      if op.Put? && op.k == k then Some(Entry(op.now + op.ttl, op.value)) else LastPut(ops[..|ops| - 1], k)
  }

  // The keys stored or hit, in order of time.
  function Touches<K(!new, ==), V>(ops: seq<Op<K, V>>, max: nat): seq<K> {
    if ops == [] then []
    else
      var before := ops[..|ops| - 1];
      match ops[|ops| - 1]
      case Put(k, _, _, _) => Touches(before, max) + [k]
      case Get(k, now) => Touches(before, max) + (if Lookup(Run(before, max), k, now).1.Some? then [k] else [])
  }

  // The distinct other keys touched since k was last touched.
  function Since<K(==)>(touches: seq<K>, k: K): (r: set<K>)
    ensures k !in r
  {
    if touches == [] || touches[|touches| - 1] == k then {}
    else Since(touches[..|touches| - 1], k) + {touches[|touches| - 1]}
  }

  ghost predicate ClockForward<K, V>(ops: seq<Op<K, V>>) {
    forall i, j :: 0 <= i < j < |ops| ==> ops[i].now <= ops[j].now
  }

  // Every key was touched before all the keys that follow it in the list.
  predicate Recency<K(==)>(order: seq<K>, touches: seq<K>) {
    order == [] ||
    ((forall y :: y in order[1..] ==> y in Since(touches, order[0])) && Recency(order[1..], touches))
  }

  lemma {:induction false} RecencyDistinct<K>(order: seq<K>, touches: seq<K>)
    requires Recency(order, touches)
    ensures Distinct(order) && |set x | x in order| == |order|
  {
    if order != [] {
      RecencyDistinct(order[1..], touches);
      assert order == [order[0]] + order[1..];
      assert (set x | x in order) == {order[0]} + set x | x in order[1..];
    }
  }

  lemma {:induction false} RecencyNewest<K>(order: seq<K>, touches: seq<K>, max: nat)
    requires Recency(order, touches)
    ensures Recency(Newest(order, max), touches)
  {
    if |order| > max {
      RecencyNewest(order[1..], touches, max);
      assert Newest(order, max) == Newest(order[1..], max);
    }
  }

  lemma {:induction false} RecencyDrop<K(!new)>(order: seq<K>, touches: seq<K>, k: K)
    requires Recency(order, touches)
    ensures Recency(Drop(order, k), touches)
  {
    if order != [] {
      RecencyDrop(order[1..], touches, k);
      var rest := Drop(order[1..], k);
      if order[0] != k { assert Drop(order, k)[1..] == rest; } else { assert Drop(order, k) == rest; }
    }
  }

  lemma {:induction false} RecencyTouch<K(!new)>(order: seq<K>, touches: seq<K>, k: K)
    requires Recency(order, touches) && k !in order
    ensures Recency(order + [k], touches + [k])
  {
    assert (touches + [k])[..|touches|] == touches;
    if order != [] {
      RecencyTouch(order[1..], touches, k);
      assert (order + [k])[1..] == order[1..] + [k];
    } else {
      assert ([] + [k])[1..] == [];
    }
  }

  // What ties the bounded cache to the history: contents, order, and why a stored key is absent.
  ghost predicate Tied<K(!new), V>(ops: seq<Op<K, V>>, max: nat, clock: real) {
    var c := Run(ops, max);
    && |c.order| <= max
    && (forall k :: k in c.order <==> k in c.data)
    && Recency(c.order, Touches(ops, max))
    && (forall k :: k in c.data ==> LastPut(ops, k) == Some(c.data[k]))
    && (forall k :: k !in c.data ==> ExcusedAbsent(ops, max, k, clock))
  }

  ghost predicate ExcusedAbsent<K(!new), V>(ops: seq<Op<K, V>>, max: nat, k: K, clock: real) {
    || LastPut(ops, k) == None
    || clock > LastPut(ops, k).value.expires
    || |Since(Touches(ops, max), k)| >= max
  }

  lemma SinceGrows<K>(touches: seq<K>, x: K, k: K)
    requires k != x
    ensures Since(touches + [x], k) == Since(touches, k) + {x}
    ensures |Since(touches + [x], k)| >= |Since(touches, k)|
  {
    assert (touches + [x])[..|touches|] == touches;
    Grow(Since(touches, k), x);
  }

  lemma Grow<K>(s: set<K>, x: K)
    ensures |s + {x}| >= |s|
  {
    if x in s { assert s + {x} == s; }
  }

  // The key that falls out of a full list was followed by max others.
  lemma EvictedIsExcused<K(!new)>(order: seq<K>, touches: seq<K>, max: nat, k: K)
    requires Recency(order, touches) && |order| <= max + 1
    requires k in order && k !in Newest(order, max)
    ensures |Since(touches, k)| >= max
  {
    assert |order| == max + 1 && order == [order[0]] + order[1..];
    assert k == order[0];
    RecencyDistinct(order[1..], touches);
    var rest := set x | x in order[1..];
    assert rest <= Since(touches, k);
    assert |rest| == max;
    SubsetSmaller(rest, Since(touches, k));
  }

  lemma TiedPut<K(!new), V>(ops: seq<Op<K, V>>, op: Op<K, V>, max: nat)
    requires op.Put? && Tied(ops, max, op.now)
    ensures Tied(ops + [op], max, op.now)
  {
    hide Drop, Newest, Recency, Since, Distinct, ExcusedAbsent;
    var ops' := ops + [op];
    assert ops'[..|ops|] == ops;
    var c, c', touches := Run(ops, max), Run(ops', max), Touches(ops, max);
    var order := Drop(c.order, op.k) + [op.k];
    RecencyDistinct(c.order, touches);
    DropDistinct(c.order, op.k);
    DropAbsent'(c.order, op.k);
    RecencyDrop(c.order, touches, op.k);
    RecencyTouch(Drop(c.order, op.k), touches, op.k);
    RecencyNewest(order, touches + [op.k], max);
    NewestIn(order, max);
    forall k | k !in c'.data
      ensures ExcusedAbsent(ops', max, k, op.now)
    {
      if k in order { EvictedIsExcused(order, touches + [op.k], max, k); }
      PutExcuses(ops, op, max, k);
    }
  }

  // After a put an absent key stays excused: by its eviction, or by what excused it before.
  lemma PutExcuses<K(!new), V>(ops: seq<Op<K, V>>, op: Op<K, V>, max: nat, k: K)
    requires op.Put?
    requires |Since(Touches(ops, max) + [op.k], k)| >= max || (k != op.k && ExcusedAbsent(ops, max, k, op.now))
    ensures ExcusedAbsent(ops + [op], max, k, op.now)
  {
    hide Since;
    assert (ops + [op])[..|ops|] == ops;
    if k != op.k { SinceGrows(Touches(ops, max), op.k, k); }
  }

  lemma NewestIn<K(!new)>(order: seq<K>, max: nat)
    ensures |Newest(order, max)| <= max && forall k :: k in Newest(order, max) ==> k in order
  {
  }

  lemma DropAbsent'<K(!new)>(order: seq<K>, k: K)
    ensures k !in order ==> Drop(order, k) == order
  {
    if k !in order { DropAbsent(order, k); }
  }

  lemma {:induction false} TiedHit<K(!new), V>(ops: seq<Op<K, V>>, op: Op<K, V>, max: nat)
    requires op.Get? && Tied(ops, max, op.now) && Lookup(Run(ops, max), op.k, op.now).1.Some?
    ensures Tied(ops + [op], max, op.now)
  {
    var ops' := ops + [op];
    assert ops'[..|ops|] == ops;
    var c, touches := Run(ops, max), Touches(ops, max);
    RecencyDistinct(c.order, touches);
    DropDistinct(c.order, op.k);
    RecencyDrop(c.order, touches, op.k);
    RecencyTouch(Drop(c.order, op.k), touches, op.k);
    forall k | k !in Run(ops', max).data
      ensures ExcusedAbsent(ops', max, k, op.now)
    {
      assert ExcusedAbsent(ops, max, k, op.now);
      SinceGrows(touches, op.k, k);
    }
  }

  lemma TiedMiss<K(!new), V>(ops: seq<Op<K, V>>, op: Op<K, V>, max: nat)
    requires op.Get? && Tied(ops, max, op.now) && Lookup(Run(ops, max), op.k, op.now).1 == None
    ensures Tied(ops + [op], max, op.now)
  {
    hide Drop, Recency, Since, ExcusedAbsent;
    var ops' := ops + [op];
    assert ops'[..|ops|] == ops;
    var c, touches := Run(ops, max), Touches(ops, max);
    RecencyDrop(c.order, touches, op.k);
    assert Touches(ops', max) == touches + [] == touches;
    forall k | k !in Run(ops', max).data
      ensures ExcusedAbsent(ops', max, k, op.now)
    {
      assert k !in c.data || (k == op.k && op.now > c.data[k].expires);
      MissExcuses(ops, op, max, k);
    }
  }

  // After a miss an absent key stays excused: by what excused it before, or because it expired just now.
  lemma MissExcuses<K(!new), V>(ops: seq<Op<K, V>>, op: Op<K, V>, max: nat, k: K)
    requires op.Get? && Touches(ops + [op], max) == Touches(ops, max)
    requires ExcusedAbsent(ops, max, k, op.now)
          || (LastPut(ops, k).Some? && op.now > LastPut(ops, k).value.expires)
    ensures ExcusedAbsent(ops + [op], max, k, op.now)
  {
    hide Since, Touches;
    assert (ops + [op])[..|ops|] == ops;
  }

  lemma TiedLater<K(!new), V>(ops: seq<Op<K, V>>, max: nat, clock: real, now: real)
    requires Tied(ops, max, clock) && clock <= now
    ensures Tied(ops, max, now)
  {
    forall k | k !in Run(ops, max).data
      ensures ExcusedAbsent(ops, max, k, now)
    {
      assert ExcusedAbsent(ops, max, k, clock);
    }
  }

  lemma {:induction false} RunIsTied<K(!new), V>(ops: seq<Op<K, V>>, max: nat, now: real)
    requires ClockForward(ops) && (ops != [] ==> ops[|ops| - 1].now <= now)
    ensures Tied(ops, max, now)
  {
    hide Tied, Lookup, Run;
    if ops == [] {
      NothingTied<K, V>(max, now);
    } else {
      var before, op := ops[..|ops| - 1], ops[|ops| - 1];
      RunIsTied(before, max, op.now);
      assert before + [op] == ops;
      if op.Put? {
        TiedPut(before, op, max);
      } else if Lookup(Run(before, max), op.k, op.now).1.Some? {
        TiedHit(before, op, max);
      } else {
        TiedMiss(before, op, max);
      }
      TiedLater(ops, max, op.now, now);
    }
  }

  lemma NothingTied<K(!new), V>(max: nat, now: real)
    ensures Tied<K, V>([], max, now)
  {
  }

  // A hit, in any run, is the value stored last under that key, and it has not expired.
  lemma {:induction false} HitIsLastStored<K(!new), V>(ops: seq<Op<K, V>>, max: nat, k: K, now: real)
    requires ClockForward(ops) && Lookup(Run(ops, max), k, now).1.Some?
    ensures LastPut(ops, k).Some?
    ensures LastPut(ops, k).value.value == Lookup(Run(ops, max), k, now).1.value
    ensures now <= LastPut(ops, k).value.expires
  {
    if ops != [] { RunIsTied(ops, max, ops[|ops| - 1].now); }
  }

  // A miss means the key was never stored, its last value expired, or at least max distinct other keys
  // were stored or hit since it was last touched. The bound on the size holds throughout.
  lemma {:induction false} MissIsExcused<K(!new), V>(ops: seq<Op<K, V>>, max: nat, k: K, now: real)
    requires ClockForward(ops) && (ops != [] ==> ops[|ops| - 1].now <= now)
    ensures |Run(ops, max).order| <= max
    ensures Lookup(Run(ops, max), k, now).1 == None ==> ExcusedAbsent(ops, max, k, now)
  {
    RunIsTied(ops, max, now);
  }
}
