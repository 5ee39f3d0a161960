// What the cache keys are hashed from. The digest is taken as injective, so a key stands for its bytes:
// the raw body, then three UTF-8 fields (tenant, actor and route at the gateway; host, path and actor at
// the forward proxy), each after a NUL.
module CacheKeys {
  import opened Prelude
  import opened ExactCache

  datatype Request = Request(body: bytes, a: bytes, b: bytes, c: bytes)

  function KeyBytes(q: Request): bytes {
    q.body + [0] + q.a + [0] + q.b + [0] + q.c
  }

  predicate NulFree(q: Request) {
    0 !in q.a && 0 !in q.b && 0 !in q.c
  }

  lemma LastNulUnique(x: bytes, y: bytes, x': bytes, y': bytes)
    requires 0 !in y && 0 !in y'
    requires x + [0] + y == x' + [0] + y'
    ensures x == x' && y == y'
  {
    var s, s' := x + [0] + y, x' + [0] + y';
    assert s[|x|] == 0 && s'[|x'|] == 0;
    assert forall k :: |x| < k < |s| ==> s[k] == y[k - |x| - 1];
    assert forall k :: |x'| < k < |s'| ==> s'[k] == y'[k - |x'| - 1];
    assert |x| == |x'|;
    assert s[..|x|] == x && s'[..|x'|] == x';
    assert s[|x| + 1..] == y && s'[|x'| + 1..] == y';
  }

  // Distinct requests hash distinct bytes, whatever their bodies contain, when the fields have no NUL.
  lemma KeyBytesInjective(q: Request, r: Request)
    requires NulFree(q) && NulFree(r) && KeyBytes(q) == KeyBytes(r)
    ensures q == r
  {
    LastNulUnique(q.body + [0] + q.a + [0] + q.b, q.c, r.body + [0] + r.a + [0] + r.b, r.c);
    LastNulUnique(q.body + [0] + q.a, q.b, r.body + [0] + r.a, r.b);
    LastNulUnique(q.body, q.a, r.body, r.a);
  }

  // The split of s at its last NUL; at is the position of some NUL.
  lemma {:induction false} SplitLast(s: bytes, at: nat) returns (x: bytes, y: bytes)
    requires at < |s| && s[at] == 0
    ensures s == x + [0] + y && 0 !in y && |x| >= at
  {
    var n := |s| - 1;
    if s[n] == 0 {
      return s[..n], [];
    }
    x, y := SplitLast(s[..n], at);
    y := y + [s[n]];
  }

  // And only then: the bytes of a request with a NUL in a field are also those of another, NUL-free one.
  lemma NulFreeIffUnambiguous(q: Request)
    ensures NulFree(q) <==> forall r :: NulFree(r) && KeyBytes(r) == KeyBytes(q) ==> r == q
  {
    if NulFree(q) {
      forall r | NulFree(r) && KeyBytes(r) == KeyBytes(q) ensures r == q { KeyBytesInjective(r, q); }
    } else {
      var i, j := |q.body|, |q.body + [0] + q.a|;
      var k := |q.body + [0] + q.a + [0] + q.b|;
      var s := KeyBytes(q);
      var x, c := SplitLast(s, k);
      assert x[j] == s[j] == 0;
      var y, b := SplitLast(x, j);
      assert y[i] == s[i] == 0;
      var body, a := SplitLast(y, i);
      var r := Request(body, a, b, c);
      assert NulFree(r) && KeyBytes(r) == s;
    }
  }

  function Keyed<V>(ops: seq<Op<Request, V>>): (r: seq<Op<bytes, V>>)
    ensures |r| == |ops|
    ensures forall i :: 0 <= i < |ops| ==> r[i].now == ops[i].now
  {
    if ops == [] then []
    else
      var op := ops[|ops| - 1];
      Keyed(ops[..|ops| - 1])
      + [match op
         case Put(q, v, now, ttl) => Put(KeyBytes(q), v, now, ttl)
         case Get(q, now) => Get(KeyBytes(q), now)]
  }

  lemma {:induction false} LastPutKeyed<V>(ops: seq<Op<Request, V>>, q: Request)
    requires NulFree(q) && forall i :: 0 <= i < |ops| ==> NulFree(ops[i].k)
    ensures LastPut(Keyed(ops), KeyBytes(q)) == LastPut(ops, q)
  {
    if ops != [] {
      var n := |ops| - 1;
      LastPutKeyed(ops[..n], q);
      assert Keyed(ops)[..n] == Keyed(ops[..n]);
      if ops[n].Put? && KeyBytes(ops[n].k) == KeyBytes(q) { KeyBytesInjective(ops[n].k, q); }
    }
  }

  // A developer is only ever served their own identical repeat: a hit on the byte-keyed cache is the last
  // unexpired value stored for the same body, tenant, actor and route.
  lemma HitServesOwnRepeat<V>(ops: seq<Op<Request, V>>, max: nat, q: Request, now: real)
    requires ClockForward(ops) && NulFree(q) && forall i :: 0 <= i < |ops| ==> NulFree(ops[i].k)
    requires Lookup(Run(Keyed(ops), max), KeyBytes(q), now).1.Some?
    ensures LastPut(ops, q).Some? && now <= LastPut(ops, q).value.expires
    ensures LastPut(ops, q).value.value == Lookup(Run(Keyed(ops), max), KeyBytes(q), now).1.value
  {
    HitIsLastStored(Keyed(ops), max, KeyBytes(q), now);
    LastPutKeyed(ops, q);
  }
}
