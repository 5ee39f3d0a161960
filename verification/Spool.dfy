// The edge's bounded spool: HttpSink, whose locked sections are its methods.
module Spool {
  import opened Prelude

  // What one POST came back with. NoReply covers timeouts, resets and every raised exception.
  datatype Reply = Status(code: nat) | NoReply

  predicate PermanentRefusal(reply: Reply) {
    reply.Status? && 400 <= reply.code < 500 && reply.code != 408 && reply.code != 429
  }

  // The boolean the sink gets from its post function: delivered, or refused for good.
  predicate PostOk(reply: Reply) {
    reply.Status? && (reply.code < 300 || PermanentRefusal(reply))
  }

  class HttpSink<T> {
    const batchSize: int
    const maxAge: real
    const maxSpool: nat
    var buf: seq<T>
    var lastFlush: real
    var dropped: nat

    ghost predicate Valid() reads this { |buf| <= maxSpool }

    constructor (batchSize: int, maxAge: real, maxSpool: nat, now: real)
      ensures Valid() && buf == [] && dropped == 0 && lastFlush == now
      ensures this.batchSize == batchSize && this.maxAge == maxAge && this.maxSpool == maxSpool
    {
      this.batchSize, this.maxAge, this.maxSpool := batchSize, maxAge, maxSpool;
      buf, lastFlush, dropped := [], now, 0;
    }

    // Bounded spool: the oldest records go first, one count each.
    method DropOverflow()
      modifies this`buf, this`dropped
      ensures Valid() && buf == Newest(old(buf), maxSpool)
      ensures dropped == old(dropped) + |old(buf)| - |buf|
    {
      while |buf| > maxSpool
        invariant |buf| <= |old(buf)|
        invariant |buf| >= maxSpool || buf == old(buf)
        invariant buf == old(buf)[|old(buf)| - |buf|..]
        invariant dropped == old(dropped) + |old(buf)| - |buf|
      {
        buf := buf[1..];
        dropped := dropped + 1;
      }
    }

    // The locked section of insert; `due` asks the caller to flush.
    method Append(record: T, now: real) returns (due: bool)
      requires Valid()
      modifies this`buf, this`dropped
      ensures Valid() && buf == Newest(old(buf) + [record], maxSpool)
      ensures |old(buf)| < maxSpool ==> buf == old(buf) + [record]
      ensures |old(buf)| == maxSpool > 0 ==> buf == old(buf)[1..] + [record]
      ensures dropped == old(dropped) + (if |old(buf)| == maxSpool then 1 else 0)
      ensures due <==> |buf| >= batchSize || now - lastFlush >= maxAge
    {
      buf := buf + [record];
      DropOverflow();
      due := |buf| >= batchSize || now - lastFlush >= maxAge;
    }

    // The first locked section of flush: the whole buffer leaves before the POST starts.
    method Take(now: real) returns (batch: seq<T>)
      modifies this`buf, this`lastFlush
      ensures batch == old(buf) && buf == [] && lastFlush == now
    {
      if buf == [] {
        lastFlush := now;
        return [];
      }
      batch := buf;
      buf := [];
      lastFlush := now;
    }

    // The second locked section of flush: a batch that was not accepted goes back to the front, unless the answer
    // is a client error that trying again would not cure.
    method Settle(batch: seq<T>, reply: Reply)
      requires Valid()
      modifies this`buf, this`dropped
      ensures Valid()
      ensures PostOk(reply) <==>
                reply.Status? && (reply.code < 300 || (400 <= reply.code < 500 && reply.code !in {408, 429}))
      ensures PostOk(reply) ==> buf == old(buf) && dropped == old(dropped)
      ensures !PostOk(reply) ==> buf == Newest(batch + old(buf), maxSpool)
      ensures !PostOk(reply) ==> dropped == old(dropped) + |batch| + |old(buf)| - |buf|
    {
      if !PostOk(reply) {
        buf := batch + buf;
        DropOverflow();
      }
    }

    // One uninterrupted flush: without concurrent inserts a failed POST leaves the spool as it was.
    method Flush(now: real, reply: Reply) returns (posted: seq<T>)
      requires Valid()
      modifies this
      ensures Valid() && posted == old(buf) && lastFlush == now && dropped == old(dropped)
      ensures reply.Status? && (reply.code < 300 || (400 <= reply.code < 500 && reply.code !in {408, 429})) ==>
                buf == []
      ensures reply == NoReply || 300 <= reply.code < 400 || reply.code >= 500 || reply.code in {408, 429} ==>
                buf == old(buf)
    {
      posted := Take(now);
      if posted != [] {
        Settle(posted, reply);
      }
    }
  }
}
