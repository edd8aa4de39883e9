/**
 `cert/rotate` run without interruption: the handler fills a FIFO queue that ends in a `None`
 sentinel, and the request generator drains it up to the sentinel.
 */
module RotateQueue {
  import opened Wrappers

  datatype RotateRequest = LoadCertificate | FinalizeRotation

  type Item = Option<RotateRequest>

  /** The response stream as the handler meets it: how many responses, and how it ends. */
  datatype Stream = Stream(responses: nat, error: Option<nat>)

  class SendQueue {
    var items: seq<Item>

    constructor ()
      ensures items == []
    {
      items := [];
    }

    method Put(item: Item)
      modifies this
      ensures items == old(items) + [item]
    {
      items := items + [item];
    }

    /** `get` blocks on an empty queue, so it returns only when there is an item. */
    method Get() returns (item: Item)
      requires items != []
      modifies this
      ensures item == old(items)[0] && items == old(items)[1..]
    {
      item := items[0];
      items := items[1..];
    }
  }

  /** Everything one run of the handler puts into the queue. */
  function Puts(stream: Stream): seq<Item> {
    [Some(LoadCertificate)]
    + (if stream.responses > 0 then [Some(FinalizeRotation), None] else [])
    + (if stream.responses == 0 || stream.error.Some? then [None] else [])
  }

  /** The handler: load, wait for one response, finalize and close, then drain the stream. */
  method RotateHandler(queue: SendQueue, stream: Stream) returns (r: Result<(), nat>)
    modifies queue
    ensures queue.items == old(queue.items) + Puts(stream)
    ensures r == (if stream.error.Some? then Err(stream.error.value) else Ok(()))
  {
    queue.Put(Some(LoadCertificate));
    if stream.responses == 0 {
      queue.Put(None);
      if stream.error.Some? {
        return Err(stream.error.value);
      }
      return Ok(());
    }
    queue.Put(Some(FinalizeRotation));
    queue.Put(None);
    var left := stream.responses - 1;
    while left > 0
      invariant queue.items == old(queue.items) + [Some(LoadCertificate), Some(FinalizeRotation), None]
    {
      left := left - 1;
    }
    if stream.error.Some? {
      queue.Put(None);
      return Err(stream.error.value);
    }
    return Ok(());
  }

  /** The messages in front of the first sentinel. */
  function BeforeSentinel(items: seq<Item>): seq<RotateRequest> {
    if items == [] || items[0].None? then [] else [items[0].value] + BeforeSentinel(items[1..])
  }

  function BehindSentinel(items: seq<Item>): seq<Item> {
    if items == [] then []
    else if items[0].None? then items[1..]
    else BehindSentinel(items[1..])
  }

  function Wrapped(msgs: seq<RotateRequest>): (items: seq<Item>)
    ensures |items| == |msgs|
  {
    seq(|msgs|, i requires 0 <= i < |msgs| => Some(msgs[i]))
  }

  /** Whatever follows the first sentinel, it cuts the queue in exactly these two parts. */
  lemma {:induction false} CutAtSentinel(msgs: seq<RotateRequest>, rest: seq<Item>)
    ensures BeforeSentinel(Wrapped(msgs) + [None] + rest) == msgs
    ensures BehindSentinel(Wrapped(msgs) + [None] + rest) == rest
  {
    var items := Wrapped(msgs) + [None] + rest;
    if msgs == [] {
      assert items[1..] == rest;
    } else {
      CutAtSentinel(msgs[1..], rest);
      assert items[1..] == Wrapped(msgs[1..]) + [None] + rest;
    }
  }

  /** The request generator on a queue that holds a sentinel. */
  method Generate(queue: SendQueue) returns (yielded: seq<RotateRequest>)
    requires None in queue.items
    modifies queue
    ensures yielded == BeforeSentinel(old(queue.items))
    ensures queue.items == BehindSentinel(old(queue.items))
  {
    yielded := [];
    while true
      invariant None in queue.items
      invariant yielded + BeforeSentinel(queue.items) == BeforeSentinel(old(queue.items))
      invariant BehindSentinel(queue.items) == BehindSentinel(old(queue.items))
      decreases |queue.items|
    {
      assert queue.items == [queue.items[0]] + queue.items[1..];
      var item := queue.Get();
      if item == None {
        return;
      }
      yielded := yielded + [item.value];
    }
  }

  /**
   Whatever the response stream does, the generator that drains the handler's queue returns,
   sends Finalize exactly when a response arrived, and leaves at most one spare sentinel.
   */
  lemma HandlerFeedsGenerator(stream: Stream)
    ensures None in Puts(stream)
    ensures BeforeSentinel(Puts(stream))
         == if stream.responses > 0 then [LoadCertificate, FinalizeRotation] else [LoadCertificate]
    ensures BehindSentinel(Puts(stream))
         == if stream.responses > 0 && stream.error.Some? then [None] else []
  {
    var items := Puts(stream);
    if stream.responses > 0 {
      var tail: seq<Item> := if stream.error.Some? then [None] else [];
      assert items == [Some(LoadCertificate), Some(FinalizeRotation), None] + tail;
      assert items[1..] == [Some(FinalizeRotation), None] + tail;
      assert items[1..][1..] == [None] + tail;
      assert BeforeSentinel([None] + tail) == [] && BehindSentinel([None] + tail) == tail;
      assert items[2] == None;
    } else {
      assert items == [Some(LoadCertificate), None];
      assert items[1..] == [None];
      assert BeforeSentinel([None]) == [] && BehindSentinel([None]) == [];
      assert items[1] == None;
    }
  }
}
