/** The chunked receive: a response of `length` bytes is read in
    transactions of at most 32 bytes each, under a single budget of attempts
    that every transaction uses up, whether it succeeds or fails. */
module Receiver {
  import opened Esp
  import opened Device
  import opened I2c

  /** Largest number of bytes one read transaction asks for. */
  const ChunkSize: nat := 32
  /** The attempt counter value at which the loop gives up. */
  const RetryLimit: nat := 20

  function Min(a: nat, b: nat): nat
  {
    if a <= b then a else b
  }

  /** The loop's state: the bus, the bytes still missing, the bytes received
      so far and the attempt counter. The counter is an 8-bit variable in
      the driver; it never exceeds 21, so it never wraps. */
  datatype Cursor = Cursor(bus: Bus, length: nat, received: seq<byte>, retries: nat)

  /** One counted attempt: request the next chunk of at most 32 bytes; a
      completed read advances the cursor over it, a failed one leaves the
      cursor where it was. */
  function Attempt(c: Cursor): (r: Cursor)
    ensures r.bus == Bus(c.bus.script, c.bus.pos + 1, c.bus.log + [Read(ReadHeader, Min(c.length, ChunkSize))])
    ensures r.retries == c.retries + 1
    ensures |r.received| + r.length == |c.received| + c.length
  {
    var request := Min(c.length, ChunkSize);
    var x := Transact(c.bus, Read(ReadHeader, request));
    if x.reply.Done? then Cursor(x.bus, c.length - request, c.received + Fit(x.reply.data, request), c.retries + 1)
    else Cursor(x.bus, c.length, c.received, c.retries + 1)
  }

  /** The loop from cursor `c`. While bytes are missing it makes an attempt
      and then compares the counter with the limit before incrementing it,
      so the attempt made with the counter at the limit fails the call even
      when it completed the response. */
  function ReceiveFrom(c: Cursor): (r: Step<seq<byte>>)
    requires c.retries <= RetryLimit
    ensures r.bus.script == c.bus.script
    ensures r.result.Ok? ==> |r.result.value| == |c.received| + c.length
    decreases RetryLimit - c.retries
  {
    if c.length == 0 then Step(c.bus, Ok(c.received))
    else if c.retries >= RetryLimit then Step(Attempt(c).bus, Err(Fail))
    else ReceiveFrom(Attempt(c))
  }

  /** Reads a response of `length` bytes. */
  function Receive(bus: Bus, length: nat): (r: Step<seq<byte>>)
    ensures r.bus.script == bus.script
    ensures r.result.Ok? ==> |r.result.value| == length
  {
    ReceiveFrom(Cursor(bus, length, [], 0))
  }

  // ---------------------------------------------------------------------
  // Closed form: everything about a receive follows from which of the
  // scripted transactions complete.

  /** How many of the `k` transactions starting at `p` complete. */
  function Successes(script: seq<Reply>, p: nat, k: nat): (s: nat)
    ensures s <= k
    decreases k
  {
    if k == 0 then 0
    else (if At(script, p).Done? then 1 else 0) + Successes(script, p + 1, k - 1)
  }

  /** The data of the completed transactions among the `k` starting at `p`,
      in order. */
  function Delivered(script: seq<Reply>, p: nat, k: nat): seq<seq<byte>>
    decreases k
  {
    if k == 0 then []
    else if At(script, p).Done? then [At(script, p).data] + Delivered(script, p + 1, k - 1)
    else Delivered(script, p + 1, k - 1)
  }

  /** A response of `length` bytes laid out from delivered chunks: each chunk
      fills the next (at most) 32 bytes; chunks beyond the response are
      ignored. */
  function Layout(chunks: seq<seq<byte>>, length: nat): seq<byte>
    decreases |chunks|
  {
    if length == 0 || |chunks| == 0 then []
    else
      var n := Min(length, ChunkSize);
      Fit(chunks[0], n) + Layout(chunks[1..], length - n)
  }

  /** The read requests of `k` attempts starting at transaction `p` with
      `length` bytes missing: each asks for the next chunk, and a completed
      one shortens what is missing. */
  function Requests(script: seq<Reply>, p: nat, length: nat, k: nat): (r: seq<Event>)
    ensures |r| == k
    decreases k
  {
    if k == 0 then []
    else
      var request := Min(length, ChunkSize);
      [Read(ReadHeader, request)] +
      Requests(script, p + 1, if At(script, p).Done? then length - request else length, k - 1)
  }

  /** How one attempt moves the cursor, in terms of the scripted outcome. */
  lemma AttemptStep(c: Cursor)
    ensures var reply := At(c.bus.script, c.bus.pos);
      var request := Min(c.length, ChunkSize);
      Attempt(c) ==
        if reply.Done? then Cursor(Attempt(c).bus, c.length - request, c.received + Fit(reply.data, request), c.retries + 1)
        else Cursor(Attempt(c).bus, c.length, c.received, c.retries + 1)
  {
  }

  /** Which attempts a receive makes from cursor `c`: while bytes are
      missing each asks for the next chunk of the response, and the bus log
      grows by exactly these requests. */
  lemma {:induction false} RequestsFrom(c: Cursor)
    requires c.retries <= RetryLimit
    ensures var r := ReceiveFrom(c);
      && r.bus.pos >= c.bus.pos
      && r.bus.log == c.bus.log + Requests(c.bus.script, c.bus.pos, c.length, r.bus.pos - c.bus.pos)
    decreases RetryLimit - c.retries
  {
    if c.length > 0 {
      AttemptStep(c);
      if c.retries < RetryLimit {
        RequestsFrom(Attempt(c));
        var r := ReceiveFrom(Attempt(c));
        var k := r.bus.pos - c.bus.pos;
        RequestsStep(c.bus.script, c.bus.pos, c.length, k);
        AppendAssoc(c.bus.log, [Read(ReadHeader, Min(c.length, ChunkSize))],
          Requests(c.bus.script, c.bus.pos + 1, Attempt(c).length, k - 1));
      } else {
        RequestsStep(c.bus.script, c.bus.pos, c.length, 1);
      }
    }
  }

  /** A receive from cursor `c` succeeds exactly when nothing is missing or
      the completed transactions among the remaining budget cover what is
      missing; otherwise it fails with `ESP_FAIL` after using up every
      remaining attempt, the last one included. */
  lemma {:induction false} OutcomeFrom(c: Cursor)
    requires c.retries <= RetryLimit
    ensures var r := ReceiveFrom(c);
      var budget := RetryLimit - c.retries;
      && (r.result.Ok? <==> c.length == 0 || ChunkSize * Successes(c.bus.script, c.bus.pos, budget) >= c.length)
      && (r.result.Err? ==> r.result == Err(Fail) && r.bus.pos == c.bus.pos + budget + 1)
    decreases RetryLimit - c.retries
  {
    if c.length > 0 && c.retries < RetryLimit {
      AttemptStep(c);
      OutcomeFrom(Attempt(c));
      SuccessesStep(c.bus.script, c.bus.pos, RetryLimit - c.retries);
    }
  }

  /** A successful receive stays within the budget, and the completed
      transactions among its attempts cover the response. */
  lemma {:induction false} CoveredFrom(c: Cursor)
    requires c.retries <= RetryLimit
    ensures var r := ReceiveFrom(c);
      r.result.Ok? ==>
        && c.bus.pos <= r.bus.pos <= c.bus.pos + RetryLimit - c.retries
        && ChunkSize * Successes(c.bus.script, c.bus.pos, r.bus.pos - c.bus.pos) >= c.length
    decreases RetryLimit - c.retries
  {
    if c.length > 0 && c.retries < RetryLimit {
      CoveredFrom(Attempt(c));
      var r := ReceiveFrom(Attempt(c));
      if r.result.Ok? {
        SuccessesStep(c.bus.script, c.bus.pos, r.bus.pos - c.bus.pos);
        AttemptStep(c);
      }
    }
  }

  /** A successful receive makes no attempt after the one that completed the
      response: before its last attempt the response was not yet covered. */
  lemma {:induction false} StopsFrom(c: Cursor)
    requires c.retries <= RetryLimit
    ensures var r := ReceiveFrom(c);
      r.result.Ok? && r.bus.pos > c.bus.pos ==>
        ChunkSize * Successes(c.bus.script, c.bus.pos, r.bus.pos - c.bus.pos - 1) < c.length
    decreases RetryLimit - c.retries
  {
    if c.length > 0 && c.retries < RetryLimit {
      var c' := Attempt(c);
      StopsFrom(c');
      var r := ReceiveFrom(c');
      if r.result.Ok? && r.bus.pos > c'.bus.pos {
        SuccessesStep(c.bus.script, c.bus.pos, r.bus.pos - c'.bus.pos);
        AttemptStep(c);
      }
    }
  }

  /** The bytes of a successful receive are the data of the completed
      transactions laid out chunk after chunk. */
  lemma {:induction false} ContentFrom(c: Cursor)
    requires c.retries <= RetryLimit
    ensures var r := ReceiveFrom(c);
      r.result.Ok? ==>
        r.result.value == c.received + Layout(Delivered(c.bus.script, c.bus.pos, RetryLimit - c.retries), c.length)
    decreases RetryLimit - c.retries
  {
    var budget := RetryLimit - c.retries;
    if c.length == 0 {
      assert Layout(Delivered(c.bus.script, c.bus.pos, budget), c.length) == [];
    } else if c.retries < RetryLimit {
      AttemptStep(c);
      ContentFrom(Attempt(c));
      DeliveredStep(c.bus.script, c.bus.pos, budget);
      var rest := Delivered(c.bus.script, c.bus.pos + 1, budget - 1);
      var reply := At(c.bus.script, c.bus.pos);
      if reply.Done? {
        var chunks := [reply.data] + rest;
        var head := Fit(reply.data, Min(c.length, ChunkSize));
        assert chunks[1..] == rest;
        LayoutStep(chunks, c.length);
        AppendAssoc(c.received, head, Layout(rest, Attempt(c).length));
      }
    }
  }

  lemma LayoutStep(chunks: seq<seq<byte>>, length: nat)
    requires length > 0 && |chunks| > 0
    ensures Layout(chunks, length) ==
      Fit(chunks[0], Min(length, ChunkSize)) + Layout(chunks[1..], length - Min(length, ChunkSize))
  {
  }

  lemma SuccessesStep(script: seq<Reply>, p: nat, k: nat)
    requires k > 0
    ensures Successes(script, p, k) == (if At(script, p).Done? then 1 else 0) + Successes(script, p + 1, k - 1)
  {
  }

  lemma DeliveredStep(script: seq<Reply>, p: nat, k: nat)
    requires k > 0
    ensures Delivered(script, p, k) ==
      (if At(script, p).Done? then [At(script, p).data] else []) + Delivered(script, p + 1, k - 1)
  {
  }

  lemma RequestsStep(script: seq<Reply>, p: nat, length: nat, k: nat)
    requires k > 0
    ensures Requests(script, p, length, k) ==
      [Read(ReadHeader, Min(length, ChunkSize))] +
      Requests(script, p + 1, if At(script, p).Done? then length - Min(length, ChunkSize) else length, k - 1)
  {
  }

  lemma {:induction false} NoSuccesses(script: seq<Reply>, p: nat, k: nat)
    requires forall i :: p <= i < p + k ==> At(script, i).Failed?
    ensures Successes(script, p, k) == 0
    decreases k
  {
    if k > 0 {
      NoSuccesses(script, p + 1, k - 1);
    }
  }

  // ---------------------------------------------------------------------
  // The receive as the driver calls it.

  /** A receive of `length` bytes succeeds exactly when the response is
      empty or the completed transactions among the next 20 cover it;
      otherwise it fails with `ESP_FAIL` after exactly 21 reads. */
  lemma ReceiveOutcome(bus: Bus, length: nat)
    ensures var r := Receive(bus, length);
      && (r.result.Ok? <==> length == 0 || ChunkSize * Successes(bus.script, bus.pos, RetryLimit) >= length)
      && (r.result.Err? ==> r.result == Err(Fail) && r.bus.pos == bus.pos + RetryLimit + 1)
  {
    OutcomeFrom(Cursor(bus, length, [], 0));
  }

  /** A successful receive makes at most 20 attempts, and the completed
      transactions among them cover the response. */
  lemma ReceiveCovered(bus: Bus, length: nat)
    ensures var r := Receive(bus, length);
      r.result.Ok? ==>
        && bus.pos <= r.bus.pos <= bus.pos + RetryLimit
        && ChunkSize * Successes(bus.script, bus.pos, r.bus.pos - bus.pos) >= length
  {
    CoveredFrom(Cursor(bus, length, [], 0));
  }

  /** A successful receive stops right after the attempt that completed the
      response: before that attempt it was not yet covered. */
  lemma ReceiveStops(bus: Bus, length: nat)
    ensures var r := Receive(bus, length);
      r.result.Ok? && r.bus.pos > bus.pos ==>
        ChunkSize * Successes(bus.script, bus.pos, r.bus.pos - bus.pos - 1) < length
  {
    StopsFrom(Cursor(bus, length, [], 0));
  }

  /** Each read of a receive asks for the next chunk of at most 32 bytes
      of what is still missing, and nothing else is logged. */
  lemma ReceiveRequests(bus: Bus, length: nat)
    ensures var r := Receive(bus, length);
      && r.bus.pos >= bus.pos
      && r.bus.log == bus.log + Requests(bus.script, bus.pos, length, r.bus.pos - bus.pos)
  {
    RequestsFrom(Cursor(bus, length, [], 0));
  }

  /** The bytes of a successful receive are the delivered data laid out
      chunk by chunk. */
  lemma ReceiveContent(bus: Bus, length: nat)
    ensures var r := Receive(bus, length);
      r.result.Ok? ==> r.result.value == Layout(Delivered(bus.script, bus.pos, RetryLimit), length)
  {
    ContentFrom(Cursor(bus, length, [], 0));
    assert [] + Layout(Delivered(bus.script, bus.pos, RetryLimit), length)
        == Layout(Delivered(bus.script, bus.pos, RetryLimit), length);
  }

  /** An empty response succeeds without touching the bus. */
  lemma ReceiveNothing(bus: Bus)
    ensures Receive(bus, 0) == Step(bus, Ok([]))
  {
  }

  /** The 35-byte response of a read takes two reads, of 32 and 3 bytes,
      when both complete. */
  lemma ReceiveReadResponse(bus: Bus, a: seq<byte>, b: seq<byte>)
    requires At(bus.script, bus.pos) == Done(a) && At(bus.script, bus.pos + 1) == Done(b)
    ensures Receive(bus, 35) ==
      Step(Bus(bus.script, bus.pos + 2, bus.log + [Read(ReadHeader, 32), Read(ReadHeader, 3)]),
           Ok(Fit(a, 32) + Fit(b, 3)))
  {
    var c0 := Cursor(bus, 35, [], 0);
    var c1 := Attempt(c0);
    var c2 := Attempt(c1);
    assert c1 == Cursor(Bus(bus.script, bus.pos + 1, bus.log + [Read(ReadHeader, 32)]), 3, Fit(a, 32), 1);
    assert c2 == Cursor(Bus(bus.script, bus.pos + 2, bus.log + [Read(ReadHeader, 32), Read(ReadHeader, 3)]), 0, Fit(a, 32) + Fit(b, 3), 2);
    assert ReceiveFrom(c0) == ReceiveFrom(c1) == ReceiveFrom(c2);
  }
  /** A 35-byte response delivered whole, as a full chunk followed by the
      3-byte remainder, is received unchanged. */
  lemma ReceiveWhole(bus: Bus, resp: seq<byte>)
    requires |resp| == 35
    requires At(bus.script, bus.pos) == Done(resp[..32]) && At(bus.script, bus.pos + 1) == Done(resp[32..])
    ensures Receive(bus, 35) ==
      Step(Bus(bus.script, bus.pos + 2, bus.log + [Read(ReadHeader, 32), Read(ReadHeader, 3)]), Ok(resp))
  {
    ReceiveReadResponse(bus, resp[..32], resp[32..]);
    FitContent(resp[..32], 32);
    FitContent(resp[32..], 3);
    assert resp[..32] + resp[32..] == resp;
  }


  /** A short response (four bytes, say) takes a single read when it
      completes. */
  lemma ReceiveShortResponse(bus: Bus, length: nat, a: seq<byte>)
    requires 0 < length <= ChunkSize
    requires At(bus.script, bus.pos) == Done(a)
    ensures Receive(bus, length) ==
      Step(Bus(bus.script, bus.pos + 1, bus.log + [Read(ReadHeader, length)]), Ok(Fit(a, length)))
  {
    var c0 := Cursor(bus, length, [], 0);
    var c1 := Attempt(c0);
    assert c1 == Cursor(Bus(bus.script, bus.pos + 1, bus.log + [Read(ReadHeader, length)]), 0, Fit(a, length), 1);
    assert ReceiveFrom(c0) == ReceiveFrom(c1);
  }

  /** The attempt made with the counter at the limit fails the call even
      when it delivers the whole response: twenty failed reads followed by a
      complete one give `ESP_FAIL` after 21 reads. */
  lemma LateSuccessFails(bus: Bus, length: nat)
    requires 0 < length <= ChunkSize
    requires forall i :: bus.pos <= i < bus.pos + RetryLimit ==> At(bus.script, i).Failed?
    requires At(bus.script, bus.pos + RetryLimit).Done?
    ensures Receive(bus, length).result == Err(Fail)
    ensures Receive(bus, length).bus.pos == bus.pos + RetryLimit + 1
  {
    NoSuccesses(bus.script, bus.pos, RetryLimit);
    ReceiveOutcome(bus, length);
  }

  /** The driver's loop, statement by statement, over the same state: the
      bus, the output buffer, the bytes still missing and the attempt
      counter, which stays within the limit inside the loop. It computes
      exactly the receive above. */
  method ReceiveLoop(bus0: Bus, length0: nat) returns (bus: Bus, r: Result<seq<byte>>)
    ensures Step(bus, r) == Receive(bus0, length0)
    ensures r.Ok? ==> |r.value| == length0
    ensures r.Err? ==> r == Err(Fail) && bus.pos == bus0.pos + RetryLimit + 1
  {
    bus := bus0;
    var buffer: seq<byte> := [];
    var length: nat := length0;
    var retries: nat := 0;
    ReceiveOutcome(bus0, length0);
    while length > 0
      invariant retries <= RetryLimit
      invariant |buffer| + length == length0
      invariant ReceiveFrom(Cursor(bus, length, buffer, retries)) == Receive(bus0, length0)
      decreases RetryLimit - retries
    {
      ghost var before := Cursor(bus, length, buffer, retries);
      var request := if length > ChunkSize then ChunkSize else length;
      var x := Transact(bus, Read(ReadHeader, request));
      bus := x.bus;
      if x.reply.Done? {
        buffer := buffer + Fit(x.reply.data, request);
        length := length - request;
      }
      if retries >= RetryLimit {
        return bus, Err(Fail);
      }
      retries := retries + 1;
      assert Cursor(bus, length, buffer, retries) == Attempt(before);
    }
    r := Ok(buffer);
  }
}
