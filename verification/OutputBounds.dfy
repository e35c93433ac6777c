/** Bounded reading: the output of a command, and the body of a response. */
module OutputBounds {
  import opened Lists
  import opened Ranking
  import opened Texts
  import opened Wrappers

  const MAX_COMMAND_OUTPUT_BYTES := 64 * 1024
  const MAX_RESPONSE_BYTES := 64 * 1024

  lemma {:induction false} ConcatAppend<T>(chunks: seq<seq<T>>, chunk: seq<T>)
    ensures Concat(chunks + [chunk]) == Concat(chunks) + chunk
  {
    assert (chunks + [chunk])[..|chunks|] == chunks;
  }

  lemma {:induction false} ConcatStep<T>(chunks: seq<seq<T>>, n: nat)
    requires n < |chunks|
    ensures Concat(chunks[..n + 1]) == Concat(chunks[..n]) + chunks[n]
  {
    assert chunks[..n + 1] == chunks[..n] + [chunks[n]];
    ConcatAppend(chunks[..n], chunks[n]);
  }

  // ----- the output of a command

  datatype Stream = Stdout | Stderr

  datatype Delivery = Delivery(stream: Stream, chunk: Bytes)

  /** Two streams share one budget of bytes. */
  class CommandOutput {
    var stdout: seq<Bytes>
    var stderr: seq<Bytes>
    var outputBytes: nat

    ghost function State(): Captured
      reads this
    {
      Captured(Concat(stdout), Concat(stderr))
    }

    ghost predicate Valid()
      reads this
    {
      outputBytes == |Concat(stdout)| + |Concat(stderr)| <= MAX_COMMAND_OUTPUT_BYTES
    }

    constructor ()
      ensures Valid() && State() == NOTHING
    {
      stdout, stderr, outputBytes := [], [], 0;
    }

    method Capture(delivery: Delivery)
      requires Valid()
      modifies this
      ensures Valid() && State() == CaptureOne(old(State()), delivery)
    {
      if outputBytes >= MAX_COMMAND_OUTPUT_BYTES {
        return;
      }
      var remaining := MAX_COMMAND_OUTPUT_BYTES - outputBytes;
      var bounded := Take(delivery.chunk, remaining);
      match delivery.stream {
        case Stdout =>
          ConcatAppend(stdout, bounded);
          stdout := stdout + [bounded];
        case Stderr =>
          ConcatAppend(stderr, bounded);
          stderr := stderr + [bounded];
      }
      outputBytes := outputBytes + |bounded|;
    }
  }

  /** The bytes captured of each stream. */
  datatype Captured = Captured(stdout: Bytes, stderr: Bytes)

  const NOTHING := Captured([], [])

  function Of(captured: Captured, stream: Stream): Bytes {
    match stream
    case Stdout => captured.stdout
    case Stderr => captured.stderr
  }

  function CaptureOne(captured: Captured, delivery: Delivery): Captured {
    var used := |captured.stdout| + |captured.stderr|;
    var bounded := Take(delivery.chunk, if used < MAX_COMMAND_OUTPUT_BYTES then MAX_COMMAND_OUTPUT_BYTES - used else 0);
    match delivery.stream
    case Stdout => captured.(stdout := captured.stdout + bounded)
    case Stderr => captured.(stderr := captured.stderr + bounded)
  }

  function CaptureAll(deliveries: seq<Delivery>): Captured {
    if deliveries == [] then NOTHING
    else CaptureOne(CaptureAll(deliveries[..|deliveries| - 1]), deliveries[|deliveries| - 1])
  }

  /** A byte with the stream it arrived on. */
  datatype Arrival = Arrival(stream: Stream, byte: Byte)

  ghost function Tagged(stream: Stream, chunk: Bytes): seq<Arrival> {
    seq(|chunk|, i requires 0 <= i < |chunk| => Arrival(stream, chunk[i]))
  }

  /** All bytes, in the order in which they arrived. */
  ghost function Arrived(deliveries: seq<Delivery>): seq<Arrival> {
    if deliveries == [] then []
    else
      var last := deliveries[|deliveries| - 1];
      Arrived(deliveries[..|deliveries| - 1]) + Tagged(last.stream, last.chunk)
  }

  /** The bytes of one stream. */
  ghost function Project(arrivals: seq<Arrival>, stream: Stream): Bytes {
    if arrivals == [] then []
    else
      var last := arrivals[|arrivals| - 1];
      Project(arrivals[..|arrivals| - 1], stream) + if last.stream == stream then [last.byte] else []
  }

  lemma {:induction false} ProjectConcat(a: seq<Arrival>, b: seq<Arrival>, stream: Stream)
    ensures Project(a + b, stream) == Project(a, stream) + Project(b, stream)
  {
    if b == [] {
      assert a + b == a;
    } else {
      var n := |b| - 1;
      assert (a + b)[..|a + b| - 1] == a + b[..n];
      ProjectConcat(a, b[..n], stream);
    }
  }

  lemma {:induction false} ProjectTagged(from: Stream, chunk: Bytes, stream: Stream)
    ensures Project(Tagged(from, chunk), stream) == if from == stream then chunk else []
  {
    if chunk != [] {
      var n := |chunk| - 1;
      assert Tagged(from, chunk)[..n] == Tagged(from, chunk[..n]);
      ProjectTagged(from, chunk[..n], stream);
      assert chunk == chunk[..n] + [chunk[n]];
    }
  }

  lemma {:induction false} ProjectSizes(arrivals: seq<Arrival>)
    ensures |Project(arrivals, Stdout)| + |Project(arrivals, Stderr)| == |arrivals|
  {
    if arrivals != [] {
      ProjectSizes(arrivals[..|arrivals| - 1]);
    }
  }

  /** Under any interleaving, what is captured of a stream is its part of the first bytes to arrive, up to the limit. */
  lemma {:induction false} CapturesFirstArrivals(deliveries: seq<Delivery>, stream: Stream)
    ensures Of(CaptureAll(deliveries), stream) == Project(Take(Arrived(deliveries), MAX_COMMAND_OUTPUT_BYTES), stream)
    ensures |CaptureAll(deliveries).stdout| + |CaptureAll(deliveries).stderr| ==
            |Take(Arrived(deliveries), MAX_COMMAND_OUTPUT_BYTES)|
  {
    if deliveries != [] {
      var before, last := deliveries[..|deliveries| - 1], deliveries[|deliveries| - 1];
      CapturesFirstArrivals(before, stream);
      var used := |CaptureAll(before).stdout| + |CaptureAll(before).stderr|;
      var bounded := Take(last.chunk, if used < MAX_COMMAND_OUTPUT_BYTES then MAX_COMMAND_OUTPUT_BYTES - used else 0);
      assert Take(Arrived(deliveries), MAX_COMMAND_OUTPUT_BYTES) ==
             Take(Arrived(before), MAX_COMMAND_OUTPUT_BYTES) + Tagged(last.stream, bounded);
      ProjectConcat(Take(Arrived(before), MAX_COMMAND_OUTPUT_BYTES), Tagged(last.stream, bounded), stream);
      ProjectTagged(last.stream, bounded, stream);
    }
  }

  /** The bytes a stream delivered. */
  ghost function Delivered(deliveries: seq<Delivery>, stream: Stream): Bytes {
    if deliveries == [] then []
    else
      var last := deliveries[|deliveries| - 1];
      Delivered(deliveries[..|deliveries| - 1], stream) + if last.stream == stream then last.chunk else []
  }

  lemma {:induction false} DeliveredIsArrived(deliveries: seq<Delivery>, stream: Stream)
    ensures Project(Arrived(deliveries), stream) == Delivered(deliveries, stream)
  {
    if deliveries != [] {
      var before, last := deliveries[..|deliveries| - 1], deliveries[|deliveries| - 1];
      DeliveredIsArrived(before, stream);
      ProjectConcat(Arrived(before), Tagged(last.stream, last.chunk), stream);
      ProjectTagged(last.stream, last.chunk, stream);
    }
  }

  /** Each capture is a prefix of its stream, and together they are as long as what was delivered, up to the limit. */
  lemma {:induction false} CapturesPrefixes(deliveries: seq<Delivery>, stream: Stream)
    ensures Of(CaptureAll(deliveries), stream) <= Delivered(deliveries, stream)
    ensures var total := |Delivered(deliveries, Stdout)| + |Delivered(deliveries, Stderr)|;
            |CaptureAll(deliveries).stdout| + |CaptureAll(deliveries).stderr| ==
            if total < 65_536 then total else 65_536
  {
    hide CaptureAll;
    hide Arrived;
    hide Project;
    var arrived := Arrived(deliveries);
    var first := Take(arrived, MAX_COMMAND_OUTPUT_BYTES);
    CapturesFirstArrivals(deliveries, stream);
    DeliveredIsArrived(deliveries, Stdout);
    DeliveredIsArrived(deliveries, Stderr);
    ProjectSizes(arrived);
    assert arrived == first + arrived[|first|..];
    ProjectConcat(first, arrived[|first|..], stream);
  }

  // ----- the body of a response

  datatype Read = Body(bytes: Bytes) | ResponseTooLarge

  /** What is read of a body; `declared` is absent where the length header is no finite number. */
  function BoundedBody(declared: Option<real>, chunks: Option<seq<Bytes>>): Read {
    if declared.Some? && declared.value > MAX_RESPONSE_BYTES as real then ResponseTooLarge
    else
      match chunks
      case None => Body([])
      case Some(all) => if |Concat(all)| <= MAX_RESPONSE_BYTES then Body(Concat(all)) else ResponseTooLarge
  }

  /** A body is accepted, whole, exactly if neither its declared nor its real length is above 64 KiB. */
  lemma {:induction false} BodyExactly(declared: Option<real>, chunks: Option<seq<Bytes>>)
    ensures BoundedBody(declared, chunks).Body? <==>
            && (declared.Some? ==> declared.value <= 65_536.0)
            && (chunks.Some? ==> |Concat(chunks.value)| <= 65_536)
    ensures BoundedBody(declared, chunks).Body? ==>
              BoundedBody(declared, chunks).bytes == if chunks.Some? then Concat(chunks.value) else []
  {
  }

  /** How far the body is read before its size is known to exceed the limit, or to the end. */
  function ReadTo(chunks: seq<Bytes>, n: nat): (r: nat)
    requires n <= |chunks|
    ensures n <= r <= |chunks|
    decreases |chunks| - n
  {
    if n == |chunks| || |Concat(chunks[..n])| > MAX_RESPONSE_BYTES then n else ReadTo(chunks, n + 1)
  }

  lemma {:induction false} ReadToExactly(chunks: seq<Bytes>, n: nat, k: nat)
    requires n <= |chunks| && n <= k <= |chunks|
    requires forall j :: n <= j < k ==> |Concat(chunks[..j])| <= MAX_RESPONSE_BYTES
    requires k == |chunks| || |Concat(chunks[..k])| > MAX_RESPONSE_BYTES
    ensures ReadTo(chunks, n) == k
    decreases k - n
  {
    if n < k {
      ReadToExactly(chunks, n + 1, k);
    }
  }

  method CopyChunks(chunks: seq<Bytes>, total: nat) returns (body: array<Byte>)
    requires total == |Concat(chunks)|
    ensures fresh(body) && body[..] == Concat(chunks)
  {
    body := new Byte[total](_ => 0);
    var offset := 0;
    var i := 0;
    while i < |chunks|
      invariant 0 <= i <= |chunks|
      invariant offset == |Concat(chunks[..i])| <= total
      invariant body[..offset] == Concat(chunks[..i])
    {
      ConcatStep(chunks, i);
      ConcatPart(chunks, i + 1);
      var chunk := chunks[i];
      var k := 0;
      while k < |chunk|
        invariant 0 <= k <= |chunk|
        invariant body[..offset + k] == Concat(chunks[..i]) + chunk[..k]
      {
        body[offset + k] := chunk[k];
        k := k + 1;
      }
      offset := offset + |chunk|;
      i := i + 1;
    }
    assert chunks[..i] == chunks;
    assert body[..] == body[..offset];
  }

  lemma {:induction false} ConcatPart<T>(chunks: seq<seq<T>>, n: nat)
    requires n <= |chunks|
    ensures |Concat(chunks[..n])| <= |Concat(chunks)|
    decreases |chunks| - n
  {
    if n < |chunks| {
      ConcatStep(chunks, n);
      ConcatPart(chunks, n + 1);
    } else {
      assert chunks[..n] == chunks;
    }
  }

  /**
   An accepted body is the exact concatenation of its chunks, within the limit;
   a body that is too large is refused as soon as the read bytes exceed the
   limit, and before reading any if its declared length does.
   */
  method ReadBoundedResponse(declared: Option<real>, chunks: Option<seq<Bytes>>) returns (r: Read, readCount: nat)
    ensures r == BoundedBody(declared, chunks)
    ensures r.Body? && chunks.Some? ==> r.bytes == Concat(chunks.value) && |r.bytes| <= MAX_RESPONSE_BYTES
    ensures readCount ==
            if chunks.None? || (declared.Some? && declared.value > MAX_RESPONSE_BYTES as real) then 0 else ReadTo(chunks.value, 0)
  {
    readCount := 0;
    if declared.Some? && declared.value > MAX_RESPONSE_BYTES as real {
      return ResponseTooLarge, 0;
    }
    match chunks {
      case None => return Body([]), 0;
      case Some(all) =>
        var kept: seq<Bytes> := [];
        var total := 0;
        while readCount < |all|
          invariant 0 <= readCount <= |all|
          invariant kept == all[..readCount] && total == |Concat(kept)| <= MAX_RESPONSE_BYTES
          invariant forall j :: 0 <= j <= readCount ==> |Concat(all[..j])| <= MAX_RESPONSE_BYTES
        {
          ConcatStep(all, readCount);
          var value := all[readCount];
          total := total + |value|;
          readCount := readCount + 1;
          if total > MAX_RESPONSE_BYTES {
            ConcatPart(all, readCount);
            ReadToExactly(all, 0, readCount);
            return ResponseTooLarge, readCount;
          }
          kept := kept + [value];
          assert kept == all[..readCount];
        }
        assert kept == all;
        ReadToExactly(all, 0, readCount);
        var body := CopyChunks(kept, total);
        return Body(body[..]), readCount;
    }
  }
}
