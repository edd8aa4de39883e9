/**
 The image stream of `os/install`: the file is read in chunks until a read comes back empty.
 `Chunks` is the plan of all reads; `StreamImage` is the source's read loop, proved to follow it.
 */
module ImageStream {
  import opened Wrappers
  import opened Bytes

  datatype InstallRequest =
    | TransferRequest(version: string, packageSize: nat, standby: bool)
    | TransferContent(chunk: seq<byte>)
    | TransferEnd

  /** What the generator leaves in `send_state['error']`. */
  datatype SendError = WaitTimedOut | ReadFailed

  /** A count that `read` accepts and that is not zero. */
  type ReadSize = n: int | n == -1 || n > 0 witness 1

  const DEFAULT_CHUNK := 1048576

  /** `int(request.chunk_size or 1048576)`: never zero. */
  function ChunkSize(requested: Option<int>): ReadSize
    requires requested.Some? ==> requested.value >= -1
  {
    if requested.Some? && requested.value != 0 then requested.value else DEFAULT_CHUNK
  }

  /** Where `read(n)` from `pos` stops; a negative count reads to the end of the file. */
  function ReadEnd(size: nat, pos: nat, n: ReadSize): (end: nat)
    requires pos <= size
    ensures pos <= end <= size
    ensures pos < size ==> pos < end
  {
    if n < 0 || pos + n > size then size else pos + n
  }

  /** Every nonempty read from `pos` on, in order. */
  function Chunks(data: seq<byte>, pos: nat, n: ReadSize): seq<seq<byte>>
    requires pos <= |data|
    decreases |data| - pos
  {
    if pos == |data| then []
    else
      var end := ReadEnd(|data|, pos, n);
      [data[pos..end]] + Chunks(data, end, n)
  }

  function Concat(chunks: seq<seq<byte>>): seq<byte> {
    if chunks == [] then [] else chunks[0] + Concat(chunks[1..])
  }

  /** The chunks are the file: nothing is lost, repeated or reordered. */
  lemma {:induction false} ChunksConcat(data: seq<byte>, pos: nat, n: ReadSize)
    requires pos <= |data|
    ensures Concat(Chunks(data, pos, n)) == data[pos..]
    decreases |data| - pos
  {
    if pos < |data| {
      var end := ReadEnd(|data|, pos, n);
      ChunksConcat(data, end, n);
      var rest := Chunks(data, end, n);
      assert ([data[pos..end]] + rest)[1..] == rest;
      assert data[pos..] == data[pos..end] + data[end..];
    }
  }

  /** Every chunk is nonempty, at most `n` long, and only the last one is short. */
  lemma {:induction false} ChunkSizes(data: seq<byte>, pos: nat, n: ReadSize)
    requires pos <= |data|
    ensures forall i | 0 <= i < |Chunks(data, pos, n)| ::
      && Chunks(data, pos, n)[i] != []
      && (n > 0 ==> |Chunks(data, pos, n)[i]| <= n)
      && (n > 0 && i + 1 < |Chunks(data, pos, n)| ==> |Chunks(data, pos, n)[i]| == n)
    decreases |data| - pos
  {
    if pos < |data| {
      var end := ReadEnd(|data|, pos, n);
      ChunkSizes(data, end, n);
    }
  }

  function CeilDiv(a: nat, n: nat): nat
    requires n > 0
  {
    (a + n - 1) / n
  }

  lemma CeilDivStep(a: nat, n: nat)
    requires 0 < n <= a
    ensures CeilDiv(a, n) == 1 + CeilDiv(a - n, n)
  {
    var x := a - 1;
    assert x + n == a + n - 1 && (a - n) + n - 1 == x;
    DivStep(x, n);
  }

  lemma DivStep(x: nat, n: nat)
    requires n > 0
    ensures (x + n) / n == x / n + 1
  {
    var q, r := x / n, x % n;
    assert x == q * n + r;
    assert x + n == (q + 1) * n + r;
    DivUnique(x + n, n, q + 1, r);
  }

  lemma DivUnique(x: nat, n: nat, q: nat, r: nat)
    requires n > 0 && r < n && x == q * n + r
    ensures x / n == q
  {
    var d := x / n - q;
    assert x == (x / n) * n + x % n;
    assert d * n == r - x % n;
    MultipleBound(d, n);
  }

  lemma MultipleBound(d: int, n: nat)
    ensures d > 0 ==> d * n >= n
    ensures d < 0 ==> d * n <= -1 * n
  {
  }

  /** A positive chunk size needs exactly the rounded-up quotient of reads. */
  lemma {:induction false} ChunkCount(data: seq<byte>, pos: nat, n: ReadSize)
    requires pos <= |data| && n > 0
    ensures |Chunks(data, pos, n)| == CeilDiv(|data| - pos, n)
    decreases |data| - pos
  {
    var left := |data| - pos;
    if left == 0 {
      DivUnique(n - 1, n, 0, n - 1);
    } else if left <= n {
      assert Chunks(data, |data|, n) == [];
      DivUnique(left + n - 1, n, 1, left - 1);
    } else {
      ChunkCount(data, pos + n, n);
      CeilDivStep(left, n);
    }
  }

  function ContentOf(chunks: seq<seq<byte>>): (msgs: seq<InstallRequest>)
    ensures |msgs| == |chunks|
  {
    seq(|chunks|, i requires 0 <= i < |chunks| => TransferContent(chunks[i]))
  }

  // ---------------------------------------------------------------- the read loop

  /** An open image; from the position `faultAt` on, reading it raises an OSError. */
  class ImageFile {
    const data: seq<byte>
    const faultAt: Option<nat>
    var pos: nat

    ghost predicate Valid()
      reads this
    {
      pos <= |data|
    }

    /** Whether some read of the whole file fails, the one that finds its end included. */
    predicate Faulty() {
      faultAt.Some? && faultAt.value <= |data|
    }

    constructor (data: seq<byte>, faultAt: Option<nat>)
      ensures Valid() && this.data == data && this.faultAt == faultAt && pos == 0
    {
      this.data, this.faultAt := data, faultAt;
      pos := 0;
    }

    /** `read(n)`; the result is `None` where it raises an OSError. */
    method Read(n: ReadSize) returns (chunk: Option<seq<byte>>)
      requires Valid()
      modifies this
      ensures Valid()
      ensures chunk.None? <==> faultAt.Some? && faultAt.value <= old(pos)
      ensures chunk.None? ==> pos == old(pos)
      ensures chunk.Some? ==> pos == ReadEnd(|data|, old(pos), n) && chunk.value == data[old(pos)..pos]
    {
      if faultAt.Some? && faultAt.value <= pos {
        return None;
      }
      var end := if n < 0 || pos + n > |data| then |data| else pos + n;
      chunk := Some(data[pos..end]);
      pos := end;
    }
  }

  /** The `send_state` dictionary that the sender fills and the handler reads. */
  class SendState {
    var bytesSent: nat
    var error: Option<SendError>
    var ended: bool

    constructor ()
      ensures bytesSent == 0 && error == None && !ended
    {
      bytesSent, error, ended := 0, None, false;
    }
  }

  /** What was sent and the chunks that are left are together all chunks of the file. */
  ghost predicate SentUpTo(sent: seq<InstallRequest>, data: seq<byte>, pos: nat, n: ReadSize) {
    pos <= |data| && sent + ContentOf(Chunks(data, pos, n)) == ContentOf(Chunks(data, 0, n))
  }

  lemma SendOne(sent: seq<InstallRequest>, data: seq<byte>, pos: nat, n: ReadSize)
    requires SentUpTo(sent, data, pos, n) && pos < |data|
    ensures var end := ReadEnd(|data|, pos, n);
      SentUpTo(sent + [TransferContent(data[pos..end])], data, end, n)
  {
    var end := ReadEnd(|data|, pos, n);
    var rest := ContentOf(Chunks(data, end, n));
    assert ContentOf(Chunks(data, pos, n)) == [TransferContent(data[pos..end])] + rest;
    assert sent + ([TransferContent(data[pos..end])] + rest) == sent + [TransferContent(data[pos..end])] + rest;
  }

  lemma AllSent(sent: seq<InstallRequest>, data: seq<byte>, n: ReadSize)
    requires SentUpTo(sent, data, |data|, n)
    ensures sent == ContentOf(Chunks(data, 0, n))
  {
    assert ContentOf([]) == [];
    assert sent + [] == sent;
  }

  /** Every message but the last brought its bytes from before the fault, and the last one passed it. */
  ghost predicate CutAtFault(sent: seq<InstallRequest>, image: ImageFile, n: ReadSize)
    reads image
  {
    && image.Valid() && image.Faulty() && image.faultAt.value <= image.pos
    && SentUpTo(sent, image.data, image.pos, n)
    && (sent != [] ==>
          var last := sent[|sent| - 1];
          last.TransferContent? && image.pos - |last.chunk| < image.faultAt.value)
  }

  /** No content message is longer than `n`, and one that another follows is not shorter either. */
  ghost predicate SizedBy(sent: seq<InstallRequest>, n: nat) {
    forall i | 0 <= i < |sent| && sent[i].TransferContent? ::
      && |sent[i].chunk| <= n
      && (i + 1 < |sent| && sent[i + 1].TransferContent? ==> |sent[i].chunk| == n)
  }

  /** The requested size, 1048576 bytes without one, everything in one piece for -1. */
  ghost predicate SizedAsRequested(sent: seq<InstallRequest>, requested: Option<int>) {
    && (requested.Some? && requested.value > 0 ==> SizedBy(sent, requested.value))
    && (requested == None || requested == Some(0) ==> SizedBy(sent, 1048576))
    && (requested == Some(-1) ==> |sent| <= 2)
  }

  lemma SentAsRequested(sent: seq<InstallRequest>, data: seq<byte>, pos: nat, requested: Option<int>)
    requires requested.Some? ==> requested.value >= -1
    requires SentUpTo(sent, data, pos, ChunkSize(requested))
    ensures SizedAsRequested(sent, requested) && SizedAsRequested(sent + [TransferEnd], requested)
  {
    SentSizes(sent, data, pos, ChunkSize(requested));
  }

  lemma SentSizes(sent: seq<InstallRequest>, data: seq<byte>, pos: nat, n: ReadSize)
    requires SentUpTo(sent, data, pos, n)
    ensures n > 0 ==> SizedBy(sent, n) && SizedBy(sent + [TransferEnd], n)
    ensures n == -1 ==> |sent| <= 1
  {
    ChunkSizes(data, 0, n);
    var all := ContentOf(Chunks(data, 0, n));
    assert forall i | 0 <= i < |sent| :: sent[i] == all[i];
    if n == -1 && data != [] {
      assert Chunks(data, |data|, n) == [];
    }
  }

  /**
   Steps 3 and 4 of the request generator, run without interruption. A readable file is sent as
   its chunks followed by TransferEnd, and the state counts every byte. A file with a read error
   is sent up to the chunk that passes the fault: the error is noted, `ended` is not set.
   */
  method StreamImage(image: ImageFile, state: SendState, requested: Option<int>) returns (sent: seq<InstallRequest>)
    requires image.Valid() && image.pos == 0
    requires requested.Some? ==> requested.value >= -1
    modifies image, state
    ensures image.Valid() && state.bytesSent == old(state.bytesSent) + image.pos
    ensures !image.Faulty() ==>
      && sent == ContentOf(Chunks(image.data, 0, ChunkSize(requested))) + [TransferEnd]
      && image.pos == |image.data| && state.ended && state.error == old(state.error)
    ensures image.Faulty() ==>
      && CutAtFault(sent, image, ChunkSize(requested))
      && state.ended == old(state.ended) && state.error == Some(ReadFailed)
    ensures SizedAsRequested(sent, requested)
  {
    sent := [];
    var n := ChunkSize(requested);
    while true
      invariant image.Valid()
      invariant state.bytesSent == old(state.bytesSent) + image.pos
      invariant state.ended == old(state.ended) && state.error == old(state.error)
      invariant SentUpTo(sent, image.data, image.pos, n)
      invariant sent != [] ==>
        var last := sent[|sent| - 1];
        last.TransferContent? && (image.Faulty() ==> image.pos - |last.chunk| < image.faultAt.value)
      decreases |image.data| - image.pos
    {
      ghost var from := image.pos;
      var chunk := image.Read(n);
      if chunk.None? {
        state.error := Some(ReadFailed);
        SentAsRequested(sent, image.data, image.pos, requested);
        return;
      }
      if chunk.value == [] {
        break;
      }
      SendOne(sent, image.data, from, n);
      state.bytesSent := state.bytesSent + |chunk.value|;
      sent := sent + [TransferContent(chunk.value)];
    }
    SentAsRequested(sent, image.data, image.pos, requested);
    AllSent(sent, image.data, n);
    state.ended := true;
    sent := sent + [TransferEnd];
  }
}
