/** The block transfer protocol that moves the 28800-byte calibration payload between
    the tool and the motor controller: a START request, then requests of at most 500
    bytes each answered before the next is sent, then (for an upload) an END request.
    Waiting for a reply with a 3000 ms timer is replaced by a given sequence of replies,
    one per request; a request past the end of that sequence times out. */
module BlockTransfer {
  import opened Wrappers

  type byte = x: int | 0 <= x < 256

  /** Values per table row, bytes per encoded value, and the payload they make:
      the common-mode row followed by the differential-mode row. */
  const Positions := 3600
  const ValueBytes := 4
  const PayloadBytes := 2 * Positions * ValueBytes

  /** Largest chunk per request; the packet ceiling of the channel is 512 bytes. */
  const ChunkMax := 500

  /** AC_BLOCK_START, AC_BLOCK_ONGOING, AC_BLOCK_END. */
  datatype Phase = Start | Ongoing | End

  // ---------------------------------------------------------------------------
  // Read-back

  /** What the wait for one read-back reply ends with. */
  datatype WaitResult = Ok(payload: seq<byte>) | Timeout | Error

  /** focAnticoggingReadBackCalData(phase, offset, length). */
  datatype ReadRequest = ReadRequest(phase: Phase, offset: int, length: int)

  /** Read complete with the bytes gathered, "Data read timeout.", or
      "No valid data in connected VESC.". */
  datatype ReadOutcome = ReadComplete(data: seq<byte>) | ReadTimedOut | NoValidData

  datatype ReadTrace = ReadTrace(requests: seq<ReadRequest>, outcome: ReadOutcome)

  /** The reply to the request numbered `k`; when the device sends nothing the timer fires. */
  function Reply(replies: seq<WaitResult>, k: nat): WaitResult {
    if k < |replies| then replies[k] else Timeout
  }

  function PayloadOf(w: WaitResult): seq<byte> {
    if w.Ok? then w.payload else []
  }

  /** The bytes gathered from replies `k` up to (not including) `m`. */
  function Received(replies: seq<WaitResult>, k: nat, m: nat): seq<byte>
    decreases m - k
  {
    if m <= k then [] else PayloadOf(Reply(replies, k)) + Received(replies, k + 1, m)
  }

  /** The loop of ONGOING requests, with `data` gathered so far and reply `k` next. */
  function ReadLoop(data: seq<byte>, replies: seq<WaitResult>, k: nat): ReadTrace
    decreases |replies| - k
  {
    if |data| >= PayloadBytes then ReadTrace([], ReadComplete(data))
    else
      var request := ReadRequest(Ongoing, |data|, Min(ChunkMax, PayloadBytes - |data|));
      match Reply(replies, k)
      case Timeout => ReadTrace([request], ReadTimedOut)
      case Error => ReadTrace([request], NoValidData)
      case Ok(p) =>
        var rest := ReadLoop(data + p, replies, k + 1);
        ReadTrace([request] + rest.requests, rest.outcome)
  }

  /** on_readCalDataButton_clicked up to the decoding of the gathered bytes. */
  function ReadBack(replies: seq<WaitResult>): ReadTrace {
    var start := ReadRequest(Start, 0, 0);
    match Reply(replies, 0)
    case Timeout => ReadTrace([start], ReadTimedOut)
    case Error => ReadTrace([start], NoValidData)
    case Ok(_) =>
      var rest := ReadLoop([], replies, 1);
      ReadTrace([start] + rest.requests, rest.outcome)
  }

  /** Every ONGOING request asks for the bytes from the count gathered so far, at most
      500 of them and never past the payload; the loop stops at the first failed reply,
      reporting the kind of failure, and a completed loop holds all gathered bytes. */
  lemma {:induction false} ReadLoopShape(data: seq<byte>, replies: seq<WaitResult>, k: nat)
    ensures var t := ReadLoop(data, replies, k);
      && (forall j :: 0 <= j < |t.requests| ==>
            var offset := |data| + |Received(replies, k, k + j)|;
            && t.requests[j] == ReadRequest(Ongoing, offset, Min(ChunkMax, PayloadBytes - offset))
            && offset < PayloadBytes)
      && (forall i :: k <= i < k + |t.requests| - 1 ==> Reply(replies, i).Ok?)
      && (t.outcome.ReadComplete? ==>
            && (forall i :: k <= i < k + |t.requests| ==> Reply(replies, i).Ok?)
            && t.outcome.data == data + Received(replies, k, k + |t.requests|)
            && |t.outcome.data| >= PayloadBytes)
      && (t.outcome.ReadTimedOut? ==> |t.requests| > 0 && Reply(replies, k + |t.requests| - 1).Timeout?)
      && (t.outcome.NoValidData? ==> |t.requests| > 0 && Reply(replies, k + |t.requests| - 1).Error?)
    decreases |replies| - k
  {
    var t := ReadLoop(data, replies, k);
    if |data| < PayloadBytes && Reply(replies, k).Ok? {
      var p := Reply(replies, k).payload;
      var rest := ReadLoop(data + p, replies, k + 1);
      ReadLoopShape(data + p, replies, k + 1);
      assert t.requests == [t.requests[0]] + rest.requests;
      forall j | 0 <= j < |t.requests|
        ensures var offset := |data| + |Received(replies, k, k + j)|;
          && t.requests[j] == ReadRequest(Ongoing, offset, Min(ChunkMax, PayloadBytes - offset))
          && offset < PayloadBytes
      {
        if j > 0 {
          assert t.requests[j] == rest.requests[j - 1];
          assert Received(replies, k, k + j) == p + Received(replies, k + 1, k + 1 + (j - 1));
        }
      }
      if rest.outcome.ReadComplete? {
        assert Received(replies, k, k + |t.requests|) == p + Received(replies, k + 1, k + 1 + |rest.requests|);
      }
    }
  }

  /** The read-back opens with START(0, 0); every later request is an ONGOING request at
      the byte count gathered so far; it stops at the first reply that is not data and
      tells a timeout from a refusal; a completed read holds all bytes of the replies. */
  lemma ReadBackShape(replies: seq<WaitResult>)
    ensures var t := ReadBack(replies);
      && |t.requests| >= 1
      && t.requests[0] == ReadRequest(Start, 0, 0)
      && (forall j :: 1 <= j < |t.requests| ==>
            var offset := |Received(replies, 1, j)|;
            && t.requests[j] == ReadRequest(Ongoing, offset, Min(ChunkMax, PayloadBytes - offset))
            && 0 < t.requests[j].length <= ChunkMax)
      && (forall i :: 0 <= i < |t.requests| - 1 ==> Reply(replies, i).Ok?)
      && (t.outcome.ReadComplete? ==>
            && (forall i :: 0 <= i < |t.requests| ==> Reply(replies, i).Ok?)
            && t.outcome.data == Received(replies, 1, |t.requests|)
            && |t.outcome.data| >= PayloadBytes)
      && (t.outcome.ReadTimedOut? ==> Reply(replies, |t.requests| - 1).Timeout?)
      && (t.outcome.NoValidData? ==> Reply(replies, |t.requests| - 1).Error?)
  {
    var t := ReadBack(replies);
    if Reply(replies, 0).Ok? {
      var rest := ReadLoop([], replies, 1);
      ReadLoopShape([], replies, 1);
      assert t.requests == [t.requests[0]] + rest.requests;
      assert forall j :: 1 <= j < |t.requests| ==> t.requests[j] == rest.requests[j - 1];
    }
  }

  /** A device that answers every ONGOING request with exactly the bytes asked for. */
  ghost predicate ExactDevice(replies: seq<WaitResult>) {
    && Reply(replies, 0).Ok?
    && forall i {:trigger Reply(replies, i)} :: 1 <= i <= 58 ==>
         Reply(replies, i).Ok? && |Reply(replies, i).payload| == Min(ChunkMax, PayloadBytes - ChunkMax * (i - 1))
  }

  lemma {:induction false} ExactLoop(data: seq<byte>, replies: seq<WaitResult>, k: nat)
    requires ExactDevice(replies)
    requires 1 <= k <= 59 && |data| == Min(ChunkMax * (k - 1), PayloadBytes)
    ensures var t := ReadLoop(data, replies, k);
      && t.outcome.ReadComplete? && |t.outcome.data| == PayloadBytes
      && |t.requests| == 59 - k
      && forall j :: 0 <= j < |t.requests| ==> t.requests[j].offset == ChunkMax * (k - 1 + j)
    decreases 59 - k
  {
    if k < 59 {
      var p := Reply(replies, k).payload;
      ExactLoop(data + p, replies, k + 1);
      var t := ReadLoop(data, replies, k);
      var rest := ReadLoop(data + p, replies, k + 1);
      assert t.requests == [t.requests[0]] + rest.requests;
      assert forall j :: 1 <= j < |t.requests| ==> t.requests[j] == rest.requests[j - 1];
    }
  }

  /** Against a device that always sends the bytes asked for, the read-back is START and
      58 ONGOING requests at offsets 0, 500, ..., 28500, and gathers the whole payload. */
  lemma ExactDeviceReadsAll(replies: seq<WaitResult>)
    requires ExactDevice(replies)
    ensures var t := ReadBack(replies);
      && t.outcome.ReadComplete? && |t.outcome.data| == PayloadBytes
      && |t.requests| == 59
      && forall j :: 1 <= j < 59 ==> t.requests[j].offset == ChunkMax * (j - 1)
  {
    ExactLoop([], replies, 1);
    var t := ReadBack(replies);
    var rest := ReadLoop([], replies, 1);
    assert forall j :: 1 <= j < |t.requests| ==> t.requests[j] == rest.requests[j - 1];
  }

  // ---------------------------------------------------------------------------
  // Upload

  /** focAnticoggingDownloadCalData(phase, offset, bytes). */
  datatype UploadRequest = UploadRequest(phase: Phase, offset: nat, chunk: seq<byte>)

  /** "Upload complete." or "Upload failed or timeout.". */
  datatype UploadOutcome = UploadComplete | UploadFailed

  datatype UploadTrace = UploadTrace(requests: seq<UploadRequest>, outcome: UploadOutcome)

  /** The acknowledgement of request `k`; a missing one is the timer firing, read as false. */
  function Ack(acks: seq<bool>, k: nat): bool {
    k < |acks| && acks[k]
  }

  /** `vb | std::views::chunk(500)`: consecutive slices of 500 bytes, the last shorter. */
  function Chunks(s: seq<byte>): seq<seq<byte>>
    decreases |s|
  {
    if |s| == 0 then []
    else if |s| <= ChunkMax then [s]
    else [s[..ChunkMax]] + Chunks(s[ChunkMax..])
  }

  function Flatten(cs: seq<seq<byte>>): seq<byte> {
    if cs == [] then [] else cs[0] + Flatten(cs[1..])
  }

  /** Chunk `j` is the slice from 500 * j, of 500 bytes or up to the end; there are
      ceil(|s| / 500) of them and together they are `s`. */
  lemma {:induction false} ChunksShape(s: seq<byte>)
    ensures |Chunks(s)| == (|s| + ChunkMax - 1) / ChunkMax
    ensures Flatten(Chunks(s)) == s
    ensures forall j :: 0 <= j < |Chunks(s)| ==>
      ChunkMax * j < |s| && Chunks(s)[j] == s[ChunkMax * j .. Min(ChunkMax * (j + 1), |s|)]
    decreases |s|
  {
    if |s| > ChunkMax {
      var rest := s[ChunkMax..];
      ChunksShape(rest);
      var cs := Chunks(s);
      assert cs == [s[..ChunkMax]] + Chunks(rest);
      forall j | 1 <= j < |cs|
        ensures ChunkMax * j < |s| && cs[j] == s[ChunkMax * j .. Min(ChunkMax * (j + 1), |s|)]
      {
        assert cs[j] == Chunks(rest)[j - 1];
        assert rest[ChunkMax * (j - 1) .. Min(ChunkMax * j, |rest|)]
            == s[ChunkMax * j .. Min(ChunkMax * (j + 1), |s|)];
      }
      assert s == s[..ChunkMax] + rest;
    }
  }

  /** The bytes of the first `j` chunks are the first 500 * j bytes of the payload. */
  lemma {:induction false} ChunksPrefix(s: seq<byte>, j: nat)
    requires j <= |Chunks(s)|
    ensures |Flatten(Chunks(s)[..j])| == Min(ChunkMax * j, |s|)
    decreases |s|
  {
    if j > 0 {
      var cs := Chunks(s);
      assert cs[..j] == [cs[0]] + cs[1..][..j - 1];
      if |s| > ChunkMax {
        ChunksPrefix(s[ChunkMax..], j - 1);
        assert cs[1..] == Chunks(s[ChunkMax..]);
      } else {
        assert |cs| == 1 && j == 1;
      }
    }
  }

  /** The 28800-byte payload goes out in 58 chunks, the last one of 300 bytes. */
  lemma PayloadChunks(s: seq<byte>)
    requires |s| == PayloadBytes
    ensures |Chunks(s)| == 58
    ensures forall j :: 0 <= j < 57 ==> |Chunks(s)[j]| == ChunkMax
    ensures |Chunks(s)[57]| == 300
  {
    ChunksShape(s);
    forall j | 0 <= j < 57 ensures |Chunks(s)[j]| == ChunkMax {
      assert Min(ChunkMax * (j + 1), |s|) == ChunkMax * (j + 1);
    }
    assert Min(ChunkMax * 58, |s|) == |s|;
  }

  /** The ONGOING requests for chunks `cs` from `offset`, the first answered by ack `k`;
      also whether every chunk was acknowledged. */
  function SendChunks(cs: seq<seq<byte>>, offset: nat, acks: seq<bool>, k: nat): (seq<UploadRequest>, bool)
    decreases |cs|
  {
    if cs == [] then ([], true)
    else
      var request := UploadRequest(Ongoing, offset, cs[0]);
      if !Ack(acks, k) then ([request], false)
      else
        var (rest, ok) := SendChunks(cs[1..], offset + |cs[0]|, acks, k + 1);
        ([request] + rest, ok)
  }

  /** on_downloadCalDataButton_clicked from the START request on, for payload `vb`. */
  function Upload(vb: seq<byte>, acks: seq<bool>): UploadTrace {
    var start := UploadRequest(Start, 0, []);
    if !Ack(acks, 0) then UploadTrace([start], UploadFailed)
    else
      var cs := Chunks(vb);
      var (ongoing, ok) := SendChunks(cs, 0, acks, 1);
      if !ok then UploadTrace([start] + ongoing, UploadFailed)
      else
        UploadTrace([start] + ongoing + [UploadRequest(End, 0, [])],
                    if Ack(acks, 1 + |cs|) then UploadComplete else UploadFailed)
  }

  /** Chunk `j` goes out at the offset of the bytes before it. */
  lemma {:induction false} SendChunksOffsets(cs: seq<seq<byte>>, offset: nat, acks: seq<bool>, k: nat)
    ensures var (rs, ok) := SendChunks(cs, offset, acks, k);
      && |rs| <= |cs|
      && (forall j :: 0 <= j < |rs| ==> rs[j] == UploadRequest(Ongoing, offset + |Flatten(cs[..j])|, cs[j]))
    decreases |cs|
  {
    if cs != [] && Ack(acks, k) {
      SendChunksOffsets(cs[1..], offset + |cs[0]|, acks, k + 1);
      var (rs, ok) := SendChunks(cs, offset, acks, k);
      var (rest, ok') := SendChunks(cs[1..], offset + |cs[0]|, acks, k + 1);
      assert rs == [rs[0]] + rest;
      forall j | 1 <= j < |rs|
        ensures rs[j] == UploadRequest(Ongoing, offset + |Flatten(cs[..j])|, cs[j])
      {
        assert rs[j] == rest[j - 1];
        assert cs[..j] == [cs[0]] + cs[1..][..j - 1];
        assert Flatten(cs[..j]) == cs[0] + Flatten(cs[1..][..j - 1]);
      }
    }
  }

  /** Sending stops right after the first chunk whose acknowledgement is false; it
      succeeds exactly when every chunk was acknowledged. */
  lemma {:induction false} SendChunksAcks(cs: seq<seq<byte>>, offset: nat, acks: seq<bool>, k: nat)
    ensures var (rs, ok) := SendChunks(cs, offset, acks, k);
      && |rs| <= |cs|
      && (forall i :: k <= i < k + |rs| - 1 ==> Ack(acks, i))
      && (ok <==> |rs| == |cs| && forall i :: k <= i < k + |cs| ==> Ack(acks, i))
      && (!ok ==> |rs| > 0 && !Ack(acks, k + |rs| - 1))
    decreases |cs|
  {
    if cs != [] && Ack(acks, k) {
      SendChunksAcks(cs[1..], offset + |cs[0]|, acks, k + 1);
    }
  }

  /** The upload opens with START, and the chunk requests carry the payload's chunks in
      order at offsets 0, 500, 1000, ...; every request is cut to `requests[j]`'s place. */
  lemma UploadOffsets(vb: seq<byte>, acks: seq<bool>)
    ensures var t := Upload(vb, acks);
      && 1 <= |t.requests| <= |Chunks(vb)| + 2
      && t.requests[0] == UploadRequest(Start, 0, [])
      && forall j :: 1 <= j < |t.requests| && j <= |Chunks(vb)| ==>
           t.requests[j] == UploadRequest(Ongoing, ChunkMax * (j - 1), Chunks(vb)[j - 1])
  {
    var t := Upload(vb, acks);
    var cs := Chunks(vb);
    ChunksShape(vb);
    if Ack(acks, 0) {
      var (ongoing, ok) := SendChunks(cs, 0, acks, 1);
      SendChunksOffsets(cs, 0, acks, 1);
      SendChunksAcks(cs, 0, acks, 1);
      forall j | 1 <= j < |t.requests| && j <= |cs|
        ensures t.requests[j] == UploadRequest(Ongoing, ChunkMax * (j - 1), cs[j - 1])
      {
        assert t.requests[j] == ongoing[j - 1];
        ChunksPrefix(vb, j - 1);
        assert ChunkMax * (j - 1) < |vb|;
      }
    }
  }

  /** Request `j` is sent only after requests 0 to j-1 were acknowledged; END is sent
      exactly when START and every chunk were acknowledged, and the upload is reported
      complete exactly when END was acknowledged too. */
  lemma UploadAcks(vb: seq<byte>, acks: seq<bool>)
    ensures var t := Upload(vb, acks);
      var n := |Chunks(vb)|;
      && 1 <= |t.requests|
      && (forall i :: 0 <= i < |t.requests| - 1 ==> Ack(acks, i))
      && (t.requests[|t.requests| - 1].phase == End <==> forall i :: 0 <= i <= n ==> Ack(acks, i))
      && (t.requests[|t.requests| - 1].phase == End ==>
            |t.requests| == n + 2 && t.requests[|t.requests| - 1] == UploadRequest(End, 0, []))
      && (t.outcome == UploadComplete <==> forall i :: 0 <= i <= n + 1 ==> Ack(acks, i))
  {
    var t := Upload(vb, acks);
    var cs := Chunks(vb);
    if Ack(acks, 0) {
      var (ongoing, ok) := SendChunks(cs, 0, acks, 1);
      SendChunksAcks(cs, 0, acks, 1);
      SendChunksOffsets(cs, 0, acks, 1);
      if !ok {
        assert t.requests[|t.requests| - 1] == ongoing[|ongoing| - 1];
      }
    }
  }

  // ---------------------------------------------------------------------------
  // Payload layout

  /** VByteArray::vbAppendDouble32Auto: an encoder of one value into four bytes. Its
      float format stays abstract. */
  type Float32Encoder = f: real -> seq<byte> | forall x :: |f(x)| == ValueBytes
    witness (x: real) => [0, 0, 0, 0]

  /** VByteArray::vbPopFrontDouble32Auto: the value four bytes decode to. */
  type Float32Decoder = seq<byte> -> real

  /** The bytes of `xs` appended one value after the other. */
  function Encode(xs: seq<real>, encode: Float32Encoder): (r: seq<byte>)
    ensures |r| == ValueBytes * |xs|
  {
    if xs == [] then [] else encode(xs[0]) + Encode(xs[1..], encode)
  }

  /** Value `i` sits at bytes 4 * i to 4 * i + 4. */
  lemma {:induction false} EncodeAt(xs: seq<real>, encode: Float32Encoder, i: nat)
    requires i < |xs|
    ensures Encode(xs, encode)[ValueBytes * i .. ValueBytes * i + ValueBytes] == encode(xs[i])
  {
    if i > 0 {
      EncodeAt(xs[1..], encode, i - 1);
      var e := Encode(xs, encode);
      assert e == encode(xs[0]) + Encode(xs[1..], encode);
      assert e[ValueBytes * i .. ValueBytes * i + ValueBytes]
          == Encode(xs[1..], encode)[ValueBytes * (i - 1) .. ValueBytes * (i - 1) + ValueBytes];
    }
  }

  lemma {:induction false} EncodeAppend(xs: seq<real>, ys: seq<real>, encode: Float32Encoder)
    ensures Encode(xs + ys, encode) == Encode(xs, encode) + Encode(ys, encode)
  {
    if xs != [] {
      assert (xs + ys)[0] == xs[0];
      assert (xs + ys)[1..] == xs[1..] + ys;
      EncodeAppend(xs[1..], ys, encode);
    } else {
      assert xs + ys == ys;
    }
  }

  /** The upload payload: the common-mode row, then the differential-mode row. */
  function EncodePayload(common: seq<real>, diff: seq<real>, encode: Float32Encoder): (r: seq<byte>)
    requires |common| == Positions && |diff| == Positions
    ensures |r| == PayloadBytes
  {
    Encode(common, encode) + Encode(diff, encode)
  }

  /** The first 3600 values of a read-back payload are common mode, the next 3600 are
      differential mode; bytes past 28800 are not looked at. */
  function DecodeCommon(data: seq<byte>, decode: Float32Decoder): (r: seq<real>)
    requires |data| >= PayloadBytes
    ensures |r| == Positions
    ensures forall i :: 0 <= i < Positions ==> r[i] == decode(data[ValueBytes * i .. ValueBytes * i + ValueBytes])
  {
    seq(Positions, i requires 0 <= i < Positions => decode(data[ValueBytes * i .. ValueBytes * i + ValueBytes]))
  }

  function DecodeDiff(data: seq<byte>, decode: Float32Decoder): (r: seq<real>)
    requires |data| >= PayloadBytes
    ensures |r| == Positions
    ensures forall i :: 0 <= i < Positions ==>
      r[i] == decode(data[Positions * ValueBytes + ValueBytes * i .. Positions * ValueBytes + ValueBytes * i + ValueBytes])
  {
    var base := Positions * ValueBytes;
    seq(Positions, i requires 0 <= i < Positions =>
      decode(data[base + ValueBytes * i .. base + ValueBytes * i + ValueBytes]))
  }

  /** Upload and read-back agree on the layout: decoding an encoded payload gives both
      rows back wherever the codec is exact for the values. */
  lemma PayloadLayoutRoundTrip(common: seq<real>, diff: seq<real>, encode: Float32Encoder, decode: Float32Decoder)
    requires |common| == Positions && |diff| == Positions
    requires forall i :: 0 <= i < Positions ==> decode(encode(common[i])) == common[i]
    requires forall i :: 0 <= i < Positions ==> decode(encode(diff[i])) == diff[i]
    ensures DecodeCommon(EncodePayload(common, diff, encode), decode) == common
    ensures DecodeDiff(EncodePayload(common, diff, encode), decode) == diff
  {
    var vb := EncodePayload(common, diff, encode);
    var c := Encode(common, encode);
    forall i | 0 <= i < Positions
      ensures DecodeCommon(vb, decode)[i] == common[i]
      ensures DecodeDiff(vb, decode)[i] == diff[i]
    {
      EncodeAt(common, encode, i);
      EncodeAt(diff, encode, i);
      assert vb[ValueBytes * i .. ValueBytes * i + ValueBytes] == c[ValueBytes * i .. ValueBytes * i + ValueBytes];
      var base := Positions * ValueBytes;
      assert vb[base + ValueBytes * i .. base + ValueBytes * i + ValueBytes]
          == Encode(diff, encode)[ValueBytes * i .. ValueBytes * i + ValueBytes];
    }
  }
}
