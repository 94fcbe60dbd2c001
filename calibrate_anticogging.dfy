/** The anticogging calibration widget: the raw table of forward and reverse q-axis
    currents per tenth of a degree, filled by sample events from the motor controller,
    shown decomposed and low-pass filtered, uploaded to and read back from the
    controller in 500-byte blocks, and kept in CSV files. The plot, the dialog
    boxes, the progress bar and the device link itself stay outside; the device's
    replies are parameters and the requests sent are returned as values. */
module Anticogging {
  import opened Wrappers
  import opened Spectrum
  import opened Decomposition
  import A = Acquisition
  import BT = BlockTransfer
  import Csv = CsvCodec
  import FN = FileNames

  /** The half spectrum of a 3600-sample row. */
  const Bins := A.Positions / 2 + 1

  /** What the widget asks of the controller besides the block transfers. */
  datatype Command =
    | CalibrationStart(attempts: int, samplesPerPoint: int, absTolerance: real, tolerance: real)
    | SetCurrent(amps: real)
    | CancelDownloadCalData

  /** How a CSV import ended: no file chosen, the file would not open, the contents
      were refused ("Failed to parse selected CSV file."), or the table was replaced. */
  datatype ImportStatus =
    | ImportCancelled
    | ImportOpenFailed(fileName: string)
    | ImportParseFailed(fileName: string)
    | Imported(fileName: string)

  /** How a CSV export ended; an exported file holds its header line and rows. */
  datatype ExportStatus =
    | ExportCancelled
    | ExportOpenFailed(fileName: string)
    | Exported(fileName: string, headerLine: string, rows: seq<Csv.RowTokens>)

  /** uint16_t of a spin-box value: the value modulo 2^16. */
  function ToUint16(x: int): (r: int)
    ensures 0 <= r < 0x1_0000
    ensures (x - r) % 0x1_0000 == 0
    ensures 0 <= x < 0x1_0000 ==> r == x
  {
    x % 0x1_0000
  }

  /** The low-pass filtered half spectrum of one decomposed row. */
  function FilteredSpectrum(mode: seq<real>, cut: nat, r2c: R2CPlan): seq<Complex> {
    LowPass(Forward(A.Positions, r2c, mode), cut)
  }

  /** One decomposed row after the forward transform, the filter and the inverse. */
  function FilteredMode(mode: seq<real>, cut: nat, r2c: R2CPlan, c2r: C2RPlan): seq<real> {
    Inverse(A.Positions, c2r, FilteredSpectrum(mode, cut, r2c))
  }

  /** getFiltered: both modes filtered, each with its own cutoff. */
  function FilteredModes(t: Sampled, cmCut: nat, dmCut: nat, r2c: R2CPlan, c2r: C2RPlan): Decomposed
    requires WellFormedSampled(t)
  {
    var d := Decompose(t);
    Decomposed(FilteredMode(d.common, cmCut, r2c, c2r), FilteredMode(d.diff, dmCut, r2c, c2r))
  }

  /** The modes an upload sends: filtered when the cutoff box is ticked, else raw. */
  function UploadModes(t: Sampled, filtered: bool, cmCut: nat, dmCut: nat, r2c: R2CPlan, c2r: C2RPlan): Decomposed
    requires WellFormedSampled(t)
  {
    if filtered then FilteredModes(t, cmCut, dmCut, r2c, c2r) else Decompose(t)
  }

  /** The filtered spectrum of a row has exactly the row's first `cut` coefficients
      and nothing above them, and the filtered row has one sample per angle. */
  lemma FilteredShape(mode: seq<real>, cut: nat, r2c: R2CPlan, c2r: C2RPlan)
    ensures |FilteredSpectrum(mode, cut, r2c)| == Bins
    ensures forall k :: 0 <= k < Bins ==>
      FilteredSpectrum(mode, cut, r2c)[k] == (if k < cut then r2c(mode, k) else Zero)
    ensures |FilteredMode(mode, cut, r2c, c2r)| == A.Positions
  {
  }

  /** With both cutoffs at or above the number of bins nothing is removed: when the
      two plans invert each other on the table's modes, the filtered table is the table. */
  lemma FullBandFilterIsIdentity(t: Sampled, cmCut: nat, dmCut: nat, r2c: R2CPlan, c2r: C2RPlan)
    requires |t.forward| == A.Positions && |t.reverse| == A.Positions
    requires cmCut >= Bins && dmCut >= Bins
    requires Inverse(A.Positions, c2r, Forward(A.Positions, r2c, Decompose(t).common)) == Decompose(t).common
    requires Inverse(A.Positions, c2r, Forward(A.Positions, r2c, Decompose(t).diff)) == Decompose(t).diff
    ensures Compose(FilteredModes(t, cmCut, dmCut, r2c, c2r)) == t
  {
    var d := Decompose(t);
    LowPassBeyondEnd(Forward(A.Positions, r2c, d.common), cmCut);
    LowPassBeyondEnd(Forward(A.Positions, r2c, d.diff), dmCut);
    assert FilteredModes(t, cmCut, dmCut, r2c, c2r) == d;
    ComposeDecompose(t);
  }

  /** A device that stores the uploaded unfiltered payload and returns it on read-back
      restores the table, given a float codec that is exact on the table's modes. */
  lemma UploadThenReadBackRestores(t: Sampled, encode: BT.Float32Encoder, decode: BT.Float32Decoder)
    requires |t.forward| == A.Positions && |t.reverse| == A.Positions
    requires forall i :: 0 <= i < A.Positions ==> decode(encode(Decompose(t).common[i])) == Decompose(t).common[i]
    requires forall i :: 0 <= i < A.Positions ==> decode(encode(Decompose(t).diff[i])) == Decompose(t).diff[i]
    ensures var vb := BT.EncodePayload(Decompose(t).common, Decompose(t).diff, encode);
      Compose(Decomposed(BT.DecodeCommon(vb, decode), BT.DecodeDiff(vb, decode))) == t
  {
    var d := Decompose(t);
    BT.PayloadLayoutRoundTrip(d.common, d.diff, encode, decode);
    ComposeDecompose(t);
  }

  class CalibrateAnticogging {
    var acDegreeAxis: seq<real>
    var acFreqAxis: seq<real>
    var acDataForward: seq<real>
    var acDataReverse: seq<real>
    var acSampleCounter: int
    const fft: FFT
    const ifft: IFFT

    ghost predicate Valid()
      reads this
    {
      && |acDegreeAxis| == A.Positions && |acFreqAxis| == Bins
      && |acDataForward| == A.Positions && |acDataReverse| == A.Positions
      && fft.Valid() && ifft.Valid() && fft.N == A.Positions && ifft.N == A.Positions
    }

    /** The raw table as a value. */
    function Table(): Sampled
      reads this
    {
      Sampled(acDataForward, acDataReverse)
    }

    /** The widget's constructor: 3600-point transforms, a degree axis in steps of
        0.1, a frequency axis 0, 1, ..., 1800, a zero table and a zero counter. */
    constructor (r2c: R2CPlan, c2r: C2RPlan)
      ensures Valid() && fft.plan == r2c && ifft.plan == c2r
      ensures forall i :: 0 <= i < A.Positions ==> acDegreeAxis[i] == (i as real) / 10.0
      ensures forall i :: 0 <= i < Bins ==> acFreqAxis[i] == i as real
      ensures forall i :: 0 <= i < A.Positions ==> acDataForward[i] == 0.0 && acDataReverse[i] == 0.0
      ensures acSampleCounter == 0
    {
      fft := new FFT(A.Positions, r2c);
      ifft := new IFFT(A.Positions, c2r);
      var freq: seq<real> := [];
      for i := 0 to Bins
        invariant |freq| == i
        invariant forall j :: 0 <= j < i ==> freq[j] == j as real
      {
        freq := freq + [i as real];
      }
      var degrees: seq<real> := [];
      for i := 0 to A.Positions
        invariant |degrees| == i
        invariant forall j :: 0 <= j < i ==> degrees[j] == (j as real) / 10.0
      {
        degrees := degrees + [(i as real) / 10.0];
      }
      acFreqAxis := freq;
      acDegreeAxis := degrees;
      acDataForward := seq(A.Positions, _ => 0.0);
      acDataReverse := seq(A.Positions, _ => 0.0);
      acSampleCounter := 0;
    }

    /** focAnticoggingCalibrationDataReceived: classifies the event and applies it to
        the table and the counter exactly as the acquisition rule says. */
    method FocAnticoggingCalibrationDataReceived(finish: bool, success: bool, forward: bool, posIndex: int, iq: real)
      returns (outcome: A.SampleOutcome)
      requires Valid()
      modifies this
      ensures Valid()
      ensures outcome == A.Classify(A.SampleEvent(finish, success, forward, posIndex, iq))
      ensures A.Session(acDataForward, acDataReverse, acSampleCounter)
           == A.Receive(old(A.Session(acDataForward, acDataReverse, acSampleCounter)),
                        A.SampleEvent(finish, success, forward, posIndex, iq))
      ensures acDegreeAxis == old(acDegreeAxis) && acFreqAxis == old(acFreqAxis)
    {
      if posIndex < 0 || posIndex > 3600 || !success {
        outcome := A.BadData;
      } else if posIndex != 3600 {
        if forward {
          acDataForward := acDataForward[posIndex := iq];
        } else {
          acDataReverse := acDataReverse[posIndex := iq];
        }
        acSampleCounter := acSampleCounter + 1;
        outcome := A.Stored;
      } else {
        outcome := A.Discarded;
      }
    }

    /** on_startButton_clicked: sends the start command with the attempt and samples
        counts cut to 16 bits, then zeroes the table and the counter. */
    method Start(attempts: int, samplesPerPoint: int, absTolerance: real, tolerance: real)
      returns (cmd: Command)
      requires Valid()
      modifies this
      ensures Valid()
      ensures cmd == CalibrationStart(ToUint16(attempts), ToUint16(samplesPerPoint), absTolerance, tolerance)
      ensures A.Session(acDataForward, acDataReverse, acSampleCounter) == A.Started()
      ensures acDegreeAxis == old(acDegreeAxis) && acFreqAxis == old(acFreqAxis)
    {
      cmd := CalibrationStart(ToUint16(attempts), ToUint16(samplesPerPoint), absTolerance, tolerance);
      acDataForward := seq(A.Positions, _ => 0.0);
      acDataReverse := seq(A.Positions, _ => 0.0);
      acSampleCounter := 0;
    }

    /** on_cancelButton_clicked: zero current, then the cancel signal; the widget's
        own state is not touched. */
    method Cancel() returns (cmds: seq<Command>)
      ensures cmds == [SetCurrent(0.0), CancelDownloadCalData]
    {
      cmds := [SetCurrent(0.0)];
      cmds := cmds + [CancelDownloadCalData];
    }

    /** getDecomposed: the common and differential modes of the raw table. */
    method GetDecomposed() returns (common: seq<real>, diff: seq<real>)
      requires Valid()
      ensures Decomposed(common, diff) == Decompose(Table())
      ensures |common| == A.Positions && |diff| == A.Positions
    {
      common := [];
      for i := 0 to A.Positions
        invariant |common| == i
        invariant forall j :: 0 <= j < i ==> common[j] == (acDataForward[j] + acDataReverse[j]) / 2.0
      {
        common := common + [(acDataForward[i] + acDataReverse[i]) / 2.0];
      }
      diff := [];
      for i := 0 to A.Positions
        invariant |diff| == i
        invariant forall j :: 0 <= j < i ==> diff[j] == (acDataForward[j] - acDataReverse[j]) / 2.0
      {
        diff := diff + [(acDataForward[i] - acDataReverse[i]) / 2.0];
      }
    }

    /** fromDecomposed: writes `common + diff` and `common - diff` over the first
        min(|common|, |diff|) entries of the table; the rest of the table stays. */
    method FromDecomposed(common: seq<real>, diff: seq<real>)
      requires Valid() && Min(|common|, |diff|) <= A.Positions
      modifies this
      ensures Valid()
      ensures var k := Min(|common|, |diff|);
        && acDataForward == Compose(Decomposed(common[..k], diff[..k])).forward + old(acDataForward)[k..]
        && acDataReverse == Compose(Decomposed(common[..k], diff[..k])).reverse + old(acDataReverse)[k..]
      ensures acDegreeAxis == old(acDegreeAxis) && acFreqAxis == old(acFreqAxis)
      ensures acSampleCounter == old(acSampleCounter)
    {
      var k := Min(|common|, |diff|);
      for i := 0 to k
        invariant Valid() && acDataReverse == old(acDataReverse)
        invariant acDegreeAxis == old(acDegreeAxis) && acFreqAxis == old(acFreqAxis)
        invariant acSampleCounter == old(acSampleCounter)
        invariant forall j :: 0 <= j < i ==> acDataForward[j] == common[j] + diff[j]
        invariant forall j :: i <= j < A.Positions ==> acDataForward[j] == old(acDataForward)[j]
      {
        acDataForward := acDataForward[i := common[i] + diff[i]];
      }
      for i := 0 to k
        invariant Valid()
        invariant acDegreeAxis == old(acDegreeAxis) && acFreqAxis == old(acFreqAxis)
        invariant acSampleCounter == old(acSampleCounter)
        invariant forall j :: 0 <= j < k ==> acDataForward[j] == common[j] + diff[j]
        invariant forall j :: k <= j < A.Positions ==> acDataForward[j] == old(acDataForward)[j]
        invariant forall j :: 0 <= j < i ==> acDataReverse[j] == common[j] - diff[j]
        invariant forall j :: i <= j < A.Positions ==> acDataReverse[j] == old(acDataReverse)[j]
      {
        acDataReverse := acDataReverse[i := common[i] - diff[i]];
      }
      var composed := Compose(Decomposed(common[..k], diff[..k]));
      assert acDataForward == composed.forward + old(acDataForward)[k..];
      assert acDataReverse == composed.reverse + old(acDataReverse)[k..];
    }

    /** getFFT: the magnitudes of the half spectra of both modes. */
    method GetFft(magnitude: Complex -> real) returns (cmAbs: seq<real>, dmAbs: seq<real>)
      requires Valid()
      modifies fft.inBuf, fft.outBuf
      ensures cmAbs == Magnitudes(Forward(A.Positions, fft.plan, Decompose(Table()).common), magnitude)
      ensures dmAbs == Magnitudes(Forward(A.Positions, fft.plan, Decompose(Table()).diff), magnitude)
      ensures |cmAbs| == Bins && |dmAbs| == Bins
    {
      var common, diff := GetDecomposed();
      var cmSpectrum := fft.Transform(common);
      var dmSpectrum := fft.Transform(diff);
      cmAbs := FFT.GetAbs(cmSpectrum, magnitude);
      dmAbs := FFT.GetAbs(dmSpectrum, magnitude);
    }

    /** getFiltered: both modes through the forward transform, the low-pass filter at
        their own cutoffs and the inverse transform; the filtered spectra's magnitudes,
        the filtered modes and the filtered forward/reverse rows composed from them. */
    method GetFiltered(cmCut: nat, dmCut: nat, magnitude: Complex -> real)
      returns (cmAbs: seq<real>, dmAbs: seq<real>, cmFiltered: seq<real>, dmFiltered: seq<real>,
               fwdFiltered: seq<real>, revFiltered: seq<real>)
      requires Valid()
      modifies fft.inBuf, fft.outBuf, ifft.inBuf, ifft.outBuf
      ensures var d := Decompose(Table());
        && cmAbs == Magnitudes(FilteredSpectrum(d.common, cmCut, fft.plan), magnitude)
        && dmAbs == Magnitudes(FilteredSpectrum(d.diff, dmCut, fft.plan), magnitude)
      ensures Decomposed(cmFiltered, dmFiltered) == FilteredModes(Table(), cmCut, dmCut, fft.plan, ifft.plan)
      ensures Sampled(fwdFiltered, revFiltered) == Compose(Decomposed(cmFiltered, dmFiltered))
    {
      var common, diff := GetDecomposed();
      var cmSpectrum := fft.Transform(common);
      var dmSpectrum := fft.Transform(diff);
      var cmLow := FilterInPlace(cmSpectrum, cmCut);
      var dmLow := FilterInPlace(dmSpectrum, dmCut);
      cmFiltered := ifft.Transform(cmLow);
      dmFiltered := ifft.Transform(dmLow);
      cmAbs := FFT.GetAbs(cmLow, magnitude);
      dmAbs := FFT.GetAbs(dmLow, magnitude);
      fwdFiltered, revFiltered := ComposeRows(cmFiltered, dmFiltered);
    }

    /** applyLowPassFilter on a vector of coefficients, in place. */
    static method FilterInPlace(spectrum: seq<Complex>, cut: nat) returns (low: seq<Complex>)
      ensures low == LowPass(spectrum, cut)
    {
      var bins := new Complex[|spectrum|](i requires 0 <= i < |spectrum| => spectrum[i]);
      assert bins[..] == spectrum;
      FFT.ApplyLowPassFilter(bins, cut);
      low := bins[..];
    }

    /** The last step of getFiltered: forward is `common + diff`, reverse is
        `common - diff`, element by element. */
    static method ComposeRows(common: seq<real>, diff: seq<real>) returns (fwd: seq<real>, rev: seq<real>)
      requires |common| == |diff|
      ensures Sampled(fwd, rev) == Compose(Decomposed(common, diff))
    {
      fwd := [];
      for i := 0 to |common|
        invariant |fwd| == i
        invariant forall j :: 0 <= j < i ==> fwd[j] == common[j] + diff[j]
      {
        fwd := fwd + [common[i] + diff[i]];
      }
      rev := [];
      for i := 0 to |common|
        invariant |rev| == i
        invariant forall j :: 0 <= j < i ==> rev[j] == common[j] - diff[j]
      {
        rev := rev + [common[i] - diff[i]];
      }
    }

    /** on_readCalDataButton_clicked: the START request, then ONGOING requests until
        28800 bytes are gathered, following the read-back protocol; a completed read
        replaces the table by the composition of the decoded common and differential
        modes, a timed-out or refused one leaves it as it was. */
    method ReadCalData(replies: seq<BT.WaitResult>, decode: BT.Float32Decoder)
      returns (requests: seq<BT.ReadRequest>, outcome: BT.ReadOutcome)
      requires Valid()
      modifies this
      ensures Valid()
      ensures BT.ReadTrace(requests, outcome) == BT.ReadBack(replies)
      ensures outcome.ReadComplete? ==> |outcome.data| >= BT.PayloadBytes
      ensures outcome.ReadComplete? ==>
        Table() == Compose(Decomposed(BT.DecodeCommon(outcome.data, decode), BT.DecodeDiff(outcome.data, decode)))
      ensures !outcome.ReadComplete? ==> Table() == old(Table())
      ensures acDegreeAxis == old(acDegreeAxis) && acFreqAxis == old(acFreqAxis)
      ensures acSampleCounter == old(acSampleCounter)
    {
      requests := [BT.ReadRequest(BT.Start, 0, 0)];
      var first := BT.Reply(replies, 0);
      if first.Timeout? {
        outcome := BT.ReadTimedOut;
        return;
      } else if first.Error? {
        outcome := BT.NoValidData;
        return;
      }
      var data: seq<BT.byte> := [];
      var k := 1;
      while |data| < BT.PayloadBytes
        invariant 1 <= k <= |replies|
        invariant BT.ReadBack(replies)
               == BT.ReadTrace(requests + BT.ReadLoop(data, replies, k).requests, BT.ReadLoop(data, replies, k).outcome)
        decreases |replies| - k
      {
        var request := BT.ReadRequest(BT.Ongoing, |data|, Min(BT.ChunkMax, BT.PayloadBytes - |data|));
        var reply := BT.Reply(replies, k);
        requests := requests + [request];
        match reply {
          case Timeout =>
            outcome := BT.ReadTimedOut;
            return;
          case Error =>
            outcome := BT.NoValidData;
            return;
          case Ok(payload) =>
            assert BT.ReadLoop(data, replies, k).requests == [request] + BT.ReadLoop(data + payload, replies, k + 1).requests;
            data := data + payload;
            k := k + 1;
        }
      }
      outcome := BT.ReadComplete(data);
      var common: seq<real> := [];
      for i := 0 to A.Positions
        invariant |common| == i
        invariant forall j :: 0 <= j < i ==>
          common[j] == decode(data[BT.ValueBytes * j .. BT.ValueBytes * j + BT.ValueBytes])
      {
        common := common + [decode(data[BT.ValueBytes * i .. BT.ValueBytes * i + BT.ValueBytes])];
      }
      var base := A.Positions * BT.ValueBytes;
      var diff: seq<real> := [];
      for i := 0 to A.Positions
        invariant |diff| == i
        invariant forall j :: 0 <= j < i ==>
          diff[j] == decode(data[base + BT.ValueBytes * j .. base + BT.ValueBytes * j + BT.ValueBytes])
      {
        diff := diff + [decode(data[base + BT.ValueBytes * i .. base + BT.ValueBytes * i + BT.ValueBytes])];
      }
      assert common == BT.DecodeCommon(data, decode);
      assert diff == BT.DecodeDiff(data, decode);
      FromDecomposed(common, diff);
      assert common[..A.Positions] == common && diff[..A.Positions] == diff;
    }

    /** on_downloadCalDataButton_clicked: the START request; once acknowledged, the
        modes to send (filtered or raw), encoded as 28800 bytes, go out in chunks of
        at most 500 at their byte offsets, and the END request follows once every
        chunk is acknowledged; the first missing acknowledgement ends the upload. */
    method DownloadCalData(acks: seq<bool>, filtered: bool, cmCut: nat, dmCut: nat,
                           encode: BT.Float32Encoder, magnitude: Complex -> real)
      returns (requests: seq<BT.UploadRequest>, outcome: BT.UploadOutcome)
      requires Valid()
      modifies fft.inBuf, fft.outBuf, ifft.inBuf, ifft.outBuf
      ensures var m := UploadModes(Table(), filtered, cmCut, dmCut, fft.plan, ifft.plan);
        BT.UploadTrace(requests, outcome) == BT.Upload(BT.EncodePayload(m.common, m.diff, encode), acks)
    {
      requests := [BT.UploadRequest(BT.Start, 0, [])];
      if !BT.Ack(acks, 0) {
        outcome := BT.UploadFailed;
        return;
      }
      var cmDownload, dmDownload;
      if filtered {
        var cmAbs, dmAbs, fwd, rev;
        cmAbs, dmAbs, cmDownload, dmDownload, fwd, rev := GetFiltered(cmCut, dmCut, magnitude);
      } else {
        cmDownload, dmDownload := GetDecomposed();
      }
      ghost var m := UploadModes(Table(), filtered, cmCut, dmCut, fft.plan, ifft.plan);
      assert cmDownload == m.common && dmDownload == m.diff;
      var vb := EncodeModes(cmDownload, dmDownload, encode);
      var chunks := BT.Chunks(vb);
      var ongoing, ok := SendLoop(chunks, acks);
      requests := requests + ongoing;
      if !ok {
        outcome := BT.UploadFailed;
        return;
      }
      requests := requests + [BT.UploadRequest(BT.End, 0, [])];
      outcome := if BT.Ack(acks, 1 + |chunks|) then BT.UploadComplete else BT.UploadFailed;
    }

    /** The two append loops: every common-mode value, then every differential-mode
        value, as four bytes each. */
    static method EncodeModes(common: seq<real>, diff: seq<real>, encode: BT.Float32Encoder)
      returns (vb: seq<BT.byte>)
      requires |common| == A.Positions && |diff| == A.Positions
      ensures vb == BT.EncodePayload(common, diff, encode)
    {
      vb := [];
      for i := 0 to |common|
        invariant vb == BT.Encode(common[..i], encode)
      {
        assert common[..i + 1] == common[..i] + [common[i]];
        BT.EncodeAppend(common[..i], [common[i]], encode);
        vb := vb + encode(common[i]);
      }
      assert common[..|common|] == common;
      for i := 0 to |diff|
        invariant vb == BT.Encode(common, encode) + BT.Encode(diff[..i], encode)
      {
        assert diff[..i + 1] == diff[..i] + [diff[i]];
        BT.EncodeAppend(diff[..i], [diff[i]], encode);
        vb := vb + encode(diff[i]);
      }
      assert diff[..|diff|] == diff;
    }

    /** The chunk loop: each chunk goes out at the running offset, acknowledgement
        1 + j answers chunk j, and the loop stops at the first one missing. */
    static method SendLoop(chunks: seq<seq<BT.byte>>, acks: seq<bool>) returns (ongoing: seq<BT.UploadRequest>, ok: bool)
      ensures (ongoing, ok) == BT.SendChunks(chunks, 0, acks, 1)
    {
      ongoing := [];
      var offset: nat := 0;
      assert chunks[0..] == chunks;
      assert ongoing + BT.SendChunks(chunks, 0, acks, 1).0 == BT.SendChunks(chunks, 0, acks, 1).0;
      for j := 0 to |chunks|
        invariant var rest := BT.SendChunks(chunks[j..], offset, acks, 1 + j);
          BT.SendChunks(chunks, 0, acks, 1) == (ongoing + rest.0, rest.1)
      {
        ghost var rest := BT.SendChunks(chunks[j..], offset, acks, 1 + j);
        var request := BT.UploadRequest(BT.Ongoing, offset, chunks[j]);
        assert chunks[j..][0] == chunks[j] && chunks[j..][1..] == chunks[j + 1..];
        if !BT.Ack(acks, 1 + j) {
          assert rest == ([request], false);
          return ongoing + [request], false;
        }
        ghost var next := BT.SendChunks(chunks[j + 1..], offset + |chunks[j]|, acks, 2 + j);
        assert rest == ([request] + next.0, next.1);
        assert ongoing + rest.0 == (ongoing + [request]) + next.0;
        ongoing := ongoing + [request];
        offset := offset + |chunks[j]|;
      }
      assert chunks[|chunks|..] == [];
      assert ongoing + BT.SendChunks([], offset, acks, 1 + |chunks|).0 == ongoing;
      ok := true;
    }

    /** on_actionImportCSV_triggered: the chosen name gets ".csv" when it lacks it;
        the header line must match and all 3600 rows must be well formed, and only
        then are the axis and both rows replaced, all at once. */
    method ImportCsv(dialogResult: string, canOpen: bool, headerLine: string, rows: seq<Csv.RowTokens>)
      returns (status: ImportStatus)
      requires Valid()
      modifies this
      ensures Valid()
      ensures status == ImportCancelled <==> FN.ChosenFile(dialogResult, ".csv") == None
      ensures status.ImportOpenFailed? <==> FN.ChosenFile(dialogResult, ".csv").Some? && !canOpen
      ensures status.Imported? <==>
        FN.ChosenFile(dialogResult, ".csv").Some? && canOpen && Csv.Import(headerLine, rows).Some?
      ensures status != ImportCancelled ==> status.fileName == FN.ChosenFile(dialogResult, ".csv").value
      ensures status.Imported? ==>
        Csv.Import(headerLine, rows) == Some(Csv.CsvTable(acDegreeAxis, acDataForward, acDataReverse))
      ensures !status.Imported? ==>
        acDegreeAxis == old(acDegreeAxis) && Table() == old(Table())
      ensures acFreqAxis == old(acFreqAxis) && acSampleCounter == old(acSampleCounter)
    {
      var chosen := FN.ChosenFile(dialogResult, ".csv");
      if chosen.None? {
        return ImportCancelled;
      }
      var fileName := chosen.value;
      if !canOpen {
        return ImportOpenFailed(fileName);
      }
      var table := ReadRows(headerLine, rows);
      if table.None? {
        return ImportParseFailed(fileName);
      }
      acDegreeAxis := table.value.axis;
      acDataForward := table.value.forward;
      acDataReverse := table.value.reverse;
      status := Imported(fileName);
    }

    /** The header check and the row loop of the import, into new vectors; the first
        refused row ends the loop. */
    static method ReadRows(headerLine: string, rows: seq<Csv.RowTokens>) returns (t: Option<Csv.CsvTable>)
      ensures t == Csv.Import(headerLine, rows)
    {
      if headerLine != Csv.Header {
        return None;
      }
      var newDegreeAxis: seq<real> := [];
      var newDataForward: seq<real> := [];
      var newDataReverse: seq<real> := [];
      for i := 0 to Csv.Rows
        invariant |newDegreeAxis| == i && |newDataForward| == i && |newDataReverse| == i
        invariant forall j :: 0 <= j < i ==> Csv.RowAccepted(Csv.RowAt(rows, j))
        invariant forall j :: 0 <= j < i ==>
          && newDegreeAxis[j] == Csv.RowAt(rows, j).pos
          && newDataForward[j] == Csv.RowAt(rows, j).forward
          && newDataReverse[j] == Csv.RowAt(rows, j).reverse
      {
        var row := Csv.RowAt(rows, i);
        newDegreeAxis := newDegreeAxis + [row.pos];
        newDataForward := newDataForward + [row.forward];
        newDataReverse := newDataReverse + [row.reverse];
        if !Csv.RowAccepted(row) {
          return None;
        }
      }
      t := Some(Csv.CsvTable(newDegreeAxis, newDataForward, newDataReverse));
      var expected := Csv.Import(headerLine, rows);
      assert expected.Some?;
      assert expected.value.axis == newDegreeAxis;
      assert expected.value.forward == newDataForward;
      assert expected.value.reverse == newDataReverse;
    }

    /** The row loop of the export: one row per entry of the axis, in order. */
    static method ExportLoop(t: Csv.CsvTable) returns (rows: seq<Csv.RowTokens>)
      requires |t.forward| == |t.axis| && |t.reverse| == |t.axis|
      ensures rows == Csv.Export(t).1
    {
      rows := [];
      for i := 0 to |t.axis|
        invariant |rows| == i
        invariant forall j :: 0 <= j < i ==> rows[j] == Csv.ExportRow(t.axis[j], t.forward[j], t.reverse[j])
      {
        rows := rows + [Csv.ExportRow(t.axis[i], t.forward[i], t.reverse[i])];
      }
    }

    /** on_actionExportCSV_triggered: the chosen name gets ".csv" when it lacks it;
        the file then holds the header line and one row per entry of the axis. */
    method ExportCsv(dialogResult: string, canOpen: bool) returns (status: ExportStatus)
      requires Valid()
      ensures status == ExportCancelled <==> FN.ChosenFile(dialogResult, ".csv") == None
      ensures status.ExportOpenFailed? <==> FN.ChosenFile(dialogResult, ".csv").Some? && !canOpen
      ensures status != ExportCancelled ==> status.fileName == FN.ChosenFile(dialogResult, ".csv").value
      ensures status.Exported? ==>
        (status.headerLine, status.rows) == Csv.Export(Csv.CsvTable(acDegreeAxis, acDataForward, acDataReverse))
    {
      var chosen := FN.ChosenFile(dialogResult, ".csv");
      if chosen.None? {
        return ExportCancelled;
      }
      if !canOpen {
        return ExportOpenFailed(chosen.value);
      }
      var t := Csv.CsvTable(acDegreeAxis, acDataForward, acDataReverse);
      var rows := ExportLoop(t);
      status := Exported(chosen.value, Csv.Header, rows);
    }
  }
}
