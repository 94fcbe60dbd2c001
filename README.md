# Anticogging calibration and log analysis (VESC Tool), modelled in Dafny

VESC Tool is the desktop companion of the VESC motor controller. This project models two
parts of it.

The **anticogging calibration widget** keeps a table of q-axis currents, one forward and
one reverse value per tenth of a degree (3600 positions). The controller fills the table
with sample events. The widget shows it as common and differential modes, filters each
mode with a low-pass filter in the frequency domain, uploads the modes to the controller
as 28800 bytes in blocks of at most 500, reads them back the same way, and saves or
loads the raw table as a CSV file. The FFT and IFFT wrappers around FFTW do the
transforms: a real-to-complex transform to N/2+1 bins, and the inverse scaled by 1/N.

The **log analysis page** cuts a recorded log to the span chosen on a slider, picks the
rows it plots on the map (GNSS fixes, with repeated or inaccurate fixes skipped), looks up
the row at a given playback time, browses the controller's log files with its file-list and file-read requests, and gives saved map
files their `.pdf` or `.png` extension.

Modules, one per concern:
- `Wrappers` (`wrappers.dfy`): `Option` and `Min`.
- `FileNames` (`file_names.dfy`): ASCII lower-casing and the "append the extension unless
  the name already ends in it" rule of the CSV import and export dialogs and the map's
  PDF and PNG save dialogs.
- `Spectrum` (`spectrum.dfy`): the `FFT` and `IFFT` classes. Each has the buffers and the
  plan of `fftw3wrapper.h`. A plan is a parameter that gives coefficient k of the
  transform of a buffer. `LowPass` is the filter as a function.
- `Decomposition` (`decomposition.dfy`): forward/reverse against common/differential.
- `Acquisition` (`acquisition.dfy`): the sample-event handler and calibration start as a
  state machine over a `Session` value.
- `BlockTransfer` (`block_transfer.dfy`): the read-back and upload protocols as traces of
  the requests sent, driven by the sequence of device replies. Also the byte layout of
  the payload: 3600 common-mode values, then 3600 differential-mode values, 4 bytes each.
- `CsvCodec` (`csv_codec.dfy`): the CSV file as a header line plus tokenised rows.
- `Anticogging` (`calibrate_anticogging.dfy`): the widget class `CalibrateAnticogging`.
  Its QVector members are `seq<real>` fields that its methods reassign. The source's
  methods replace a vector, write a single cell (the sample handler) or write a prefix
  (fromDecomposed); a QVector member has value semantics, so a `seq<real>` field
  describes the same new state. Its methods are proved against
  the functions of the modules above.
- `LogAnalysis` (`log_analysis.dfy`): the page class `PageLogAnalysis`, holding the log,
  the truncated log, the column indices and `mVescLastPath`.

The device link, the timers and the file dialogs are not modelled as such. A device's
replies or acknowledgements come in as a sequence, and running out of them is a timeout.
The commands sent come back as a list of request values. A dialog's choice, and whether
a file opens, are plain parameters.

The CSV import checks only the separator after the forward current, the line end and the
stream status. The separator read after the position is overwritten before the check, so
it is never tested. `CsvCodec.FirstSeparatorIgnored` states this behaviour of the code.

## Model

| member | source | states |
|---|---|---|
| `FileNames.ToLower` | pages/pageloganalysis.cpp:895 | lower-casing keeps the length and maps each character to its ASCII lower case |
| `FileNames.LowerChar` | pages/pageloganalysis.cpp:895 | the case mapping of one character: 'A' to 'Z' become 'a' to 'z', every other character stays; `FileNames.ToLower` applies it to each character |
| `FileNames.EndsWith` | pages/pageloganalysis.cpp:895 | the name's last characters are the suffix, as `QString::endsWith` tests; `FileNames.WithExtension` decides on it |
| `FileNames.ToLowerAppend` | pages/pageloganalysis.cpp:895-897 | lower-casing a name with an extension appended is the lowered name followed by the lowered extension |
| `FileNames.WithExtension` | pages/pageloganalysis.cpp:895-897 | the name is kept or has the extension appended; a lower-case extension ends the lowered result; a name already ending in it (any case) is kept unchanged |
| `FileNames.WithExtensionIdempotent` | pages/pageloganalysis.cpp:895-897 | adding the extension a second time changes nothing |
| `FileNames.ChosenFile` | widgets/calibrateanticogging.cpp:526-534 | no file exactly when the dialog returns an empty name; otherwise the result is the chosen name or the name with the extension appended, it is kept when it already ends in the extension in any case, and for a lower-case extension its lower-cased form ends in it |
| `Spectrum.Zeros` | fftw3wrapper.h:50 | a vector of n zero coefficients |
| `Spectrum.LowPass` | fftw3wrapper.h:48-51 | keeps the length, keeps every coefficient below the cutoff, zeroes every one at or above it |
| `Spectrum.LowPassBeyondEnd` | fftw3wrapper.h:48-51 | a cutoff at or past the length leaves the spectrum unchanged |
| `Spectrum.LowPassZeroCutoff` | fftw3wrapper.h:48-51 | a cutoff of 0 zeroes the whole spectrum |
| `Spectrum.LowPassIdempotent` | fftw3wrapper.h:48-51 | filtering twice with one cutoff equals filtering once |
| `Spectrum.LowPassCompose` | fftw3wrapper.h:48-51 | filtering with two cutoffs in turn equals filtering with the smaller one |
| `Spectrum.InverseIgnoresTail` | fftw3wrapper.h:73-78 | the inverse transform reads only the first N/2+1 input coefficients |
| `Spectrum.Magnitudes` | fftw3wrapper.h:40-47 | the reference for getAbs: the magnitude of every coefficient, in order; `Spectrum.FFT.GetAbs` is proved equal to it |
| `Spectrum.Forward` | fftw3wrapper.h:22-39 | the reference for the forward transform: the N/2+1 coefficients the real-to-complex plan gives for a row; `Spectrum.FFT.Transform` is proved equal to it |
| `Spectrum.Inverse` | fftw3wrapper.h:73-90 | the reference for the inverse transform: N samples of the complex-to-real plan on the first N/2+1 coefficients, each divided by N; `Spectrum.IFFT.Transform` is proved equal to it and `Spectrum.InverseIgnoresTail` shows it reads no further |
| `Spectrum.FFT.constructor` | fftw3wrapper.h:10-14 | a transform of size n with an n-sample input buffer and an n/2+1 output buffer |
| `Spectrum.FFT.Execute` | fftw3wrapper.h:30 | the output buffer holds the plan's coefficients of the input buffer, and the input buffer is untouched |
| `Spectrum.FFT.Transform` | fftw3wrapper.h:22-39 | the result has N/2+1 bins and equals the forward transform of the input |
| `Spectrum.FFT.GetAbs` | fftw3wrapper.h:40-47 | the result has the length of the input, and element i is the magnitude of coefficient i |
| `Spectrum.FFT.ApplyLowPassFilter` | fftw3wrapper.h:48-51 | the array afterwards holds the low-pass filtered old contents |
| `Spectrum.IFFT.constructor` | fftw3wrapper.h:61-65 | an inverse transform of size n with an n/2+1 input buffer and an n-sample output buffer |
| `Spectrum.IFFT.Execute` | fftw3wrapper.h:81 | the output buffer holds the plan's samples of the input buffer as it was before the call; the input buffer may be overwritten, as a complex-to-real plan may destroy its input |
| `Spectrum.IFFT.Transform` | fftw3wrapper.h:73-90 | the result has N samples and equals the plan's inverse of the first N/2+1 input bins, divided by N |
| `Decomposition.DecomposeAt` | widgets/calibrateanticogging.cpp:415-427 | the common mode at i is the mean of forward and reverse; the differential mode at i is half their difference |
| `Decomposition.ComposeDecompose` | widgets/calibrateanticogging.cpp:415-438 | composing the decomposition of a table gives back the table |
| `Decomposition.DecomposeCompose` | widgets/calibrateanticogging.cpp:415-438 | decomposing a composed pair of modes gives back the modes |
| `Decomposition.ComposePrefix` | widgets/calibrateanticogging.cpp:428-438 | composing the first k values of the modes gives the first k rows of the composed table |
| `Decomposition.Decompose` | widgets/calibrateanticogging.cpp:415-427 | getDecomposed as a function: the common and differential mode of a table, row by row; `Decomposition.DecomposeAt` gives its values and `Decomposition.ComposeDecompose` its inverse |
| `Decomposition.Compose` | widgets/calibrateanticogging.cpp:428-438 | fromDecomposed as a function: forward is common plus differential, reverse is common minus differential; `Decomposition.DecomposeCompose` shows it inverts `Decomposition.Decompose` |
| `Acquisition.Classify` | widgets/calibrateanticogging.cpp:67-81 | an event is bad data exactly when it is unsuccessful or its index is outside [0, 3600]; it is discarded exactly when it is successful at index 3600; it is stored exactly when it is successful at an index in [0, 3600); the finish flag plays no part |
| `Acquisition.Receive` | widgets/calibrateanticogging.cpp:66-84 | handling one event keeps both tables at 3600 cells; what it writes is stated by `Acquisition.ReceiveAt` and `Acquisition.NotStoredChangesNothing` |
| `Acquisition.Started` | widgets/calibrateanticogging.cpp:92-97 | starting a calibration zeroes both directions' 3600 cells and the counter |
| `Acquisition.ReceiveAll` | widgets/calibrateanticogging.cpp:66-84 | handling a stream of events one at a time keeps both tables at 3600 cells |
| `Acquisition.NotStoredChangesNothing` | widgets/calibrateanticogging.cpp:67-72 | bad events and the discarded index 3600 change no cell and not the counter |
| `Acquisition.ReceiveAt` | widgets/calibrateanticogging.cpp:72-80 | an event writes cell i of a direction exactly when it is stored there, and the counter grows by one exactly when it is stored |
| `Acquisition.CounterCountsStored` | widgets/calibrateanticogging.cpp:80 | after a stream the counter has grown by the number of stored events |
| `Acquisition.CellHoldsLatest` | widgets/calibrateanticogging.cpp:74-79 | after a stream each cell holds the current of the last stored event that wrote it, or its old value |
| `Acquisition.RejectedStreamChangesNothing` | widgets/calibrateanticogging.cpp:67-72 | a stream with no storable event leaves the session unchanged |
| `Acquisition.UntouchedCellIsZero` | widgets/calibrateanticogging.cpp:86-100 | after a start, a cell no stored event wrote stays 0 |
| `Acquisition.LatestWithoutWrites` | widgets/calibrateanticogging.cpp:74-79 | with no write to a cell, its latest value is its initial value |
| `Acquisition.StoredCount` | widgets/calibrateanticogging.cpp:72-80 | the reference count: the number of events of a stream that the handler stores, independent of `Acquisition.Receive`; `Acquisition.CounterCountsStored` ties the counter to it |
| `Acquisition.Writes` | widgets/calibrateanticogging.cpp:72-79 | whether an event stores its current into a given direction at a given index |
| `Acquisition.Latest` | widgets/calibrateanticogging.cpp:72-79 | the reference fold: the current of the last event of a stream that writes a cell, or the cell's initial value; `Acquisition.CellHoldsLatest` ties the table to it |
| `BlockTransfer.ReadLoopShape` | widgets/calibrateanticogging.cpp:160-180 | each ONGOING request asks at the byte count gathered so far, for at most 500 bytes and never past the payload; the loop stops at the first failed reply and reports timeout or refusal by its kind; a completed loop holds every reply's bytes in order |
| `BlockTransfer.ReadBackShape` | widgets/calibrateanticogging.cpp:141-180 | the read-back opens with START(0,0); then the loop's properties hold, and a completed read gathers all 28800 bytes or more |
| `BlockTransfer.ExactLoop` | widgets/calibrateanticogging.cpp:160-180 | against replies of exactly the size asked, the loop from block k completes with 28800 bytes after 59-k requests at offsets 500·(k-1+j) |
| `BlockTransfer.ExactDeviceReadsAll` | widgets/calibrateanticogging.cpp:141-180 | against such a device the read-back sends START and 58 ONGOING requests at offsets 0, 500, …, 28500, and completes with the whole payload |
| `BlockTransfer.Reply` | widgets/calibrateanticogging.cpp:115-140 | the wait for the reply to request k: the device's answer, or a timeout when it sends nothing before the 3000 ms timer fires |
| `BlockTransfer.Received` | widgets/calibrateanticogging.cpp:165-170 | the bytes of replies k to m-1, appended in order as the loop copies them |
| `BlockTransfer.ReadLoop` | widgets/calibrateanticogging.cpp:160-180 | the trace of the ONGOING loop from a gathered byte count; its properties are `BlockTransfer.ReadLoopShape` and `BlockTransfer.ExactLoop` |
| `BlockTransfer.ReadBack` | widgets/calibrateanticogging.cpp:141-180 | the trace of the whole read-back, START request included; its properties are `BlockTransfer.ReadBackShape` and `BlockTransfer.ExactDeviceReadsAll` |
| `BlockTransfer.ChunksShape` | widgets/calibrateanticogging.cpp:248-250 | every chunk has 1 to 500 bytes, all but the last have exactly 500, and together they spell the payload |
| `BlockTransfer.ChunksPrefix` | widgets/calibrateanticogging.cpp:250-256 | the chunks before chunk j hold exactly the first 500·j bytes |
| `BlockTransfer.PayloadChunks` | widgets/calibrateanticogging.cpp:244-258 | the 28800-byte payload splits into 58 chunks: 57 of 500 bytes and a last one of 300 |
| `BlockTransfer.SendChunksOffsets` | widgets/calibrateanticogging.cpp:250-258 | chunk j is sent as an ONGOING request at the offset of all bytes before it |
| `BlockTransfer.SendChunksAcks` | widgets/calibrateanticogging.cpp:250-258 | sending stops right after the first unacknowledged chunk; it succeeds exactly when every chunk was acknowledged |
| `BlockTransfer.UploadOffsets` | widgets/calibrateanticogging.cpp:216-258 | the upload opens with START and sends the chunks in order at offsets 0, 500, 1000, … |
| `BlockTransfer.UploadAcks` | widgets/calibrateanticogging.cpp:216-270 | a request goes out only after all earlier ones were acknowledged; END is sent exactly when START and every chunk were acknowledged; the upload is complete exactly when END is acknowledged too |
| `BlockTransfer.Ack` | widgets/calibrateanticogging.cpp:198-213 | the wait for the acknowledgement of request k: the device's answer, or false when the timer fires first |
| `BlockTransfer.Chunks` | widgets/calibrateanticogging.cpp:250 | the 500-byte chunking of the payload; its shape is `BlockTransfer.ChunksShape` |
| `BlockTransfer.SendChunks` | widgets/calibrateanticogging.cpp:250-258 | the ONGOING requests for the chunks and whether all were acknowledged; its properties are `BlockTransfer.SendChunksOffsets` and `BlockTransfer.SendChunksAcks` |
| `BlockTransfer.Upload` | widgets/calibrateanticogging.cpp:216-269 | the trace of the whole upload, START to END; its properties are `BlockTransfer.UploadOffsets` and `BlockTransfer.UploadAcks` |
| `BlockTransfer.Encode` | widgets/calibrateanticogging.cpp:237-242 | the encoding has four bytes per value; where each value's bytes sit is stated by `BlockTransfer.EncodeAt` |
| `BlockTransfer.EncodeAt` | widgets/calibrateanticogging.cpp:237-242 | bytes 4i to 4i+3 of the encoding are the encoding of value i |
| `BlockTransfer.EncodeAppend` | widgets/calibrateanticogging.cpp:237-242 | encoding two lists one after the other equals encoding their concatenation |
| `BlockTransfer.EncodePayload` | widgets/calibrateanticogging.cpp:237-244 | the payload of 3600+3600 values is 28800 bytes, with the common mode first and the differential mode after it |
| `BlockTransfer.DecodeCommon` | widgets/calibrateanticogging.cpp:183-188 | 3600 values; value i is the decoding of bytes 4i to 4i+3 |
| `BlockTransfer.DecodeDiff` | widgets/calibrateanticogging.cpp:189-190 | 3600 values; value i is the decoding of bytes 14400+4i to 14400+4i+3 |
| `BlockTransfer.PayloadLayoutRoundTrip` | widgets/calibrateanticogging.cpp:183-190 | with a value codec that decodes what it encodes, reading back a payload returns the common and differential modes that were encoded |
| `CsvCodec.Import` | widgets/calibrateanticogging.cpp:545-566 | a table is returned exactly when the header line matches and each of the 3600 rows has ',' after the forward current, a line end and a good stream; it then holds the rows' positions and currents in order |
| `CsvCodec.Export` | widgets/calibrateanticogging.cpp:597-603 | the file is the header line followed by one row per position: the position, the forward and the reverse current, separated by commas and ended by a line end |
| `CsvCodec.ExportRows` | widgets/calibrateanticogging.cpp:599-603 | one well-formed row per index, holding that index's three values |
| `CsvCodec.ExportImportRoundTrip` | widgets/calibrateanticogging.cpp:545-603 | importing an exported 3600-row table gives back the same table |
| `CsvCodec.OneBadRowRejects` | widgets/calibrateanticogging.cpp:559-561 | one refused or missing row among the first 3600 makes the whole import fail |
| `CsvCodec.FirstSeparatorIgnored` | widgets/calibrateanticogging.cpp:553-559 | the character after the position has no effect on the import |
| `CsvCodec.RowAccepted` | widgets/calibrateanticogging.cpp:559 | the row check: the second separator is ',', the terminator is a line end and the stream is good |
| `CsvCodec.RowAt` | widgets/calibrateanticogging.cpp:550-559 | the tokens of row i; a row missing from the file reads with the stream not good |
| `CsvCodec.ExportRow` | widgets/calibrateanticogging.cpp:600-602 | the tokens an exported row reads back as: its three values, ',' separators and a line end |
| `Anticogging.ToUint16` | widgets/calibrateanticogging.cpp:86-100 | the result is in [0, 65536), agrees with the input modulo 2^16, and equals it when it is already in range |
| `Anticogging.FilteredShape` | widgets/calibrateanticogging.cpp:459-466 | a filtered spectrum has 1801 bins: those below the cutoff from the transform, the rest zero; a filtered mode has 3600 samples |
| `Anticogging.FullBandFilterIsIdentity` | widgets/calibrateanticogging.cpp:449-480 | when both cutoffs reach the last bin and the plans invert each other on both modes, composing the filtered modes gives back the table |
| `Anticogging.UploadThenReadBackRestores` | widgets/calibrateanticogging.cpp:183-244 | with a value codec that is exact on the modes, decoding the unfiltered payload (the filter box not ticked) and composing it gives back the table |
| `Anticogging.FilteredSpectrum` | widgets/calibrateanticogging.cpp:459-463 | a mode's forward transform, low-pass filtered at the cutoff; `Anticogging.FilteredShape` gives its bins |
| `Anticogging.FilteredMode` | widgets/calibrateanticogging.cpp:459-466 | a mode after the forward transform, the filter and the inverse transform |
| `Anticogging.FilteredModes` | widgets/calibrateanticogging.cpp:449-480 | the reference for getFiltered's filtered modes, each with its own cutoff; `Anticogging.FullBandFilterIsIdentity` states when it returns the table |
| `Anticogging.UploadModes` | widgets/calibrateanticogging.cpp:223-236 | the modes an upload sends: filtered when the cutoff box is ticked, otherwise the raw decomposition |
| `Anticogging.CalibrateAnticogging.constructor` | widgets/calibrateanticogging.cpp:7-50 | the degree axis holds i/10 for each of the 3600 positions, the frequency axis holds 0 to 1800, both current tables hold 3600 zeros, and the counter is 0 |
| `Anticogging.CalibrateAnticogging.FocAnticoggingCalibrationDataReceived` | widgets/calibrateanticogging.cpp:66-84 | the outcome is the event's classification, and the new table and counter are the old session after that event |
| `Anticogging.CalibrateAnticogging.Start` | widgets/calibrateanticogging.cpp:86-100 | sends the start command with attempts and samples cut to 16 bits; the table and counter are a freshly started session |
| `Anticogging.CalibrateAnticogging.Cancel` | widgets/calibrateanticogging.cpp:102-105 | sets the current to zero and then emits the cancel-download signal, in that order, and changes no state |
| `Anticogging.CalibrateAnticogging.GetDecomposed` | widgets/calibrateanticogging.cpp:415-427 | returns the common and differential modes of the current table |
| `Anticogging.CalibrateAnticogging.FromDecomposed` | widgets/calibrateanticogging.cpp:428-438 | the first min(len) rows become the sum and difference of the modes; the later rows keep their values |
| `Anticogging.CalibrateAnticogging.GetFft` | widgets/calibrateanticogging.cpp:439-448 | returns the magnitudes of the forward transforms of both modes, 1801 bins each |
| `Anticogging.CalibrateAnticogging.GetFiltered` | widgets/calibrateanticogging.cpp:449-480 | returns the magnitudes of both filtered spectra, both filtered modes, and the forward/reverse tables composed from them |
| `Anticogging.CalibrateAnticogging.FilterInPlace` | widgets/calibrateanticogging.cpp:462-463 | returns the low-pass filtered spectrum |
| `Anticogging.CalibrateAnticogging.ComposeRows` | widgets/calibrateanticogging.cpp:470-479 | returns the forward and reverse tables composed from the two modes |
| `Anticogging.CalibrateAnticogging.ReadCalData` | widgets/calibrateanticogging.cpp:107-194 | the requests and outcome are those of the read-back protocol against the replies; on completion the table is the composition of the decoded modes, otherwise it is unchanged |
| `Anticogging.CalibrateAnticogging.DownloadCalData` | widgets/calibrateanticogging.cpp:197-270 | the requests and outcome are those of the upload protocol for the payload of the filtered or raw modes; no state changes |
| `Anticogging.CalibrateAnticogging.EncodeModes` | widgets/calibrateanticogging.cpp:237-244 | returns the payload of the two modes |
| `Anticogging.CalibrateAnticogging.SendLoop` | widgets/calibrateanticogging.cpp:247-258 | returns the chunk requests and success flag of the upload protocol for these chunks |
| `Anticogging.CalibrateAnticogging.ImportCsv` | widgets/calibrateanticogging.cpp:526-575 | cancelled exactly when no file is chosen; an open failure or a parse failure leaves the table unchanged; on success the three vectors are the imported table; the file name is the chosen name with the extension rule applied, so its lower-cased form ends in ".csv" |
| `Anticogging.CalibrateAnticogging.ReadRows` | widgets/calibrateanticogging.cpp:545-566 | returns the import of the header line and rows |
| `Anticogging.CalibrateAnticogging.ExportLoop` | widgets/calibrateanticogging.cpp:599-603 | returns the rows of the export of the table |
| `Anticogging.CalibrateAnticogging.ExportCsv` | widgets/calibrateanticogging.cpp:577-607 | cancelled exactly when no file is chosen; otherwise it fails to open or writes the export of the current table under the chosen name with the extension rule applied, whose lower-cased form ends in ".csv"; no state changes |
| `LogAnalysis.TruncToInt` | pages/pageloganalysis.cpp:828-831 | the C++ double-to-int conversion rounds toward zero: r <= x < r+1 for x >= 0, and r-1 < x <= r for x < 0 |
| `LogAnalysis.FirstOffsetIsZero` | pages/pageloganalysis.cpp:828-834 | the first row's playback offset is 0 |
| `LogAnalysis.Offset` | pages/pageloganalysis.cpp:828-834 | a row's playback offset: its time of day in milliseconds, minus the first row's truncated time, plus a day when that is negative |
| `LogAnalysis.WindowByQuotients` | pages/pageloganalysis.cpp:443-461 | the slider's proportion test on ind/size against alt/10000 and val/10000 is the same as the integer window test |
| `LogAnalysis.InWindow` | pages/pageloganalysis.cpp:443-461 | the slider window with the fractions cleared: alt/10000 <= ind/size <= val/10000 |
| `LogAnalysis.KeptIndices` | pages/pageloganalysis.cpp:456-463 | every kept index is a row index |
| `LogAnalysis.KeptIndicesSpec` | pages/pageloganalysis.cpp:456-463 | kept indices increase strictly, and a row is kept exactly when its 1-based position lies in the slider's window |
| `LogAnalysis.RowsAt` | pages/pageloganalysis.cpp:463 | the rows at the kept indices, in order, as appended to the truncated log |
| `LogAnalysis.PosTime` | pages/pageloganalysis.cpp:467 | a row's fix time in milliseconds, truncated toward zero |
| `LogAnalysis.Step` | pages/pageloganalysis.cpp:466-484 | the skip rule for one kept row: whether it is plotted, and the fix time remembered after it |
| `LogAnalysis.Plot` | pages/pageloganalysis.cpp:456-484 | the plotted row indices among the first n rows and the last remembered fix time, starting from -1; its properties are `LogAnalysis.PlotPointsSpec` and `LogAnalysis.PlotNoRepeatedPosTime` |
| `LogAnalysis.Points` | pages/pageloganalysis.cpp:456-484 | the plotted row indices alone |
| `LogAnalysis.PlotPointsSpec` | pages/pageloganalysis.cpp:456-484 | every plotted row is kept, has latitude and longitude columns, a non-negative fix time and, with the outlier filter on, a horizontal accuracy below the limit; points increase strictly |
| `LogAnalysis.PlotNoRepeatedPosTime` | pages/pageloganalysis.cpp:466-477 | the last fix time remembered is that of the last plotted row, and two consecutive plotted rows have different fix times |
| `LogAnalysis.NoPositionNoPoints` | pages/pageloganalysis.cpp:480-482 | without a latitude or longitude column nothing is plotted |
| `LogAnalysis.CollapseSlashes` | pages/pageloganalysis.cpp:1027 | the result is never longer than the input; the replacement itself is pinned by `LogAnalysis.CollapseSlashesShortens`, `LogAnalysis.CollapseSlashesJoin` and `LogAnalysis.CollapseSlashesNoDouble` |
| `LogAnalysis.CollapseSlashesShortens` | pages/pageloganalysis.cpp:1027 | a path holding "//" comes out strictly shorter: the replacement happens |
| `LogAnalysis.CollapseSlashesJoin` | pages/pageloganalysis.cpp:1026-1027 | joining a path ending in '/' to one starting with '/' (neither holding "//") gives the two with the seam's "//" made a single '/' and nothing else changed |
| `LogAnalysis.IntoDirFromRoot` | pages/pageloganalysis.cpp:1026-1027 | entering a directory `name` without '/' from the root "/" gives "/" + name, not "//" + name |
| `LogAnalysis.CollapseSlashesNoDouble` | pages/pageloganalysis.cpp:1027 | collapsing leaves a path without "//" unchanged |
| `LogAnalysis.NoDoubleSlash` | pages/pageloganalysis.cpp:1027 | the path holds no "//", the case in which the replace does nothing |
| `LogAnalysis.IntoDir` | pages/pageloganalysis.cpp:1026-1027 | entering a directory: the path, '/', the name, with "//" collapsed; `LogAnalysis.IntoDirFromRoot` shows the root's "//" becomes "/", and `LogAnalysis.UpAfterInto` shows going up undoes it |
| `LogAnalysis.LastSlash` | pages/pageloganalysis.cpp:1050-1051 | -1 when the path has no '/', otherwise the index of a '/' with none after it |
| `LogAnalysis.UpDir` | pages/pageloganalysis.cpp:1050-1052 | the parent path is the part before the last '/', a strict prefix |
| `LogAnalysis.UpAfterInto` | pages/pageloganalysis.cpp:1026-1052 | going up after entering a directory whose name has no '/' returns to the path before it, when that path has no "//" and does not end in '/' |
| `LogAnalysis.LastSlashIs` | pages/pageloganalysis.cpp:1050 | the last '/' is found at k when there is one at k and none after |
| `LogAnalysis.ListedSpec` | pages/pageloganalysis.cpp:977-985 | an entry is listed exactly when it is in the reply and is a directory or has a name ending in ".csv" in any case; the listing is no longer than the reply |
| `LogAnalysis.ListedAppend` | pages/pageloganalysis.cpp:977-985 | the reply is filtered entry by entry: the listing of two replies one after the other is their two listings one after the other, so shown entries keep the reply's order and multiplicity |
| `LogAnalysis.Shown` | pages/pageloganalysis.cpp:983-985 | the listing filter: a directory, or a name that ends in ".csv" after lower-casing |
| `LogAnalysis.Listed` | pages/pageloganalysis.cpp:977-985 | the shown entries of a reply, in the reply's order; `LogAnalysis.ListedSpec` gives its members and `LogAnalysis.ListedAppend` its order |
| `LogAnalysis.MapFileNames` | pages/pageloganalysis.cpp:888-920 | the lower-cased form of a saved map's name ends in ".pdf" or ".png", and choosing that name again changes nothing |
| `LogAnalysis.PageLogAnalysis.GetLogSample` | pages/pageloganalysis.cpp:820-845 | no row for an empty log; the first row when there is no time column; otherwise the first row whose offset reaches the requested time, or the first row when none does |
| `LogAnalysis.PageLogAnalysis.TruncateDataAndPlot` | pages/pageloganalysis.cpp:441-507 | the truncated log is the rows in the slider's window, in order, and the plotted rows are those of the GNSS skip rule; nothing else changes |
| `LogAnalysis.PageLogAnalysis.InSpan` | pages/pageloganalysis.cpp:458-461 | the floating proportion test is the window test |
| `LogAnalysis.PageLogAnalysis.SkipRule` | pages/pageloganalysis.cpp:466-484 | the skip decision and the remembered fix time are those of the skip rule |
| `LogAnalysis.PageLogAnalysis.Refresh` | pages/pageloganalysis.cpp:963-1003 | disconnected: the path is reset and nothing is requested; connected: the current path is listed and the reply filtered to directories and CSV files |
| `LogAnalysis.PageLogAnalysis.Open` | pages/pageloganalysis.cpp:1005-1040 | disabled: nothing; disconnected: the path is reset; a selected directory is entered, with "//" collapsed, and listed; a selected file is read from the path joined to its name |
| `LogAnalysis.PageLogAnalysis.Up` | pages/pageloganalysis.cpp:1042-1054 | disconnected: the path is reset; a path with a '/' is cut before its last one and listed; a path without one is kept and nothing is requested |

## Left out

- FFTW itself: a plan is a parameter giving one coefficient of the transform. No Fourier
  identity is assumed, so `Anticogging.FullBandFilterIsIdentity` takes the inversion of
  the plans on the two modes as a hypothesis.
- `std::abs` of a complex number is the `magnitude` parameter, because the square root is
  not modelled.
- `vbAppendDouble32Auto` and `vbPopFrontDouble32Auto`, the float32 encoding of one value,
  are parameters; only the byte layout around them is modelled.
- `BlockTransfer.ReadLoop`: the source's read loop has no bound. Read as written, it never ends against a device that keeps answering with valid but empty payloads. The model's reply sequence is finite and an exhausted one is a timeout, so that non-termination is not modelled.
- Qt event loops and the 3000 ms timers: each wait is the next element of a reply
  sequence, and a missing element is a timeout.
- The Commands interface and its signals: requests are returned as values; nothing ever
  reaches a device.
- QTextStream tokenising and `QString::number` formatting. A CSV row is a record of the
  tokens read and whether the stream stayed good. The export writes the values exactly.
  So `CsvCodec.ExportImportRoundTrip` does not capture the rounding to 1 and 6 decimals.
- File dialogs, opening and closing files: the chosen name and whether the file opens are
  parameters.
- Plotting and widgets: updateGraph, updateGraphSelection, the zoom and rescale buttons,
  the progress bar, the message boxes, setVesc and the menu wiring.
- `acSampleStart` holds the wall-clock time of a start, so it is left out; the clock is
  not modelled.
- `Acquisition.Receive`: the counter is an unbounded integer; 32-bit wrap-around is not
  modelled, because it would need 2^31 samples.
- `LogAnalysis.TruncToInt`: a double-to-int conversion that overflows `int` is undefined
  in C++, and is not modelled.
- `LogAnalysis.PageLogAnalysis.InSpan`: the slider window is compared in exact rationals;
  double rounding of `ind/size` and `alt/10000.0` is not modelled.
- `FileNames.ToLower`: ASCII only; Qt's Unicode case folding is not modelled.
- `Anticogging.CalibrateAnticogging.GetFiltered`: the cutoffs are natural numbers. A
  negative spin-box value would reach `views::drop` with a negative count, which is
  undefined.
- `Anticogging.CalibrateAnticogging.FromDecomposed`: requires modes of at most 3600
  values, since writing past the end of the table is undefined in C++. Every caller in
  the source passes exactly 3600.
- `LogAnalysis.PageLogAnalysis.Refresh`: a listing reply is a sequence of entries. The
  case where a QVariant does not convert to a file entry, so a default entry is used, is
  not modelled.
- `LogAnalysis.PageLogAnalysis.Open`: the selected row is an `Option` of an entry. The
  file data read, `loadRtLogFile` and the reload of the page after it are outside the
  model.
- `LogAnalysis.PageLogAnalysis.TruncateDataAndPlot`: the map side is returned as the list
  of plotted row indices. Left out: llhToEnu, the ENU reference, the altitude column, the
  info text, the zoom, updateGraphs and updateStats.
- Loading logs (loadVescLog, the CSV open button, logListRefresh of local files),
  updateDataAndPlot, the tile servers and the VESC log cancel button are outside the
  core; they are file and widget I/O.
- The firmware resource script `res/firmwares/generate-qrc.py` is not part of this
  model.
