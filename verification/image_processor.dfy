/**
 * The privacy-preserving re-encode pipeline: `stripImageMetadata`, its batch
 * runner and `getImageInfo`, over an explicit filesystem state. The image codec,
 * the EXIF parser and the filesystem's move and remove are capabilities passed
 * in an `Env`; each may fail, and the pipeline turns every failure into a
 * structured result.
 */
module ImageProcessor {
  import opened Wrappers
  import opened Text
  import opened Storage
  import opened NodePath
  import opened ImageFormat
  import opened Exif

  /** `options` of `stripImageMetadata`. */
  datatype StripOptions = StripOptions(quality: int, progressive: bool, optimizeForWeb: bool)

  const DefaultStripOptions := StripOptions(85, true, true)

  /** What the decoder reports about an image. */
  datatype ImageMetadata = ImageMetadata(
    width: nat, height: nat, format: string, channels: nat, hasAlpha: bool,
    density: Option<nat>, pages: Option<nat>)

  /** The encoder chosen from the input's extension, with the caller's options. */
  datatype EncodeRequest = EncodeRequest(encoder: Option<Encoder>, options: StripOptions)

  /** Writing the re-encoded image; a failed write may leave a partial file behind. */
  datatype WriteOutcome = Written(bytes: Bytes) | WriteFailed(leftover: Option<Bytes>)

  /** Moving with overwrite removes the destination first, so a failure may come after that. */
  datatype MoveOutcome = Moved | MoveFailed(destinationRemoved: bool)

  /**
   * The capabilities the pipeline calls: `parse` (the EXIF parser on a file's
   * bytes), `decode` (reading the image header), `encode` (orientation fix-up,
   * re-encoding and writing to the given path, creating its directory),
   * `move` (moving a file over another) and `removeFails` (whether removing a
   * file throws).
   */
  datatype Env = Env(
    parse: Bytes -> ParseOutcome,
    decode: Bytes -> Option<ImageMetadata>,
    encode: (Bytes, EncodeRequest, string) -> WriteOutcome,
    move: (string, string) -> MoveOutcome,
    removeFails: string -> bool)

  datatype StripError =
    | UnsupportedFormat(ext: string)
    | InputMissing
    | DecodeError
    | WriteError
    | MoveError

  datatype ImageSummary = ImageSummary(width: nat, height: nat, format: string, channels: nat, hasAlpha: bool)

  datatype ExifRemoval = ExifRemoval(hadExif: bool, exifRemoved: bool, originalExifKeys: nat, remainingExifKeys: nat)

  datatype StripResult =
    | Stripped(inputPath: string, outputPath: string, originalSize: nat, processedSize: nat,
               compressionRatio: Option<real>, metadata: ImageSummary, exifRemoved: ExifRemoval)
    | StripFailed(error: StripError, inputPath: string, outputPath: string)

  /** One call's result and the filesystem after it. */
  datatype StripRun = StripRun(result: StripResult, files: Files)

  /** No output path, or an empty one, means the input is replaced. */
  predicate IsInPlace(outputPath: Option<string>) {
    outputPath.None? || outputPath.value == ""
  }

  function TempPath(inputPath: string): string {
    inputPath + ".tmp"
  }

  /** The path reported as the output and, on success, holding the result. */
  function FinalOutputPath(inputPath: string, outputPath: Option<string>): string {
    if IsInPlace(outputPath) then inputPath else outputPath.value
  }

  /** Where the encoder writes: the temporary file in place, the output path otherwise. */
  function WriteTarget(inputPath: string, outputPath: Option<string>): string {
    if IsInPlace(outputPath) then TempPath(inputPath) else outputPath.value
  }

  /** The only paths a call may change. */
  function Touched(inputPath: string, outputPath: Option<string>): set<string> {
    if IsInPlace(outputPath) then {inputPath, TempPath(inputPath)} else {outputPath.value}
  }

  /**
   * `(originalSize - processedSize) / originalSize * 100`, a signed percentage;
   * an empty original has no finite ratio.
   */
  function CompressionRatio(originalSize: nat, processedSize: nat): (ratio: Option<real>)
    ensures ratio.Some? <==> originalSize > 0
    ensures ratio.Some? ==> ratio.value * originalSize as real == (originalSize as real - processedSize as real) * 100.0
    ensures ratio.Some? ==> (ratio.value < 0.0 <==> processedSize > originalSize)
    ensures ratio.Some? ==> ratio.value <= 100.0
  {
    if originalSize == 0 then None
    else Some((originalSize as real - processedSize as real) / originalSize as real * 100.0)
  }

  /** The fields of the decoded image's metadata that the report carries. */
  function SummaryOf(meta: ImageMetadata): ImageSummary {
    ImageSummary(meta.width, meta.height, meta.format, meta.channels, meta.hasAlpha)
  }

  /** The metadata-removal summary from the records read before and after. */
  function Summarize(before: Option<Record>, after: Option<Record>): (s: ExifRemoval)
    ensures s.exifRemoved ==> s.hadExif && s.remainingExifKeys == 0
    ensures s.exifRemoved <==> before.Some? && after.None?
    ensures s.hadExif <==> before.Some?
    ensures s.originalExifKeys == KeyCount(before) && s.remainingExifKeys == KeyCount(after)
  {
    ExifRemoval(before.Some?, before.Some? && after.None?, KeyCount(before), KeyCount(after))
  }

  /** On a failure, the temporary file is removed, in place only; a failed removal is only logged. */
  function CleanUpTemp(env: Env, fs: Files, inputPath: string, outputPath: Option<string>): (fs': Files)
    ensures forall p :: p != TempPath(inputPath) ==> Unchanged(fs, fs', p)
    ensures IsInPlace(outputPath) && !env.removeFails(TempPath(inputPath)) ==> TempPath(inputPath) !in fs'
    ensures !IsInPlace(outputPath) ==> fs' == fs
  {
    var temp := TempPath(inputPath);
    if IsInPlace(outputPath) && temp in fs && !env.removeFails(temp) then fs - {temp} else fs
  }

  function Fail(env: Env, fs: Files, error: StripError, inputPath: string, outputPath: Option<string>): StripRun {
    StripRun(StripFailed(error, inputPath, FinalOutputPath(inputPath, outputPath)),
             CleanUpTemp(env, fs, inputPath, outputPath))
  }

  /**
   * `stripImageMetadata(inputPath, outputPath, options)`: gate the format, stat
   * the input, read its metadata, decode it, re-encode it to the temporary file
   * (in place) or the output path, move the temporary file over the input (in
   * place), then stat and read back the result.
   */
  function StripImageMetadata(env: Env, fs: Files, inputPath: string, outputPath: Option<string>,
                              options: StripOptions): (run: StripRun)
    ensures run.result.inputPath == inputPath
    ensures run.result.outputPath == FinalOutputPath(inputPath, outputPath)
    // Nothing outside the input, its temporary file and the output path changes.
    ensures forall p :: p !in Touched(inputPath, outputPath) ==> Unchanged(fs, run.files, p)
    // The format is decided first; no file but a stale temporary file is touched.
    ensures !IsSupportedImageFormat(inputPath) ==>
      run.result == StripFailed(UnsupportedFormat(Extname(inputPath)), inputPath, FinalOutputPath(inputPath, outputPath))
      && (run.files == fs || run.files == fs - {TempPath(inputPath)})
  {
    if !IsSupportedImageFormat(inputPath) then
      Fail(env, fs, UnsupportedFormat(Extname(inputPath)), inputPath, outputPath)
    else if inputPath !in fs then
      Fail(env, fs, InputMissing, inputPath, outputPath)
    else
      Reencode(env, fs, inputPath, outputPath, options)
  }

  /** The steps after the gate and the stat: decode, then encode to the write target. */
  function Reencode(env: Env, fs: Files, inputPath: string, outputPath: Option<string>,
                    options: StripOptions): (run: StripRun)
    requires inputPath in fs
    ensures run.result.inputPath == inputPath
    ensures run.result.outputPath == FinalOutputPath(inputPath, outputPath)
    ensures forall p :: p !in Touched(inputPath, outputPath) ==> Unchanged(fs, run.files, p)
    ensures IsInPlace(outputPath) && run.result.StripFailed? && run.result.error != MoveError ==>
      Unchanged(fs, run.files, inputPath) && (TempPath(inputPath) !in run.files || env.removeFails(TempPath(inputPath)))
  {
    var original := fs[inputPath];
    match env.decode(original)
    case None => Fail(env, fs, DecodeError, inputPath, outputPath)
    case Some(meta) =>
      var target := WriteTarget(inputPath, outputPath);
      match env.encode(original, EncodeRequest(EncoderFor(inputPath), options), target)
      case WriteFailed(leftover) =>
        var written := if leftover.Some? then fs[target := leftover.value] else fs;
        Fail(env, written, WriteError, inputPath, outputPath)
      case Written(bytes) =>
        Publish(env, fs, inputPath, outputPath, meta, bytes)
  }

  /** In place, a failure before the move leaves the original as it was and removes the temporary file. */
  lemma EarlyFailureKeepsOriginal(env: Env, fs: Files, inputPath: string, outputPath: Option<string>,
                                  options: StripOptions)
    requires IsInPlace(outputPath)
    ensures var run := StripImageMetadata(env, fs, inputPath, outputPath, options);
      run.result.StripFailed? && run.result.error != MoveError ==>
        Unchanged(fs, run.files, inputPath)
        && (TempPath(inputPath) !in run.files || env.removeFails(TempPath(inputPath)))
  {
  }

  /**
   * On success the destination holds exactly the encoder's output, the
   * temporary file is gone, and the report is what reading the files before
   * and after gives.
   */
  lemma SuccessReport(env: Env, fs: Files, inputPath: string, outputPath: Option<string>, options: StripOptions)
    ensures var run := StripImageMetadata(env, fs, inputPath, outputPath, options);
      var finalPath := FinalOutputPath(inputPath, outputPath);
      run.result.Stripped? ==>
        && inputPath in fs
        && finalPath in run.files
        && env.encode(fs[inputPath], EncodeRequest(EncoderFor(inputPath), options), WriteTarget(inputPath, outputPath))
           == Written(run.files[finalPath])
        && (IsInPlace(outputPath) ==> TempPath(inputPath) !in run.files)
        && run.result.originalSize == |fs[inputPath]|
        && run.result.processedSize == |run.files[finalPath]|
        && run.result.compressionRatio == CompressionRatio(run.result.originalSize, run.result.processedSize)
        && run.result.exifRemoved == Summarize(ReadImageExif(env.parse, fs, inputPath),
                                               ReadImageExif(env.parse, run.files, finalPath))
        && env.decode(fs[inputPath]).Some?
        && run.result.metadata == SummaryOf(env.decode(fs[inputPath]).value)
  {
  }

  /**
   * The steps after a successful encode: in place, move the temporary file
   * over the input; then stat the result and read its metadata back.
   */
  function Publish(env: Env, fs: Files, inputPath: string, outputPath: Option<string>,
                   meta: ImageMetadata, bytes: Bytes): (run: StripRun)
    requires inputPath in fs
    ensures run.result.inputPath == inputPath
    ensures run.result.outputPath == FinalOutputPath(inputPath, outputPath)
    ensures forall p :: p !in Touched(inputPath, outputPath) ==> Unchanged(fs, run.files, p)
    ensures run.result.StripFailed? ==> run.result.error == MoveError
    ensures run.result.Stripped? ==>
      && FinalOutputPath(inputPath, outputPath) in run.files
      && run.files[FinalOutputPath(inputPath, outputPath)] == bytes
      && (IsInPlace(outputPath) ==> TempPath(inputPath) !in run.files)
      && run.result.originalSize == |fs[inputPath]|
      && run.result.processedSize == |bytes|
      && run.result.compressionRatio == CompressionRatio(|fs[inputPath]|, |bytes|)
      && run.result.exifRemoved == Summarize(ReadImageExif(env.parse, fs, inputPath),
                                             ReadImageExif(env.parse, run.files, FinalOutputPath(inputPath, outputPath)))
      && run.result.metadata == SummaryOf(meta)
  {
    var (moved, files) := Deliver(env, fs, inputPath, outputPath, bytes);
    if !moved then
      Fail(env, files, MoveError, inputPath, outputPath)
    else
      var original := fs[inputPath];
      var finalPath := FinalOutputPath(inputPath, outputPath);
      StripRun(
        Stripped(inputPath, finalPath, |original|, |bytes|,
                 CompressionRatio(|original|, |bytes|),
                 SummaryOf(meta),
                 Summarize(ReadImageExif(env.parse, fs, inputPath), ReadImageExif(env.parse, files, finalPath))),
        files)
  }

  /**
   * The encoded bytes written to the write target and, in place, moved over
   * the input. A failed move may already have removed the destination.
   */
  function Deliver(env: Env, fs: Files, inputPath: string, outputPath: Option<string>, bytes: Bytes): (d: (bool, Files))
    ensures forall p :: p !in Touched(inputPath, outputPath) ==> Unchanged(fs, d.1, p)
    ensures d.0 ==> FinalOutputPath(inputPath, outputPath) in d.1 && d.1[FinalOutputPath(inputPath, outputPath)] == bytes
    ensures d.0 && IsInPlace(outputPath) ==> TempPath(inputPath) !in d.1
    ensures !d.0 ==> IsInPlace(outputPath)
  {
    var temp := TempPath(inputPath);
    if !IsInPlace(outputPath) then
      (true, fs[outputPath.value := bytes])
    else
      var written := fs[temp := bytes];
      match env.move(temp, inputPath)
      case Moved => (true, (written - {temp})[inputPath := bytes])
      case MoveFailed(destinationRemoved) => (false, if destinationRemoved then written - {inputPath} else written)
  }

  /** The temporary file's extension is ".tmp", or none when the input names a directory. */
  lemma TempExtension(inputPath: string)
    ensures Extname(TempPath(inputPath)) in {"", ".tmp"}
  {
    var q := TempPath(inputPath);
    var n := |inputPath|;
    assert q[n..] == ".tmp";
    BasenameIsSuffix(q);
    var ext := Extname(q);
    assert IsSuffix(ext, q);
    assert |ext| >= 4 ==> ext[|ext| - 4] == q[n];
    assert |ext| <= 4;
    if ext != "" {
      assert ext[0] == q[|q| - |ext|];
      assert |ext| == 4;
    }
  }

  /** The temporary file's name never passes the format gate. */
  lemma TempIsNotAnImage(inputPath: string)
    ensures !IsSupportedImageFormat(TempPath(inputPath))
  {
    TempExtension(inputPath);
    if Extname(TempPath(inputPath)) == ".tmp" {
      var lower := ToLowerCase(".tmp");
      assert |lower| >= 3 && lower[2] == 'm' by {
        assert lower == LowerChar('.') + (LowerChar('t') + ToLowerCase("mp"));
        assert ToLowerCase("mp")[0] == 'm';
      }
      NotListed(lower);
    } else {
      assert ToLowerCase("") == "";
    }
  }

  /** The unsupported-format failure does not depend on the codec, the parser or the input's presence. */
  lemma UnsupportedIgnoresCapabilities(env: Env, env': Env, fs: Files, fs': Files, inputPath: string,
                                       outputPath: Option<string>, options: StripOptions, options': StripOptions)
    requires !IsSupportedImageFormat(inputPath)
    ensures StripImageMetadata(env, fs, inputPath, outputPath, options).result
         == StripImageMetadata(env', fs', inputPath, outputPath, options').result
  {
  }

  /**
   * In place, a stale temporary file is removed even when the format gate
   * rejects the input.
   */
  lemma UnsupportedRemovesStaleTemp(env: Env, fs: Files, inputPath: string, outputPath: Option<string>,
                                    options: StripOptions)
    requires !IsSupportedImageFormat(inputPath) && IsInPlace(outputPath)
    requires TempPath(inputPath) in fs && !env.removeFails(TempPath(inputPath))
    ensures StripImageMetadata(env, fs, inputPath, outputPath, options).files == fs - {TempPath(inputPath)}
  {
  }

  /**
   * A move that fails after the overwrite removed the destination loses the
   * original: the input is gone and the result reports a failure.
   */
  lemma FailedMoveCanLoseOriginal(env: Env, fs: Files, inputPath: string, options: StripOptions)
    requires IsSupportedImageFormat(inputPath) && inputPath in fs
    requires env.decode(fs[inputPath]).Some?
    requires env.encode(fs[inputPath], EncodeRequest(EncoderFor(inputPath), options), TempPath(inputPath)).Written?
    requires env.move(TempPath(inputPath), inputPath) == MoveFailed(true)
    ensures var run := StripImageMetadata(env, fs, inputPath, None, options);
      run.result == StripFailed(MoveError, inputPath, inputPath) && inputPath !in run.files
  {
  }

  /** Writing to a separate output path, a failed write leaves its partial file behind. */
  lemma FailedWriteLeavesPartialOutput(env: Env, fs: Files, inputPath: string, outputPath: string,
                                       options: StripOptions, partial: Bytes)
    requires outputPath != ""
    requires IsSupportedImageFormat(inputPath) && inputPath in fs
    requires env.decode(fs[inputPath]).Some?
    requires env.encode(fs[inputPath], EncodeRequest(EncoderFor(inputPath), options), outputPath) == WriteFailed(Some(partial))
    ensures var run := StripImageMetadata(env, fs, inputPath, Some(outputPath), options);
      run.result == StripFailed(WriteError, inputPath, outputPath)
      && outputPath in run.files && run.files[outputPath] == partial
  {
  }

  /**
   * The removal check reads the output back through the format gate: an output
   * path whose extension is not an image format reports every piece of
   * metadata as removed, whatever the output holds.
   */
  lemma UnverifiedRemovalForForeignOutput(env: Env, fs: Files, inputPath: string, outputPath: string,
                                          options: StripOptions)
    requires outputPath != "" && !IsSupportedImageFormat(outputPath)
    ensures var r := StripImageMetadata(env, fs, inputPath, Some(outputPath), options).result;
      r.Stripped? ==> r.exifRemoved.exifRemoved == r.exifRemoved.hadExif && r.exifRemoved.remainingExifKeys == 0
  {
  }

  /** Every capability succeeds for one in-place call on `path`. */
  predicate Healthy(env: Env, fs: Files, path: string, options: StripOptions) {
    && IsSupportedImageFormat(path) && path in fs
    && env.decode(fs[path]).Some?
    && env.encode(fs[path], EncodeRequest(EncoderFor(path), options), TempPath(path)).Written?
    && env.move(TempPath(path), path).Moved?
  }

  /** In place with every capability succeeding, the call succeeds. */
  lemma HealthyStrips(env: Env, fs: Files, path: string, options: StripOptions)
    requires Healthy(env, fs, path, options)
    ensures StripImageMetadata(env, fs, path, None, options).result.Stripped?
  {
  }

  /** The batch's results and the filesystem after it. */
  datatype BatchRun = BatchRun(results: seq<StripResult>, files: Files)

  /** Runs `step` on every path in order, each on the files the earlier steps left behind. */
  function Sweep(step: (Files, string) -> StripRun, fs: Files, paths: seq<string>): (run: BatchRun)
    ensures |run.results| == |paths|
    decreases |paths|
  {
    if paths == [] then BatchRun([], fs)
    else
      var prefix := Sweep(step, fs, paths[..|paths| - 1]);
      var last := step(prefix.files, paths[|paths| - 1]);
      BatchRun(prefix.results + [last.result], last.files)
  }

  /** The i-th result is one step on the files the first i steps left behind. */
  lemma {:induction false} SweepIsSequential(step: (Files, string) -> StripRun, fs: Files, paths: seq<string>, i: nat)
    requires i < |paths|
    ensures Sweep(step, fs, paths).results[i] == step(Sweep(step, fs, paths[..i]).files, paths[i]).result
    decreases |paths|
  {
    var last := |paths| - 1;
    if i < last {
      assert paths[..last][..i] == paths[..i] && paths[..last][i] == paths[i];
      SweepIsSequential(step, fs, paths[..last], i);
    } else {
      assert paths[..last] == paths[..i];
    }
  }

  /** A path no step changes is unchanged by the sweep. */
  lemma {:induction false} SweepFrame(step: (Files, string) -> StripRun, fs: Files, paths: seq<string>, p: string)
    requires forall f: Files, q: string :: q in paths ==> Unchanged(f, step(f, q).files, p)
    ensures Unchanged(fs, Sweep(step, fs, paths).files, p)
    decreases |paths|
  {
    if paths != [] {
      var last := |paths| - 1;
      assert forall q :: q in paths[..last] ==> q in paths;
      SweepFrame(step, fs, paths[..last], p);
      assert paths[last] in paths;
    }
  }

  /** One in-place call, as the batch makes it. */
  function StripInPlace(env: Env, options: StripOptions): (Files, string) -> StripRun {
    (f, q) => StripImageMetadata(env, f, q, None, options)
  }

  /**
   * `batchStripImageMetadata(filePaths, options)`: every file in order, in
   * place; a failure is recorded and the batch continues.
   */
  function BatchStripImageMetadata(env: Env, fs: Files, paths: seq<string>, options: StripOptions): (run: BatchRun)
    ensures |run.results| == |paths|
    ensures forall i :: 0 <= i < |paths| ==> run.results[i].inputPath == paths[i] && run.results[i].outputPath == paths[i]
  {
    var run := Sweep(StripInPlace(env, options), fs, paths);
    assert forall i :: 0 <= i < |paths| ==> run.results[i].inputPath == paths[i] && run.results[i].outputPath == paths[i] by {
      forall i | 0 <= i < |paths|
        ensures run.results[i].inputPath == paths[i] && run.results[i].outputPath == paths[i]
      {
        SweepIsSequential(StripInPlace(env, options), fs, paths, i);
      }
    }
    run
  }

  /** The i-th result is a single call on the filesystem the earlier files left behind. */
  lemma BatchIsSequential(env: Env, fs: Files, paths: seq<string>, options: StripOptions, i: nat)
    requires i < |paths|
    ensures BatchStripImageMetadata(env, fs, paths, options).results[i]
         == StripImageMetadata(env, BatchStripImageMetadata(env, fs, paths[..i], options).files, paths[i], None, options).result
  {
    SweepIsSequential(StripInPlace(env, options), fs, paths, i);
  }

  /** A batch changes only the files it names and their temporary files. */
  lemma BatchFrame(env: Env, fs: Files, paths: seq<string>, options: StripOptions, p: string)
    requires forall i :: 0 <= i < |paths| ==> p != paths[i] && p != TempPath(paths[i])
    ensures Unchanged(fs, BatchStripImageMetadata(env, fs, paths, options).files, p)
  {
    var step := StripInPlace(env, options);
    forall f: Files, q: string | q in paths
      ensures Unchanged(f, step(f, q).files, p)
    {
      assert p !in Touched(q, None);
    }
    SweepFrame(step, fs, paths, p);
  }

  /** Earlier files of a batch do not disturb a later, distinct image. */
  lemma BatchKeepsLaterFilesHealthy(env: Env, fs: Files, done: seq<string>, c: string, options: StripOptions)
    requires c !in done
    requires Healthy(env, fs, c, options)
    ensures Healthy(env, BatchStripImageMetadata(env, fs, done, options).files, c, options)
  {
    forall i | 0 <= i < |done|
      ensures c != TempPath(done[i])
    {
      TempIsNotAnImage(done[i]);
    }
    BatchFrame(env, fs, done, options, c);
  }

  /** A file whose capabilities all succeed is stripped wherever it sits in a batch of distinct files. */
  lemma BatchStripsHealthyFile(env: Env, fs: Files, paths: seq<string>, i: nat, options: StripOptions)
    requires i < |paths| && paths[i] !in paths[..i]
    requires Healthy(env, fs, paths[i], options)
    ensures BatchStripImageMetadata(env, fs, paths, options).results[i].Stripped?
  {
    BatchIsSequential(env, fs, paths, options, i);
    BatchKeepsLaterFilesHealthy(env, fs, paths[..i], paths[i], options);
    HealthyStrips(env, BatchStripImageMetadata(env, fs, paths[..i], options).files, paths[i], options);
  }

  /** An undecodable image fails with a decode error wherever it sits in a batch of distinct files. */
  lemma BatchReportsCorruptFile(env: Env, fs: Files, paths: seq<string>, i: nat, options: StripOptions)
    requires i < |paths| && paths[i] !in paths[..i]
    requires IsSupportedImageFormat(paths[i]) && paths[i] in fs && env.decode(fs[paths[i]]).None?
    ensures BatchStripImageMetadata(env, fs, paths, options).results[i] == StripFailed(DecodeError, paths[i], paths[i])
  {
    BatchIsSequential(env, fs, paths, options, i);
    var done := paths[..i];
    forall j | 0 <= j < |done|
      ensures paths[i] != TempPath(done[j])
    {
      TempIsNotAnImage(done[j]);
    }
    BatchFrame(env, fs, done, options, paths[i]);
  }

  /** A corrupt file in the middle of a batch fails alone; the files around it are still processed. */
  lemma BatchIsolatesFailures(env: Env, fs: Files, a: string, b: string, c: string, options: StripOptions)
    requires a != b && b != c && a != c
    requires Healthy(env, fs, a, options) && Healthy(env, fs, c, options)
    requires IsSupportedImageFormat(b) && b in fs && env.decode(fs[b]).None?
    ensures var run := BatchStripImageMetadata(env, fs, [a, b, c], options);
      run.results[0].Stripped? && run.results[1] == StripFailed(DecodeError, b, b) && run.results[2].Stripped?
  {
    var abc := [a, b, c];
    assert abc[..0] == [] && abc[..1] == [a] && abc[..2] == [a, b];
    BatchStripsHealthyFile(env, fs, abc, 0, options);
    BatchReportsCorruptFile(env, fs, abc, 1, options);
    BatchStripsHealthyFile(env, fs, abc, 2, options);
  }

  /** What `getImageInfo` reports. */
  datatype ImageInfo = ImageInfo(
    width: nat, height: nat, format: string, size: nat, channels: nat, hasAlpha: bool,
    density: Option<nat>, isAnimated: bool)

  /** `getImageInfo(path)`: nothing for an unsupported format, a missing file or an undecodable one. */
  function GetImageInfo(env: Env, fs: Files, path: string): (info: Option<ImageInfo>)
    ensures info.Some? <==> IsSupportedImageFormat(path) && path in fs && env.decode(fs[path]).Some?
    ensures info.Some? ==> info.value.size == |fs[path]|
    ensures info.Some? ==>
      (info.value.isAnimated <==> env.decode(fs[path]).value.pages.Some? && env.decode(fs[path]).value.pages.value > 1)
  {
    if !IsSupportedImageFormat(path) || path !in fs then None
    else match env.decode(fs[path])
      case None => None
      case Some(meta) =>
        Some(ImageInfo(meta.width, meta.height, meta.format, |fs[path]|, meta.channels, meta.hasAlpha,
                       meta.density, meta.pages.Some? && meta.pages.value > 1))
  }

  /** Reporting information never depends on the decoder for an unsupported format. */
  lemma UnsupportedHasNoInfo(env: Env, env': Env, fs: Files, path: string)
    requires !IsSupportedImageFormat(path)
    ensures GetImageInfo(env, fs, path) == GetImageInfo(env', fs, path) == None
  {
  }
}
