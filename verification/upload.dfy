/** The upload half of the relay: the size ceiling that decides between a
    direct upload and a split, the part plan of the splitter, the sequential
    upload of the parts, and which local files are removed afterwards. The
    local disk is a set of paths; everything external (the probe, ffmpeg,
    the messaging client) contributes only its outcome, as a parameter. */
module Upload {
  import opened Common
  import opened Paths

  const GiB: nat := 1024 * 1024 * 1024
  const DefaultSplitSize: nat := 2 * GiB
  const VipSplitSize: nat := 4 * GiB

  /** The files present on the local disk. */
  type FileSystem = set<string>

  function Elems(ps: seq<string>): set<string>
  {
    set p | p in ps
  }

  // ---------------------------------------------------------------------
  // Split decision and plan
  // ---------------------------------------------------------------------

  /** Largest file sent in one piece: 4 GiB when a user session is
      configured, 2 GiB through the bot alone. */
  function Ceiling(hasUserClient: bool): nat
  {
    if hasUserClient then VipSplitSize else DefaultSplitSize
  }

  /** `handle_upload`'s test: only a file strictly larger than the ceiling is
      split. */
  predicate NeedsSplit(size: int, hasUserClient: bool)
  {
    size > Ceiling(hasUserClient)
  }

  /** A file exactly at the ceiling goes up whole; one byte more is split. */
  lemma SplitThreshold(hasUserClient: bool)
    ensures !NeedsSplit(Ceiling(hasUserClient), hasUserClient)
    ensures NeedsSplit(Ceiling(hasUserClient) + 1, hasUserClient)
    ensures forall size :: NeedsSplit(size, hasUserClient) ==> NeedsSplit(size + 1, hasUserClient)
    ensures forall size :: NeedsSplit(size, hasUserClient) <==>
      size > (if hasUserClient then 4 else 2) * 1024 * 1024 * 1024
  {
  }

  /** The part count of `split_video`: the ceiling of the size over the
      default 2 GiB split size, i.e. the fewest 2 GiB pieces that hold
      `size` bytes. */
  function PartCount(size: nat): (n: nat)
    ensures size <= n * DefaultSplitSize
    ensures n > 0 ==> (n - 1) * DefaultSplitSize < size
  {
    (size + DefaultSplitSize - 1) / DefaultSplitSize
  }

  /** Whatever the ceiling, a file that needs splitting yields at least two
      parts, and the part size stays 2 GiB even under the 4 GiB ceiling. */
  lemma SplitGivesSeveralParts(size: nat, hasUserClient: bool)
    requires NeedsSplit(size, hasUserClient)
    ensures PartCount(size) >= 2
    ensures hasUserClient ==> PartCount(size) >= 3
  {
  }

  /** Why `split_video` raised. */
  datatype SplitError =
    | ProbeUnreadable   // ffprobe's output is not a number
    | NoParts           // zero parts: the duration division fails
    | SpawnFailed(part: nat)  // ffmpeg could not be started for this part

  datatype SplitRun = SplitRun(fs: FileSystem, parts: Result<seq<string>, SplitError>)

  /** True when `split_video` returns normally. */
  predicate SplitSucceeds(size: nat, probeReadable: bool, spawnFailsAt: Option<nat>)
  {
    probeReadable && PartCount(size) > 0 &&
    (spawnFailsAt.None? || spawnFailsAt.value >= PartCount(size))
  }

  /** `split_video`: probe the duration, then run one stream copy per part,
      each writing `<stem>.partNNN<ext>`. A probe whose output does not parse
      (`probeReadable` false) or zero parts raise before anything is written;
      an ffmpeg that cannot be started for part `k` raises after parts
      0..k-1 were written, and those stay on disk. The part offsets and
      lengths are floating-point durations and are not modelled. */
  function SplitVideo(fs: FileSystem, input: string, size: nat,
                      probeReadable: bool, spawnFailsAt: Option<nat>): (r: SplitRun)
    ensures SplitSucceeds(size, probeReadable, spawnFailsAt) <==> r.parts.Success?
    ensures r.parts.Success? ==>
      |r.parts.value| == PartCount(size) &&
      (forall i :: 0 <= i < |r.parts.value| ==> r.parts.value[i] == PartPath(input, i + 1)) &&
      r.fs == fs + Elems(r.parts.value)
    ensures r.parts.Failure? ==>
      fs <= r.fs && forall p :: p in r.fs - fs ==> p in PartPaths(input, PartCount(size))
    ensures r.parts == Failure(ProbeUnreadable) || r.parts == Failure(NoParts) ==> r.fs == fs
  {
    var count := PartCount(size);
    var paths := PartPaths(input, count);
    if !probeReadable then SplitRun(fs, Failure(ProbeUnreadable))
    else if count == 0 then SplitRun(fs, Failure(NoParts))
    else if spawnFailsAt.Some? && spawnFailsAt.value < count then
      var k := spawnFailsAt.value;
      SplitRun(fs + Elems(paths[..k]), Failure(SpawnFailed(k)))
    else
      SplitRun(fs + Elems(paths), Success(paths))
  }

  // ---------------------------------------------------------------------
  // Uploading and removing
  // ---------------------------------------------------------------------

  /** How one `upload_file` call ends: the video was sent (and copied back
      to the user), the failure was reported on the status message, or an
      exception escaped (the failure report itself failed). */
  datatype Delivery = Delivered | Reported | Escaped

  /** The thumbnail ffmpeg writes next to a video. */
  function Thumbnail(path: string): string
  {
    path + ".jpg"
  }

  /** The thumbnails removed after uploading `ps`: those of the files for
      which ffmpeg could be started. */
  function Thumbnails(ps: seq<string>, thumbnailRuns: string -> bool): set<string>
  {
    set p | p in ps && thumbnailRuns(p) :: Thumbnail(p)
  }

  /** `upload_file`'s effect on the disk. `generate_thumbnail` returns the
      thumbnail path only when ffmpeg could be started (`thumbnailRuns`)
      and the file exists afterwards, whether ffmpeg wrote it or it was
      there before; the `finally` then removes it, whatever happened to the
      send. When ffmpeg cannot be started it returns `None`, and a
      thumbnail already on disk stays. */
  function UploadFile(fs: FileSystem, path: string, thumbnailRuns: bool): (r: FileSystem)
    ensures Thumbnail(path) in r <==> Thumbnail(path) in fs && !thumbnailRuns
    ensures forall p :: p != Thumbnail(path) ==> (p in r <==> p in fs)
  {
    if thumbnailRuns then fs - {Thumbnail(path)} else fs
  }

  datatype Sent = Sent(fs: FileSystem, attempted: seq<string>, escaped: bool)

  /** The upload loop of `split_and_upload`: one upload per part, strictly
      in order, stopping only when an exception escapes an upload. */
  function UploadInOrder(fs: FileSystem, parts: seq<string>, deliver: string -> Delivery,
                         thumbnailRuns: string -> bool): (r: Sent)
    ensures r.attempted <= parts
    ensures !r.escaped <==> forall i :: 0 <= i < |parts| ==> deliver(parts[i]) != Escaped
    ensures !r.escaped ==> r.attempted == parts
    ensures r.escaped ==> |r.attempted| > 0 && deliver(r.attempted[|r.attempted| - 1]) == Escaped
    ensures forall i :: 0 <= i < |r.attempted| - 1 ==> deliver(r.attempted[i]) != Escaped
    ensures r.fs == fs - Thumbnails(r.attempted, thumbnailRuns)
  {
    if parts == [] then Sent(fs, [], false)
    else
      var fs1 := UploadFile(fs, parts[0], thumbnailRuns(parts[0]));
      if deliver(parts[0]) == Escaped then
        Sent(fs1, [parts[0]], true)
      else
        var rest := UploadInOrder(fs1, parts[1..], deliver, thumbnailRuns);
        var attempted := [parts[0]] + rest.attempted;
        assert forall i :: 1 <= i < |parts| ==> parts[i] == parts[1..][i - 1];
        Sent(rest.fs, attempted, rest.escaped)
  }

  /** The `finally` loop of `split_and_upload`: `safe_remove` on each part
      in turn; removing a missing file is logged and skipped. */
  function RemoveEach(fs: FileSystem, ps: seq<string>): (r: FileSystem)
    ensures r == fs - Elems(ps)
  {
    if ps == [] then fs
    else
      assert ps == [ps[0]] + ps[1..];
      RemoveEach(fs - {ps[0]}, ps[1..])
  }

  /** Outcome of an upload phase: the disk afterwards, the files whose
      upload was attempted in order, and whether an exception left it. */
  datatype Uploaded = Uploaded(fs: FileSystem, attempted: seq<string>, raised: bool)

  /** `split_and_upload`. When the split returns, every part is uploaded in
      order and then every part is removed, whatever the uploads did. When
      the split raises, `split_files` was never bound, the `finally` itself
      fails, and nothing is removed: parts already written stay on disk. */
  function SplitAndUpload(fs: FileSystem, input: string, size: nat, probeReadable: bool,
                          spawnFailsAt: Option<nat>, deliver: string -> Delivery,
                          thumbnailRuns: string -> bool): (r: Uploaded)
    ensures SplitSucceeds(size, probeReadable, spawnFailsAt) ==>
      var parts := PartPaths(input, PartCount(size));
      r.attempted <= parts &&
      (forall i :: 0 <= i < |parts| ==> parts[i] !in r.fs) &&
      r.fs == fs - Elems(parts) - Thumbnails(r.attempted, thumbnailRuns) &&
      (r.raised <==> exists i :: 0 <= i < |parts| && deliver(parts[i]) == Escaped)
    ensures !SplitSucceeds(size, probeReadable, spawnFailsAt) ==>
      r.raised && r.attempted == [] && fs <= r.fs &&
      forall p :: p in r.fs - fs ==> p in PartPaths(input, PartCount(size))
  {
    var split := SplitVideo(fs, input, size, probeReadable, spawnFailsAt);
    match split.parts
    case Failure(_) => Uploaded(split.fs, [], true)
    case Success(parts) =>
      assert parts == PartPaths(input, PartCount(size));
      var sent := UploadInOrder(split.fs, parts, deliver, thumbnailRuns);
      Uploaded(RemoveEach(sent.fs, parts), sent.attempted, sent.escaped)
  }

  /** `direct_upload`: one upload, then the file itself is removed. */
  function DirectUpload(fs: FileSystem, path: string, deliver: string -> Delivery,
                        thumbnailRuns: string -> bool): (r: Uploaded)
    ensures r.attempted == [path]
    ensures path !in r.fs
    ensures Thumbnail(path) in r.fs <==> Thumbnail(path) in fs && !thumbnailRuns(path)
    ensures forall p :: p != path && p != Thumbnail(path) ==> (p in r.fs <==> p in fs)
    ensures r.raised <==> deliver(path) == Escaped
  {
    var fs1 := UploadFile(fs, path, thumbnailRuns(path));
    Uploaded(fs1 - {path}, [path], deliver(path) == Escaped)
  }

  /** `handle_upload`: the size against the ceiling picks the route. A file
      at or below the ceiling is uploaded once and removed; a larger one is
      split into 2 GiB parts and the file itself is left for the final
      cleanup. */
  function HandleUpload(fs: FileSystem, path: string, size: nat, hasUserClient: bool,
                        probeReadable: bool, spawnFailsAt: Option<nat>,
                        deliver: string -> Delivery, thumbnailRuns: string -> bool): (r: Uploaded)
    ensures !NeedsSplit(size, hasUserClient) ==>
      r.attempted == [path] && path !in r.fs && (r.raised <==> deliver(path) == Escaped)
    ensures NeedsSplit(size, hasUserClient) ==>
      r.attempted <= PartPaths(path, PartCount(size)) && (path in fs ==> path in r.fs)
    ensures NeedsSplit(size, hasUserClient) && !SplitSucceeds(size, probeReadable, spawnFailsAt) ==>
      r.raised && r.attempted == []
    ensures NeedsSplit(size, hasUserClient) && SplitSucceeds(size, probeReadable, spawnFailsAt) ==>
      var parts := PartPaths(path, PartCount(size));
      (r.raised <==> exists i :: 0 <= i < |parts| && deliver(parts[i]) == Escaped) &&
      (!r.raised ==> r.attempted == parts) &&
      (forall i :: 0 <= i < |parts| ==> parts[i] !in r.fs)
  {
    if NeedsSplit(size, hasUserClient) then
      var r := SplitAndUpload(fs, path, size, probeReadable, spawnFailsAt, deliver, thumbnailRuns);
      SplitKeepsSource(fs, path, size, probeReadable, spawnFailsAt, deliver, thumbnailRuns);
      r
    else
      DirectUpload(fs, path, deliver, thumbnailRuns)
  }

  /** Splitting never touches the file being split: parts and thumbnails
      all have longer names. */
  lemma SplitKeepsSource(fs: FileSystem, input: string, size: nat, probeReadable: bool,
                         spawnFailsAt: Option<nat>, deliver: string -> Delivery,
                         thumbnailRuns: string -> bool)
    ensures input in fs ==>
      input in SplitAndUpload(fs, input, size, probeReadable, spawnFailsAt, deliver, thumbnailRuns).fs
  {
    var parts := PartPaths(input, PartCount(size));
    var r := SplitAndUpload(fs, input, size, probeReadable, spawnFailsAt, deliver, thumbnailRuns);
    if SplitSucceeds(size, probeReadable, spawnFailsAt) {
      PartPathsDistinct(input, PartCount(size));
      assert input !in Elems(parts);
      forall i | 0 <= i < |r.attempted| ensures Thumbnail(r.attempted[i]) != input {
        assert r.attempted[i] == parts[i];
        PartPathLonger(input, i + 1);
      }
    }
  }

  /** `cleanup`: delete the status message, delete the request, then remove
      the downloaded file if present, all in one `try`. A failed deletion
      skips everything after it, so the file stays. */
  function Cleanup(fs: FileSystem, path: string, statusDeleted: bool, requestDeleted: bool): (r: FileSystem)
    ensures r <= fs
    ensures statusDeleted && requestDeleted ==> r == fs - {path}
    ensures !(statusDeleted && requestDeleted) ==> r == fs
  {
    if statusDeleted && requestDeleted then fs - {path} else fs
  }

  /** The part of `process_download` after the download finished: upload,
      then the unconditional cleanup. `failureReply` is whether an exception
      reached `handle_message`, which then answers with the generic failure
      message. */
  datatype Relayed = Relayed(fs: FileSystem, attempted: seq<string>, failureReply: bool)

  function Relay(fs: FileSystem, path: string, size: nat, hasUserClient: bool,
                 probeReadable: bool, spawnFailsAt: Option<nat>, deliver: string -> Delivery,
                 thumbnailRuns: string -> bool, statusDeleted: bool, requestDeleted: bool): (r: Relayed)
    ensures r.fs <= fs + Elems(PartPaths(path, PartCount(size)))
    ensures statusDeleted && requestDeleted ==> path !in r.fs
    ensures var parts := PartPaths(path, PartCount(size));
      r.failureReply <==>
        if NeedsSplit(size, hasUserClient) then
          !SplitSucceeds(size, probeReadable, spawnFailsAt) ||
          exists i :: 0 <= i < |parts| && deliver(parts[i]) == Escaped
        else deliver(path) == Escaped
    ensures !NeedsSplit(size, hasUserClient) ==> r.attempted == [path]
    ensures NeedsSplit(size, hasUserClient) && !SplitSucceeds(size, probeReadable, spawnFailsAt) ==>
      r.attempted == []
    ensures NeedsSplit(size, hasUserClient) && SplitSucceeds(size, probeReadable, spawnFailsAt) ==>
      var parts := PartPaths(path, PartCount(size));
      r.attempted <= parts && (!r.failureReply ==> r.attempted == parts) &&
      (forall i :: 0 <= i < |parts| ==> parts[i] !in r.fs)
  {
    var u := HandleUpload(fs, path, size, hasUserClient, probeReadable, spawnFailsAt, deliver, thumbnailRuns);
    assert u.fs <= fs + Elems(PartPaths(path, PartCount(size)));
    Relayed(Cleanup(u.fs, path, statusDeleted, requestDeleted), u.attempted, u.raised)
  }

  /** A 5 GiB download through the bot alone, split and probed normally:
      three parts, uploaded in order, and none of them left on disk
      afterwards, whatever each upload did. */
  lemma FiveGiBRelay(fs: FileSystem, path: string, deliver: string -> Delivery,
                     thumbnailRuns: string -> bool, statusDeleted: bool, requestDeleted: bool)
    ensures var size := 5 * GiB;
      var r := Relay(fs, path, size, false, true, None, deliver, thumbnailRuns, statusDeleted, requestDeleted);
      var parts := PartPaths(path, 3);
      PartCount(size) == 3 && NeedsSplit(size, false) &&
      r.attempted <= parts &&
      (forall i :: 0 <= i < 3 ==> parts[i] !in r.fs)
  {
    var size := 5 * GiB;
    assert PartCount(size) == 3;
    assert SplitSucceeds(size, true, None);
  }

  /** When ffmpeg cannot be started for part `k`, the parts written before
      it survive both the upload phase and the final cleanup. */
  lemma SplitFailureLeaksParts(fs: FileSystem, path: string, size: nat, k: nat,
                               deliver: string -> Delivery, thumbnailRuns: string -> bool,
                               statusDeleted: bool, requestDeleted: bool)
    requires NeedsSplit(size, false)
    requires k < PartCount(size)
    ensures var r := Relay(fs, path, size, false, true, Some(k), deliver, thumbnailRuns,
                           statusDeleted, requestDeleted);
      r.failureReply && r.attempted == [] &&
      forall i :: 0 <= i < k ==> PartPaths(path, PartCount(size))[i] in r.fs
  {
    var parts := PartPaths(path, PartCount(size));
    var split := SplitVideo(fs, path, size, true, Some(k));
    assert split.fs == fs + Elems(parts[..k]);
    PartPathsDistinct(path, PartCount(size));
    forall i | 0 <= i < k ensures parts[i] in split.fs && parts[i] != path {
      assert parts[..k][i] == parts[i];
    }
  }
}
