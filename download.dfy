/** The downloader: checks the batch, fetches every input, then walks the
    results in order, writing bodies, collecting 404 warnings and stopping
    at the first hard error. */
module Download {
  import opened Wrappers
  import opened Inputs
  import opened Api

  /** The disk, as a map from file path to file contents. */
  type FileSystem = map<Path, string>

  /** How the disk behaves: whether `create_dir_all` succeeds for the first
      input's folder, whether `File::create` succeeds at a path, and whether
      `write_all` into the file just created at a path succeeds. */
  datatype Disk = Disk(mkdirOk: bool, canCreate: Path -> bool, canWrite: Path -> bool)

  /** The warning kept for a 404: "Error 404: Day <day> is either not
      unlocked yet or doesn't exist" (only the day is structural). */
  datatype Warning = NotFound(day: int)

  datatype DownloadError =
    | NoInputFile                         // the batch is empty
    | NoParentFolder                      // the first input's path has no parent
    | CreateDirFailed                     // `create_dir_all` failed
    | CreateFailed(index: nat)            // `File::create` failed for input `index`
    | WriteFailed(index: nat)             // `write_all` failed for input `index`
    | Unhandled(index: nat, code: int)    // input `index` answered a status other than 404

  datatype DownloadResult = Done(warnings: seq<Warning>) | Aborted(error: DownloadError)

  /** The checks made before anything is fetched. */
  predicate Ready(inputs: seq<AdvInput>, disk: Disk)
  {
    |inputs| > 0 && inputs[0].parent.Some? && disk.mkdirOk
  }

  /** Result `i` stops the batch: a status other than 404, or a body whose
      file cannot be created or written. A 404 and a non-status failure never do. */
  predicate Aborts(inputs: seq<AdvInput>, results: seq<FetchResult>, disk: Disk, i: nat)
    requires |results| == |inputs| && i < |inputs|
  {
    match results[i]
    case Ok(_) => !disk.canCreate(inputs[i].path) || !disk.canWrite(inputs[i].path)
    case Status(code) => code != 404
    case Transport => false
  }

  /** The error reported for a result that stops the batch. */
  function AbortError(inputs: seq<AdvInput>, results: seq<FetchResult>, disk: Disk, i: nat): (e: DownloadError)
    requires |results| == |inputs| && i < |inputs|
    requires Aborts(inputs, results, disk, i)
    ensures e.CreateFailed? || e.WriteFailed? || e.Unhandled?
    ensures e.index == i
    ensures e.Unhandled? <==> results[i].Status?
    ensures e.Unhandled? ==> e.code == results[i].code && e.code != 404
    ensures e.CreateFailed? <==> results[i].Ok? && !disk.canCreate(inputs[i].path)
  {
    if results[i].Ok? then
      if !disk.canCreate(inputs[i].path) then CreateFailed(i) else WriteFailed(i)
    else Unhandled(i, results[i].code)
  }

  /** The first result at or after `from` that stops the batch, if any. */
  function FirstAbort(inputs: seq<AdvInput>, results: seq<FetchResult>, disk: Disk, from: nat): (r: Option<nat>)
    requires |results| == |inputs| && from <= |inputs|
    decreases |inputs| - from
    ensures r.Some? ==> from <= r.value < |inputs| && Aborts(inputs, results, disk, r.value)
    ensures r.Some? ==> forall j :: from <= j < r.value ==> !Aborts(inputs, results, disk, j)
    ensures r.None? ==> forall j :: from <= j < |inputs| ==> !Aborts(inputs, results, disk, j)
  {
    if from == |inputs| then None
    else if Aborts(inputs, results, disk, from) then Some(from)
    else FirstAbort(inputs, results, disk, from + 1)
  }

  /** Result `i` is a body, to be written at path `p`. */
  predicate WritesTo(inputs: seq<AdvInput>, results: seq<FetchResult>, i: nat, p: Path)
    requires |results| == |inputs| && i < |inputs|
  {
    results[i].Ok? && inputs[i].path == p
  }

  /** The files written by the first `n` results: each body at its input's
      path, a later body to the same path replacing the earlier one. */
  function Writes(inputs: seq<AdvInput>, results: seq<FetchResult>, n: nat): map<Path, string>
    requires |results| == |inputs| && n <= |inputs|
  {
    if n == 0 then map[]
    else
      var w := Writes(inputs, results, n - 1);
      match results[n - 1]
      case Ok(body) => w[inputs[n - 1].path := body]
      case _ => w
  }

  /** The file at `p` is the one a batch stopped at input `k` leaves behind
      empty: `File::create` had truncated it before `write_all` failed. */
  predicate LeftEmpty(inputs: seq<AdvInput>, results: seq<FetchResult>, disk: Disk, k: nat, p: Path)
    requires |results| == |inputs| && k < |inputs|
  {
    results[k].Ok? && disk.canCreate(p) && inputs[k].path == p
  }

  /** What the result that stopped the batch at `k` left on disk. */
  function Leftover(inputs: seq<AdvInput>, results: seq<FetchResult>, disk: Disk, k: nat): map<Path, string>
    requires |results| == |inputs| && k < |inputs|
  {
    if results[k].Ok? && disk.canCreate(inputs[k].path) then map[inputs[k].path := ""] else map[]
  }

  /** The warnings collected from the first `n` results. */
  function Warnings(inputs: seq<AdvInput>, results: seq<FetchResult>, n: nat): seq<Warning>
    requires |results| == |inputs| && n <= |inputs|
  {
    if n == 0 then []
    else if results[n - 1] == Status(404) then Warnings(inputs, results, n - 1) + [NotFound(inputs[n - 1].day)]
    else Warnings(inputs, results, n - 1)
  }

  /** The loop over the fetched results, from a disk `fs`. */
  function Processed(inputs: seq<AdvInput>, results: seq<FetchResult>, fs: FileSystem, disk: Disk): (DownloadResult, FileSystem)
    requires |results| == |inputs|
  {
    match FirstAbort(inputs, results, disk, 0)
    case Some(k) =>
      (Aborted(AbortError(inputs, results, disk, k)),
       fs + Writes(inputs, results, k) + Leftover(inputs, results, disk, k))
    case None => (Done(Warnings(inputs, results, |inputs|)), fs + Writes(inputs, results, |inputs|))
  }

  /** `download_inputs` as a whole: the outcome and the disk afterwards. */
  function Download(inputs: seq<AdvInput>, token: string, http: Request -> FetchResult,
                    fs: FileSystem, disk: Disk): (DownloadResult, FileSystem)
  {
    if |inputs| == 0 then (Aborted(NoInputFile), fs)
    else if inputs[0].parent.None? then (Aborted(NoParentFolder), fs)
    else if !disk.mkdirOk then (Aborted(CreateDirFailed), fs)
    else Processed(inputs, Responses(inputs, token, http), fs, disk)
  }

  /** `download_inputs`. `disk` says which disk operations succeed; `sent`
      is the log of network requests. */
  method DownloadInputs(inputs: seq<AdvInput>, token: string, http: Request -> FetchResult,
                        fs: FileSystem, disk: Disk)
    returns (res: DownloadResult, files: FileSystem, sent: seq<Request>)
    ensures (res, files) == Download(inputs, token, http, fs, disk)
    ensures |inputs| == 0 ==> res == Aborted(NoInputFile)
    ensures !Ready(inputs, disk) ==> sent == [] && files == fs
    ensures Ready(inputs, disk) ==>
      |sent| == |inputs| && forall i :: 0 <= i < |inputs| ==> sent[i] == RequestFor(inputs[i], token)
  {
    if |inputs| == 0 {
      return Aborted(NoInputFile), fs, [];
    }
    if inputs[0].parent.None? {
      return Aborted(NoParentFolder), fs, [];
    }
    if !disk.mkdirOk {
      return Aborted(CreateDirFailed), fs, [];
    }
    var results;
    results, sent := FetchInputs(inputs, token, http);
    assert results == Responses(inputs, token, http);

    res, files := ProcessResults(inputs, results, fs, disk);
  }

  /** The loop of `download_inputs` over the fetched results, each paired
      with its input by position. */
  method ProcessResults(inputs: seq<AdvInput>, results: seq<FetchResult>, fs: FileSystem, disk: Disk)
    returns (res: DownloadResult, files: FileSystem)
    requires |results| == |inputs|
    ensures (res, files) == Processed(inputs, results, fs, disk)
  {
    var warnings: seq<Warning> := [];
    files := fs;
    var i := 0;
    while i < |results|
      invariant 0 <= i <= |inputs|
      invariant FirstAbort(inputs, results, disk, 0) == FirstAbort(inputs, results, disk, i)
      invariant warnings == Warnings(inputs, results, i)
      invariant files == fs + Writes(inputs, results, i)
    {
      // result i belongs to inputs[i]; the index is in range because FetchInputs
      // returns exactly one result per input
      var input := inputs[i];
      match results[i] {
        case Ok(body) =>
          if !disk.canCreate(input.path) {
            assert Leftover(inputs, results, disk, i) == map[] && files + map[] == files;
            return Aborted(CreateFailed(i)), files;
          }
          files := files[input.path := ""];  // `File::create` truncates
          if !disk.canWrite(input.path) {
            assert files == fs + Writes(inputs, results, i) + Leftover(inputs, results, disk, i);
            return Aborted(WriteFailed(i)), files;
          }
          files := files[input.path := body];
        case Status(code) =>
          if code == 404 {
            warnings := warnings + [NotFound(input.day)];
          } else {
            assert Leftover(inputs, results, disk, i) == map[] && files + map[] == files;
            return Aborted(Unhandled(i, code)), files;
          }
        case Transport =>
          // a failure that is not an HTTP status is skipped
      }
      i := i + 1;
    }
    res := Done(warnings);
  }

  // ---------------------------------------------------------------------
  // Warnings: one per 404, in input order

  /** The positions, among the first `n`, whose result is a 404. */
  ghost function NotFoundIndices(results: seq<FetchResult>, n: nat): (idx: seq<nat>)
    requires n <= |results|
    ensures forall a, b :: 0 <= a < b < |idx| ==> idx[a] < idx[b]
    ensures forall j :: 0 <= j < |idx| ==> idx[j] < n && results[idx[j]] == Status(404)
    ensures forall i :: 0 <= i < n && results[i] == Status(404) ==> i in idx
  {
    if n == 0 then []
    else if results[n - 1] == Status(404) then NotFoundIndices(results, n - 1) + [n - 1]
    else NotFoundIndices(results, n - 1)
  }

  /** Warning `j` names the day of the `j`-th input that answered 404, and
      there are no other warnings; there are none exactly when no 404 occurred. */
  lemma {:induction false} WarningsOnePerNotFound(inputs: seq<AdvInput>, results: seq<FetchResult>, n: nat)
    requires |results| == |inputs| && n <= |inputs|
    ensures |Warnings(inputs, results, n)| == |NotFoundIndices(results, n)|
    ensures forall j :: 0 <= j < |NotFoundIndices(results, n)| ==>
      Warnings(inputs, results, n)[j] == NotFound(inputs[NotFoundIndices(results, n)[j]].day)
    ensures Warnings(inputs, results, n) == [] <==> forall i :: 0 <= i < n ==> results[i] != Status(404)
  {
    if n > 0 {
      WarningsOnePerNotFound(inputs, results, n - 1);
      if results[n - 1] != Status(404) {
        assert NotFoundIndices(results, n) == NotFoundIndices(results, n - 1);
      }
    }
  }

  // ---------------------------------------------------------------------
  // Writes: every body lands verbatim at its input's path, the last one wins

  /** The first `n` results write exactly the paths of the inputs among them
      whose result is a body. */
  lemma {:induction false} WrittenPaths(inputs: seq<AdvInput>, results: seq<FetchResult>, n: nat, p: Path)
    requires |results| == |inputs| && n <= |inputs|
    ensures p in Writes(inputs, results, n) <==>
      exists i :: 0 <= i < n && WritesTo(inputs, results, i, p)
  {
    if n > 0 {
      WrittenPaths(inputs, results, n - 1, p);
      assert WritesTo(inputs, results, n - 1, p) <==> results[n - 1].Ok? && inputs[n - 1].path == p;
    }
  }

  /** A path holds the body of the last result among the first `n` that
      wrote it: a later write replaces the file rather than adding to it. */
  lemma {:induction false} LastBodyWins(inputs: seq<AdvInput>, results: seq<FetchResult>, n: nat, i: nat)
    requires |results| == |inputs| && i < n <= |inputs| && results[i].Ok?
    requires forall j :: i < j < n ==> !WritesTo(inputs, results, j, inputs[i].path)
    ensures inputs[i].path in Writes(inputs, results, n)
    ensures Writes(inputs, results, n)[inputs[i].path] == results[i].body
  {
    if n - 1 > i {
      assert !WritesTo(inputs, results, n - 1, inputs[i].path);
      LastBodyWins(inputs, results, n - 1, i);
    }
  }

  /** What the first `n` results do depends on those results only. */
  lemma {:induction false} PrefixDecides(inputs: seq<AdvInput>, r1: seq<FetchResult>, r2: seq<FetchResult>, n: nat)
    requires |r1| == |inputs| && |r2| == |inputs| && n <= |inputs|
    requires r1[..n] == r2[..n]
    ensures Writes(inputs, r1, n) == Writes(inputs, r2, n)
    ensures Warnings(inputs, r1, n) == Warnings(inputs, r2, n)
  {
    if n > 0 {
      assert r1[..n - 1] == r1[..n][..n - 1] && r2[..n - 1] == r2[..n][..n - 1];
      assert r1[n - 1] == r1[..n][n - 1] && r2[n - 1] == r2[..n][n - 1];
      PrefixDecides(inputs, r1, r2, n - 1);
    }
  }

  // ---------------------------------------------------------------------
  // The batch as a whole

  /** A batch stopped at input `k` reports index `k`. A file no input before
      `k` wrote is as it was, unless it is the one the failed write at `k`
      left empty; a file some input before `k` wrote holds the body of the
      last of them. */
  lemma AbortKeepsOtherFiles(inputs: seq<AdvInput>, results: seq<FetchResult>,
                             fs: FileSystem, disk: Disk, k: nat)
    requires |results| == |inputs|
    requires FirstAbort(inputs, results, disk, 0) == Some(k)
    ensures Processed(inputs, results, fs, disk).0.Aborted?
    ensures Processed(inputs, results, fs, disk).0.error.index == k
    ensures forall p ::
      (!LeftEmpty(inputs, results, disk, k, p) && forall i :: 0 <= i < k ==> !WritesTo(inputs, results, i, p)) ==>
      (p in Processed(inputs, results, fs, disk).1 <==> p in fs) &&
      (p in fs ==> Processed(inputs, results, fs, disk).1[p] == fs[p])
    ensures forall i ::
      (0 <= i < k && results[i].Ok? && !LeftEmpty(inputs, results, disk, k, inputs[i].path) &&
       forall j :: i < j < k ==> !WritesTo(inputs, results, j, inputs[i].path)) ==>
      inputs[i].path in Processed(inputs, results, fs, disk).1 &&
      Processed(inputs, results, fs, disk).1[inputs[i].path] == results[i].body
    ensures forall p :: LeftEmpty(inputs, results, disk, k, p) ==>
      p in Processed(inputs, results, fs, disk).1 && Processed(inputs, results, fs, disk).1[p] == ""
  {
    var files := Processed(inputs, results, fs, disk).1;
    assert files == fs + Writes(inputs, results, k) + Leftover(inputs, results, disk, k);
    forall p | !LeftEmpty(inputs, results, disk, k, p) && (forall i :: 0 <= i < k ==> !WritesTo(inputs, results, i, p))
      ensures (p in files <==> p in fs) && (p in fs ==> files[p] == fs[p])
    {
      WrittenPaths(inputs, results, k, p);
    }
    forall i | 0 <= i < k && results[i].Ok? && !LeftEmpty(inputs, results, disk, k, inputs[i].path) &&
        (forall j :: i < j < k ==> !WritesTo(inputs, results, j, inputs[i].path))
      ensures inputs[i].path in files && files[inputs[i].path] == results[i].body
    {
      LastBodyWins(inputs, results, k, i);
    }
  }

  /** Nothing after the input `k` that stopped a batch is looked at: any
      other results that agree up to `k` give the same outcome and disk. */
  lemma {:induction false} AbortIgnoresLaterResults(inputs: seq<AdvInput>, results: seq<FetchResult>,
                                                    others: seq<FetchResult>, fs: FileSystem,
                                                    disk: Disk, k: nat)
    requires |results| == |inputs| && |others| == |inputs|
    requires FirstAbort(inputs, results, disk, 0) == Some(k)
    requires others[..k + 1] == results[..k + 1]
    ensures FirstAbort(inputs, others, disk, 0) == Some(k)
    ensures Processed(inputs, results, fs, disk) == Processed(inputs, others, fs, disk)
  {
    forall j | 0 <= j <= k ensures others[j] == results[j] {
      assert others[j] == others[..k + 1][j] == results[..k + 1][j] == results[j];
    }
    forall j | 0 <= j < k ensures !Aborts(inputs, others, disk, j) {
      assert !Aborts(inputs, results, disk, j);
    }
    assert Aborts(inputs, others, disk, k);
    assert FirstAbort(inputs, others, disk, 0) == Some(k);
    assert others[..k] == results[..k];
    PrefixDecides(inputs, results, others, k);
  }

  /** A 404 only adds its warning: with a non-status failure in its place
      the batch writes the same files and ends the same way. */
  lemma NotFoundOnlyWarns(inputs: seq<AdvInput>, results: seq<FetchResult>, fs: FileSystem,
                          disk: Disk, i: nat)
    requires |results| == |inputs| && i < |inputs| && results[i] == Status(404)
    ensures Processed(inputs, results, fs, disk).1 == Processed(inputs, results[i := Transport], fs, disk).1
    ensures Processed(inputs, results, fs, disk).0.Aborted? ==>
      Processed(inputs, results, fs, disk).0 == Processed(inputs, results[i := Transport], fs, disk).0
    ensures Processed(inputs, results[i := Transport], fs, disk).0.Aborted? ==>
      Processed(inputs, results, fs, disk).0.Aborted?
  {
    var others := results[i := Transport];
    SameAborts(inputs, results, others, disk, 0);
    forall n | 0 <= n <= |inputs| ensures Writes(inputs, results, n) == Writes(inputs, others, n) {
      SameWrites(inputs, results, others, n);
    }
  }

  /** Results that stop the batch at the same places, with the same
      results there, stop it at the same first place with the same error.
      Only a step of `NotFoundOnlyWarns`. */
  lemma SameAborts(inputs: seq<AdvInput>, r1: seq<FetchResult>, r2: seq<FetchResult>,
                   disk: Disk, from: nat)
    requires |r1| == |inputs| && |r2| == |inputs| && from <= |inputs|
    requires forall j :: from <= j < |inputs| ==>
      (Aborts(inputs, r1, disk, j) <==> Aborts(inputs, r2, disk, j))
    requires forall j :: from <= j < |inputs| && Aborts(inputs, r1, disk, j) ==> r1[j] == r2[j]
    ensures FirstAbort(inputs, r1, disk, from) == FirstAbort(inputs, r2, disk, from)
    ensures FirstAbort(inputs, r1, disk, from).Some? ==>
      r1[FirstAbort(inputs, r1, disk, from).value] == r2[FirstAbort(inputs, r1, disk, from).value]
  {
  }

  /** Results with the same bodies at the same places write the same files. */
  lemma {:induction false} SameWrites(inputs: seq<AdvInput>, r1: seq<FetchResult>, r2: seq<FetchResult>, n: nat)
    requires |r1| == |inputs| && |r2| == |inputs| && n <= |inputs|
    requires forall j :: 0 <= j < n ==> (r1[j].Ok? <==> r2[j].Ok?) && (r1[j].Ok? ==> r1[j] == r2[j])
    ensures Writes(inputs, r1, n) == Writes(inputs, r2, n)
  {
    if n > 0 {
      SameWrites(inputs, r1, r2, n - 1);
    }
  }

  /** Non-status failures are skipped: a batch where every request failed
      that way completes with no warning and no file written. */
  lemma {:induction false} TransportFailuresSkipped(inputs: seq<AdvInput>, results: seq<FetchResult>,
                                                    fs: FileSystem, disk: Disk)
    requires |results| == |inputs|
    requires forall i :: 0 <= i < |inputs| ==> results[i] == Transport
    ensures Processed(inputs, results, fs, disk) == (Done([]), fs)
  {
    var n := |inputs|;
    assert FirstAbort(inputs, results, disk, 0) == None;
    NoWritesNoWarnings(inputs, results, n);
    assert fs + map[] == fs;
  }

  /** A prefix of non-status failures writes nothing and warns nothing. */
  lemma {:induction false} NoWritesNoWarnings(inputs: seq<AdvInput>, results: seq<FetchResult>, n: nat)
    requires |results| == |inputs| && n <= |inputs|
    requires forall i :: 0 <= i < n ==> results[i] == Transport
    ensures Writes(inputs, results, n) == map[] && Warnings(inputs, results, n) == []
  {
    if n > 0 {
      NoWritesNoWarnings(inputs, results, n - 1);
    }
  }

  /** Running the same batch again on the disk it left behind gives the same
      outcome and the same disk: files are overwritten, never appended to. */
  lemma RerunIsIdempotent(inputs: seq<AdvInput>, token: string, http: Request -> FetchResult,
                          fs: FileSystem, disk: Disk)
    ensures Download(inputs, token, http, Download(inputs, token, http, fs, disk).1, disk)
         == Download(inputs, token, http, fs, disk)
  {
    if Ready(inputs, disk) {
      var results := Responses(inputs, token, http);
      match FirstAbort(inputs, results, disk, 0)
      case Some(k) =>
        var w, l := Writes(inputs, results, k), Leftover(inputs, results, disk, k);
        assert fs + w + l + w + l == fs + w + l;
      case None =>
        var w := Writes(inputs, results, |inputs|);
        assert fs + w + w == fs + w;
    }
  }
}
