/** The synchronous app: `upload_file` runs the repair script on the saved upload and answers
    with a download id, `download_file` serves `<id>_<name>` from the upload folder, and
    `cleanup` removes every file whose name starts with a download id. */
module SimpleApp {
  import opened PyStr
  import opened Validation
  import opened Jobs
  import opened UploadFolder

  /** What the repair script did: its exit code, what it printed on stderr and whether it wrote
      the output file; or the exception `subprocess.Popen` raised with its message. */
  datatype ScriptRun = ScriptExited(code: int, stderr: string, wroteOutput: bool) | ScriptRaised(message: string)

  /** The JSON reply of a successful upload. */
  datatype Uploaded = Uploaded(downloadId: string, filename: string)

  /** `f"{unique_id}_{filename}"`, where the upload is saved. */
  function InputName(uniqueId: string, filename: string): string
  {
    uniqueId + "_" + filename
  }

  /** `f"{unique_id}_{output_filename}"` with `output_filename = f"fixed_{filename}"`. */
  function OutputName(uniqueId: string, filename: string): string
  {
    uniqueId + "_" + ("fixed_" + filename)
  }

  /** The two names of one upload never coincide. */
  lemma InputAndOutputDiffer(uniqueId: string, filename: string)
    ensures InputName(uniqueId, filename) != OutputName(uniqueId, filename)
  {
    assert |InputName(uniqueId, filename)| + 6 == |OutputName(uniqueId, filename)|;
  }

  const InvalidType := "Invalid file type. Only PDF files are allowed."

  /** `upload_file` on the folder listing `m`: `file` is the client's file name (absent when the
      request has no file part), `uniqueId` the fresh `uuid4`, `sanitized` what `secure_filename`
      made of the name, `now` the modification time the saved files get. The reply and the listing
      afterwards. */
  function Upload(m: map<string, Entry>, file: Option<string>, uniqueId: string, sanitized: string, run: ScriptRun, now: int): (Reply<Uploaded>, map<string, Entry>)
  {
    if file.None? then (Error(400, "No file provided"), m)
    else if file.value == "" then (Error(400, "No file selected"), m)
    else if !AllowedFileBasic(file.value) then (Error(400, InvalidType), m)
    else
      var input := InputName(uniqueId, sanitized);
      var output := OutputName(uniqueId, sanitized);
      var saved := m[input := RegularFile(now)];
      match run
      case ScriptRaised(message) => (Error(500, message), saved - {input})
      case ScriptExited(code, stderr, wroteOutput) =>
        var after := if wroteOutput then saved[output := RegularFile(now)] else saved;
        if code != 0 then (Error(500, "PDF processing failed: " + stderr), after - {input})
        else if output !in after then (Error(500, "Output file was not created"), after - {input})
        else (Ok(Uploaded(uniqueId, "fixed_" + sanitized)), after)
  }

  /** The upload succeeds exactly when a file part with a non-empty ".pdf" name came and the script
      exited with 0 leaving the output file. A rejected request leaves the folder alone; a failed
      run removes the saved upload; a successful one keeps the upload beside the output. No other
      name is touched. */
  lemma UploadVerdict(m: map<string, Entry>, file: Option<string>, uniqueId: string, sanitized: string, run: ScriptRun, now: int)
    ensures var (r, m') := Upload(m, file, uniqueId, sanitized, run, now);
      var input := InputName(uniqueId, sanitized);
      var output := OutputName(uniqueId, sanitized);
      && (r.Ok? <==>
            file.Some? && file.value != "" && HasPdfSuffix(file.value) && run.ScriptExited? && run.code == 0
            && (run.wroteOutput || output in m))
      && (r.Ok? ==>
            r.value == Uploaded(uniqueId, "fixed_" + sanitized) && input in m' && m'[input] == RegularFile(now) && output in m')
      && (r.Error? && r.code == 400 ==> m' == m)
      && (r.Error? && r.code != 400 ==> r.code == 500 && input !in m')
      && (forall n :: n != input && n != output ==> (n in m' <==> n in m) && (n in m ==> m'[n] == m[n]))
  {
    InputAndOutputDiffer(uniqueId, sanitized);
  }

  /** The script may write its output and still fail: the reply is an error, the upload is
      removed, and the partial output stays in the folder. */
  lemma FailedRunKeepsOutput(m: map<string, Entry>, name: string, uniqueId: string, sanitized: string, code: int, stderr: string, now: int)
    requires name != "" && HasPdfSuffix(name) && code != 0
    ensures var (r, m') := Upload(m, Some(name), uniqueId, sanitized, ScriptExited(code, stderr, true), now);
      && r == Error(500, "PDF processing failed: " + stderr)
      && OutputName(uniqueId, sanitized) in m' && m'[OutputName(uniqueId, sanitized)] == RegularFile(now)
      && InputName(uniqueId, sanitized) !in m'
  {
    InputAndOutputDiffer(uniqueId, sanitized);
  }

  /** `download_file(download_id, filename)`: the file `<download_id>_<filename>`, sent under
      `filename`; "File not found" when there is none. Sending a directory raises, and the
      error reply carries the message of that failure. */
  function Download(m: map<string, Entry>, downloadId: string, filename: string): (r: Reply<FileReply>)
    ensures var name := downloadId + "_" + filename;
      && (r.Ok? <==> name in m && m[name].RegularFile?)
      && (r.Ok? ==> r.value == FileReply(name, filename))
      && (name !in m ==> r == Error(404, "File not found"))
  {
    var name := downloadId + "_" + filename;
    if name !in m then Error(404, "File not found")
    else if m[name].Directory? then Error(500, "[Errno 21] Is a directory: '" + name + "'")
    else Ok(FileReply(name, filename))
  }

  /** The reply of a successful upload is a working download link: it serves the file the script
      wrote, under its `fixed_` name. `uniqueId` is fresh, so no output of that name was there
      before. */
  lemma UploadThenDownload(m: map<string, Entry>, file: Option<string>, uniqueId: string, sanitized: string, run: ScriptRun, now: int)
    requires Upload(m, file, uniqueId, sanitized, run, now).0.Ok? && OutputName(uniqueId, sanitized) !in m
    ensures var (r, m') := Upload(m, file, uniqueId, sanitized, run, now);
      Download(m', r.value.downloadId, r.value.filename)
        == Ok(FileReply(OutputName(uniqueId, sanitized), "fixed_" + sanitized))
  {
    InputAndOutputDiffer(uniqueId, sanitized);
    var (r, m') := Upload(m, file, uniqueId, sanitized, run, now);
    assert run.wroteOutput;
    assert m'[OutputName(uniqueId, sanitized)] == RegularFile(now);
  }

  /** After a successful upload the original upload is still in the folder, and the same link
      with the un-prefixed name serves it. */
  lemma UploadLeftBehind(m: map<string, Entry>, file: Option<string>, uniqueId: string, sanitized: string, run: ScriptRun, now: int)
    requires Upload(m, file, uniqueId, sanitized, run, now).0.Ok?
    ensures var (r, m') := Upload(m, file, uniqueId, sanitized, run, now);
      Download(m', uniqueId, sanitized) == Ok(FileReply(InputName(uniqueId, sanitized), sanitized))
  {
    UploadVerdict(m, file, uniqueId, sanitized, run, now);
  }

  /** The folder after `cleanup`: with a missing or empty `download_id` nothing is removed. */
  function AfterCleanup(m: map<string, Entry>, downloadId: Option<string>, locked: set<string>): (m': map<string, Entry>)
    ensures downloadId.None? || downloadId == Some("") ==> m' == m
  {
    if downloadId.Some? && downloadId.value != "" then WithoutPrefixed(m, downloadId.value, locked) else m
  }

  /** `upload_file`, on the folder created at start-up. */
  method UploadFile(f: Folder, file: Option<string>, uniqueId: string, sanitized: string, run: ScriptRun, now: int) returns (r: Reply<Uploaded>)
    requires f.present
    modifies f
    ensures f.present
    ensures (r, f.entries) == Upload(old(f.entries), file, uniqueId, sanitized, run, now)
  {
    if file.None? {
      return Error(400, "No file provided");
    }
    if file.value == "" {
      return Error(400, "No file selected");
    }
    if !AllowedFileBasic(file.value) {
      return Error(400, InvalidType);
    }
    var input := InputName(uniqueId, sanitized);
    var output := OutputName(uniqueId, sanitized);
    f.entries := f.entries[input := RegularFile(now)];
    match run {
      case ScriptRaised(message) =>
        if input in f.entries {
          f.entries := f.entries - {input};
        }
        return Error(500, message);
      case ScriptExited(code, stderr, wroteOutput) =>
        if wroteOutput {
          f.entries := f.entries[output := RegularFile(now)];
        }
        if code != 0 {
          f.entries := f.entries - {input};
          return Error(500, "PDF processing failed: " + stderr);
        }
        if output !in f.entries {
          f.entries := f.entries - {input};
          return Error(500, "Output file was not created");
        }
        return Ok(Uploaded(uniqueId, "fixed_" + sanitized));
    }
  }

  /** `cleanup`, on the folder created at start-up. The reply (`{'success': True}`) is always
      success: a file that cannot be removed is passed over silently. */
  method Cleanup(f: Folder, downloadId: Option<string>, locked: set<string>) returns (r: Reply<bool>)
    requires f.present
    modifies f
    ensures r == Ok(true)
    ensures f.present
    ensures f.entries == AfterCleanup(old(f.entries), downloadId, locked)
  {
    if downloadId.Some? && downloadId.value != "" {
      f.RemovePrefixed(downloadId.value, locked);
    }
    return Ok(true);
  }

  /** Cleaning up with the download id of a successful upload removes both its files, unless
      one of them cannot be removed. */
  lemma CleanupRemovesUpload(m: map<string, Entry>, file: Option<string>, uniqueId: string, sanitized: string, run: ScriptRun, now: int, locked: set<string>)
    requires Upload(m, file, uniqueId, sanitized, run, now).0.Ok? && uniqueId != ""
    ensures var (r, m') := Upload(m, file, uniqueId, sanitized, run, now);
      var c := AfterCleanup(m', Some(r.value.downloadId), locked);
      && (InputName(uniqueId, sanitized) !in locked ==> InputName(uniqueId, sanitized) !in c)
      && (OutputName(uniqueId, sanitized) !in locked && m'[OutputName(uniqueId, sanitized)].RegularFile? ==>
            OutputName(uniqueId, sanitized) !in c)
  {
    UploadVerdict(m, file, uniqueId, sanitized, run, now);
    var input := InputName(uniqueId, sanitized);
    var output := OutputName(uniqueId, sanitized);
    assert input[..|uniqueId|] == uniqueId;
    assert output[..|uniqueId|] == uniqueId;
  }

  /** Download ids of one length (as `uuid4` strings are) do not reach each other's files:
      cleaning up with `id` keeps every file named `<other>_...` exactly as it was. */
  lemma CleanupSparesOtherUploads(m: map<string, Entry>, id: string, other: string, rest: string, locked: set<string>)
    requires |other| == |id| && other != id && other + "_" + rest in m
    ensures var n := other + "_" + rest;
      n in AfterCleanup(m, Some(id), locked) && AfterCleanup(m, Some(id), locked)[n] == m[n]
  {
    var n := other + "_" + rest;
    if id != "" {
      assert n[..|id|] == other;
    }
  }
}
