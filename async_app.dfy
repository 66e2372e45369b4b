/** The asynchronous app: what `upload_file` accepts and how it names the job's files, the job
    table and file store it updates, and the background job `process_pdf_async` that runs the
    stage pipeline over them. */
module AsyncApp {
  import opened PyStr
  import opened Validation
  import opened RateLimit
  import opened Jobs
  import opened Pipeline

  /** `app.config['UPLOAD_FOLDER']`, already absolute. */
  const UploadDir := "/tmp/pdf-uploads"
  const MaxFileSize := 100 * 1024 * 1024
  const MaxFilenameLength := 255

  const TooManyUploads := "Too many upload attempts. Please try again later."

  /** `os.path.join(folder, name)` for a name without '/'. */
  function JoinPath(dir: string, name: string): string
  {
    dir + "/" + name
  }

  /** The uploaded file: its client-side name and its size in bytes. */
  datatype Upload = Upload(filename: string, size: nat)

  /** What `upload_file` reads from the request: the X-Forwarded-For header, the peer address,
      the form fields and the file part. */
  datatype Request = Request(forwardedFor: Option<string>, remoteAddr: string, form: map<string, string>, file: Option<Upload>)

  /** `request.form.get(key, default)` */
  function FormGet(form: map<string, string>, key: string, default: string): string
  {
    if key in form then form[key] else default
  }

  /** The address `upload_file` rate-limits: the X-Forwarded-For header (else the peer address),
      cut at its first ',' and stripped. */
  function ClientIp(req: Request): (r: string)
    ensures ',' !in r
    ensures var h := if req.forwardedFor.Some? then req.forwardedFor.value else req.remoteAddr;
      (',' !in h ==> r == h) && (',' in h ==> |r| < |h|)
    ensures var h := if req.forwardedFor.Some? then req.forwardedFor.value else req.remoteAddr;
      FirstIndex(h, ',').Some? ==> r == Strip(h[..FirstIndex(h, ',').value])
  {
    var h := if req.forwardedFor.Some? then req.forwardedFor.value else req.remoteAddr;
    match FirstIndex(h, ',')
    case None => h
    case Some(k) =>
      assert ',' !in h[..k];
      assert h[k] == ',';
      Strip(h[..k])
  }

  /** What the background job is started with. */
  datatype JobParams = JobParams(inputPath: string, outputPath: string, email: string, pages: seq<string>, dpi: string, opts: Options)

  /** The JSON reply of an accepted upload, the record it stores, and the job's parameters. */
  datatype Accepted = Accepted(jobId: string, filename: string, message: string, record: JobRecord, params: JobParams)

  function StartedMessage(email: string): string
  {
    "PDF processing started." + if email != "" then " You will receive an email when it's ready." else ""
  }

  /** The form's processing options: a flag is set when its field is "1". */
  function FormOptions(form: map<string, string>): Options
  {
    Options(FormGet(form, "remove_security", "") == "1", FormGet(form, "ocr", "") == "1",
            FormGet(form, "page_numbers", "") == "1", FormGet(form, "compress", "") == "1")
  }

  /** Whether an upload passes every check before paths are built. */
  predicate AcceptableUpload(email: string, file: Option<Upload>)
  {
    && (email == "" || ValidateEmail(email))
    && file.Some? && file.value.filename != "" && AllowedFile(file.value.filename)
    && 0 < file.value.size <= MaxFileSize && |file.value.filename| <= MaxFilenameLength
  }

  /** The stripped email field. */
  function FormEmail(form: map<string, string>): string
  {
    Strip(FormGet(form, "email", ""))
  }

  /** `<folder>/<job_id>_<name>`, where the upload is saved. */
  function InputPath(jobId: string, sanitized: string): string
  {
    JoinPath(UploadDir, jobId + "_" + NormalizeFilename(sanitized))
  }

  /** `<folder>/<job_id>_fixed_<name>`, where the result is to be left. */
  function OutputPath(jobId: string, sanitized: string): string
  {
    JoinPath(UploadDir, jobId + "_fixed_" + NormalizeFilename(sanitized))
  }

  /** The reply, record and job parameters of an accepted upload. */
  function Granted(req: Request, jobId: string, sanitized: string): Accepted
  {
    var email := FormEmail(req.form);
    var output := OutputPath(jobId, sanitized);
    var download := "fixed_" + NormalizeFilename(sanitized);
    var pages := PagesArgs(FormGet(req.form, "pages", "all"), FormGet(req.form, "custom_pages", ""));
    var params := JobParams(InputPath(jobId, sanitized), output, email, pages, NormalizeDpi(FormGet(req.form, "dpi", "600")), FormOptions(req.form));
    Accepted(jobId, download, StartedMessage(email), NewJob(download, email, output), params)
  }

  /** `upload_file` after the rate limit: `jobId` is the fresh `uuid4` and `sanitized` what
      `secure_filename` made of the client's name. */
  function Accept(req: Request, jobId: string, sanitized: string): Reply<Accepted>
  {
    var email := FormEmail(req.form);
    if email != "" && !ValidateEmail(email) then Error(400, "Invalid email address format")
    else if req.file.None? then Error(400, "No file provided")
    else if req.file.value.filename == "" then Error(400, "No file selected")
    else if !AllowedFile(req.file.value.filename) then Error(400, "Invalid file type. Only PDF files are allowed.")
    else if req.file.value.size > MaxFileSize then Error(400, "File size exceeds 100MB limit")
    else if req.file.value.size == 0 then Error(400, "File is empty")
    else if |req.file.value.filename| > MaxFilenameLength then Error(400, "Filename is too long")
    else if !StartsWith(InputPath(jobId, sanitized), UploadDir) || !StartsWith(OutputPath(jobId, sanitized), UploadDir) then
      Error(400, "Invalid file path")
    else Ok(Granted(req, jobId, sanitized))
  }

  /** Both paths lie in the upload folder, so the path check never rejects. `os.path.abspath`
      is taken as the identity on these joined paths: the output of `secure_filename` holds no
      '/' and no ".." component, so normalising cannot move the path out of the folder. */
  lemma PathsInFolder(jobId: string, sanitized: string)
    ensures StartsWith(InputPath(jobId, sanitized), UploadDir) && StartsWith(OutputPath(jobId, sanitized), UploadDir)
  {
    assert InputPath(jobId, sanitized)[..|UploadDir|] == UploadDir;
    assert OutputPath(jobId, sanitized)[..|UploadDir|] == UploadDir;
  }

  /** An upload is accepted exactly when it passes every check; otherwise the reply is the error of
      the first check it fails, in the order email, file part, empty name, extension, size, name
      length. */
  lemma AcceptVerdict(req: Request, jobId: string, sanitized: string)
    ensures Accept(req, jobId, sanitized).Ok? <==> AcceptableUpload(FormEmail(req.form), req.file)
    ensures Accept(req, jobId, sanitized).Ok? ==> Accept(req, jobId, sanitized).value == Granted(req, jobId, sanitized)
    ensures var email := FormEmail(req.form);
      email != "" && !ValidateEmail(email) ==> Accept(req, jobId, sanitized) == Error(400, "Invalid email address format")
    ensures var email := FormEmail(req.form);
      (email == "" || ValidateEmail(email)) && req.file.Some? && req.file.value.filename != "" && !HasPdfSuffix(req.file.value.filename) ==>
        Accept(req, jobId, sanitized) == Error(400, "Invalid file type. Only PDF files are allowed.")
  {
    PathsInFolder(jobId, sanitized);
  }

  /** An accepted upload's files are `<job_id>_<name>` and `<job_id>_fixed_<name>` in the upload
      folder, where `name` is the normalised file name; they are distinct; the stored record is
      queued with download name `fixed_<name>`; DPI and options come from the form. */
  lemma AcceptedJobShape(req: Request, jobId: string, sanitized: string)
    ensures var a := Granted(req, jobId, sanitized);
      var name := NormalizeFilename(sanitized);
      && a.jobId == jobId && a.filename == "fixed_" + name && HasPdfSuffix(name)
      && a.params.inputPath == UploadDir + "/" + jobId + "_" + name
      && a.params.outputPath == UploadDir + "/" + jobId + "_fixed_" + name
      && a.params.inputPath != a.params.outputPath
      && a.record == NewJob(a.filename, a.params.email, a.params.outputPath)
      && a.record.status == Queued
      && a.params.dpi in AllowedDpis
      && a.params.opts == FormOptions(req.form)
  {
    var a := Granted(req, jobId, sanitized);
    var name := NormalizeFilename(sanitized);
    assert a.params.inputPath == UploadDir + "/" + jobId + "_" + name;
    assert a.params.outputPath == UploadDir + "/" + jobId + "_fixed_" + name;
    assert |a.params.inputPath| != |a.params.outputPath|;
  }

  // ---------------------------------------------------------------------------------------------
  // From upload to download

  /** A string of which no '.' lies in `a` has no occurrence of ".pdf" before `b`, and its
      occurrences in `b` are those of `b`. */
  lemma OccursAfterDotFree(a: string, b: string, pat: string)
    requires pat != [] && pat[0] == '.' && forall k :: 0 <= k < |a| ==> a[k] != '.'
    ensures forall i :: 0 <= i < |a| ==> !Occurs(a + b, pat, i)
    ensures forall i :: Occurs(b, pat, i) <==> Occurs(a + b, pat, i + |a|)
  {
    forall i | 0 <= i < |a| ensures !Occurs(a + b, pat, i) {
      if i + |pat| <= |a + b| { assert (a + b)[i..i + |pat|][0] == a[i]; }
    }
    forall i ensures Occurs(b, pat, i) <==> Occurs(a + b, pat, i + |a|) {
      if 0 <= i && i + |pat| <= |b| { assert (a + b)[i + |a|..i + |a| + |pat|] == b[i..i + |pat|]; }
    }
  }

  /** A dot-free directory and job id in front of a name keep its single ".pdf" extension. */
  lemma DotFreePrefixKeepsPdfName(a: string, name: string)
    requires PdfName(name) && forall k :: 0 <= k < |a| ==> a[k] != '.'
    ensures PdfName(a + name) && Stem(a + name) == a + Stem(name)
  {
    OccursAfterDotFree(a, name, ".pdf");
    var t := a + name;
    assert t[|t| - 4..] == name[|name| - 4..];
    forall i | 0 <= i < |t| - 4 ensures !Occurs(t, ".pdf", i) {
      if i >= |a| { assert !Occurs(name, ".pdf", i - |a|); }
    }
    assert t[..|t| - 4] == a + name[..|name| - 4];
  }

  /** A dot-free directory and job id in front of a name without ".pdf" add none. */
  lemma DotFreePrefixKeepsNoPdf(a: string, name: string)
    requires (forall i :: !Occurs(name, ".pdf", i)) && forall k :: 0 <= k < |a| ==> a[k] != '.'
    ensures forall i :: !Occurs(a + name, ".pdf", i)
  {
    OccursAfterDotFree(a, name, ".pdf");
    forall i ensures !Occurs(a + name, ".pdf", i) {
      if i >= |a| { assert !Occurs(name, ".pdf", i - |a|); }
    }
  }

  /** Where `p + n` agrees with `n` on its first `k` characters, those characters repeat `p`. */
  lemma {:induction false} PrefixPeriodic(p: string, n: string, k: nat, j: nat)
    requires |p| > 0 && k <= |n| && forall i :: 0 <= i < k ==> (p + n)[i] == n[i]
    requires j < k
    ensures n[j] in p
    decreases j
  {
    if j < |p| {
      assert (p + n)[j] == p[j];
    } else {
      PrefixPeriodic(p, n, k, j - |p|);
      assert (p + n)[j] == n[j - |p|];
    }
  }

  /** `"fixed_" + n` never starts with a prefix of `n` followed by '-', since "fixed_" has no '-'. */
  lemma FixedNameNotDerived(n: string, k: nat)
    requires k <= |n|
    ensures !StartsWith("fixed_" + n, n[..k] + "-")
  {
    var f := "fixed_" + n;
    var t := n[..k] + "-";
    if forall i :: 0 <= i < k ==> f[i] == n[i] {
      if k < 6 {
        assert f[k] == "fixed_"[k];
      } else {
        PrefixPeriodic("fixed_", n, k, k - 6);
        assert f[k] == n[k - 6];
      }
      assert f[..k + 1][k] != t[k];
    } else {
      var i :| 0 <= i < k && f[i] != n[i];
      assert f[..k + 1][i] != t[i];
    }
  }

  /** The output path of an accepted upload is never a name the pipeline derives from its input. */
  lemma OutputNotIntermediate(jobId: string, name: string)
    requires PdfName(name) && forall k :: 0 <= k < |jobId| ==> jobId[k] != '.'
    ensures var dir := UploadDir + "/" + jobId + "_";
      && PdfName(dir + name)
      && !Intermediate(dir + "fixed_" + name, dir + name)
      && PdfName(dir + "fixed_" + name)
  {
    var dir := UploadDir + "/" + jobId + "_";
    assert forall k :: 0 <= k < |jobId| ==> dir[|UploadDir| + 1 + k] == jobId[k];
    assert forall k :: 0 <= k < |dir| ==> dir[k] != '.';
    DotFreePrefixKeepsPdfName(dir, name);
    var f := "fixed_";
    assert forall k :: 0 <= k < |dir + f| ==> (dir + f)[k] != '.';
    DotFreePrefixKeepsPdfName(dir + f, name);
    assert dir + "fixed_" + name == dir + (f + name);
    FixedNameNotDerived(name, |name| - 4);
    var st := Stem(dir + name);
    var t := name[..|name| - 4] + "-";
    assert st + "-" == dir + t;
    StartsWithAfterCommonPrefix(dir, f + name, t);
  }

  /** Dropping a common prefix keeps `startswith`. */
  lemma StartsWithAfterCommonPrefix(d: string, x: string, t: string)
    ensures StartsWith(d + x, d + t) <==> StartsWith(x, t)
  {
    if |t| <= |x| {
      assert (d + x)[..|d + t|] == d + x[..|t|];
      if StartsWith(d + x, d + t) {
        assert x[..|t|] == (d + x)[..|d + t|][|d|..];
      }
    }
  }

  /** The tool outcomes under which every enabled tool does its work; font repair writes its
      `-FIXED` file (`wf`), the output path (`wo`), or both. */
  function AllToolsWork(e: string, wf: bool, wo: bool): Runs
  {
    Runs(Wrote, FontFixExited(0, e, wf, wo), Wrote, Wrote, Wrote)
  }

  /** A job whose input has a single ".pdf" extension and whose output is not one of its
      intermediates completes, with every tool doing its work, and its result can be downloaded.
      When font repair wrote only the output path, this needs an output path with a single
      ".pdf" extension, of which the input is no intermediate, and a folder with no intermediate
      of either. It holds for the code as written (`guarded` false) and for the corrected
      variant alike. */
  lemma CompletedJobIsDownloadable(disk: Disk, input: string, output: string, opts: Options, e: string, wf: bool, wo: bool, guarded: bool, job: JobRecord, jobs: map<string, JobRecord>, jobId: string)
    requires PdfName(input) && input in disk
    requires output != input && !Intermediate(output, input) && job.outputPath == output
    requires wf || wo
    requires !wf ==> PdfName(output) && !Intermediate(input, output) && Clean(disk, input) && Clean(disk, output)
    ensures var o := Run(disk, input, output, opts, AllToolsWork(e, wf, wo), guarded, job);
      && o.job.status == Completed
      && output in o.disk && o.disk[output] == disk[input] + Applied(opts)
      && DownloadFile(jobs[jobId := o.job], jobId, true, true, o.disk.Keys) == Ok(FileReply(output, job.filename))
  {
    var o := Run(disk, input, output, opts, AllToolsWork(e, wf, wo), guarded, job);
    EnabledStagesRunInOrder(disk, input, output, opts, e, wf, wo, guarded, job);
    RunEnds(disk, input, output, opts, AllToolsWork(e, wf, wo), guarded, job);
    var j := o.job;
    assert j.status == Completed && j.outputPath == job.outputPath && j.filename == job.filename;
    assert j.outputPath in o.disk.Keys;
    var jobs' := jobs[jobId := j];
    assert jobId in jobs' && jobs'[jobId] == j;
  }

  /** Both paths share the prefix `<folder>/<job_id>_`. */
  lemma PathShapes(jobId: string, name: string)
    ensures JoinPath(UploadDir, jobId + "_" + name) == UploadDir + "/" + jobId + "_" + name
    ensures JoinPath(UploadDir, jobId + "_fixed_" + name) == UploadDir + "/" + jobId + "_" + "fixed_" + name
  {
    assert "_fixed_" + name == "_" + ("fixed_" + name);
    assert jobId + "_fixed_" + name == jobId + "_" + ("fixed_" + name);
  }

  /** The two paths of an accepted upload whose name has a single ".pdf" extension meet what the
      pipeline needs: distinct, the input a single-extension name, the output none of its
      intermediates and inside the upload folder. */
  lemma AcceptedPathsFitPipeline(jobId: string, sanitized: string)
    requires PdfName(NormalizeFilename(sanitized)) && forall k :: 0 <= k < |jobId| ==> jobId[k] != '.'
    ensures var input := InputPath(jobId, sanitized);
      var output := OutputPath(jobId, sanitized);
      && PdfName(input) && output != input && !Intermediate(output, input) && StartsWith(output, UploadDir)
      && PdfName(output) && !Intermediate(input, output)
  {
    var name := NormalizeFilename(sanitized);
    PathShapes(jobId, name);
    PathsInFolder(jobId, sanitized);
    OutputNotIntermediate(jobId, name);
    var input := InputPath(jobId, sanitized);
    var output := OutputPath(jobId, sanitized);
    assert |output| == |input| + 6;
    assert |Stem(output) + "-"| > |input|;
  }

  /** Every intermediate name of a path `<dir><x>` starts with `<dir>`. */
  lemma IntermediateInDir(dir: string, x: string, p: string)
    requires EndsWith(x, ".pdf") && EndsWith(dir + x, ".pdf")
    requires Intermediate(p, dir + x)
    ensures StartsWith(p, dir)
  {
    var t := Stem(dir + x) + "-";
    assert Stem(dir + x) == dir + Stem(x);
    assert p[..|dir|] == p[..|t|][..|dir|];
  }

  /** In a folder with no file of this job yet, apart from the upload itself, no file bears an
      intermediate name of either path of the job. */
  lemma FreshJobIsClean(disk: Disk, jobId: string, name: string, input: string, output: string)
    requires PdfName(name) && PdfName(input) && PdfName(output)
    requires input == UploadDir + "/" + jobId + "_" + name && output == UploadDir + "/" + jobId + "_" + "fixed_" + name
    requires !Intermediate(input, output)
    requires forall p :: p in disk ==> !StartsWith(p, UploadDir + "/" + jobId + "_")
    ensures Clean(disk[input := []], input) && Clean(disk[input := []], output)
  {
    var dir := UploadDir + "/" + jobId + "_";
    InputNotIntermediate(input);
    forall p | Intermediate(p, input) ensures p !in disk[input := []] {
      IntermediateInDir(dir, name, p);
    }
    assert output == dir + ("fixed_" + name);
    assert EndsWith("fixed_" + name, ".pdf") by {
      assert ("fixed_" + name)[|"fixed_" + name| - 4..] == name[|name| - 4..];
    }
    forall p | Intermediate(p, output) ensures p !in disk[input := []] {
      IntermediateInDir(dir, "fixed_" + name, p);
    }
  }

  /** End to end: an accepted upload whose file name has a single ".pdf" extension, processed with
      every tool doing its work, can be downloaded under its `fixed_` name, and the file sent is the
      upload with exactly the requested stages applied in pipeline order. When font repair wrote
      only the output path, this needs a folder holding no file of this job yet (the job id is a
      fresh `uuid4`). It holds for the code as written (`guarded` false) and for the corrected
      variant alike. */
  lemma UploadedPdfIsDownloadable(req: Request, jobId: string, sanitized: string, jobs: map<string, JobRecord>, disk: Disk, e: string, wf: bool, wo: bool, guarded: bool)
    requires Accept(req, jobId, sanitized).Ok?
    requires PdfName(NormalizeFilename(sanitized)) && forall k :: 0 <= k < |jobId| ==> jobId[k] != '.'
    requires wf || wo
    requires !wf ==> forall p :: p in disk ==> !StartsWith(p, UploadDir + "/" + jobId + "_")
    ensures var a := Accept(req, jobId, sanitized).value;
      var input := a.params.inputPath;
      var output := a.params.outputPath;
      var o := Run(disk[input := []], input, output, a.params.opts, AllToolsWork(e, wf, wo), guarded, a.record);
      && o.job.status == Completed
      && output in o.disk && o.disk[output] == Applied(a.params.opts)
      && DownloadFile(jobs[jobId := o.job], jobId, true, StartsWith(output, UploadDir), o.disk.Keys)
           == Ok(FileReply(output, a.filename))
  {
    AcceptVerdict(req, jobId, sanitized);
    AcceptedPathsFitPipeline(jobId, sanitized);
    var a := Granted(req, jobId, sanitized);
    var input := InputPath(jobId, sanitized);
    var output := OutputPath(jobId, sanitized);
    assert a.params.inputPath == input && a.params.outputPath == output && a.record.outputPath == output;
    var d := disk[input := []];
    assert input in d && d[input] == [];
    if !wf {
      var name := NormalizeFilename(sanitized);
      PathShapes(jobId, name);
      OutputNotIntermediate(jobId, name);
      FreshJobIsClean(disk, jobId, name, input, output);
    }
    CompletedJobIsDownloadable(d, input, output, a.params.opts, e, wf, wo, guarded, a.record, jobs, jobId);
  }

  /** The case of the finding: a name such as "report.PDF" passes every check unchanged and gives
      an input path with no lower-case ".pdf", so every expected stage output is the input itself. */
  lemma UpperCaseNameReachesPipeline(req: Request, jobId: string, sanitized: string)
    requires Accept(req, jobId, sanitized).Ok?
    requires sanitized != [] && HasPdfSuffix(sanitized) && forall i :: !Occurs(sanitized, ".pdf", i)
    requires forall k :: 0 <= k < |jobId| ==> jobId[k] != '.'
    ensures var input := Accept(req, jobId, sanitized).value.params.inputPath;
      forall s :: Derived(input, s) == input
  {
    assert Accept(req, jobId, sanitized).value == Granted(req, jobId, sanitized) by { AcceptVerdict(req, jobId, sanitized); }
    assert Granted(req, jobId, sanitized).params.inputPath == InputPath(jobId, sanitized);
    InputPathWithoutPdf(jobId, sanitized);
  }

  lemma InputPathWithoutPdf(jobId: string, sanitized: string)
    requires sanitized != [] && HasPdfSuffix(sanitized) && forall i :: !Occurs(sanitized, ".pdf", i)
    requires forall k :: 0 <= k < |jobId| ==> jobId[k] != '.'
    ensures forall s :: Derived(InputPath(jobId, sanitized), s) == InputPath(jobId, sanitized)
  {
    var dir := UploadDir + "/" + jobId + "_";
    assert forall k :: 0 <= k < |dir| ==> dir[k] != '.' by {
      assert forall k :: 0 <= k < |jobId| ==> dir[|UploadDir| + 1 + k] == jobId[k];
    }
    var input := InputPath(jobId, sanitized);
    assert input == dir + sanitized by {
      assert NormalizeFilename(sanitized) == sanitized;
      PathShapes(jobId, sanitized);
    }
    assert forall i :: !Occurs(input, ".pdf", i) by { DotFreePrefixKeepsNoPdf(dir, sanitized); }
    forall s ensures Derived(input, s) == input { DerivedOfNoPdf(input, s); }
  }

  /** Two updates of the same key compose into one. */
  lemma UpdatesCompose<K, V>(m0: map<K, V>, m1: map<K, V>, m2: map<K, V>, k: K)
    requires k in m1 && m1 == m0[k := m1[k]]
    requires k in m2 && m2 == m1[k := m2[k]]
    ensures m2 == m0[k := m2[k]]
  {
  }

  // ---------------------------------------------------------------------------------------------
  // The server

  /** The process-wide state: `processing_jobs`, the upload folder's files and the rate limiter. */
  class JobServer {
    var jobs: map<string, JobRecord>
    var disk: Disk
    var limiter: RateLimiter

    constructor ()
      ensures jobs == map[] && disk == map[] && fresh(limiter) && limiter.attempts == map[]
    {
      jobs := map[];
      disk := map[];
      limiter := new RateLimiter();
    }

    /** `upload_file`: the rate limit first, then the checks of `Accept`; an accepted upload is
        saved (as an unprocessed file) and its record stored. */
    method UploadFile(req: Request, jobId: string, sanitized: string, now: int) returns (r: Reply<Accepted>)
      modifies this, limiter
      ensures limiter == old(limiter)
      ensures var verdict := Admit(old(limiter.attempts), ClientIp(req), now);
        && limiter.attempts == verdict.1
        && r == if verdict.0 then Accept(req, jobId, sanitized) else Error(429, TooManyUploads)
      ensures r.Ok? ==> jobs == old(jobs)[jobId := r.value.record] && disk == old(disk)[r.value.params.inputPath := []]
      ensures !r.Ok? ==> jobs == old(jobs) && disk == old(disk)
    {
      var allowed := limiter.CheckRateLimit(ClientIp(req), now);
      if !allowed {
        return Error(429, TooManyUploads);
      }
      r := Accept(req, jobId, sanitized);
      if r.Ok? {
        disk := disk[r.value.params.inputPath := []];
        jobs := jobs[jobId := r.value.record];
      }
    }

    /** Sets a field of the job's record. */
    method SetJob(jobId: string, job: JobRecord)
      requires jobId in jobs
      modifies this
      ensures jobs == old(jobs)[jobId := job] && disk == old(disk) && limiter == old(limiter)
    {
      jobs := jobs[jobId := job];
    }

    /** The hand-off to a stage's output `next`: the superseded file is deleted unless it is the
        upload and `keepInput` is set. */
    method HandOff(jobId: string, current: string, next: string, input: string, keepInput: bool) returns (newCurrent: string, exit: Exit)
      requires jobId in jobs
      modifies this
      ensures jobs == old(jobs) && limiter == old(limiter)
      ensures State(disk, newCurrent, jobs[jobId], exit) == Handoff(State(old(disk), current, old(jobs)[jobId], Running), next, input, keepInput)
    {
      if !(keepInput && current == input) {
        if current !in disk {
          return current, Raised(NoSuchFile(current));
        }
        disk := disk - {current};
      }
      return next, Running;
    }

    /** Unlock, OCR, page numbers or compression, run on `current`. */
    method OptionalStage(jobId: string, s: Stage, run: ToolRun, current: string, input: string, guarded: bool) returns (next: string, exit: Exit)
      requires jobId in jobs && s != FontFix
      modifies this
      ensures jobId in jobs && jobs == old(jobs)[jobId := jobs[jobId]] && limiter == old(limiter)
      ensures State(disk, next, jobs[jobId], exit) == ToolStage(State(old(disk), current, old(jobs)[jobId], Running), s, true, run, input, guarded)
    {
      SetJob(jobId, jobs[jobId].(progress := ProgressOf(s)));
      if run.ToolRaised? {
        return current, Raised(run.message);
      }
      var expected := Derived(current, s);
      if run.Wrote? {
        disk := Write(disk, current, expected, s);
      }
      if expected in disk && !(guarded && expected == current) {
        next, exit := HandOff(jobId, current, expected, input, s == Unlock);
      } else {
        next, exit := current, Running;
      }
    }

    /** What the font-repair script leaves behind, whatever its exit code. */
    method WriteRepaired(current: string, output: string, wroteFixed: bool, wroteOutput: bool)
      modifies this
      ensures jobs == old(jobs) && limiter == old(limiter)
      ensures disk == FontFixWrites(old(disk), current, output, wroteFixed, wroteOutput)
    {
      if current in disk {
        var repaired := disk[current] + [FontFix];
        if wroteFixed {
          disk := disk[Derived(current, FontFix) := repaired];
        }
        if wroteOutput {
          disk := disk[output := repaired];
        }
      }
    }

    /** Font repair of `current`, its exit-code check and the choice of its output file. */
    method FixFonts(jobId: string, run: FontFixRun, current: string, input: string, output: string, guarded: bool) returns (next: string, exit: Exit)
      requires jobId in jobs
      modifies this
      ensures jobId in jobs && jobs == old(jobs)[jobId := jobs[jobId]] && limiter == old(limiter)
      ensures State(disk, next, jobs[jobId], exit) == FontFixStage(State(old(disk), current, old(jobs)[jobId], Running), run, input, output, guarded)
    {
      SetJob(jobId, jobs[jobId].(progress := ProgressOf(FontFix)));
      if run.FontFixRaised? {
        return current, Raised(run.message);
      }
      ghost var jobs1 := jobs;
      WriteRepaired(current, output, run.wroteFixed, run.wroteOutput);
      if run.code != 0 {
        SetJob(jobId, jobs[jobId].(status := Failed, error := Some(ExitMessage(run.code, run.stderr))));
        UpdatesCompose(old(jobs), jobs1, jobs, jobId);
        return current, Returned;
      }
      next, exit := PickOutput(jobId, current, input, output, guarded);
      UpdatesCompose(old(jobs), jobs1, jobs, jobId);
    }

    /** The choice of the repaired file once the script has exited 0. */
    method PickOutput(jobId: string, current: string, input: string, output: string, guarded: bool) returns (next: string, exit: Exit)
      requires jobId in jobs
      modifies this
      ensures jobId in jobs && jobs == old(jobs)[jobId := jobs[jobId]] && limiter == old(limiter)
      ensures State(disk, next, jobs[jobId], exit) == PickRepaired(State(old(disk), current, old(jobs)[jobId], Running), input, output, guarded)
    {
      var auto := Derived(current, FontFix);
      if auto in disk && !(guarded && auto == current) {
        next, exit := HandOff(jobId, current, auto, input, true);
      } else if output in disk && !(guarded && output == current) {
        next, exit := HandOff(jobId, current, output, input, true);
      } else {
        SetJob(jobId, jobs[jobId].(status := Failed, error := Some(NotCreated)));
        next, exit := current, Returned;
      }
    }

    /** `shutil.move(current_file, output_path)` and the status "completed". */
    method MoveToOutput(jobId: string, current: string, output: string) returns (exit: Exit)
      requires jobId in jobs
      modifies this
      ensures jobId in jobs && jobs == old(jobs)[jobId := jobs[jobId]] && limiter == old(limiter)
      ensures State(disk, current, jobs[jobId], exit) == Finish(State(old(disk), current, old(jobs)[jobId], Running), output)
    {
      if current !in disk {
        return Raised(NoSuchFile(current));
      }
      disk := Move(disk, current, output);
      SetJob(jobId, jobs[jobId].(status := Completed));
      return Returned;
    }

    /** The first two stages of the try-block: unlocking and font repair. */
    method UnlockAndRepair(jobId: string, input: string, output: string, opts: Options, runs: Runs, guarded: bool) returns (current: string, exit: Exit)
      requires jobId in jobs
      modifies this
      ensures jobId in jobs && jobs == old(jobs)[jobId := jobs[jobId]] && limiter == old(limiter)
      ensures State(disk, current, jobs[jobId], exit) == AfterFontFix(old(disk), input, output, opts, runs, guarded, old(jobs)[jobId])
    {
      ghost var job0 := jobs[jobId];
      ghost var disk0 := disk;
      SetJob(jobId, jobs[jobId].(status := Processing, progress := StartProgress));
      current, exit := input, Running;
      assert State(disk, current, jobs[jobId], exit) == Start(disk0, input, job0);
      ghost var jobs1 := jobs;
      if opts.removeSecurity {
        current, exit := OptionalStage(jobId, Unlock, runs.unlock, current, input, guarded);
      }
      UpdatesCompose(old(jobs), jobs1, jobs, jobId);
      assert State(disk, current, jobs[jobId], exit) == AfterUnlock(disk0, input, opts, runs, guarded, job0);
      ghost var jobs2 := jobs;
      if exit.Running? {
        current, exit := FixFonts(jobId, runs.fontFix, current, input, output, guarded);
      }
      UpdatesCompose(old(jobs), jobs2, jobs, jobId);
    }

    /** An optional stage, skipped when it is not enabled or the try-block was already left. */
    method MaybeStage(jobId: string, s: Stage, enabled: bool, run: ToolRun, current0: string, exit0: Exit, input: string, guarded: bool) returns (current: string, exit: Exit)
      requires jobId in jobs && s != FontFix
      modifies this
      ensures jobId in jobs && jobs == old(jobs)[jobId := jobs[jobId]] && limiter == old(limiter)
      ensures State(disk, current, jobs[jobId], exit) == ToolStage(State(old(disk), current0, old(jobs)[jobId], exit0), s, enabled, run, input, guarded)
    {
      current, exit := current0, exit0;
      if exit.Running? && enabled {
        current, exit := OptionalStage(jobId, s, run, current, input, guarded);
      }
    }

    /** Compression, if enabled, and the final move. */
    method CompressAndMove(jobId: string, current0: string, exit0: Exit, input: string, output: string, opts: Options, runs: Runs, guarded: bool) returns (current: string, exit: Exit)
      requires jobId in jobs
      modifies this
      ensures jobId in jobs && jobs == old(jobs)[jobId := jobs[jobId]] && limiter == old(limiter)
      ensures State(disk, current, jobs[jobId], exit)
        == Finish(ToolStage(State(old(disk), current0, old(jobs)[jobId], exit0), Compress, opts.compress, runs.compress, input, guarded), output)
    {
      current, exit := MaybeStage(jobId, Compress, opts.compress, runs.compress, current0, exit0, input, guarded);
      ghost var jobs1 := jobs;
      if exit.Running? {
        exit := MoveToOutput(jobId, current, output);
      }
      UpdatesCompose(old(jobs), jobs1, jobs, jobId);
    }

    /** Page numbers and compression, if enabled, and the final move. */
    method NumberCompressAndMove(jobId: string, current0: string, exit0: Exit, input: string, output: string, opts: Options, runs: Runs, guarded: bool) returns (current: string, exit: Exit)
      requires jobId in jobs
      modifies this
      ensures jobId in jobs && jobs == old(jobs)[jobId := jobs[jobId]] && limiter == old(limiter)
      ensures var s4 := ToolStage(State(old(disk), current0, old(jobs)[jobId], exit0), PageNumbers, opts.addPageNumbers, runs.pageNumbers, input, guarded);
        State(disk, current, jobs[jobId], exit) == Finish(ToolStage(s4, Compress, opts.compress, runs.compress, input, guarded), output)
    {
      current, exit := MaybeStage(jobId, PageNumbers, opts.addPageNumbers, runs.pageNumbers, current0, exit0, input, guarded);
      ghost var jobs1 := jobs;
      current, exit := CompressAndMove(jobId, current, exit, input, output, opts, runs, guarded);
      UpdatesCompose(old(jobs), jobs1, jobs, jobId);
    }

    /** The rest of the try-block: OCR, page numbers, compression and the final move. */
    method FinishStages(jobId: string, current0: string, exit0: Exit, input: string, output: string, opts: Options, runs: Runs, guarded: bool) returns (current: string, exit: Exit)
      requires jobId in jobs
      modifies this
      ensures jobId in jobs && jobs == old(jobs)[jobId := jobs[jobId]] && limiter == old(limiter)
      ensures State(disk, current, jobs[jobId], exit) == Tail(State(old(disk), current0, old(jobs)[jobId], exit0), input, output, opts, runs, guarded)
    {
      current, exit := MaybeStage(jobId, Ocr, opts.doOcr, runs.ocr, current0, exit0, input, guarded);
      ghost var jobs1 := jobs;
      current, exit := NumberCompressAndMove(jobId, current, exit, input, output, opts, runs, guarded);
      UpdatesCompose(old(jobs), jobs1, jobs, jobId);
    }

    /** `process_pdf_async` for job `jobId`: the try-block's stages, the except-block and the
        finally-block. The tools' behaviour is given by `runs`; with `guarded` false this is the
        code as written (a stage's expected output counts whenever that file exists), with
        `guarded` true the corrected form (only when it is a file other than the current one). */
    method ProcessPdfAsync(jobId: string, input: string, output: string, opts: Options, runs: Runs, guarded: bool)
      requires jobId in jobs
      modifies this
      ensures limiter == old(limiter)
      ensures var o := Run(old(disk), input, output, opts, runs, guarded, old(jobs)[jobId]);
        disk == o.disk && jobs == old(jobs)[jobId := o.job]
    {
      var current, exit := RunStages(jobId, input, output, opts, runs, guarded);
      ConcludeJob(jobId, current, exit, input);
    }

    /** The try-block of `process_pdf_async`. */
    method RunStages(jobId: string, input: string, output: string, opts: Options, runs: Runs, guarded: bool) returns (current: string, exit: Exit)
      requires jobId in jobs
      modifies this
      ensures jobId in jobs && jobs == old(jobs)[jobId := jobs[jobId]] && limiter == old(limiter)
      ensures State(disk, current, jobs[jobId], exit)
        == Tail(AfterFontFix(old(disk), input, output, opts, runs, guarded, old(jobs)[jobId]), input, output, opts, runs, guarded)
    {
      current, exit := UnlockAndRepair(jobId, input, output, opts, runs, guarded);
      ghost var jobs1 := jobs;
      current, exit := FinishStages(jobId, current, exit, input, output, opts, runs, guarded);
      UpdatesCompose(old(jobs), jobs1, jobs, jobId);
    }

    /** The except-block (an exception fails the job with its message) and the finally-block (the
        upload is removed if it still exists). */
    method ConcludeJob(jobId: string, current: string, exit: Exit, input: string)
      requires jobId in jobs
      modifies this
      ensures limiter == old(limiter)
      ensures var o := Conclude(State(old(disk), current, old(jobs)[jobId], exit), input);
        disk == o.disk && jobs == old(jobs)[jobId := o.job]
    {
      if exit.Raised? {
        SetJob(jobId, jobs[jobId].(status := Failed, error := Some(exit.message)));
      }
      if input in disk {
        disk := disk - {input};
      }
    }
  }
}
