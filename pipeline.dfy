/** The stage pipeline of `process_pdf_async`, written as one function per stage over an explicit
    state: the files that exist, the "current file" threaded through the stages, the job record
    and how the try-block was left. Each file carries the list of tool stages whose output it is,
    so that the lemmas can say what ends up at the output path. */
module Pipeline {
  import opened PyStr
  import opened Jobs

  datatype Stage = Unlock | FontFix | Ocr | PageNumbers | Compress

  /** The tool stages applied to an upload, in order; the upload itself is []. */
  type Artifact = seq<Stage>

  /** The files that exist, by absolute path. */
  type Disk = map<string, Artifact>

  /** The name fragment each stage's script adds before ".pdf". */
  function Suffix(s: Stage): string
  {
    match s
    case Unlock => "-unlocked"
    case FontFix => "-FIXED"
    case Ocr => "-OCR"
    case PageNumbers => "-numbered"
    case Compress => "-compressed"
  }

  /** The progress message shown while a stage runs. */
  function ProgressOf(s: Stage): string
  {
    match s
    case Unlock => "Removing security restrictions..."
    case FontFix => "Converting PDF pages to high-resolution images..."
    case Ocr => "Running OCR..."
    case PageNumbers => "Adding page numbers..."
    case Compress => "Compressing PDF..."
  }

  const StartProgress := "Processing your PDF..."
  const NotCreated := "Output file was not created"

  /** The name where the pipeline looks for a stage's output:
      `current_file.replace('.pdf', '-<suffix>.pdf')`. */
  function Derived(path: string, s: Stage): string
  {
    Replace(path, ".pdf", Suffix(s) + ".pdf")
  }

  /** The stages the request enabled; font repair always runs. */
  datatype Options = Options(removeSecurity: bool, doOcr: bool, addPageNumbers: bool, compress: bool)

  /** What running an optional stage's script did: it wrote its output file at the expected name,
      wrote nothing, or could not be started (`subprocess.run` raised). */
  datatype ToolRun = Wrote | WroteNothing | ToolRaised(message: string)

  /** What running the font-repair script did: its exit code and standard error, and whether it
      wrote the `-FIXED` file and the requested output path; or `Popen` raised. */
  datatype FontFixRun =
    | FontFixExited(code: int, stderr: string, wroteFixed: bool, wroteOutput: bool)
    | FontFixRaised(message: string)

  /** The outcome of every tool the job may run. */
  datatype Runs = Runs(unlock: ToolRun, fontFix: FontFixRun, ocr: ToolRun, pageNumbers: ToolRun, compress: ToolRun)

  /** How the try-block of `process_pdf_async` was left: not yet, by `return` or normal end,
      or by an exception with its message. */
  datatype Exit = Running | Returned | Raised(message: string)

  datatype State = State(disk: Disk, current: string, job: JobRecord, exit: Exit)

  /** `str(e)` of the `FileNotFoundError` raised by `os.remove` and `shutil.move`. */
  function NoSuchFile(p: string): string
  {
    "[Errno 2] No such file or directory: '" + p + "'"
  }

  /** The error stored when the font-repair script exits non-zero. */
  function ExitMessage(code: int, stderr: string): string
  {
    if stderr != "" then stderr else "Script exited with code " + IntToString(code) + ". Check logs for details."
  }

  /** A tool reads `source` and writes its result at `target`; a tool whose input file is missing
      writes nothing. */
  function Write(disk: Disk, source: string, target: string, s: Stage): Disk
  {
    if source in disk then disk[target := disk[source] + [s]] else disk
  }

  /** `os.remove(p)` */
  function RemoveFile(st: State, p: string): State
  {
    if p in st.disk then st.(disk := st.disk - {p}) else st.(exit := Raised(NoSuchFile(p)))
  }

  /** Hand-off to a stage's output: the superseded current file is deleted (for unlock and font
      repair, `if current_file != input_path`), then `next` becomes the current file. */
  function Handoff(st: State, next: string, input: string, keepInput: bool): State
  {
    var st1 := if keepInput && st.current == input then st else RemoveFile(st, st.current);
    if st1.exit.Running? then st1.(current := next) else st1
  }

  /** Whether a stage's expected output counts as a new file: as written, it merely exists; in
      the `guarded` variant it must also differ from the current file. */
  predicate IsNew(disk: Disk, expected: string, current: string, guarded: bool)
  {
    expected in disk && !(guarded && expected == current)
  }

  /** Unlock, OCR, page numbers or compression. */
  function ToolStage(st: State, s: Stage, enabled: bool, run: ToolRun, input: string, guarded: bool): State
    requires s != FontFix
  {
    if !st.exit.Running? || !enabled then st
    else
      var st1 := st.(job := st.job.(progress := ProgressOf(s)));
      match run
      case ToolRaised(m) => st1.(exit := Raised(m))
      case _ =>
        var expected := Derived(st1.current, s);
        var st2 := if run.Wrote? then st1.(disk := Write(st1.disk, st1.current, expected, s)) else st1;
        if IsNew(st2.disk, expected, st2.current, guarded) then Handoff(st2, expected, input, s == Unlock)
        else st2
  }

  /** The files the font-repair script leaves: the same repaired content at the `-FIXED` name
      and/or at the requested output path. */
  function FontFixWrites(disk: Disk, current: string, output: string, wroteFixed: bool, wroteOutput: bool): Disk
  {
    if current !in disk then disk
    else
      var a := disk[current] + [FontFix];
      var d1 := if wroteFixed then disk[Derived(current, FontFix) := a] else disk;
      if wroteOutput then d1[output := a] else d1
  }

  /** Font repair: whatever the script wrote stays on disk; a non-zero exit then fails the job
      with standard error or the exit-code message; otherwise the `-FIXED` file, failing that the
      output path, becomes the current file, and with neither the job fails with "Output file
      was not created". */
  function FontFixStage(st: State, run: FontFixRun, input: string, output: string, guarded: bool): State
  {
    if !st.exit.Running? then st
    else
      var st1 := st.(job := st.job.(progress := ProgressOf(FontFix)));
      match run
      case FontFixRaised(m) => st1.(exit := Raised(m))
      case FontFixExited(code, stderr, wroteFixed, wroteOutput) =>
        var st2 := st1.(disk := FontFixWrites(st1.disk, st1.current, output, wroteFixed, wroteOutput));
        if code != 0 then
          st2.(job := st2.job.(status := Failed, error := Some(ExitMessage(code, stderr))), exit := Returned)
        else
          PickRepaired(st2, input, output, guarded)
  }

  /** After a font repair that exited 0: the `-FIXED` file, failing that the output path, becomes
      the current file; with neither the job fails with "Output file was not created". */
  function PickRepaired(st: State, input: string, output: string, guarded: bool): State
  {
    var auto := Derived(st.current, FontFix);
    if IsNew(st.disk, auto, st.current, guarded) then Handoff(st, auto, input, true)
    else if IsNew(st.disk, output, st.current, guarded) then Handoff(st, output, input, true)
    else st.(job := st.job.(status := Failed, error := Some(NotCreated)), exit := Returned)
  }

  /** `shutil.move(src, dst)` of an existing file. */
  function Move(disk: Disk, src: string, dst: string): Disk
    requires src in disk
  {
    if src == dst then disk else (disk - {src})[dst := disk[src]]
  }

  /** The end of the try-block: the current file is moved to the output path and the job is
      marked completed. */
  function Finish(st: State, output: string): State
  {
    if !st.exit.Running? then st
    else if st.current !in st.disk then st.(exit := Raised(NoSuchFile(st.current)))
    else st.(disk := Move(st.disk, st.current, output), job := st.job.(status := Completed), exit := Returned)
  }

  /** The state when the try-block starts. */
  function Start(disk: Disk, input: string, job: JobRecord): State
  {
    State(disk, input, job.(status := Processing, progress := StartProgress), Running)
  }

  /** The state after the unlock stage. */
  function AfterUnlock(disk: Disk, input: string, opts: Options, runs: Runs, guarded: bool, job: JobRecord): State
  {
    ToolStage(Start(disk, input, job), Unlock, opts.removeSecurity, runs.unlock, input, guarded)
  }

  /** The state after font repair. */
  function AfterFontFix(disk: Disk, input: string, output: string, opts: Options, runs: Runs, guarded: bool, job: JobRecord): State
  {
    FontFixStage(AfterUnlock(disk, input, opts, runs, guarded, job), runs.fontFix, input, output, guarded)
  }

  /** The stages after font repair and the final move. */
  function Tail(st: State, input: string, output: string, opts: Options, runs: Runs, guarded: bool): State
  {
    var s3 := ToolStage(st, Ocr, opts.doOcr, runs.ocr, input, guarded);
    var s4 := ToolStage(s3, PageNumbers, opts.addPageNumbers, runs.pageNumbers, input, guarded);
    var s5 := ToolStage(s4, Compress, opts.compress, runs.compress, input, guarded);
    Finish(s5, output)
  }

  /** The whole try-block of `process_pdf_async`, in its fixed stage order. */
  function Stages(disk: Disk, input: string, output: string, opts: Options, runs: Runs, guarded: bool, job: JobRecord): State
  {
    Tail(AfterFontFix(disk, input, output, opts, runs, guarded, job), input, output, opts, runs, guarded)
  }

  /** The files and the job record when `process_pdf_async` returns. */
  datatype Outcome = Outcome(disk: Disk, job: JobRecord)

  /** The except-block (any exception fails the job with its message) and the finally-block (the
      input file is removed if it still exists). */
  function Conclude(st: State, input: string): Outcome
  {
    var job := if st.exit.Raised? then st.job.(status := Failed, error := Some(st.exit.message)) else st.job;
    Outcome(st.disk - {input}, job)
  }

  /** `process_pdf_async` as written (`guarded` false) and in its corrected variant (`guarded`
      true). */
  function Run(disk: Disk, input: string, output: string, opts: Options, runs: Runs, guarded: bool, job: JobRecord): (o: Outcome)
  {
    Conclude(Stages(disk, input, output, opts, runs, guarded, job), input)
  }

  // ---------------------------------------------------------------------------------------------
  // Outcome of a job

  /** What holds of the state at every step: the record keeps its identity fields, a running
      job is "processing", a job that returned is completed or failed, and a failed job has an error. */
  predicate Sound(st: State, job: JobRecord)
  {
    && st.job.filename == job.filename && st.job.email == job.email && st.job.outputPath == job.outputPath
    && (st.exit.Running? ==> st.job.status == Processing)
    && (st.exit.Returned? ==> st.job.status == Completed || st.job.status == Failed)
    && (st.job.status == Failed ==> st.job.error.Some?)
  }

  lemma ToolStageSound(st: State, s: Stage, enabled: bool, run: ToolRun, input: string, guarded: bool, job: JobRecord)
    requires s != FontFix && Sound(st, job)
    ensures Sound(ToolStage(st, s, enabled, run, input, guarded), job)
  {
    if st.exit.Running? && enabled && !run.ToolRaised? {
      var st1 := st.(job := st.job.(progress := ProgressOf(s)));
      var expected := Derived(st1.current, s);
      var st2 := if run.Wrote? then st1.(disk := Write(st1.disk, st1.current, expected, s)) else st1;
      assert Sound(st2, job);
      HandoffSound(st2, expected, input, s == Unlock, job);
    }
  }

  lemma HandoffSound(st: State, next: string, input: string, keepInput: bool, job: JobRecord)
    requires Sound(st, job)
    ensures Sound(Handoff(st, next, input, keepInput), job)
  {
  }

  lemma FontFixStageSound(st: State, run: FontFixRun, input: string, output: string, guarded: bool, job: JobRecord)
    requires Sound(st, job)
    ensures Sound(FontFixStage(st, run, input, output, guarded), job)
  {
    if st.exit.Running? && run.FontFixExited? && run.code == 0 {
      var st1 := st.(job := st.job.(progress := ProgressOf(FontFix)));
      var st2 := st1.(disk := FontFixWrites(st1.disk, st1.current, output, run.wroteFixed, run.wroteOutput));
      assert Sound(st2, job);
      PickRepairedSound(st2, input, output, guarded, job);
    }
  }

  lemma PickRepairedSound(st: State, input: string, output: string, guarded: bool, job: JobRecord)
    requires Sound(st, job) && st.exit.Running?
    ensures Sound(PickRepaired(st, input, output, guarded), job)
  {
    HandoffSound(st, Derived(st.current, FontFix), input, true, job);
    HandoffSound(st, output, input, true, job);
  }

  lemma TailSound(st: State, input: string, output: string, opts: Options, runs: Runs, guarded: bool, job: JobRecord)
    requires Sound(st, job)
    ensures Sound(Tail(st, input, output, opts, runs, guarded), job)
    ensures !Tail(st, input, output, opts, runs, guarded).exit.Running?
  {
    var s3 := ToolStage(st, Ocr, opts.doOcr, runs.ocr, input, guarded);
    assert Sound(s3, job) by { ToolStageSound(st, Ocr, opts.doOcr, runs.ocr, input, guarded, job); }
    var s4 := ToolStage(s3, PageNumbers, opts.addPageNumbers, runs.pageNumbers, input, guarded);
    assert Sound(s4, job) by { ToolStageSound(s3, PageNumbers, opts.addPageNumbers, runs.pageNumbers, input, guarded, job); }
    var s5 := ToolStage(s4, Compress, opts.compress, runs.compress, input, guarded);
    assert Sound(s5, job) by { ToolStageSound(s4, Compress, opts.compress, runs.compress, input, guarded, job); }
    FinishSound(s5, output, job);
  }

  lemma FinishSound(st: State, output: string, job: JobRecord)
    requires Sound(st, job)
    ensures Sound(Finish(st, output), job) && !Finish(st, output).exit.Running?
  {
  }

  /** Whatever the tools do, the job ends completed or failed, a failed job carries an error
      message, the upload is deleted, and the record's other fields are left alone. */
  lemma RunEnds(disk: Disk, input: string, output: string, opts: Options, runs: Runs, guarded: bool, job: JobRecord)
    ensures var o := Run(disk, input, output, opts, runs, guarded, job);
      && (o.job.status == Completed || o.job.status == Failed)
      && (o.job.status == Failed ==> o.job.error.Some?)
      && input !in o.disk
      && o.job.filename == job.filename && o.job.email == job.email && o.job.outputPath == job.outputPath
  {
    var s0 := Start(disk, input, job);
    ToolStageSound(s0, Unlock, opts.removeSecurity, runs.unlock, input, guarded, job);
    var s1 := AfterUnlock(disk, input, opts, runs, guarded, job);
    FontFixStageSound(s1, runs.fontFix, input, output, guarded, job);
    var s2 := AfterFontFix(disk, input, output, opts, runs, guarded, job);
    TailSound(s2, input, output, opts, runs, guarded, job);
  }

  // ---------------------------------------------------------------------------------------------
  // File names

  /** A path whose only occurrence of ".pdf" is its final four characters. */
  predicate PdfName(p: string)
  {
    EndsWith(p, ".pdf") && forall i :: 0 <= i < |p| - 4 ==> !Occurs(p, ".pdf", i)
  }

  /** The path without its ".pdf". */
  function Stem(p: string): string
    requires EndsWith(p, ".pdf")
  {
    p[..|p| - 4]
  }

  /** The suffixes the given stages add, in order. */
  function Suffixes(a: seq<Stage>): string
  {
    if a == [] then "" else Suffixes(a[..|a| - 1]) + Suffix(a[|a| - 1])
  }

  lemma SuffixShape(s: Stage)
    ensures |Suffix(s)| > 0 && Suffix(s)[0] == '-'
    ensures forall k :: 0 <= k < |Suffix(s)| ==> Suffix(s)[k] != '.'
  {
  }

  lemma {:induction false} SuffixesShape(a: seq<Stage>)
    ensures a != [] ==> |Suffixes(a)| > 0 && Suffixes(a)[0] == '-'
    ensures forall k :: 0 <= k < |Suffixes(a)| ==> Suffixes(a)[k] != '.'
  {
    if a != [] {
      var b := a[..|a| - 1];
      SuffixesShape(b);
      SuffixShape(a[|a| - 1]);
      var t := Suffixes(a);
      assert t == Suffixes(b) + Suffix(a[|a| - 1]);
      forall k | 0 <= k < |t| ensures t[k] != '.' {
        if k >= |Suffixes(b)| { assert t[k] == Suffix(a[|a| - 1])[k - |Suffixes(b)|]; }
      }
    }
  }

  /** Inserting text without a '.' and starting with '-' before the final ".pdf" keeps ".pdf" the
      only extension. */
  lemma InsertKeepsPdfName(p: string, x: string)
    requires PdfName(p)
    requires |x| > 0 && x[0] == '-' && forall k :: 0 <= k < |x| ==> x[k] != '.'
    ensures PdfName(Stem(p) + x + ".pdf") && Stem(Stem(p) + x + ".pdf") == Stem(p) + x
  {
    var st := Stem(p);
    var t := st + x + ".pdf";
    assert t[|t| - 4..] == ".pdf";
    assert p == st + ".pdf" by { assert p[|p| - 4..] == ".pdf"; }
    forall i | 0 <= i < |t| - 4 ensures !Occurs(t, ".pdf", i) {
      if i + 4 <= |st| {
        assert t[i..i + 4] == p[i..i + 4];
        assert !Occurs(p, ".pdf", i);
      } else if i < |st| {
        var j := |st| - i;
        assert t[i..i + 4][j] == t[|st|] == '-';
        assert ".pdf"[j] != '-';
      } else {
        assert t[i..i + 4][0] == t[i] == x[i - |st|];
      }
    }
  }

  /** On such a path each stage's expected output name is the stem, the stage's suffix and ".pdf". */
  lemma DerivedName(p: string, s: Stage)
    requires PdfName(p)
    ensures Derived(p, s) == Stem(p) + Suffix(s) + ".pdf"
  {
    var st := Stem(p);
    assert p == st + ".pdf" by { assert p[|p| - 4..] == ".pdf"; }
    forall i | 0 <= i < |st| ensures !Occurs(st + ".pdf", ".pdf", i) { }
    ReplaceAfterPrefix(st, ".pdf", ".pdf", Suffix(s) + ".pdf");
    assert ".pdf"[|".pdf"|..] == [];
  }

  /** The name of the current file after the given stages. */
  function NameAfter(input: string, a: seq<Stage>): string
    requires EndsWith(input, ".pdf")
  {
    Stem(input) + Suffixes(a) + ".pdf"
  }

  /** Intermediate names begin with the upload's stem and a '-'. */
  predicate Intermediate(p: string, input: string)
    requires EndsWith(input, ".pdf")
  {
    StartsWith(p, Stem(input) + "-")
  }

  lemma {:induction false} NameAfterShape(input: string, a: seq<Stage>)
    requires PdfName(input)
    ensures PdfName(NameAfter(input, a))
    ensures a == [] ==> NameAfter(input, a) == input
    ensures a != [] ==> Intermediate(NameAfter(input, a), input)
    ensures Stem(NameAfter(input, a)) == Stem(input) + Suffixes(a)
  {
    var n := NameAfter(input, a);
    if a == [] {
      assert input == Stem(input) + ".pdf" by { assert input[|input| - 4..] == ".pdf"; }
      assert n == input;
    } else {
      SuffixesShape(a);
      InsertKeepsPdfName(input, Suffixes(a));
      assert n[..|Stem(input)| + 1] == Stem(input) + "-";
    }
  }

  /** Running stage `s` on the file named after stages `a` looks for the name after `a + [s]`. */
  lemma DerivedAfter(input: string, a: seq<Stage>, s: Stage)
    requires PdfName(input)
    ensures Derived(NameAfter(input, a), s) == NameAfter(input, a + [s])
    ensures NameAfter(input, a + [s]) != NameAfter(input, a)
  {
    var n := NameAfter(input, a);
    var st, x, y := Stem(input), Suffixes(a), Suffix(s);
    assert Derived(n, s) == (st + x) + y + ".pdf" by {
      NameAfterShape(input, a);
      DerivedName(n, s);
    }
    assert Suffixes(a + [s]) == x + y by {
      assert (a + [s])[..|a|] == a && (a + [s])[|a|] == s;
    }
    assert (st + x) + y == st + (x + y);
    assert |y| > 0 by { SuffixShape(s); }
    assert |NameAfter(input, a + [s])| == |n| + |y|;
  }

  /** The upload itself is not an intermediate name: after its stem comes '.', not '-'. */
  lemma InputNotIntermediate(input: string)
    requires PdfName(input)
    ensures !Intermediate(input, input)
  {
    var st := Stem(input);
    assert input[|st|] == input[|input| - 4..][0] == '.';
  }

  // ---------------------------------------------------------------------------------------------
  // Stage order

  /** The stages the options enable, in the order the pipeline runs them. */
  function Applied(opts: Options): seq<Stage>
  {
    var a := Then([], opts.removeSecurity, Unlock) + [FontFix];
    Then(Then(Then(a, opts.doOcr, Ocr), opts.addPageNumbers, PageNumbers), opts.compress, Compress)
  }

  /** `a` followed by `s` when that stage is enabled. */
  function Then(a: seq<Stage>, enabled: bool, s: Stage): seq<Stage>
  {
    if enabled then a + [s] else a
  }

  /** The options that take effect: an optional stage whose tool wrote nothing leaves the file
      as it was, as though the stage were disabled. */
  function Effective(opts: Options, runs: Runs): Options
  {
    Options(opts.removeSecurity && runs.unlock.Wrote?, opts.doOcr && runs.ocr.Wrote?,
            opts.addPageNumbers && runs.pageNumbers.Wrote?, opts.compress && runs.compress.Wrote?)
  }

  /** No file in the folder bears an intermediate name of this upload. */
  predicate Clean(disk: Disk, input: string)
    requires EndsWith(input, ".pdf")
  {
    forall p :: Intermediate(p, input) ==> p !in disk
  }

  /** A file the pipeline never touches: neither the upload, nor the output path, nor a name
      derived from the upload's stem. */
  predicate Untouched(p: string, input: string, output: string)
    requires EndsWith(input, ".pdf")
  {
    p != input && p != output && !Intermediate(p, input)
  }

  /** No intermediate of `base` other than `current` is in `d` unless it already was in `disk`. */
  ghost predicate NoLeftovers(d: Disk, disk: Disk, base: string, current: string)
    requires EndsWith(base, ".pdf")
  {
    forall p :: Intermediate(p, base) && p != current && p !in disk ==> p !in d
  }

  /** Every untouched file is in `d` exactly when it is in `disk`, with the same content. */
  ghost predicate Kept(d: Disk, disk: Disk, input: string, output: string)
    requires EndsWith(input, ".pdf")
  {
    && (forall p :: Untouched(p, input, output) ==> (p in d <==> p in disk))
    && (forall p :: Untouched(p, input, output) && p in disk ==> d[p] == disk[p])
  }

  /** The state after the stages `a` when every tool did its work: the current file is the one
      named after `a` and holds the upload with `a` applied, the upload still exists, untouched
      files are as they were, and no intermediate other than the current file was left behind. */
  ghost predicate OnTrack(st: State, disk: Disk, input: string, output: string, a: seq<Stage>)
  {
    && PdfName(input) && input in disk && output != input && !Intermediate(output, input)
    && st.exit.Running? && st.job.status == Processing
    && st.current == NameAfter(input, a)
    && st.current in st.disk && st.disk[st.current] == disk[input] + a
    && input in st.disk
    && Kept(st.disk, disk, input, output)
    && NoLeftovers(st.disk, disk, input, st.current)
  }

  /** An enabled tool that wrote a new output file hands off to it. */
  lemma ToolWrote(st: State, s: Stage, input: string, output: string, guarded: bool)
    requires s != FontFix && st.exit.Running? && st.current in st.disk && Derived(st.current, s) != st.current
    requires s == Unlock || st.current != input
    ensures ToolStage(st, s, true, Wrote, input, guarded) == Advanced(st, s, Derived(st.current, s), input, output, false)
  {
  }

  lemma ToolStageOnTrack(st: State, s: Stage, enabled: bool, input: string, output: string, disk: Disk, a: seq<Stage>, guarded: bool)
    requires s != FontFix && OnTrack(st, disk, input, output, a) && (s == Unlock || a != [])
    ensures OnTrack(ToolStage(st, s, enabled, Wrote, input, guarded), disk, input, output, Then(a, enabled, s))
  {
    if enabled {
      DerivedAfter(input, a, s);
      NameAfterShape(input, a);
      InputNotIntermediate(input);
      ToolWrote(st, s, input, output, guarded);
      AdvancedOnTrack(st, s, input, output, disk, a, false);
    }
  }

  /** An enabled tool that wrote nothing, when no file bears its expected output name, leaves
      the files and the current file as they were: only the progress moves on. */
  lemma ToolSkipped(st: State, s: Stage, input: string, guarded: bool)
    requires s != FontFix && st.exit.Running? && Derived(st.current, s) !in st.disk
    ensures ToolStage(st, s, true, WroteNothing, input, guarded) == st.(job := st.job.(progress := ProgressOf(s)))
  {
  }

  /** One optional stage whose tool wrote or wrote nothing: the stage counts as applied exactly
      when it is enabled and its tool wrote. */
  lemma StageOnTrack(st: State, s: Stage, enabled: bool, run: ToolRun, input: string, output: string, disk: Disk, a: seq<Stage>, guarded: bool)
    requires s != FontFix && OnTrack(st, disk, input, output, a) && (s == Unlock || a != [])
    requires !run.ToolRaised?
    requires enabled && run.WroteNothing? ==> Clean(disk, input)
    ensures OnTrack(ToolStage(st, s, enabled, run, input, guarded), disk, input, output, Then(a, enabled && run.Wrote?, s))
  {
    if enabled && run.WroteNothing? {
      assert Derived(st.current, s) !in st.disk by {
        DerivedAfter(input, a, s);
        NameAfterShape(input, a + [s]);
      }
      ToolSkipped(st, s, input, guarded);
    } else {
      ToolStageOnTrack(st, s, enabled, input, output, disk, a, guarded);
    }
  }

  /** A successful font repair that wrote a new `-FIXED` file hands off to it. */
  lemma FontFixWroteFixed(st: State, e: string, wo: bool, input: string, output: string, guarded: bool)
    requires st.exit.Running? && st.current in st.disk && Derived(st.current, FontFix) != st.current
    ensures var next := Derived(st.current, FontFix);
      var art := st.disk[st.current] + [FontFix];
      var d1 := if wo then st.disk[next := art][output := art] else st.disk[next := art];
      FontFixStage(st, FontFixExited(0, e, true, wo), input, output, guarded)
        == st.(job := st.job.(progress := ProgressOf(FontFix)),
               disk := if st.current == input then d1 else d1 - {st.current},
               current := next)
  {
    var next := Derived(st.current, FontFix);
    var art := st.disk[st.current] + [FontFix];
    var st1 := st.(job := st.job.(progress := ProgressOf(FontFix)));
    var st2 := st1.(disk := FontFixWrites(st1.disk, st1.current, output, true, wo));
    assert st2.disk == if wo then st.disk[next := art][output := art] else st.disk[next := art];
    PickFixed(st2, input, output, guarded);
  }

  /** The state after a stage `s` wrote its result (and font repair possibly the output path too)
      and the pipeline handed off to it. */
  function Advanced(st: State, s: Stage, next: string, input: string, output: string, alsoOutput: bool): State
    requires st.current in st.disk
  {
    var art := st.disk[st.current] + [s];
    var d1 := if alsoOutput then st.disk[next := art][output := art] else st.disk[next := art];
    st.(job := st.job.(progress := ProgressOf(s)),
        disk := if st.current == input then d1 else d1 - {st.current},
        current := next)
  }

  lemma AdvancedOnTrack(st: State, s: Stage, input: string, output: string, disk: Disk, a: seq<Stage>, alsoOutput: bool)
    requires OnTrack(st, disk, input, output, a)
    ensures OnTrack(Advanced(st, s, NameAfter(input, a + [s]), input, output, alsoOutput), disk, input, output, a + [s])
  {
    NextName(input, a, s);
    AppendAssoc(disk[input], a, s);
    TrackHandoff(st, s, input, output, disk, a, NameAfter(input, a + [s]), st.disk[st.current] + [s], alsoOutput);
  }

  /** The name after one more stage is a new intermediate; the name before it is the upload or an
      intermediate, and the upload is none. */
  lemma NextName(input: string, a: seq<Stage>, s: Stage)
    requires PdfName(input)
    ensures Intermediate(NameAfter(input, a + [s]), input) && NameAfter(input, a + [s]) != NameAfter(input, a)
    ensures (NameAfter(input, a) == input || Intermediate(NameAfter(input, a), input)) && !Intermediate(input, input)
  {
    DerivedAfter(input, a, s);
    NameAfterShape(input, a + [s]);
    NameAfterShape(input, a);
    InputNotIntermediate(input);
  }

  lemma AppendAssoc(x: Artifact, a: seq<Stage>, s: Stage)
    ensures (x + a) + [s] == x + (a + [s])
  {
  }

  /** The hand-off step on track, with the next name and the content it receives given. */
  lemma TrackHandoff(st: State, s: Stage, input: string, output: string, disk: Disk, a: seq<Stage>, next: string, v: Artifact, alsoOutput: bool)
    requires OnTrack(st, disk, input, output, a)
    requires next == NameAfter(input, a + [s]) && v == disk[input] + (a + [s]) && v == st.disk[st.current] + [s]
    requires Intermediate(next, input) && next != st.current
    requires (st.current == input || Intermediate(st.current, input)) && !Intermediate(input, input)
    ensures OnTrack(Advanced(st, s, next, input, output, alsoOutput), disk, input, output, a + [s])
  {
    AdvancedDisk(st, s, next, input, output, alsoOutput);
    TrackFrame(st.disk, disk, input, output, st.current, next, v, alsoOutput, if st.current == input then {} else {st.current});
  }

  /** The state `Advanced` gives, with the deleted names as a set. */
  lemma AdvancedDisk(st: State, s: Stage, next: string, input: string, output: string, alsoOutput: bool)
    requires st.current in st.disk && next != st.current
    ensures var v := st.disk[st.current] + [s];
      var r := Advanced(st, s, next, input, output, alsoOutput);
      && r.disk == (if alsoOutput then st.disk[next := v][output := v] else st.disk[next := v])
                   - (if st.current == input then {} else {st.current})
      && r.current == next && r.exit == st.exit && r.job.status == st.job.status
  {
    HandoffDisk(st.disk, st.current, next, st.disk[st.current] + [s], input, output, alsoOutput);
  }

  /** The files after a hand-off that writes `next` (and possibly the output path) and deletes the
      superseded file unless it is the upload. */
  lemma HandoffDisk(d: Disk, current: string, next: string, v: Artifact, input: string, output: string, alsoOutput: bool)
    requires next != current
    ensures var d' := (if alsoOutput then d[next := v][output := v] else d[next := v])
                      - (if current == input then {} else {current});
      && next in d' && d'[next] == v
      && (input in d ==> input in d')
  {
  }

  /** A hand-off on track from `current` to the intermediate `next`, possibly writing the output
      path too and deleting `current` if it is an intermediate, keeps the untouched files and
      leaves no new intermediate behind. */
  lemma TrackFrame(d: Disk, disk: Disk, input: string, output: string, current: string, next: string, v: Artifact, alsoOutput: bool, rs: set<string>)
    requires EndsWith(input, ".pdf")
    requires Kept(d, disk, input, output)
    requires NoLeftovers(d, disk, input, current) && Intermediate(next, input) && !Intermediate(output, input)
    requires forall r :: r in rs ==> Intermediate(r, input)
    requires current in rs || !Intermediate(current, input)
    ensures var d' := (if alsoOutput then d[next := v][output := v] else d[next := v]) - rs;
      Kept(d', disk, input, output) && NoLeftovers(d', disk, input, next)
  {
  }

  lemma FontFixOnTrack(st: State, e: string, wo: bool, input: string, output: string, disk: Disk, a: seq<Stage>, guarded: bool)
    requires OnTrack(st, disk, input, output, a)
    ensures OnTrack(FontFixStage(st, FontFixExited(0, e, true, wo), input, output, guarded), disk, input, output, a + [FontFix])
  {
    DerivedAfter(input, a, FontFix);
    FontFixWroteFixed(st, e, wo, input, output, guarded);
    AdvancedOnTrack(st, FontFix, input, output, disk, a, wo);
  }

  lemma FinishOnTrack(st: State, disk: Disk, input: string, output: string, a: seq<Stage>)
    requires OnTrack(st, disk, input, output, a) && a != []
    ensures var f := Finish(st, output);
      && f.exit == Returned && f.job.status == Completed
      && output in f.disk && f.disk[output] == disk[input] + a && input in f.disk
      && (forall p :: Untouched(p, input, output) ==> (p in f.disk <==> p in disk))
      && (forall p :: Untouched(p, input, output) && p in disk ==> f.disk[p] == disk[p])
      && (forall p :: Intermediate(p, input) && p !in disk ==> p !in f.disk)
  {
    NameAfterShape(input, a);
    InputNotIntermediate(input);
  }

  /** With no tool raising and font repair exiting 0 after writing its `-FIXED` file or the output
      path, the output path ends up holding the upload with exactly the enabled stages whose tools
      wrote a file applied, in the order unlock, font repair, OCR, page numbers, compression; the
      upload survives every stage and is deleted only by the finally-block; no intermediate file
      is left behind; every other file is as it was. When some enabled tool wrote nothing, this
      needs a folder holding no file under an intermediate name of the upload; when font repair
      wrote only the output path, the later stages derive their names from the output path, and
      this needs a folder holding no intermediate of either (so that the `-FIXED` name is absent
      too), an output path with a single ".pdf" extension and an upload that is not one of its
      intermediates. This holds as written and in the corrected variant. */
  lemma StagesRunInOrder(disk: Disk, input: string, output: string, opts: Options, runs: Runs, guarded: bool, job: JobRecord)
    requires PdfName(input) && input in disk
    requires output != input && !Intermediate(output, input)
    requires !runs.unlock.ToolRaised? && !runs.ocr.ToolRaised? && !runs.pageNumbers.ToolRaised? && !runs.compress.ToolRaised?
    requires runs.fontFix.FontFixExited? && runs.fontFix.code == 0 && (runs.fontFix.wroteFixed || runs.fontFix.wroteOutput)
    requires !runs.fontFix.wroteFixed ==> PdfName(output) && !Intermediate(input, output) && Clean(disk, input) && Clean(disk, output)
    requires Effective(opts, runs) != opts ==> Clean(disk, input)
    ensures var o := Run(disk, input, output, opts, runs, guarded, job);
      && input in Stages(disk, input, output, opts, runs, guarded, job).disk
      && o.job.status == Completed
      && output in o.disk && o.disk[output] == disk[input] + Applied(Effective(opts, runs))
      && (forall p :: Untouched(p, input, output) ==> (p in o.disk <==> p in disk))
      && (forall p :: Untouched(p, input, output) && p in disk ==> o.disk[p] == disk[p])
      && (forall p :: Intermediate(p, input) && p !in disk ==> p !in o.disk)
  {
    var f := Stages(disk, input, output, opts, runs, guarded, job);
    assert Finished(f, disk, input, output, Applied(Effective(opts, runs))) by {
      if runs.fontFix.wroteFixed {
        FixedRouteFinishes(disk, input, output, opts, runs, guarded, job);
      } else {
        OutputRouteFinishes(disk, input, output, opts, runs, guarded, job);
      }
    }
    ConcludeCompleted(f, disk, input, output, Applied(Effective(opts, runs)));
  }

  /** The try-block ends with the output path holding the upload with the effective stages
      applied, when font repair wrote its `-FIXED` file. */
  lemma FixedRouteFinishes(disk: Disk, input: string, output: string, opts: Options, runs: Runs, guarded: bool, job: JobRecord)
    requires PdfName(input) && input in disk
    requires output != input && !Intermediate(output, input)
    requires !runs.unlock.ToolRaised? && !runs.ocr.ToolRaised? && !runs.pageNumbers.ToolRaised? && !runs.compress.ToolRaised?
    requires runs.fontFix.FontFixExited? && runs.fontFix.code == 0 && runs.fontFix.wroteFixed
    requires Effective(opts, runs) != opts ==> Clean(disk, input)
    ensures Finished(Stages(disk, input, output, opts, runs, guarded, job), disk, input, output, Applied(Effective(opts, runs)))
  {
    var a2 := Then([], Effective(opts, runs).removeSecurity, Unlock) + [FontFix];
    var s2 := AfterFontFix(disk, input, output, opts, runs, guarded, job);
    assert OnTrack(s2, disk, input, output, a2) by { HeadOnTrack(disk, input, output, opts, runs, guarded, job); }
    TailOnTrack(s2, disk, input, output, opts, runs, guarded, a2);
  }

  /** The try-block ends with the output path holding the upload with the effective stages
      applied, when font repair wrote only the output path. */
  lemma OutputRouteFinishes(disk: Disk, input: string, output: string, opts: Options, runs: Runs, guarded: bool, job: JobRecord)
    requires PdfName(input) && input in disk
    requires output != input && !Intermediate(output, input)
    requires PdfName(output) && !Intermediate(input, output) && Clean(disk, input) && Clean(disk, output)
    requires !runs.unlock.ToolRaised? && !runs.ocr.ToolRaised? && !runs.pageNumbers.ToolRaised? && !runs.compress.ToolRaised?
    requires runs.fontFix.FontFixExited? && runs.fontFix.code == 0 && !runs.fontFix.wroteFixed && runs.fontFix.wroteOutput
    ensures Finished(Stages(disk, input, output, opts, runs, guarded, job), disk, input, output, Applied(Effective(opts, runs)))
  {
    var a2 := Then([], Effective(opts, runs).removeSecurity, Unlock) + [FontFix];
    var s2 := AfterFontFix(disk, input, output, opts, runs, guarded, job);
    assert OnOutputRoute(s2, disk, input, output, a2, []) by { HeadOnOutputRoute(disk, input, output, opts, runs, guarded, job); }
    OutputRouteTail(s2, disk, input, output, opts, runs, guarded, a2, []);
  }

  /** Unlocking (if enabled) and a font repair that wrote its `-FIXED` file bring the pipeline
      on track for the stages after them. */
  lemma HeadOnTrack(disk: Disk, input: string, output: string, opts: Options, runs: Runs, guarded: bool, job: JobRecord)
    requires PdfName(input) && input in disk
    requires output != input && !Intermediate(output, input)
    requires !runs.unlock.ToolRaised?
    requires runs.fontFix.FontFixExited? && runs.fontFix.code == 0 && runs.fontFix.wroteFixed
    requires opts.removeSecurity && runs.unlock.WroteNothing? ==> Clean(disk, input)
    ensures OnTrack(AfterFontFix(disk, input, output, opts, runs, guarded, job), disk, input, output,
                    Then([], Effective(opts, runs).removeSecurity, Unlock) + [FontFix])
  {
    var ff := runs.fontFix;
    var s0 := Start(disk, input, job);
    assert OnTrack(s0, disk, input, output, []) by { NameAfterShape(input, []); }
    var a1 := Then([], opts.removeSecurity && runs.unlock.Wrote?, Unlock);
    var s1 := AfterUnlock(disk, input, opts, runs, guarded, job);
    assert OnTrack(s1, disk, input, output, a1) by {
      StageOnTrack(s0, Unlock, opts.removeSecurity, runs.unlock, input, output, disk, [], guarded);
    }
    assert runs.fontFix == FontFixExited(0, ff.stderr, true, ff.wroteOutput);
    FontFixOnTrack(s1, ff.stderr, ff.wroteOutput, input, output, disk, a1, guarded);
  }

  /** With every enabled tool doing its work, the output path holds the upload with exactly the
      enabled stages applied. When font repair wrote its `-FIXED` file (`wf`) this holds whatever
      other files the folder holds; when it wrote only the output path, it needs a folder with no
      intermediate of the upload or of the output path, and an output path with a single ".pdf"
      extension of which the upload is no intermediate. */
  lemma EnabledStagesRunInOrder(disk: Disk, input: string, output: string, opts: Options, e: string, wf: bool, wo: bool, guarded: bool, job: JobRecord)
    requires PdfName(input) && input in disk
    requires output != input && !Intermediate(output, input)
    requires wf || wo
    requires !wf ==> PdfName(output) && !Intermediate(input, output) && Clean(disk, input) && Clean(disk, output)
    ensures var runs := Runs(Wrote, FontFixExited(0, e, wf, wo), Wrote, Wrote, Wrote);
      var o := Run(disk, input, output, opts, runs, guarded, job);
      && input in Stages(disk, input, output, opts, runs, guarded, job).disk
      && o.job.status == Completed
      && output in o.disk && o.disk[output] == disk[input] + Applied(opts)
      && (forall p :: Untouched(p, input, output) ==> (p in o.disk <==> p in disk))
      && (forall p :: Untouched(p, input, output) && p in disk ==> o.disk[p] == disk[p])
      && (forall p :: Intermediate(p, input) && p !in disk ==> p !in o.disk)
  {
    var runs := Runs(Wrote, FontFixExited(0, e, wf, wo), Wrote, Wrote, Wrote);
    assert Effective(opts, runs) == opts;
    StagesRunInOrder(disk, input, output, opts, runs, guarded, job);
  }

  /** The state when the try-block ended normally with `a` applied at the output path. */
  ghost predicate Finished(f: State, disk: Disk, input: string, output: string, a: seq<Stage>)
  {
    && PdfName(input) && input in disk && output != input
    && f.exit == Returned && f.job.status == Completed
    && output in f.disk && f.disk[output] == disk[input] + a && input in f.disk
    && (forall p :: Untouched(p, input, output) ==> (p in f.disk <==> p in disk))
    && (forall p :: Untouched(p, input, output) && p in disk ==> f.disk[p] == disk[p])
    && (forall p :: Intermediate(p, input) && p !in disk ==> p !in f.disk)
  }

  lemma ConcludeCompleted(f: State, disk: Disk, input: string, output: string, a: seq<Stage>)
    requires Finished(f, disk, input, output, a)
    ensures var o := Conclude(f, input);
      && o.job.status == Completed
      && output in o.disk && o.disk[output] == disk[input] + a
      && (forall p :: Untouched(p, input, output) ==> (p in o.disk <==> p in disk))
      && (forall p :: Untouched(p, input, output) && p in disk ==> o.disk[p] == disk[p])
      && (forall p :: Intermediate(p, input) && p !in disk ==> p !in o.disk)
  {
  }

  lemma TailOnTrack(st: State, disk: Disk, input: string, output: string, opts: Options, runs: Runs, guarded: bool, a: seq<Stage>)
    requires OnTrack(st, disk, input, output, a) && a != []
    requires !runs.ocr.ToolRaised? && !runs.pageNumbers.ToolRaised? && !runs.compress.ToolRaised?
    requires Effective(opts, runs) != opts ==> Clean(disk, input)
    ensures var f := Tail(st, input, output, opts, runs, guarded);
      var e := Effective(opts, runs);
      Finished(f, disk, input, output, Then(Then(Then(a, e.doOcr, Ocr), e.addPageNumbers, PageNumbers), e.compress, Compress))
  {
    var e := Effective(opts, runs);
    var a3 := Then(a, e.doOcr, Ocr);
    var s3 := ToolStage(st, Ocr, opts.doOcr, runs.ocr, input, guarded);
    assert OnTrack(s3, disk, input, output, a3) by {
      StageOnTrack(st, Ocr, opts.doOcr, runs.ocr, input, output, disk, a, guarded);
    }
    var a4 := Then(a3, e.addPageNumbers, PageNumbers);
    var s4 := ToolStage(s3, PageNumbers, opts.addPageNumbers, runs.pageNumbers, input, guarded);
    assert OnTrack(s4, disk, input, output, a4) by {
      StageOnTrack(s3, PageNumbers, opts.addPageNumbers, runs.pageNumbers, input, output, disk, a3, guarded);
    }
    var a5 := Then(a4, e.compress, Compress);
    var s5 := ToolStage(s4, Compress, opts.compress, runs.compress, input, guarded);
    assert OnTrack(s5, disk, input, output, a5) by {
      StageOnTrack(s4, Compress, opts.compress, runs.compress, input, output, disk, a4, guarded);
    }
    FinishOnTrack(s5, disk, input, output, a5);
  }

  // ---------------------------------------------------------------------------------------------
  // The output-path route: font repair wrote only the output path

  /** Every file that is named neither after the upload nor after the output path is in `d`
      exactly when it is in `disk`, with the same content. */
  ghost predicate OthersKept(d: Disk, disk: Disk, input: string, output: string)
    requires EndsWith(input, ".pdf") && EndsWith(output, ".pdf")
  {
    forall p :: Untouched(p, input, output) && !Intermediate(p, output) ==> (p in d <==> p in disk) && (p in disk ==> d[p] == disk[p])
  }

  /** A hand-off from `current` to `next`, both names of the upload or the output path, that
      writes `next` and deletes the names in `rs` keeps the other files and leaves no new
      intermediate behind. */
  lemma RouteFrame(d: Disk, disk: Disk, input: string, output: string, current: string, next: string, v: Artifact, rs: set<string>)
    requires PdfName(input) && PdfName(output)
    requires OthersKept(d, disk, input, output) && NoLeftovers(d, disk, input, current) && NoLeftovers(d, disk, output, current)
    requires !Untouched(next, input, output) || Intermediate(next, output)
    requires forall r :: r in rs ==> !Untouched(r, input, output) || Intermediate(r, output)
    requires current in rs || (!Intermediate(current, input) && !Intermediate(current, output))
    ensures var d' := d[next := v] - rs;
      OthersKept(d', disk, input, output) && NoLeftovers(d', disk, input, next) && NoLeftovers(d', disk, output, next)
  {
  }

  /** The state after the stages `b` that followed a font repair which wrote only the output
      path: the current file is the output path's name after `b` and holds the upload with `a`
      applied, the upload still exists, every file named neither after the upload nor after the
      output path is as it was, and the only intermediate on disk that was not there before is
      the current file (the folder held no intermediate of the output path to begin with). */
  ghost predicate OnOutputRoute(st: State, disk: Disk, input: string, output: string, a: seq<Stage>, b: seq<Stage>)
  {
    && PdfName(input) && input in disk && output != input && !Intermediate(output, input)
    && PdfName(output) && !Intermediate(input, output) && Clean(disk, output)
    && st.exit.Running? && st.job.status == Processing
    && st.current == NameAfter(output, b)
    && st.current in st.disk && st.disk[st.current] == disk[input] + a
    && input in st.disk
    && OthersKept(st.disk, disk, input, output)
    && NoLeftovers(st.disk, disk, input, st.current)
    && NoLeftovers(st.disk, disk, output, st.current)
  }

  /** On this route the current file is the output path or one of its intermediates, never the
      upload. */
  lemma OutputRouteCurrent(st: State, disk: Disk, input: string, output: string, a: seq<Stage>, b: seq<Stage>)
    requires OnOutputRoute(st, disk, input, output, a, b)
    ensures st.current != input && (st.current == output || Intermediate(st.current, output))
    ensures !Intermediate(output, output)
  {
    NameAfterShape(output, b);
    InputNotIntermediate(output);
  }

  /** The hand-off step of the route, with the next name and the content it receives given. */
  lemma RouteHandoff(st: State, s: Stage, input: string, output: string, disk: Disk, a: seq<Stage>, b: seq<Stage>, next: string, v: Artifact)
    requires OnOutputRoute(st, disk, input, output, a, b)
    requires next == NameAfter(output, b + [s]) && v == disk[input] + (a + [s]) && v == st.disk[st.current] + [s]
    requires Intermediate(next, output) && next != st.current
    requires st.current != input && (st.current == output || Intermediate(st.current, output))
    ensures OnOutputRoute(Advanced(st, s, next, input, output, false), disk, input, output, a + [s], b + [s])
  {
    AdvancedDisk(st, s, next, input, output, false);
    RouteFrame(st.disk, disk, input, output, st.current, next, v, {st.current});
  }

  lemma OutputRouteAdvanced(st: State, s: Stage, input: string, output: string, disk: Disk, a: seq<Stage>, b: seq<Stage>)
    requires OnOutputRoute(st, disk, input, output, a, b)
    requires Intermediate(NameAfter(output, b + [s]), output) && NameAfter(output, b + [s]) != st.current
    ensures OnOutputRoute(Advanced(st, s, NameAfter(output, b + [s]), input, output, false), disk, input, output, a + [s], b + [s])
  {
    var v := st.disk[st.current] + [s];
    assert v == disk[input] + (a + [s]);
    OutputRouteCurrent(st, disk, input, output, a, b);
    RouteHandoff(st, s, input, output, disk, a, b, NameAfter(output, b + [s]), v);
  }

  /** One optional stage on this route, whose tool wrote or wrote nothing: its expected output is
      an intermediate of the output path, so a tool that wrote nothing finds no stale file. */
  lemma OutputRouteStage(st: State, s: Stage, enabled: bool, run: ToolRun, input: string, output: string, disk: Disk, a: seq<Stage>, b: seq<Stage>, guarded: bool)
    requires s != FontFix && OnOutputRoute(st, disk, input, output, a, b)
    requires !run.ToolRaised?
    ensures OnOutputRoute(ToolStage(st, s, enabled, run, input, guarded), disk, input, output,
                          Then(a, enabled && run.Wrote?, s), Then(b, enabled && run.Wrote?, s))
  {
    if enabled {
      DerivedAfter(output, b, s);
      if run.WroteNothing? {
        assert Derived(st.current, s) !in st.disk by { NameAfterShape(output, b + [s]); }
        ToolSkipped(st, s, input, guarded);
      } else {
        assert Intermediate(NameAfter(output, b + [s]), output) by { NameAfterShape(output, b + [s]); }
        OutputRouteCurrent(st, disk, input, output, a, b);
        ToolWrote(st, s, input, output, guarded);
        OutputRouteAdvanced(st, s, input, output, disk, a, b);
      }
    }
  }

  /** On track before font repair, in a folder holding no intermediate of the output path, the
      files meet the route's frame conditions. */
  lemma OnTrackFrames(st: State, disk: Disk, input: string, output: string, a: seq<Stage>)
    requires OnTrack(st, disk, input, output, a)
    requires PdfName(output) && !Intermediate(input, output) && Clean(disk, output)
    ensures OthersKept(st.disk, disk, input, output)
    ensures NoLeftovers(st.disk, disk, input, st.current) && NoLeftovers(st.disk, disk, output, st.current)
  {
    InputNotIntermediate(output);
    forall p | Intermediate(p, output) && p != st.current && p !in disk ensures p !in st.disk {
      if !Intermediate(p, input) {
        assert Untouched(p, input, output);
      }
    }
  }

  /** The route's first state, with the state after the fallback hand-off given. */
  lemma RouteStart(st: State, r: State, disk: Disk, input: string, output: string, a: seq<Stage>, v: Artifact)
    requires OnTrack(st, disk, input, output, a)
    requires PdfName(output) && !Intermediate(input, output) && Clean(disk, output)
    requires st.current == input || Intermediate(st.current, input)
    requires v == disk[input] + (a + [FontFix]) && NameAfter(output, []) == output
    requires r.exit.Running? && r.current == output && r.job.status == Processing
    requires r.disk == (if st.current == input then st.disk[output := v] else st.disk[output := v] - {st.current})
    ensures OnOutputRoute(r, disk, input, output, a + [FontFix], [])
  {
    InputNotIntermediate(input);
    var rs: set<string> := if st.current == input then {} else {st.current};
    assert r.disk == st.disk[output := v] - rs;
    OnTrackFrames(st, disk, input, output, a);
    RouteFrame(st.disk, disk, input, output, st.current, output, v, rs);
  }

  /** A font repair that exits 0 having written only the output path, when the `-FIXED` name is
      not on disk, hands off to the output path: the route starts there. */
  lemma FontFixToOutput(st: State, e: string, input: string, output: string, disk: Disk, a: seq<Stage>, guarded: bool)
    requires OnTrack(st, disk, input, output, a)
    requires PdfName(output) && !Intermediate(input, output) && Clean(disk, output)
    requires NameAfter(input, a + [FontFix]) !in disk
    ensures OnOutputRoute(FontFixStage(st, FontFixExited(0, e, false, true), input, output, guarded), disk, input, output, a + [FontFix], [])
  {
    assert Derived(st.current, FontFix) !in st.disk by {
      DerivedAfter(input, a, FontFix);
      NameAfterShape(input, a + [FontFix]);
    }
    assert st.current == input || Intermediate(st.current, input) by { NameAfterShape(input, a); }
    assert NameAfter(output, []) == output by { NameAfterShape(output, []); }
    assert st.disk[st.current] + [FontFix] == disk[input] + (a + [FontFix]);
    OutputPathFallback(st, e, input, output, guarded);
    RouteStart(st, FontFixStage(st, FontFixExited(0, e, false, true), input, output, guarded), disk, input, output, a, st.disk[st.current] + [FontFix]);
  }

  lemma OutputRouteFinish(st: State, disk: Disk, input: string, output: string, a: seq<Stage>, b: seq<Stage>)
    requires OnOutputRoute(st, disk, input, output, a, b)
    ensures Finished(Finish(st, output), disk, input, output, a)
  {
    OutputRouteCurrent(st, disk, input, output, a, b);
  }

  lemma OutputRouteTail(st: State, disk: Disk, input: string, output: string, opts: Options, runs: Runs, guarded: bool, a: seq<Stage>, b: seq<Stage>)
    requires OnOutputRoute(st, disk, input, output, a, b)
    requires !runs.ocr.ToolRaised? && !runs.pageNumbers.ToolRaised? && !runs.compress.ToolRaised?
    ensures var f := Tail(st, input, output, opts, runs, guarded);
      var e := Effective(opts, runs);
      Finished(f, disk, input, output, Then(Then(Then(a, e.doOcr, Ocr), e.addPageNumbers, PageNumbers), e.compress, Compress))
  {
    var e := Effective(opts, runs);
    var a3, b3 := Then(a, e.doOcr, Ocr), Then(b, e.doOcr, Ocr);
    var s3 := ToolStage(st, Ocr, opts.doOcr, runs.ocr, input, guarded);
    assert OnOutputRoute(s3, disk, input, output, a3, b3) by {
      OutputRouteStage(st, Ocr, opts.doOcr, runs.ocr, input, output, disk, a, b, guarded);
    }
    var a4, b4 := Then(a3, e.addPageNumbers, PageNumbers), Then(b3, e.addPageNumbers, PageNumbers);
    var s4 := ToolStage(s3, PageNumbers, opts.addPageNumbers, runs.pageNumbers, input, guarded);
    assert OnOutputRoute(s4, disk, input, output, a4, b4) by {
      OutputRouteStage(s3, PageNumbers, opts.addPageNumbers, runs.pageNumbers, input, output, disk, a3, b3, guarded);
    }
    var a5, b5 := Then(a4, e.compress, Compress), Then(b4, e.compress, Compress);
    var s5 := ToolStage(s4, Compress, opts.compress, runs.compress, input, guarded);
    assert OnOutputRoute(s5, disk, input, output, a5, b5) by {
      OutputRouteStage(s4, Compress, opts.compress, runs.compress, input, output, disk, a4, b4, guarded);
    }
    OutputRouteFinish(s5, disk, input, output, a5, b5);
  }

  /** Unlocking (if enabled) and a font repair that wrote only the output path, in a folder with
      no intermediate of the upload or of the output path, start the output-path route. */
  lemma HeadOnOutputRoute(disk: Disk, input: string, output: string, opts: Options, runs: Runs, guarded: bool, job: JobRecord)
    requires PdfName(input) && input in disk
    requires output != input && !Intermediate(output, input)
    requires PdfName(output) && !Intermediate(input, output) && Clean(disk, input) && Clean(disk, output)
    requires !runs.unlock.ToolRaised?
    requires runs.fontFix.FontFixExited? && runs.fontFix.code == 0 && !runs.fontFix.wroteFixed && runs.fontFix.wroteOutput
    ensures OnOutputRoute(AfterFontFix(disk, input, output, opts, runs, guarded, job), disk, input, output,
                          Then([], Effective(opts, runs).removeSecurity, Unlock) + [FontFix], [])
  {
    var s0 := Start(disk, input, job);
    assert OnTrack(s0, disk, input, output, []) by { NameAfterShape(input, []); }
    var a1 := Then([], opts.removeSecurity && runs.unlock.Wrote?, Unlock);
    var s1 := AfterUnlock(disk, input, opts, runs, guarded, job);
    assert OnTrack(s1, disk, input, output, a1) by {
      StageOnTrack(s0, Unlock, opts.removeSecurity, runs.unlock, input, output, disk, [], guarded);
    }
    assert NameAfter(input, a1 + [FontFix]) !in disk by { NameAfterShape(input, a1 + [FontFix]); }
    assert runs.fontFix == FontFixExited(0, runs.fontFix.stderr, false, true);
    FontFixToOutput(s1, runs.fontFix.stderr, input, output, disk, a1, guarded);
  }

  // ---------------------------------------------------------------------------------------------
  // Font repair

  /** Without a failing unlock tool, the pipeline is still running when font repair starts and
      the upload is the current file or the unlocked copy. */
  lemma UnlockLeavesRunning(disk: Disk, input: string, opts: Options, runs: Runs, guarded: bool, job: JobRecord)
    requires !runs.unlock.ToolRaised?
    ensures AfterUnlock(disk, input, opts, runs, guarded, job).exit.Running?
  {
  }

  /** A non-zero exit of the font-repair script fails the job with its standard error (or, when
      that is empty, the exit-code message), no later stage runs and nothing is moved or deleted:
      the files are those left after the unlock stage together with whatever the failing script
      wrote, minus the upload. */
  lemma FontFixFailureStopsPipeline(disk: Disk, input: string, output: string, opts: Options, runs: Runs, guarded: bool, job: JobRecord)
    requires !runs.unlock.ToolRaised? && runs.fontFix.FontFixExited? && runs.fontFix.code != 0
    ensures var o := Run(disk, input, output, opts, runs, guarded, job);
      var s1 := AfterUnlock(disk, input, opts, runs, guarded, job);
      && o.job.status == Failed
      && o.job.error == Some(ExitMessage(runs.fontFix.code, runs.fontFix.stderr))
      && o.disk == FontFixWrites(s1.disk, s1.current, output, runs.fontFix.wroteFixed, runs.fontFix.wroteOutput) - {input}
  {
    UnlockLeavesRunning(disk, input, opts, runs, guarded, job);
  }

  /** A failing font-repair script that had already written the output path leaves that file
      behind: the job fails, but nothing removes the partial result. */
  lemma FontFixFailureKeepsPartialOutput(disk: Disk, input: string, output: string, opts: Options, runs: Runs, guarded: bool, job: JobRecord)
    requires input in disk && output != input
    requires !runs.unlock.ToolRaised? && runs.fontFix.FontFixExited? && runs.fontFix.code != 0 && runs.fontFix.wroteOutput
    ensures var o := Run(disk, input, output, opts, runs, guarded, job);
      o.job.status == Failed && output in o.disk
  {
    var s1 := AfterUnlock(disk, input, opts, runs, guarded, job);
    assert s1.current in s1.disk;
    FontFixFailureStopsPipeline(disk, input, output, opts, runs, guarded, job);
  }

  /** The unlocked copy outlives a failed font repair: the return path does not delete it. */
  lemma FontFixFailureKeepsUnlockedCopy(disk: Disk, input: string, output: string, opts: Options, runs: Runs, guarded: bool, job: JobRecord)
    requires PdfName(input) && input in disk
    requires opts.removeSecurity && runs.unlock == Wrote && runs.fontFix.FontFixExited? && runs.fontFix.code != 0
    ensures Derived(input, Unlock) in Run(disk, input, output, opts, runs, guarded, job).disk
  {
    DerivedName(input, Unlock);
    SuffixShape(Unlock);
    ToolWrote(Start(disk, input, job), Unlock, input, output, guarded);
    FontFixFailureStopsPipeline(disk, input, output, opts, runs, guarded, job);
  }

  /** A font repair that exits 0 but leaves neither the `-FIXED` file nor the output path fails
      the job with "Output file was not created" and runs no later stage. */
  lemma MissingOutputFails(disk: Disk, input: string, output: string, opts: Options, runs: Runs, guarded: bool, job: JobRecord)
    requires !runs.unlock.ToolRaised? && runs.fontFix.FontFixExited? && runs.fontFix.code == 0
    requires !runs.fontFix.wroteFixed && !runs.fontFix.wroteOutput
    requires var st := AfterUnlock(disk, input, opts, runs, guarded, job);
      Derived(st.current, FontFix) !in st.disk && output !in st.disk
    ensures var o := Run(disk, input, output, opts, runs, guarded, job);
      && o.job.status == Failed && o.job.error == Some(NotCreated)
      && o.disk == AfterUnlock(disk, input, opts, runs, guarded, job).disk - {input}
  {
    UnlockLeavesRunning(disk, input, opts, runs, guarded, job);
  }

  /** When the script wrote both, the `-FIXED` file becomes the current file; the output path
      holds the same repaired content. */
  lemma FixedFileTakesPrecedence(st: State, e: string, input: string, output: string, guarded: bool)
    requires st.exit.Running? && st.current in st.disk && Derived(st.current, FontFix) != st.current
    requires output != st.current
    ensures var r := FontFixStage(st, FontFixExited(0, e, true, true), input, output, guarded);
      && r.exit.Running? && r.current == Derived(st.current, FontFix)
      && r.current in r.disk && r.disk[r.current] == st.disk[st.current] + [FontFix]
      && output in r.disk && r.disk[output] == r.disk[r.current]
  {
    var st1 := st.(job := st.job.(progress := ProgressOf(FontFix)));
    var art := st.disk[st.current] + [FontFix];
    var st2 := st1.(disk := FontFixWrites(st1.disk, st1.current, output, true, true));
    assert st2.disk == st.disk[Derived(st.current, FontFix) := art][output := art];
    PickFixed(st2, input, output, guarded);
  }

  /** When the `-FIXED` file is a new file, it becomes the current file. */
  lemma PickFixed(st: State, input: string, output: string, guarded: bool)
    requires st.exit.Running? && st.current in st.disk
    requires Derived(st.current, FontFix) in st.disk && Derived(st.current, FontFix) != st.current
    ensures PickRepaired(st, input, output, guarded)
      == st.(disk := if st.current == input then st.disk else st.disk - {st.current}, current := Derived(st.current, FontFix))
  {
  }

  /** When only the output path was written, it becomes the current file, and the superseded
      current file is deleted unless it is the upload. */
  lemma OutputPathFallback(st: State, e: string, input: string, output: string, guarded: bool)
    requires st.exit.Running? && st.current in st.disk && output != st.current
    requires Derived(st.current, FontFix) !in st.disk
    ensures var r := FontFixStage(st, FontFixExited(0, e, false, true), input, output, guarded);
      && r.exit.Running? && r.current == output
      && output in r.disk && r.disk[output] == st.disk[st.current] + [FontFix]
      && r.disk == (if st.current == input then st.disk[output := r.disk[output]]
                    else st.disk[output := r.disk[output]] - {st.current})
      && r.job == st.job.(progress := ProgressOf(FontFix))
  {
    var st1 := st.(job := st.job.(progress := ProgressOf(FontFix)));
    var st2 := st1.(disk := FontFixWrites(st1.disk, st1.current, output, false, true));
    assert st2.disk == st.disk[output := st.disk[st.current] + [FontFix]];
    PickOutputPath(st2, input, output, guarded);
  }

  lemma PickOutputPath(st: State, input: string, output: string, guarded: bool)
    requires st.exit.Running? && st.current in st.disk && output in st.disk && output != st.current
    requires Derived(st.current, FontFix) in st.disk ==> Derived(st.current, FontFix) == output
    ensures var r := PickRepaired(st, input, output, guarded);
      && r.exit.Running? && r.current == output && output in r.disk && r.disk[output] == st.disk[output]
      && r.disk == (if st.current == input then st.disk else st.disk - {st.current})
  {
  }

  // ---------------------------------------------------------------------------------------------
  // Names without a lower-case ".pdf"

  /** Every expected name of a path without ".pdf" is the path itself. */
  lemma DerivedOfNoPdf(p: string, s: Stage)
    requires forall i :: !Occurs(p, ".pdf", i)
    ensures Derived(p, s) == p
  {
    ReplaceAbsent(p, ".pdf", Suffix(s) + ".pdf");
  }

  /** As written: an upload whose name has no lower-case ".pdf" (say "report.PDF", which the
      case-insensitive extension check admits) fails whenever OCR is requested, even though every
      tool succeeded: font repair takes the upload itself as its `-FIXED` output, OCR then deletes
      it as the superseded file, and the final move finds nothing. */
  lemma UpperCaseExtensionFails(disk: Disk, input: string, output: string, opts: Options, runs: Runs, job: JobRecord)
    requires forall i :: !Occurs(input, ".pdf", i)
    requires input in disk && opts.doOcr
    requires !runs.unlock.ToolRaised? && !runs.ocr.ToolRaised? && !runs.pageNumbers.ToolRaised? && !runs.compress.ToolRaised?
    requires runs.fontFix.FontFixExited? && runs.fontFix.code == 0
    ensures var o := Run(disk, input, output, opts, runs, false, job);
      o.job.status == Failed && o.job.error == Some(NoSuchFile(input))
  {
    var s0 := Start(disk, input, job);
    var s1 := AfterUnlock(disk, input, opts, runs, false, job);
    assert s1.exit.Running? && s1.current == input && input in s1.disk by {
      DerivedOfNoPdf(input, Unlock);
      NoPdfToolStage(s0, Unlock, opts.removeSecurity, runs.unlock, input);
    }
    var s2 := AfterFontFix(disk, input, output, opts, runs, false, job);
    assert s2.exit.Running? && s2.current == input && input in s2.disk by {
      DerivedOfNoPdf(input, FontFix);
      NoPdfFontFix(s1, runs.fontFix, input, output);
    }
    var s3 := ToolStage(s2, Ocr, opts.doOcr, runs.ocr, input, false);
    assert s3.exit.Running? && s3.current == input && input !in s3.disk by {
      DerivedOfNoPdf(input, Ocr);
      NoPdfToolStage(s2, Ocr, opts.doOcr, runs.ocr, input);
    }
    var s4 := ToolStage(s3, PageNumbers, opts.addPageNumbers, runs.pageNumbers, input, false);
    assert s4.exit.Running? && s4.current == input && input !in s4.disk by {
      DerivedOfNoPdf(input, PageNumbers);
      NoPdfToolStage(s3, PageNumbers, opts.addPageNumbers, runs.pageNumbers, input);
    }
    var s5 := ToolStage(s4, Compress, opts.compress, runs.compress, input, false);
    assert s5.exit.Running? && s5.current == input && input !in s5.disk by {
      DerivedOfNoPdf(input, Compress);
      NoPdfToolStage(s4, Compress, opts.compress, runs.compress, input);
    }
  }

  /** As written, one tool stage on a current file that is the upload and whose expected output
      is its own name: the upload stays the current file; unlock keeps it, a later enabled stage
      deletes it, and a missing upload stays missing. */
  lemma NoPdfToolStage(st: State, s: Stage, enabled: bool, run: ToolRun, input: string)
    requires s != FontFix && !run.ToolRaised? && st.exit.Running? && st.current == input && Derived(input, s) == input
    ensures var r := ToolStage(st, s, enabled, run, input, false);
      && r.exit.Running? && r.current == input
      && (s == Unlock ==> (input in r.disk <==> input in st.disk))
      && (enabled && s != Unlock && input in st.disk ==> input !in r.disk)
      && (input !in st.disk ==> input !in r.disk)
  {
  }

  /** As written, font repair that exits 0 on such a file takes the upload as its output. */
  lemma NoPdfFontFix(st: State, run: FontFixRun, input: string, output: string)
    requires run.FontFixExited? && run.code == 0
    requires st.exit.Running? && st.current == input && input in st.disk && Derived(input, FontFix) == input
    ensures var r := FontFixStage(st, run, input, output, false);
      r.exit.Running? && r.current == input && input in r.disk
  {
  }

  /** As written: with no optional stage, such an upload ends "completed", but the file at the
      output path is the unrepaired upload, moved over whatever the script wrote there. */
  lemma UpperCaseExtensionReturnsUnrepairedInput(disk: Disk, input: string, output: string, e: string, wo: bool, job: JobRecord)
    requires forall i :: !Occurs(input, ".pdf", i)
    requires input in disk && output != input
    ensures var runs := Runs(WroteNothing, FontFixExited(0, e, false, wo), WroteNothing, WroteNothing, WroteNothing);
      var o := Run(disk, input, output, Options(false, false, false, false), runs, false, job);
      o.job.status == Completed && output in o.disk && o.disk[output] == disk[input]
  {
    DerivedOfNoPdf(input, FontFix);
  }

  // ---------------------------------------------------------------------------------------------
  // The corrected variant

  /** Corrected: when the current file is always a file that exists, no tool that ran normally
      can make the pipeline raise. */
  lemma GuardedStepsKeepCurrent(st: State, s: Stage, enabled: bool, run: ToolRun, input: string)
    requires s != FontFix && !run.ToolRaised?
    requires st.exit.Running? ==> st.current in st.disk
    ensures var r := ToolStage(st, s, enabled, run, input, true);
      (r.exit.Running? ==> r.current in r.disk) && (r.exit.Raised? ==> st.exit.Raised?)
  {
  }

  lemma GuardedFontFixKeepsCurrent(st: State, run: FontFixRun, input: string, output: string)
    requires run.FontFixExited?
    requires st.exit.Running? ==> st.current in st.disk
    ensures var r := FontFixStage(st, run, input, output, true);
      (r.exit.Running? ==> r.current in r.disk) && (r.exit.Raised? ==> st.exit.Raised?)
  {
    if st.exit.Running? && run.code == 0 {
      var st1 := st.(job := st.job.(progress := ProgressOf(FontFix)));
      var st2 := st1.(disk := FontFixWrites(st1.disk, st1.current, output, run.wroteFixed, run.wroteOutput));
      assert st2.current in st2.disk;
      GuardedPickKeepsCurrent(st2, input, output);
    }
  }

  lemma GuardedPickKeepsCurrent(st: State, input: string, output: string)
    requires st.exit.Running? && st.current in st.disk
    ensures var r := PickRepaired(st, input, output, true);
      (r.exit.Running? ==> r.current in r.disk) && !r.exit.Raised?
  {
  }

  lemma GuardedTail(st: State, input: string, output: string, opts: Options, runs: Runs)
    requires !runs.ocr.ToolRaised? && !runs.pageNumbers.ToolRaised? && !runs.compress.ToolRaised?
    requires st.exit.Running? ==> st.current in st.disk
    ensures Tail(st, input, output, opts, runs, true).exit.Raised? ==> st.exit.Raised?
  {
    GuardedStepsKeepCurrent(st, Ocr, opts.doOcr, runs.ocr, input);
    var s3 := ToolStage(st, Ocr, opts.doOcr, runs.ocr, input, true);
    GuardedStepsKeepCurrent(s3, PageNumbers, opts.addPageNumbers, runs.pageNumbers, input);
    var s4 := ToolStage(s3, PageNumbers, opts.addPageNumbers, runs.pageNumbers, input, true);
    GuardedStepsKeepCurrent(s4, Compress, opts.compress, runs.compress, input);
  }

  /** Corrected: when no tool raises, the pipeline never raises either: the upload, the
      intermediate files and the file the final move takes are always files that exist. */
  lemma GuardedRunNeverRaises(disk: Disk, input: string, output: string, opts: Options, runs: Runs, job: JobRecord)
    requires input in disk
    requires !runs.unlock.ToolRaised? && !runs.ocr.ToolRaised? && !runs.pageNumbers.ToolRaised? && !runs.compress.ToolRaised?
    requires runs.fontFix.FontFixExited?
    ensures !Stages(disk, input, output, opts, runs, true, job).exit.Raised?
  {
    var s0 := Start(disk, input, job);
    GuardedStepsKeepCurrent(s0, Unlock, opts.removeSecurity, runs.unlock, input);
    var s1 := AfterUnlock(disk, input, opts, runs, true, job);
    GuardedFontFixKeepsCurrent(s1, runs.fontFix, input, output);
    var s2 := AfterFontFix(disk, input, output, opts, runs, true, job);
    GuardedTail(s2, input, output, opts, runs);
  }

  /** Corrected: an upload named without a lower-case ".pdf" whose repaired file was written at
      the output path completes with that repaired file. */
  lemma GuardedRunUsesRepairedOutput(disk: Disk, input: string, output: string, e: string, job: JobRecord)
    requires forall i :: !Occurs(input, ".pdf", i)
    requires input in disk && output != input
    ensures var runs := Runs(WroteNothing, FontFixExited(0, e, false, true), WroteNothing, WroteNothing, WroteNothing);
      var o := Run(disk, input, output, Options(false, false, false, false), runs, true, job);
      o.job.status == Completed && output in o.disk && o.disk[output] == disk[input] + [FontFix]
  {
    DerivedOfNoPdf(input, FontFix);
  }

  /** On a path with a single ".pdf" extension every expected name is a new, different file with a
      single ".pdf" extension. */
  lemma DerivedIsNewName(p: string, s: Stage)
    requires PdfName(p)
    ensures Derived(p, s) != p && PdfName(Derived(p, s))
  {
    DerivedName(p, s);
    SuffixShape(s);
    InsertKeepsPdfName(p, Suffix(s));
  }

  lemma ToolStageGuardAgrees(st: State, s: Stage, enabled: bool, run: ToolRun, input: string)
    requires s != FontFix
    requires st.exit.Running? ==> PdfName(st.current)
    ensures var r := ToolStage(st, s, enabled, run, input, true);
      r == ToolStage(st, s, enabled, run, input, false) && (r.exit.Running? ==> PdfName(r.current))
  {
    if st.exit.Running? { DerivedIsNewName(st.current, s); }
  }

  lemma FontFixStageGuardAgrees(st: State, run: FontFixRun, input: string, output: string)
    requires PdfName(output)
    requires st.exit.Running? ==> PdfName(st.current) && output != st.current
    ensures var r := FontFixStage(st, run, input, output, true);
      r == FontFixStage(st, run, input, output, false) && (r.exit.Running? ==> PdfName(r.current))
  {
    if st.exit.Running? { DerivedIsNewName(st.current, FontFix); }
  }

  /** The correction changes nothing for ordinary names: when the upload and the output path each
      have a single ".pdf" extension and the output path is not an intermediate name, the corrected
      and the as-written pipeline give the same files and the same job record for every tool
      outcome. */
  lemma GuardMattersOnlyForOddNames(disk: Disk, input: string, output: string, opts: Options, runs: Runs, job: JobRecord)
    requires PdfName(input) && PdfName(output) && output != input && !Intermediate(output, input)
    ensures Run(disk, input, output, opts, runs, true, job) == Run(disk, input, output, opts, runs, false, job)
  {
    var s0 := Start(disk, input, job);
    var s1 := AfterUnlock(disk, input, opts, runs, true, job);
    assert s1 == AfterUnlock(disk, input, opts, runs, false, job) && (s1.exit.Running? ==> PdfName(s1.current)) by {
      ToolStageGuardAgrees(s0, Unlock, opts.removeSecurity, runs.unlock, input);
    }
    assert s1.exit.Running? ==> output != s1.current by {
      assert s1.exit.Running? ==> s1.current == input || s1.current == Derived(input, Unlock);
      NameAfterShape(input, []);
      DerivedAfter(input, [], Unlock);
      NameAfterShape(input, [Unlock]);
    }
    var s2 := AfterFontFix(disk, input, output, opts, runs, true, job);
    assert s2 == AfterFontFix(disk, input, output, opts, runs, false, job) && (s2.exit.Running? ==> PdfName(s2.current)) by {
      FontFixStageGuardAgrees(s1, runs.fontFix, input, output);
    }
    var s3 := ToolStage(s2, Ocr, opts.doOcr, runs.ocr, input, true);
    assert s3 == ToolStage(s2, Ocr, opts.doOcr, runs.ocr, input, false) && (s3.exit.Running? ==> PdfName(s3.current)) by {
      ToolStageGuardAgrees(s2, Ocr, opts.doOcr, runs.ocr, input);
    }
    var s4 := ToolStage(s3, PageNumbers, opts.addPageNumbers, runs.pageNumbers, input, true);
    assert s4 == ToolStage(s3, PageNumbers, opts.addPageNumbers, runs.pageNumbers, input, false) && (s4.exit.Running? ==> PdfName(s4.current)) by {
      ToolStageGuardAgrees(s3, PageNumbers, opts.addPageNumbers, runs.pageNumbers, input);
    }
    var s5 := ToolStage(s4, Compress, opts.compress, runs.compress, input, true);
    assert s5 == ToolStage(s4, Compress, opts.compress, runs.compress, input, false) by {
      ToolStageGuardAgrees(s4, Compress, opts.compress, runs.compress, input);
    }
  }
}
