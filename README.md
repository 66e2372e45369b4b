# PDF font-repair web layer, modelled in Dafny

The web front end of the PDF problem solver comes in two versions. Both take an uploaded PDF
and run the font-repair shell script on it.

**The asynchronous app** (`web-app/app_async.py`):
- It rate-limits uploads per client address.
- It validates the form: email, file type, size and name length.
- It normalises the DPI, the pages argument and the file name.
- It builds the job's input and output paths inside the upload folder and stores a job record.
- A background job, `process_pdf_async`, threads a "current file" through up to five stages: unlock, font repair, OCR, page numbers and compression. It then moves the result to the output path.
- `/status/<id>` reports on the job and `/download/<id>` serves its result.
- `cleanup_old_files` removes files older than a day.

**The synchronous app** (`web-app/app.py`):
- It runs the script inline and answers with a download id.
- `/download/<id>/<name>` serves `<id>_<name>`.
- `/cleanup` removes every file whose name starts with a download id.

The model has eight modules:
- `PyStr`: the Python string operations used, with Python's meaning. `str.replace` replaces every occurrence, left to right, and is case-sensitive.
- `Validation`: `validate_email` against the regular expression's language, both `allowed_file` functions, and the normalisation done in `upload_file`.
- `RateLimit`: `check_rate_limit`, as a class over the attempts table with the cleaning loop.
- `Jobs`: the job record, `job_status` and `download_file`.
- `Pipeline`: `process_pdf_async`, as one function per stage over an explicit state, with the lemmas about it. The state holds the files, the current file, the job record and how the try-block was left.
- `UploadFolder`: the folder listing, and the two deletion loops as methods of a class.
- `AsyncApp`: `upload_file` of the asynchronous app, and a `JobServer` class that holds the job table, the files and the rate limiter. Its methods carry out an upload and a background job step by step.
- `SimpleApp`: the three routes of `app.py`.

How the model represents the outside world:
- **Files.** Each file is modelled with its provenance: the list of tool stages that produced it, with `[]` for the upload itself. This lets the lemmas state what ends up at the output path, not just that something does. A plain set of paths could not express that.
- **Tools.** Each tool run is an input, since the tools are shell scripts the model cannot see. A run wrote its output, wrote nothing, or raised. The font-repair script also has an exit code, a standard-error text, and whether it wrote its `-FIXED` file and/or the output path.
- **Exceptions.** An exception is an exit state that carries the message Python would give it. `os.remove` and `shutil.move` on a missing file give "[Errno 2] No such file or directory: '<path>'".
- **Clock and ids.** Clock readings, `uuid4` values and `secure_filename` results are parameters.

Two behaviours of the code are worth noting:
- A failed font repair leaves the unlocked intermediate file on disk (`Pipeline.FontFixFailureKeepsUnlockedCopy`). So does whatever the failing script had already written (`Pipeline.FontFixFailureKeepsPartialOutput`).
- `app.py` keeps the saved upload next to the repaired file after a successful run (`SimpleApp.UploadLeftBehind`).

## Model

| member | source | states |
|---|---|---|
| `PyStr.Replace` | web-app/app_async.py:153 | `str.replace`: every non-overlapping occurrence of the pattern, scanned left to right and case-sensitively, is replaced (its properties are the three lemmas that follow) |
| `PyStr.ReplaceAbsent` | web-app/app_async.py:153 | `replace` on a string without the pattern returns it unchanged |
| `PyStr.ReplaceAfterPrefix` | web-app/app_async.py:197 | `replace` on a prefix that has no occurrence, followed by the rest, rewrites only the rest |
| `PyStr.TrimFront` | web-app/app_async.py:320 | dropping a leading whitespace character keeps a trim of the rest a trim of the whole |
| `PyStr.TrimBack` | web-app/app_async.py:320 | the same for a trailing whitespace character |
| `PyStr.Strip` | web-app/app_async.py:320 | `strip()` returns the slice of its input left after removing a wholly-whitespace prefix and suffix (whitespace as `str.isspace` defines it), and neither end of the result is whitespace; so it is no longer than its input and keeps only characters of it |
| `Validation.ValidateEmail` | web-app/app_async.py:66-81 | an email is valid exactly when it is non-empty, at most 254 characters long, matched by the regex (one trailing newline tolerated, as `$` allows) and free of the dangerous characters |
| `Validation.EmailShapeIsRegex` | web-app/app_async.py:71-74 | the first-'@', last-'.' decision procedure accepts exactly the strings the regular expression matches |
| `Validation.DangerousTestIsRedundant` | web-app/app_async.py:76-79 | no string the regex accepts contains a dangerous character, so the verdict is the length bound and the regex alone |
| `Validation.AllowedFile` | web-app/app_async.py:83-89 | a name is allowed exactly when its lower-cased form ends in ".pdf" |
| `Validation.AllowedFileBasic` | web-app/app.py:15-16 | the same characterisation for the synchronous app's check |
| `Validation.LastExtensionIsPdf` | web-app/app_async.py:85-89 | "a dot is present and the text after the last one, lower-cased, is pdf" is equivalent to a lower-case ".pdf" suffix |
| `Validation.AllowedFileVersionsAgree` | web-app/app.py:15-16 | the two apps' `allowed_file` accept the same names |
| `Validation.NormalizeDpi` | web-app/app_async.py:331-333 | the DPI ends up one of 300, 600, 1200; an allowed value is kept, any other becomes 600 |
| `Validation.PagesArgs` | web-app/app_async.py:166-170 | a non-empty custom page list is passed with each comma turned into a space and every other character kept in place; otherwise the pages mode is passed |
| `Validation.NormalizeFilename` | web-app/app_async.py:366-373 | the kept name always ends in ".pdf" (ignoring case) and passes `allowed_file`; an empty name becomes "document.pdf" and ".pdf" is appended only when missing |
| `Validation.NormalizeFilenameIdempotent` | web-app/app_async.py:366-373 | normalising a normalised name changes nothing |
| `RateLimit.Recent` | web-app/app_async.py:96-98 | the window filter keeps exactly the timestamps less than an hour old, each as often as it occurred |
| `RateLimit.Pruned` | web-app/app_async.py:95-100 | the cleaning loop's table: every address's list filtered to the window, with addresses whose list became empty dropped (its properties are stated by `RateLimit.AdmitState`) |
| `RateLimit.Admit` | web-app/app_async.py:91-110 | the verdict and the new table of one `check_rate_limit` call (stated by `RateLimit.AdmitVerdict` and `RateLimit.AdmitState`) |
| `RateLimit.AdmitVerdict` | web-app/app_async.py:91-110 | an upload is allowed exactly when the address has fewer than 5 timestamps in the window; on allow `now` is appended to its filtered list, on refusal the filtered list is kept |
| `RateLimit.AdmitState` | web-app/app_async.py:95-103 | afterwards every stored timestamp is inside the window, no address maps to an empty list, and other addresses keep their filtered lists |
| `RateLimit.AdmitPreservesBound` | web-app/app_async.py:106-110 | no address ever holds more than 5 timestamps |
| `RateLimit.RateLimiter.PruneAll` | web-app/app_async.py:95-100 | the in-place cleaning loop leaves the table equal to the pruned table |
| `RateLimit.RateLimiter.CheckRateLimit` | web-app/app_async.py:91-110 | the verdict and the new table are those of `Admit` on the old table |
| `Jobs.NewJob` | web-app/app_async.py:388-394 | a new record is queued, with no error and no progress text, and keeps the given filename, email and output path |
| `Jobs.JobStatus` | web-app/app_async.py:416-440 | a non-UUID id is 400 "Invalid job ID", an unknown id 404 "Job not found"; otherwise the reply shows the record's status, filename and progress, and an error exactly when the job failed and has one |
| `Jobs.DownloadFile` | web-app/app_async.py:442-473 | the file is sent exactly when the id is a UUID of a completed job whose output path is in the folder and exists, and it is sent under the record's filename; a non-UUID id is 400, an unknown id 404 "Job not found", an unfinished job 400 with its status, a path outside the folder 403 "Invalid file path", a missing file 404 "File not found" |
| `Pipeline.Derived` | web-app/app_async.py:153-260 | the expected output name `current_file.replace('.pdf', '-<suffix>.pdf')` of a stage (stated by `Pipeline.DerivedName`, `Pipeline.DerivedAfter` and `Pipeline.DerivedOfNoPdf`) |
| `Pipeline.Handoff` | web-app/app_async.py:154-157 | the hand-off to a found output: the superseded file is removed (kept when it is the upload, for unlock and font repair) and the output becomes current (stated by `Pipeline.ToolStageOnTrack`, `Pipeline.PickFixed` and `Pipeline.PickOutputPath`) |
| `Pipeline.ExitMessage` | web-app/app_async.py:184 | the stored error of a failing script: its standard error, or the exit-code message when that is empty (stated by `Pipeline.FontFixFailureStopsPipeline`) |
| `Pipeline.Move` | web-app/app_async.py:266 | `shutil.move` of an existing file: the content moves to the destination and the source disappears (stated by `Pipeline.FinishOnTrack` and `Pipeline.OutputRouteFinish`) |
| `Pipeline.AfterUnlock` | web-app/app_async.py:138-157 | the state after the unlock stage (stated by `Pipeline.UnlockLeavesRunning` and `Pipeline.HeadOnTrack`) |
| `Pipeline.AfterFontFix` | web-app/app_async.py:138-209 | the state after unlock and font repair (stated by `Pipeline.HeadOnTrack`, `Pipeline.HeadOnOutputRoute` and the font-repair lemmas) |
| `Pipeline.Tail` | web-app/app_async.py:211-269 | OCR, page numbers, compression and the final move, in this order (stated by `Pipeline.TailOnTrack` and `Pipeline.OutputRouteTail`) |
| `Pipeline.Stages` | web-app/app_async.py:138-269 | the whole try-block in its fixed stage order (stated by `Pipeline.StagesRunInOrder`) |
| `Pipeline.ToolStage` | web-app/app_async.py:211-262 | one optional stage: skipped when disabled or the try-block was left; otherwise the progress text, then a raise, or a hand-off to the expected output when it counts as new (stated by `Pipeline.ToolSkipped`, `Pipeline.StageOnTrack` and the lemmas on the current file) |
| `Pipeline.FontFixStage` | web-app/app_async.py:158-209 | font repair: what the script wrote stays, a non-zero exit fails the job, and otherwise the repaired file is picked (stated by the font-repair lemmas below) |
| `Pipeline.PickRepaired` | web-app/app_async.py:196-209 | after exit 0: the `-FIXED` file, else the output path, else the failure "Output file was not created" (stated by `Pipeline.PickFixed`, `Pipeline.PickOutputPath` and `Pipeline.MissingOutputFails`) |
| `Pipeline.Finish` | web-app/app_async.py:264-269 | the final move and the status "completed" (stated by `Pipeline.FinishOnTrack`) |
| `Pipeline.Conclude` | web-app/app_async.py:271-301 | the except-block fails a job that raised with the exception's message, and the finally-block removes the upload (stated by `Pipeline.RunEnds` and `Pipeline.ConcludeCompleted`) |
| `Pipeline.Run` | web-app/app_async.py:131-301 | the whole background job, as written or corrected, over the given tool behaviour; its properties are the lemmas that follow |
| `Pipeline.RunEnds` | web-app/app_async.py:131-301 | whatever the tools do, the job ends completed or failed, a failed job has an error message, the upload is deleted, and filename, email and output path are unchanged |
| `Pipeline.DerivedName` | web-app/app_async.py:153 | on a name with a single ".pdf" extension, the expected output name is the stem, the stage's suffix and ".pdf" |
| `Pipeline.NameAfterShape` | web-app/app_async.py:153-228 | after any sequence of stages, the current name has a single ".pdf" extension and begins with the upload's stem and '-' |
| `Pipeline.DerivedAfter` | web-app/app_async.py:224-262 | each stage looks for the name after one more stage, which is different from the current name |
| `Pipeline.InputNotIntermediate` | web-app/app_async.py:153 | the upload itself is never an intermediate name |
| `Pipeline.ToolStageOnTrack` | web-app/app_async.py:211-228 | a successful enabled tool hands the current file on to its output and deletes the superseded intermediate, keeping every other file |
| `Pipeline.FontFixOnTrack` | web-app/app_async.py:196-205 | a successful font repair that wrote its `-FIXED` file makes that file current |
| `Pipeline.FinishOnTrack` | web-app/app_async.py:266-269 | the final move puts the current content at the output path and completes the job |
| `Pipeline.ToolSkipped` | web-app/app_async.py:224-228 | an enabled tool that wrote nothing, when no file bears its expected name, keeps the current file and every file; only the progress text moves on |
| `Pipeline.StageOnTrack` | web-app/app_async.py:211-262 | one optional stage whose tool wrote or wrote nothing keeps the pipeline on track; the stage counts as applied exactly when it was enabled and its tool wrote |
| `Pipeline.HeadOnTrack` | web-app/app_async.py:140-205 | unlocking (applied only when enabled and its tool wrote) and a font repair that wrote its `-FIXED` file put the pipeline on track |
| `Pipeline.TailOnTrack` | web-app/app_async.py:211-269 | from an on-track state, OCR, page numbers and compression, each applied only when enabled and its tool wrote, and the final move end the try-block normally |
| `Pipeline.StagesRunInOrder` | web-app/app_async.py:140-301 | with no tool raising and font repair exiting 0 after writing its `-FIXED` file or the output path, the job completes and the output holds the upload with exactly the enabled stages whose tools wrote applied, in the fixed order; unrelated files are unchanged and no intermediate is left behind (when some tool wrote nothing, or only the output path was written, in a folder holding no intermediate name of the upload or of the output path) |
| `Pipeline.FixedRouteFinishes` | web-app/app_async.py:140-269 | when font repair wrote its `-FIXED` file, the try-block ends with the upload's content plus the applied stages at the output path, the job completed, and no intermediate left |
| `Pipeline.OutputRouteFinishes` | web-app/app_async.py:140-269 | the same end of the try-block when font repair wrote only the output path (app_async.py:202-205), in a folder holding no intermediate of the upload or of the output path |
| `Pipeline.HeadOnOutputRoute` | web-app/app_async.py:140-205 | unlocking and a font repair that wrote only the output path make the output path current, holding the upload plus the applied stages, with every unrelated file kept |
| `Pipeline.FontFixToOutput` | web-app/app_async.py:196-205 | from an on-track state with no `-FIXED` file present, a script that wrote only the output path makes it current with the repaired content; the superseded intermediate is deleted |
| `Pipeline.OutputRouteStage` | web-app/app_async.py:211-262 | one optional stage on the output-path route keeps the route: its output, named after the output path, becomes current, and the stage counts as applied exactly when it was enabled and its tool wrote |
| `Pipeline.OutputRouteAdvanced` | web-app/app_async.py:224-228 | a successful tool on the output-path route hands the current file on and deletes the superseded file, keeping every unrelated file |
| `Pipeline.OutputRouteTail` | web-app/app_async.py:211-269 | from a state on the output-path route, OCR, page numbers, compression and the final move end the try-block normally with the content at the output path |
| `Pipeline.OutputRouteFinish` | web-app/app_async.py:264-269 | the final move on the output-path route leaves the content at the output path and completes the job; unrelated files are unchanged and no intermediate of the upload is left behind |
| `Pipeline.EnabledStagesRunInOrder` | web-app/app_async.py:140-269 | the case of `Pipeline.StagesRunInOrder` where every tool wrote: the output holds the upload with exactly the enabled stages applied, in the order unlock, font repair, OCR, page numbers, compression; with the `-FIXED` file whatever else the folder holds, with only the output path in a folder holding no intermediate of either path |
| `Pipeline.UnlockLeavesRunning` | web-app/app_async.py:140-157 | an unlock tool that does not raise leaves the pipeline running |
| `Pipeline.FontFixFailureStopsPipeline` | web-app/app_async.py:182-192 | a non-zero font-repair exit fails the job with standard error (or the exit-code message when that is empty) and runs no later stage; the files are those after unlocking plus whatever the script wrote, minus the upload |
| `Pipeline.FontFixFailureKeepsPartialOutput` | web-app/app_async.py:179-192 | a failing script that had written the output path leaves that file behind |
| `Pipeline.FontFixFailureKeepsUnlockedCopy` | web-app/app_async.py:155-192 | after a successful unlock, a failed font repair leaves the unlocked copy on disk |
| `Pipeline.MissingOutputFails` | web-app/app_async.py:205-209 | a font repair that exits 0 but writes neither file fails the job with "Output file was not created" |
| `Pipeline.FixedFileTakesPrecedence` | web-app/app_async.py:197-201 | when both files were written, the `-FIXED` file becomes current, and the output path holds the same repaired content |
| `Pipeline.OutputPathFallback` | web-app/app_async.py:196-205 | with no `-FIXED` file, the output path written by the script becomes current with the repaired content; the superseded file is deleted unless it is the upload, nothing else changes, and only the progress text of the record moves on |
| `Pipeline.PickFixed` | web-app/app_async.py:196-201 | a `-FIXED` file that exists and differs from the current file becomes the current file; the superseded file is deleted unless it is the upload |
| `Pipeline.PickOutputPath` | web-app/app_async.py:202-205 | with no new `-FIXED` file, an existing output path becomes the current file with its content, and the superseded file is deleted unless it is the upload |
| `Pipeline.ConcludeCompleted` | web-app/app_async.py:298-301 | after a normal end the finally-block removes only the upload: the job stays completed and the output and every other file are kept |
| `Pipeline.DerivedOfNoPdf` | web-app/app_async.py:153 | on a name without a lower-case ".pdf", every expected name is the name itself |
| `Pipeline.NoPdfToolStage` | web-app/app_async.py:211-228 | as written, on an upload whose expected names are its own, a tool stage keeps the upload as the current file; unlock keeps the file, an enabled later stage deletes it |
| `Pipeline.NoPdfFontFix` | web-app/app_async.py:196-201 | as written, a font repair exiting 0 on such an upload takes the upload itself as its `-FIXED` output |
| `Pipeline.UpperCaseExtensionFails` | web-app/app_async.py:196-266 | as written, an upload without a lower-case ".pdf" fails whenever OCR is requested, and the error is "No such file" for the upload, even though every tool succeeded |
| `Pipeline.UpperCaseExtensionReturnsUnrepairedInput` | web-app/app_async.py:196-269 | as written, with no optional stage, such an upload "completes" with the unrepaired upload at the output path |
| `Pipeline.GuardedRunNeverRaises` | web-app/app_async.py:140-266 | corrected: when no tool raises, no step of the pipeline raises |
| `Pipeline.GuardedRunUsesRepairedOutput` | web-app/app_async.py:196-269 | corrected: such an upload completes with the repaired file the script wrote at the output path |
| `Pipeline.GuardMattersOnlyForOddNames` | web-app/app_async.py:140-301 | for single-extension names, the corrected and the as-written pipeline give identical files and records for every tool outcome |
| `UploadFolder.WithoutExpired` | web-app/app_async.py:54-62 | the listing after the age filter (stated by `UploadFolder.WithoutExpiredExactly`) |
| `UploadFolder.WithoutPrefixed` | web-app/app.py:101-108 | the listing after the prefix filter (stated by `UploadFolder.WithoutPrefixedExactly`) |
| `UploadFolder.WithoutExpiredExactly` | web-app/app_async.py:54-62 | the age filter removes exactly the removable regular files older than a day and keeps everything else unchanged |
| `UploadFolder.RecentFilesSurvive` | web-app/app_async.py:56-58 | files less than a day old, and directories, survive |
| `UploadFolder.WithoutPrefixedExactly` | web-app/app.py:101-108 | the prefix filter removes exactly the removable regular files whose names start with the id |
| `UploadFolder.Folder.CleanupOldFiles` | web-app/app_async.py:47-64 | a missing folder is left alone; otherwise the listing loop leaves exactly the age-filtered listing |
| `UploadFolder.Folder.RemovePrefixed` | web-app/app.py:101-108 | the listing loop leaves exactly the prefix-filtered listing |
| `AsyncApp.ClientIp` | web-app/app_async.py:310-313 | the address has no ','; a header without ',' is used unchanged, otherwise the stripped part before its first ',', which is shorter |
| `AsyncApp.Granted` | web-app/app_async.py:375-412 | the reply, record and job parameters of an accepted upload (stated by `AsyncApp.AcceptedJobShape`) |
| `AsyncApp.Accept` | web-app/app_async.py:318-414 | `upload_file`'s checks after the rate limit, in order (stated by `AsyncApp.AcceptVerdict`) |
| `AsyncApp.FormEmail` | web-app/app_async.py:320 | the email field, stripped, empty when absent (stated by `PyStr.Strip`) |
| `AsyncApp.FormOptions` | web-app/app_async.py:326-329 | each processing option is on exactly when its form field is "1" (used by `AsyncApp.AcceptedJobShape`) |
| `AsyncApp.InputPath` | web-app/app_async.py:366-376 | `<folder>/<job_id>_<name>` for the normalised name (stated by `AsyncApp.AcceptedJobShape` and `AsyncApp.PathsInFolder`) |
| `AsyncApp.OutputPath` | web-app/app_async.py:366-377 | `<folder>/<job_id>_fixed_<name>` for the normalised name (stated by the same lemmas and `AsyncApp.OutputNotIntermediate`) |
| `AsyncApp.PathsInFolder` | web-app/app_async.py:375-383 | both job paths lie in the upload folder, so the path check never rejects |
| `AsyncApp.AcceptVerdict` | web-app/app_async.py:318-414 | an upload is accepted exactly when it passes every check; a bad email and a bad extension give their own errors, in the source's order |
| `AsyncApp.AcceptedJobShape` | web-app/app_async.py:364-412 | an accepted job's files are `<id>_<name>` and `<id>_fixed_<name>` in the folder, distinct; the record is queued with download name `fixed_<name>`; DPI and options come from the form |
| `AsyncApp.OutputNotIntermediate` | web-app/app_async.py:376-377 | the output path is never a name the pipeline derives from the input path |
| `AsyncApp.AcceptedPathsFitPipeline` | web-app/app_async.py:375-383 | for a single-extension name, both paths have a single ".pdf" extension, they differ, and neither is a name the pipeline derives from the other |
| `AsyncApp.IntermediateInDir` | web-app/app_async.py:376-377 | every name derived from a path in the upload folder lies in that folder under the same file-name prefix |
| `AsyncApp.FreshJobIsClean` | web-app/app_async.py:375-383 | in a folder holding no file of a fresh job id, the saved upload is the only file named after the job: no intermediate of the input or of the output path is present |
| `AsyncApp.CompletedJobIsDownloadable` | web-app/app_async.py:442-473 | a job whose tools all write and whose font repair exits 0 after writing its `-FIXED` file or the output path completes, and `/download` then sends its output under the recorded name; this holds for the code as written and for the corrected variant alike |
| `AsyncApp.UploadedPdfIsDownloadable` | web-app/app_async.py:309-473 | end to end: an accepted single-extension upload whose tools all write, and whose font repair exits 0 after writing its `-FIXED` file or (for a job id no file yet carries) only the output path, can be downloaded under its `fixed_` name, and the file sent is the upload with exactly the requested stages applied; this holds for the code as written and for the corrected variant alike |
| `AsyncApp.UpperCaseNameReachesPipeline` | web-app/app_async.py:346-377 | a name like "report.PDF" is accepted and gives an input path whose every expected stage output is the path itself |
| `AsyncApp.JobServer.UploadFile` | web-app/app_async.py:309-414 | the rate-limit verdict and table are those of `Admit`; a refused address gets 429; otherwise the reply is `Accept`'s, and only an accepted upload saves its file and stores its record |
| `AsyncApp.JobServer.SetJob` | web-app/app_async.py:143-269 | one update of the job's record; the files, the limiter and the other jobs are unchanged |
| `AsyncApp.JobServer.HandOff` | web-app/app_async.py:154-157 | the files, current file and exit are those of `Pipeline.Handoff`; the table and the limiter are unchanged |
| `AsyncApp.JobServer.OptionalStage` | web-app/app_async.py:211-262 | one enabled optional stage leaves the files, record, current file and exit of `Pipeline.ToolStage`; no other job changes |
| `AsyncApp.JobServer.WriteRepaired` | web-app/app_async.py:179-180 | the files are those of `Pipeline.FontFixWrites`: the repaired content at the `-FIXED` name and/or the output path |
| `AsyncApp.JobServer.PickOutput` | web-app/app_async.py:196-209 | the state after the choice of the repaired file is that of `Pipeline.PickRepaired` |
| `AsyncApp.JobServer.MoveToOutput` | web-app/app_async.py:264-269 | the final move and the status "completed" leave the state of `Pipeline.Finish` |
| `AsyncApp.JobServer.UnlockAndRepair` | web-app/app_async.py:138-209 | the state after unlock and font repair is `Pipeline.AfterFontFix` |
| `AsyncApp.JobServer.MaybeStage` | web-app/app_async.py:211-262 | an optional stage, enabled or not, leaves the state of `Pipeline.ToolStage` |
| `AsyncApp.JobServer.CompressAndMove` | web-app/app_async.py:247-269 | compression and the final move leave the state of those two steps of `Pipeline.Tail` |
| `AsyncApp.JobServer.NumberCompressAndMove` | web-app/app_async.py:229-269 | page numbers, compression and the final move leave the state of those three steps of `Pipeline.Tail` |
| `AsyncApp.JobServer.FinishStages` | web-app/app_async.py:211-269 | the rest of the try-block leaves the state of `Pipeline.Tail` |
| `AsyncApp.JobServer.FixFonts` | web-app/app_async.py:158-209 | the font-repair step leaves the state of `Pipeline.FontFixStage`: the script's files are written before the exit code is tested |
| `AsyncApp.JobServer.ProcessPdfAsync` | web-app/app_async.py:131-301 | the background job leaves exactly the files and the job record of `Run`, as written (`guarded` false) or corrected (`guarded` true); no other job changes |
| `AsyncApp.JobServer.RunStages` | web-app/app_async.py:140-269 | the files and the job record after the try-block are those of the stage pipeline with the same `guarded` flag |
| `AsyncApp.JobServer.ConcludeJob` | web-app/app_async.py:271-301 | the except- and finally-blocks leave the files and the record of `Conclude` |
| `SimpleApp.InputName` | web-app/app.py:35 | `<id>_<name>`, where the upload is saved (stated by `SimpleApp.InputAndOutputDiffer` and `SimpleApp.UploadLeftBehind`) |
| `SimpleApp.OutputName` | web-app/app.py:40-41 | `<id>_fixed_<name>`, where the script leaves its result (stated by `SimpleApp.InputAndOutputDiffer` and `SimpleApp.UploadThenDownload`) |
| `SimpleApp.InputAndOutputDiffer` | web-app/app.py:35-41 | an upload's input and output names never coincide |
| `SimpleApp.Upload` | web-app/app.py:22-82 | the reply and the folder after one upload (stated by `SimpleApp.UploadVerdict`) |
| `SimpleApp.UploadVerdict` | web-app/app.py:22-82 | success exactly when a non-empty ".pdf" name came and the script exited 0 leaving its output; a rejected request leaves the folder alone; a failed run removes the upload; no other name is touched |
| `SimpleApp.FailedRunKeepsOutput` | web-app/app.py:59-62 | a script that wrote its output but exited non-zero gives 500 "PDF processing failed: <stderr>" and leaves the partial output behind |
| `SimpleApp.Download` | web-app/app.py:84-93 | a file is sent exactly when `<id>_<name>` exists and is a regular file, and it is sent under `<name>`; a missing one gives 404 "File not found" |
| `SimpleApp.UploadThenDownload` | web-app/app.py:70-74 | the download link of a successful upload serves the repaired file under `fixed_<name>` |
| `SimpleApp.UploadLeftBehind` | web-app/app.py:36-74 | after a successful upload the original is still there and downloadable |
| `SimpleApp.AfterCleanup` | web-app/app.py:95-110 | with a missing or empty `download_id`, cleanup removes nothing |
| `SimpleApp.UploadFile` | web-app/app.py:22-82 | the reply and the new folder listing are those of `Upload` |
| `SimpleApp.Cleanup` | web-app/app.py:95-110 | the reply is always success; the folder afterwards is the prefix-filtered listing when an id was given, unchanged otherwise |
| `SimpleApp.CleanupRemovesUpload` | web-app/app.py:101-108 | cleaning up with a successful upload's id removes both its files unless one cannot be removed |
| `SimpleApp.CleanupSparesOtherUploads` | web-app/app.py:101-108 | ids of equal length, as `uuid4` strings are, never reach each other's files |

## Left out

- E-mail notification (`send_email`, `smtplib`) is not modelled. It is I/O, and its failures are caught and only printed.
- Threading and the lock-free sharing of `processing_jobs` between request handlers and background threads are not modelled. A job runs as one uninterrupted call.
- The Flask plumbing is not modelled: routing, JSON encoding, `render_template`, security headers, `MAX_CONTENT_LENGTH` and `request.host`.
- Shell scripts are oracles. Their command lines are not modelled, apart from the `--pages` argument (`Validation.PagesArgs`) and the DPI. What the user types into the interactive prompts is not modelled.
- `secure_filename`, `uuid4`, `uuid.UUID` parsing and `os.path.abspath` are inputs. Paths are built as already absolute. `uuid4` freshness is a precondition where it matters: `SimpleApp.UploadThenDownload` requires `OutputName(uniqueId, sanitized) !in m` for exactly that reason, and `AsyncApp.UploadedPdfIsDownloadable`, when font repair wrote only the output path, requires that no file in the folder starts with `<job_id>_`.
- Clocks are integer parameters, and floating-point seconds are not modelled.
- `Lower` is modelled on ASCII letters only. Python's `lower()` also maps non-ASCII letters, and a few of them to more than one character; that is not modelled.
- `file.save` failures, a full disk and permission errors are not modelled. The `created_at` and `completed_at` timestamps are not stored.
- A `/cleanup` body that is not JSON, or a non-string `download_id`, is not modelled. Both raise an uncaught error in the source.
- The upload folder of `app.py` is always present: it is created at start-up and nothing removes it. `SimpleApp.UploadFile` and `SimpleApp.Cleanup` therefore require `f.present`.
- Sending a directory in `app.py`'s download reports "[Errno 21] Is a directory" with the folder-relative name, not the absolute path.
- The asynchronous app's files are modelled twice, once in each of two views. The pipeline sees a map from path to provenance (`Pipeline.Disk`). `cleanup_old_files` sees a listing with modification times (`UploadFolder.Folder`). Nothing in the model connects the two views.
- `AsyncApp.JobServer.ProcessPdfAsync` takes the `guarded` flag of `Pipeline.Run`: false is the code as written, true the correction described under Findings below. The two coincide for every upload of a single-extension name (`Pipeline.GuardMattersOnlyForOddNames`).
- `Pipeline.GuardedRunNeverRaises` states only that the corrected run never raises. It does not state the final error message of a failed run.

## Findings

| source | as written | input that shows it | evidently intended | confidence | as-written member | corrected member |
|---|---|---|---|---|---|---|
| web-app/app_async.py:196-266 | Each stage looks for its output at `current_file.replace('.pdf', …)`, which is case-sensitive. The extension check admits ".PDF", and the name is then kept unchanged. For such a name every "expected" output is the current file itself. Font repair therefore "finds" the unrepaired upload. An enabled OCR stage then deletes it as superseded, so the final move raises "No such file". With no optional stage, the job completes with the unrepaired upload at the output path, and it overwrites the repaired file the script had written there. | an upload named "report.PDF", every tool succeeding | an expected output counts only when it is a file other than the current file, so the repaired output path is used and nothing is deleted | not executed | `Pipeline.UpperCaseExtensionFails`, `Pipeline.UpperCaseExtensionReturnsUnrepairedInput` | `Pipeline.GuardedRunUsesRepairedOutput`, `Pipeline.GuardedRunNeverRaises` |
