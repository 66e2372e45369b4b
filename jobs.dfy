/** The in-memory job table of the asynchronous app (`processing_jobs`) and the replies of the
    `/status/<job_id>` and `/download/<job_id>` routes. */
module Jobs {
  import opened PyStr

  datatype Status = Queued | Processing | Completed | Failed

  /** The status strings stored in the job record. */
  function StatusName(s: Status): string
  {
    match s
    case Queued => "queued"
    case Processing => "processing"
    case Completed => "completed"
    case Failed => "failed"
  }

  /** One entry of `processing_jobs`. `progress` reads as "" until a stage sets it and `error`
      is absent until the job fails. */
  datatype JobRecord = JobRecord(
    filename: string,
    email: string,
    status: Status,
    progress: string,
    error: Option<string>,
    outputPath: string)

  /** The record `upload_file` creates for an accepted upload. */
  function NewJob(filename: string, email: string, outputPath: string): (j: JobRecord)
    ensures j.status == Queued && j.error == None && j.progress == ""
    ensures j.filename == filename && j.email == email && j.outputPath == outputPath
  {
    JobRecord(filename, email, Queued, "", None, outputPath)
  }

  /** An HTTP reply: a JSON body or file, or an error code with its message. */
  datatype Reply<T> = Ok(value: T) | Error(code: int, message: string)

  /** The JSON body of a successful status poll. */
  datatype StatusView = StatusView(status: string, filename: string, progress: string, error: Option<string>)

  /** `job_status`: `isUuid` is whether `uuid.UUID(job_id)` accepts the identifier. */
  function JobStatus(jobs: map<string, JobRecord>, jobId: string, isUuid: bool): (r: Reply<StatusView>)
    ensures !isUuid ==> r == Error(400, "Invalid job ID")
    ensures isUuid && jobId !in jobs ==> r == Error(404, "Job not found")
    ensures r.Ok? <==> isUuid && jobId in jobs
    ensures r.Ok? ==>
      r.value.status == StatusName(jobs[jobId].status) &&
      r.value.filename == jobs[jobId].filename && r.value.progress == jobs[jobId].progress
    ensures r.Ok? ==> (r.value.error.Some? <==> jobs[jobId].status == Failed && jobs[jobId].error.Some?)
    ensures r.Ok? && r.value.error.Some? ==> r.value.error == jobs[jobId].error
  {
    if !isUuid then Error(400, "Invalid job ID")
    else if jobId !in jobs then Error(404, "Job not found")
    else
      var job := jobs[jobId];
      var err := if job.status == Failed && job.error.Some? then job.error else None;
      Ok(StatusView(StatusName(job.status), job.filename, job.progress, err))
  }

  /** What `send_file` is asked to send. */
  datatype FileReply = FileReply(path: string, downloadName: string)

  /** `download_file`: `inFolder` is whether the absolute output path still lies in the upload
      folder, `files` the paths that exist. */
  function DownloadFile(jobs: map<string, JobRecord>, jobId: string, isUuid: bool, inFolder: bool, files: set<string>): (r: Reply<FileReply>)
    ensures r.Ok? <==> isUuid && jobId in jobs && jobs[jobId].status == Completed && inFolder && jobs[jobId].outputPath in files
    ensures r.Ok? ==> r.value == FileReply(jobs[jobId].outputPath, jobs[jobId].filename)
    ensures !isUuid ==> r == Error(400, "Invalid job ID")
    ensures isUuid && jobId !in jobs ==> r == Error(404, "Job not found")
    ensures isUuid && jobId in jobs && jobs[jobId].status != Completed ==>
      r == Error(400, "Job status: " + StatusName(jobs[jobId].status))
    ensures isUuid && jobId in jobs && jobs[jobId].status == Completed && !inFolder ==> r == Error(403, "Invalid file path")
    ensures isUuid && jobId in jobs && jobs[jobId].status == Completed && inFolder && jobs[jobId].outputPath !in files ==>
      r == Error(404, "File not found")
  {
    if !isUuid then Error(400, "Invalid job ID")
    else if jobId !in jobs then Error(404, "Job not found")
    else
      var job := jobs[jobId];
      if job.status != Completed then Error(400, "Job status: " + StatusName(job.status))
      else if !inFolder then Error(403, "Invalid file path")
      else if job.outputPath !in files then Error(404, "File not found")
      else Ok(FileReply(job.outputPath, job.filename))
  }
}
