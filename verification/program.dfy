/**
  `main` from start to end (main.go:25-113): create the file, crawl, upload the file to Cloud
  Storage, load it into BigQuery. The cloud services and the file system are outside the model:
  what they answered is an input.
 */
module Program {
  import opened Wrappers
  import opened Rows
  import opened Pagination
  import opened CsvFile
  import opened CsvOutput
  import Utf8

  /** The local file, which is also the name of the uploaded object (main.go:27, 98). */
  const OutputFile: string := "ibm_jobs.csv"

  /** The bucket the file is uploaded to (main.go:97). */
  const BucketName: string := "ibm_jobs_bucket"

  /** How BigQuery is told to read the object (main.go:177-183): its `gs://` address, comma as
      the delimiter, one leading row skipped, rows appended to the table. */
  datatype LoadConfig = LoadConfig(sourceUri: string, delimiter: string, skipLeadingRows: nat, append: bool)

  const Load: LoadConfig := LoadConfig("gs://" + BucketName + "/" + OutputFile, ",", 1, true)

  /** The rows BigQuery takes from the file: all but the skipped leading ones. */
  function LoadedRows(records: seq<Row>): seq<Row> {
    if Load.skipLeadingRows <= |records| then records[Load.skipLeadingRows..] else []
  }

  /** The skipped leading row is exactly the header: the table gets the job rows and nothing else. */
  lemma {:induction false} LoadSkipsHeader(written: seq<Row>)
    ensures LoadedRows([Header] + written) == written
  {
  }

  /** What Cloud Storage answered to each step of `uploadFileToGCS` (main.go:149-174). */
  datatype UploadAnswers = UploadAnswers(clientCreated: bool, fileOpened: bool, copied: bool, closed: bool)

  /** The four ways the upload fails, in the order they are checked. */
  datatype UploadError = StorageClientFailed | OpenFailed | CopyFailed | WriterCloseFailed

  /** `uploadFileToGCS`: the first failing step names the error; none fails, no error. */
  function UploadFile(a: UploadAnswers): (r: Option<UploadError>)
    ensures r == None <==> a.clientCreated && a.fileOpened && a.copied && a.closed
    ensures r == Some(StorageClientFailed) <==> !a.clientCreated
    ensures r == Some(OpenFailed) <==> a.clientCreated && !a.fileOpened
    ensures r == Some(CopyFailed) <==> a.clientCreated && a.fileOpened && !a.copied
    ensures r == Some(WriterCloseFailed) <==> a.clientCreated && a.fileOpened && a.copied && !a.closed
  {
    if !a.clientCreated then Some(StorageClientFailed)
    else if !a.fileOpened then Some(OpenFailed)
    else if !a.copied then Some(CopyFailed)
    else if !a.closed then Some(WriterCloseFailed)
    else None
  }

  /** What BigQuery answered to each step of `loadCSVFromGCS` (main.go:176-200): starting the load
      job, waiting for it, and the status it ended with. */
  datatype LoadAnswers = LoadAnswers(started: bool, waited: bool, statusOk: bool)

  /** The three ways the load fails; each failure point has its own error. */
  datatype LoadError = StartFailed | WaitFailed | CompletedWithError

  /** `loadCSVFromGCS`: the first failing step names the error; none fails, no error. */
  function LoadCsv(a: LoadAnswers): (r: Option<LoadError>)
    ensures r == None <==> a.started && a.waited && a.statusOk
    ensures r == Some(StartFailed) <==> !a.started
    ensures r == Some(WaitFailed) <==> a.started && !a.waited
    ensures r == Some(CompletedWithError) <==> a.started && a.waited && !a.statusOk
  {
    if !a.started then Some(StartFailed)
    else if !a.waited then Some(WaitFailed)
    else if !a.statusOk then Some(CompletedWithError)
    else None
  }

  /** Everything outside the program: the file system and the cloud services. */
  datatype Environment = Environment(
    fileCreated: bool,         // main.go:28
    upload: UploadAnswers,     // main.go:98
    bigQueryClient: bool,      // main.go:106
    load: LoadAnswers,         // main.go:111
    fileClosed: bool)          // main.go:33, when `main` returns

  /** Why `main` ended through `log.Fatalf`. */
  datatype Reason =
    | CreateFailed
    | CrawlFailed(cause: Fatal)
    | UploadFailed(uploadError: UploadError)
    | BigQueryClientFailed
    | LoadFailed(loadError: LoadError)
    | CloseFailed

  /** How `main` ends: with a fatal error, still crawling when the given page results run out, or
      after loading the uploaded object. */
  datatype Exit =
    | Failed(reason: Reason)
    | StillCrawling(state: CrawlState)
    | Imported(uploaded: seq<Utf8.byte>, config: LoadConfig)

  /** `main` with the flush moved before the upload, so the object is the whole CSV. As written,
      main.go:40 defers the flush past the upload (see `CsvFile.FileAtUploadAsWritten`). */
  function Main(pages: seq<PageResult>, fault: Option<nat>, env: Environment): Exit {
    if !env.fileCreated then Failed(CreateFailed)
    else
      match Crawl(pages, fault)
      case Aborted(cause, _) => Failed(CrawlFailed(cause))
      case Unfinished(st) => StillCrawling(st)
      case Completed(st) =>
        var uploaded := FlushedFile(st.written);
        if UploadFile(env.upload).Some? then Failed(UploadFailed(UploadFile(env.upload).value))
        else if !env.bigQueryClient then Failed(BigQueryClientFailed)
        else if LoadCsv(env.load).Some? then Failed(LoadFailed(LoadCsv(env.load).value))
        else if !env.fileClosed then Failed(CloseFailed)
        else Imported(uploaded, Load)
  }

  /** Data reaches BigQuery only after a completed crawl, and then it is the whole CSV: the header
      and every row the crawl wrote, read with the header skipped. */
  lemma {:induction false} MainLoadsCompletedCrawl(pages: seq<PageResult>, fault: Option<nat>, env: Environment)
    requires Main(pages, fault, env).Imported?
    ensures Crawl(pages, fault).Completed?
    ensures Main(pages, fault, env).uploaded == CsvBytes([Header] + Crawl(pages, fault).final.written)
    ensures Main(pages, fault, env).config.skipLeadingRows == 1
  {
  }

  /** A crawl that does not complete never reaches the cloud: the upload and load answers play
      no part in how `main` ends. */
  lemma {:induction false} MainSkipsCloudUnlessCompleted(pages: seq<PageResult>, fault: Option<nat>, env1: Environment, env2: Environment)
    requires env1.fileCreated == env2.fileCreated
    requires !Crawl(pages, fault).Completed?
    ensures Main(pages, fault, env1) == Main(pages, fault, env2)
  {
  }

  /** A completed crawl followed by a successful upload, client creation, load and close ends with
      the object loaded. */
  lemma {:induction false} MainSucceeds(pages: seq<PageResult>, fault: Option<nat>, env: Environment)
    requires env.fileCreated && Crawl(pages, fault).Completed?
    requires UploadFile(env.upload) == None && env.bigQueryClient
    requires LoadCsv(env.load) == None && env.fileClosed
    ensures Main(pages, fault, env) == Imported(CsvBytes([Header] + Crawl(pages, fault).final.written), Load)
  {
  }
}
