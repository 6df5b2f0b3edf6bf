/** Option and Result wrappers, and the fatal conditions of the downloader. */
module Outcomes {

  datatype Option<+T> = None | Some(value: T)

  datatype Result<+T> = Ok(value: T) | Err(error: Error)

  /** Every way the run stops early. Each carries the diagnostic data that the
      downloader prints in its exit message. */
  datatype Error =
    | MissingCredential                          // session cookie absent
    | ApiHttpError(status: int, snippet: string) // API answered outside [200, 300)
    | ApiNotJson(snippet: string)                // API body is not JSON
    | ScanIdNotFound(seenUrls: seq<string>)      // discovery deadline passed
    | MissingViewerContext(url: string)          // no book id in the viewer URL
    | ChaptersMissingData                        // chapter list has no list `data`
    | ChaptersNotObject                          // chapter list body is not an object
    | UrlUnreadable                              // reading a page's URL raised
    | DownloadFailed(key: string)                // image fetch or decode failed
}
