/**
 * The two records the view model joins: the catalog/display `Document`
 * and the `Download` snapshot read from the platform download manager,
 * together with the download manager's status codes.
 */
module Documents {
  import opened Wrappers

  /** A `android.net.Uri`; only its equality matters to the core. */
  type Uri = string

  /** `DownloadManager.STATUS_*` codes, as the Android platform defines them. */
  const STATUS_PENDING: int := 1
  const STATUS_RUNNING: int := 2
  const STATUS_PAUSED: int := 4
  const STATUS_SUCCESSFUL: int := 8
  const STATUS_FAILED: int := 16

  /** The "not started" sentinel: the default `internalStatus` of a document. */
  const NOT_STARTED: int := -1

  /**
   * A document of the catalog, and also the display document produced for it.
   * `internalStatus` and `localUri` default as in the Kotlin data class.
   */
  datatype Document = Document(
    uri: Uri,
    title: string,
    status: string,
    internalStatus: int := NOT_STARTED,
    localUri: Option<Uri> := None)

  /** One row of the download manager's table; nullable columns are options. */
  datatype Download = Download(
    id: int,
    uri: Uri,
    localUri: Option<Uri>,
    status: Option<int>,
    reason: Option<int>,
    bytesSoFar: Option<int>,
    totalBytes: int)
}
