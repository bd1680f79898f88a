/**
 * The stateful half of `DocumentViewModel`: what tapping a display document
 * does, the single-slot "document to open" output and its acknowledgement.
 * The call into the platform download manager is recorded as a request in
 * a ghost log instead of being performed.
 */
module TapPolicy {
  import opened Wrappers
  import opened Documents
  import opened Reconciler

  /** What a tap on a document leads to. */
  datatype TapAction = RequestDownload | OpenFile | NoAction

  /**
   * The `when` of `onDocumentTap`: a document not yet downloaded, or whose
   * download failed, is (re)downloaded; a successful one is opened; one
   * that is pending, running or paused, or has any other code, is left alone.
   */
  function TapActionFor(internalStatus: int): (a: TapAction)
    ensures a == RequestDownload <==> internalStatus == NOT_STARTED || internalStatus == STATUS_FAILED
    ensures a == OpenFile <==> internalStatus == STATUS_SUCCESSFUL
  {
    if internalStatus == NOT_STARTED || internalStatus == STATUS_FAILED then RequestDownload
    else if internalStatus == STATUS_SUCCESSFUL then OpenFile
    else NoAction
  }

  /**
   * A request handed to `downloadManager.enqueue`: the remote URI and the
   * destination path under the public downloads directory.
   */
  datatype DownloadRequest = DownloadRequest(uri: Uri, destination: string)

  class DocumentViewModel {
    /** `_openDocument`: the URI the UI should open next, or null. */
    var openDocument: Option<Uri>
    /** Every request enqueued with the download manager, oldest first. */
    ghost var enqueued: seq<DownloadRequest>

    constructor ()
      ensures openDocument == None && enqueued == []
    {
      openDocument := None;
      enqueued := [];
    }

    /** `onDocumentTap`: act on the document according to its status code. */
    method OnDocumentTap(document: Document)
      modifies this
      ensures TapActionFor(document.internalStatus) == RequestDownload ==>
                enqueued == old(enqueued) + [DownloadRequest(document.uri, "papers/" + document.title)]
                && openDocument == old(openDocument)
      ensures TapActionFor(document.internalStatus) == OpenFile ==>
                openDocument == document.localUri && enqueued == old(enqueued)
      ensures TapActionFor(document.internalStatus) == NoAction ==>
                openDocument == old(openDocument) && enqueued == old(enqueued)
    {
      if document.internalStatus == NOT_STARTED {
        DownloadDocument(document);
      } else if document.internalStatus == STATUS_PAUSED {
      } else if document.internalStatus == STATUS_PENDING {
      } else if document.internalStatus == STATUS_FAILED {
        DownloadDocument(document);
      } else if document.internalStatus == STATUS_RUNNING {
      } else if document.internalStatus == STATUS_SUCCESSFUL {
        OpenDocument(document);
      }
    }

    /** `onDocumentOpened`: the UI acknowledges the open request; the slot empties. */
    method OnDocumentOpened()
      modifies this`openDocument
      ensures openDocument == None && enqueued == old(enqueued)
    {
      openDocument := None;
    }

    /** `downloadDocument`: enqueue one download into "papers/<title>". */
    method DownloadDocument(document: Document)
      modifies this`enqueued
      ensures enqueued == old(enqueued) + [DownloadRequest(document.uri, "papers/" + document.title)]
      ensures openDocument == old(openDocument)
    {
      enqueued := enqueued + [DownloadRequest(document.uri, "papers/" + document.title)];
    }

    /** `openDocument`: publish the document's local URI, null included. */
    method OpenDocument(document: Document)
      modifies this`openDocument
      ensures openDocument == document.localUri && enqueued == old(enqueued)
    {
      openDocument := document.localUri;
    }
  }

  /**
   * Tapping a reconciled document: with no record for its URI the tap
   * requests a download; the tap opens the file exactly when the document
   * shows "Tap to open", and then opens the local URI of the first record.
   */
  lemma TapOnReconciled(document: Document, downloads: seq<Download>)
    ensures (forall k | 0 <= k < |downloads| :: downloads[k].uri != document.uri) ==>
              TapActionFor(Reconcile(document, downloads).internalStatus) == RequestDownload
    ensures TapActionFor(Reconcile(document, downloads).internalStatus) == OpenFile
            <==> Reconcile(document, downloads).status == "Tap to open"
    ensures TapActionFor(Reconcile(document, downloads).internalStatus) == OpenFile ==>
              FirstMatch(downloads, document.uri).Some?
              && Reconcile(document, downloads).localUri == FirstMatch(downloads, document.uri).value.localUri
  {
  }

  /**
   * A record whose status column is null, or holds the sentinel, makes the
   * document behave as not started: a tap downloads it again.
   */
  lemma NullStatusDownloadsAgain(document: Document, downloads: seq<Download>, k: nat)
    requires k < |downloads| && downloads[k].uri == document.uri
    requires forall j | 0 <= j < k :: downloads[j].uri != document.uri
    requires downloads[k].status.None? || downloads[k].status == Some(NOT_STARTED)
    ensures Reconcile(document, downloads).status == "No idea what's going on"
    ensures TapActionFor(Reconcile(document, downloads).internalStatus) == RequestDownload
  {
  }
}
