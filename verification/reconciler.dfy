/**
 * The pure half of `DocumentViewModel`: joining the catalog against the
 * download manager's records (`mapDocuments`) and deriving each document's
 * status label (`getStatusFromDownload`).
 */
module Reconciler {
  import opened Wrappers
  import opened Documents
  import opened Rendering

  /** The status labels the view model shows, before rendering to text. */
  datatype Label =
    | TapToOpen
    | Error(reason: Option<int>)
    | Downloaded(soFar: Option<int>, total: int)
    | Pending
    | Waiting(reason: Option<int>)
    | Unknown
    | TapToDownload
  {
    /**
     * The label as the user sees it, numbers rendered as Kotlin templates do.
     * The two "Tap to" texts belong to their own labels only.
     */
    function Text(): (s: string)
      ensures s == "Tap to open" <==> TapToOpen?
      ensures s == "Tap to download" <==> TapToDownload?
    {
      match this
      case TapToOpen => "Tap to open"
      case Error(reason) =>
        var s := "Error: " + NullableText(reason);
        assert s[0] == 'E';
        s
      case Downloaded(soFar, total) =>
        var s := "Downloaded: " + NullableText(soFar) + " / " + IntText(total);
        assert s[0] == 'D';
        s
      case Pending => "Pending"
      case Waiting(reason) =>
        var s := "Waiting for something: " + NullableText(reason);
        assert s[0] == 'W';
        s
      case Unknown => "No idea what's going on"
      case TapToDownload => "Tap to download"
    }
  }

  /** Where a joined text's separator begins. */
  lemma SeparatorAt(a: string, sep: string, b: string)
    ensures |sep| > 0 ==> (a + sep + b)[|a|] == sep[0]
  {
  }

  /** Two texts joined by the same separator split back apart when neither left part has a space. */
  lemma SplitAtSeparator(a: string, b: string, c: string, d: string, sep: string)
    requires |sep| > 0 && sep[0] == ' ' && ' ' !in a && ' ' !in c
    requires a + sep + b == c + sep + d
    ensures a == c && b == d
  {
    var s := a + sep + b;
    if |a| < |c| {
      SeparatorAt(a, sep, b);
      assert false;
    } else if |c| < |a| {
      SeparatorAt(c, sep, d);
      assert false;
    }
    assert a == s[..|a|] == c;
    assert b == s[|a| + |sep|..] == d;
  }

  /** The first character of a label's text tells the labels apart, but for the two "Tap to" labels. */
  lemma TextLead(l: Label)
    ensures l.Text()[0] == match l
      case TapToOpen | TapToDownload => 'T'
      case Error(_) => 'E'
      case Downloaded(_, _) => 'D'
      case Pending => 'P'
      case Waiting(_) => 'W'
      case Unknown => 'N'
  {
  }

  /**
   * Every label renders to its own text: the text the user sees determines
   * the label, reason and byte counts included.
   */
  lemma TextInjective(l: Label, m: Label)
    ensures l.Text() == m.Text() ==> l == m
  {
    if l.Text() == m.Text() {
      TextLead(l);
      TextLead(m);
      if l.Error? && m.Error? {
        var p := "Error: ";
        assert NullableText(l.reason) == (p + NullableText(l.reason))[|p|..];
        assert NullableText(m.reason) == (p + NullableText(m.reason))[|p|..];
        NullableTextInjective(l.reason, m.reason);
      } else if l.Waiting? && m.Waiting? {
        var p := "Waiting for something: ";
        assert NullableText(l.reason) == (p + NullableText(l.reason))[|p|..];
        assert NullableText(m.reason) == (p + NullableText(m.reason))[|p|..];
        NullableTextInjective(l.reason, m.reason);
      } else if l.Downloaded? && m.Downloaded? {
        DownloadedTextInjective(l, m);
      }
    }
  }

  lemma DownloadedTextInjective(l: Label, m: Label)
    requires l.Downloaded? && m.Downloaded? && l.Text() == m.Text()
    ensures l == m
  {
    var p := "Downloaded: ";
    var a, b := NullableText(l.soFar), IntText(l.total);
    var c, d := NullableText(m.soFar), IntText(m.total);
    assert a + " / " + b == (p + a + " / " + b)[|p|..];
    assert c + " / " + d == (p + c + " / " + d)[|p|..];
    NullableTextInjective(l.soFar, m.soFar);
    NullableTextInjective(m.soFar, l.soFar);
    SplitAtSeparator(a, b, c, d, " / ");
    NullableTextInjective(Some(l.total), Some(m.total));
  }

  /** The five status codes the label table recognises. */
  predicate IsKnownStatus(code: int) {
    code == STATUS_SUCCESSFUL || code == STATUS_FAILED || code == STATUS_RUNNING
    || code == STATUS_PENDING || code == STATUS_PAUSED
  }

  /**
   * The label table of `getStatusFromDownload`: each recognised status code
   * selects its own label, carrying the record's reason or byte counts, and
   * a null or unrecognised code falls through to `Unknown`. A download's
   * label is never `TapToDownload`.
   */
  function StatusLabel(download: Download): (l: Label)
    ensures l.TapToOpen? <==> download.status == Some(STATUS_SUCCESSFUL)
    ensures l.Error? <==> download.status == Some(STATUS_FAILED)
    ensures l.Downloaded? <==> download.status == Some(STATUS_RUNNING)
    ensures l.Pending? <==> download.status == Some(STATUS_PENDING)
    ensures l.Waiting? <==> download.status == Some(STATUS_PAUSED)
    ensures l.Unknown? <==> download.status.None? || !IsKnownStatus(download.status.value)
    ensures !l.TapToDownload?
    ensures l.Error? || l.Waiting? ==> l.reason == download.reason
    ensures l.Downloaded? ==> l.soFar == download.bytesSoFar && l.total == download.totalBytes
  {
    if download.status == Some(STATUS_SUCCESSFUL) then TapToOpen
    else if download.status == Some(STATUS_FAILED) then Error(download.reason)
    else if download.status == Some(STATUS_RUNNING) then Downloaded(download.bytesSoFar, download.totalBytes)
    else if download.status == Some(STATUS_PENDING) then Pending
    else if download.status == Some(STATUS_PAUSED) then Waiting(download.reason)
    else Unknown
  }

  /**
   * `getStatusFromDownload`: the rendered label. "Tap to open" is shown
   * exactly for a successful download, whatever its local URI, and a
   * download never shows the label of a document with no download.
   */
  function GetStatusFromDownload(download: Download): (s: string)
    ensures s == "Tap to open" <==> download.status == Some(STATUS_SUCCESSFUL)
    ensures s != "Tap to download"
    ensures download.status == Some(STATUS_FAILED) ==> s == "Error: " + NullableText(download.reason)
    ensures download.status == Some(STATUS_RUNNING) ==>
              s == "Downloaded: " + NullableText(download.bytesSoFar) + " / " + IntText(download.totalBytes)
    ensures download.status == Some(STATUS_PENDING) ==> s == "Pending"
    ensures download.status == Some(STATUS_PAUSED) ==> s == "Waiting for something: " + NullableText(download.reason)
    ensures download.status.None? || !IsKnownStatus(download.status.value) ==> s == "No idea what's going on"
  {
    StatusLabel(download).Text()
  }

  /**
   * `downloads.firstOrNull { it.uri == uri }`: null exactly when no record
   * has the URI; otherwise the record at the lowest index that has it.
   */
  function FirstMatch(downloads: seq<Download>, uri: Uri): (r: Option<Download>)
    ensures r.None? <==> forall k | 0 <= k < |downloads| :: downloads[k].uri != uri
    ensures forall k | 0 <= k < |downloads| && downloads[k].uri == uri
              && (forall j | 0 <= j < k :: downloads[j].uri != uri) :: r == Some(downloads[k])
  {
    if downloads == [] then None
    else if downloads[0].uri == uri then Some(downloads[0])
    else
      var r := FirstMatch(downloads[1..], uri);
      assert forall k | 1 <= k < |downloads| :: downloads[k] == downloads[1..][k - 1];
      r
  }

  /**
   * The per-document step of `mapDocuments`. The URI and title are kept;
   * with no record for the URI the document shows "Tap to download" and the
   * data-class defaults; otherwise the first record for the URI supplies the
   * label, the status code (or the sentinel when it is null) and the local URI.
   */
  function Reconcile(document: Document, downloads: seq<Download>): (r: Document)
    ensures r.uri == document.uri && r.title == document.title
    ensures (forall k | 0 <= k < |downloads| :: downloads[k].uri != document.uri) ==>
              r.status == "Tap to download" && r.internalStatus == NOT_STARTED && r.localUri == None
    ensures forall k | 0 <= k < |downloads| && downloads[k].uri == document.uri
              && (forall j | 0 <= j < k :: downloads[j].uri != document.uri) ::
              r.status == GetStatusFromDownload(downloads[k])
              && r.internalStatus == downloads[k].status.GetOr(NOT_STARTED)
              && r.localUri == downloads[k].localUri
  {
    match FirstMatch(downloads, document.uri)
    case Some(download) =>
      Document(
        uri := document.uri,
        title := document.title,
        status := GetStatusFromDownload(download),
        internalStatus := download.status.GetOr(NOT_STARTED),
        localUri := download.localUri)
    case None =>
      Document(uri := document.uri, title := document.title, status := TapToDownload.Text())
  }

  /**
   * `mapDocuments`: one display document per catalog document, in catalog
   * order, each reconciled against the same download records.
   */
  function MapDocuments(documents: seq<Document>, downloads: seq<Download>): (r: seq<Document>)
    ensures |r| == |documents|
    ensures forall i | 0 <= i < |documents| :: r[i] == Reconcile(documents[i], downloads)
  {
    if documents == [] then []
    else [Reconcile(documents[0], downloads)] + MapDocuments(documents[1..], downloads)
  }

  /**
   * Records after the first match are never consulted: appending records
   * changes the match only for a URI that had none.
   */
  lemma {:induction false} FirstMatchAppend(downloads: seq<Download>, more: seq<Download>, uri: Uri)
    ensures FirstMatch(downloads + more, uri)
            == if FirstMatch(downloads, uri).Some? then FirstMatch(downloads, uri) else FirstMatch(more, uri)
  {
    if downloads == [] {
      assert downloads + more == more;
    } else {
      assert (downloads + more)[0] == downloads[0];
      assert (downloads + more)[1..] == downloads[1..] + more;
      FirstMatchAppend(downloads[1..], more, uri);
    }
  }

  /** A document's reconciliation reads only its URI and title. */
  lemma ReconcileReadsOnlyKey(d: Document, e: Document, downloads: seq<Download>)
    requires d.uri == e.uri && d.title == e.title
    ensures Reconcile(d, downloads) == Reconcile(e, downloads)
  {
  }

  /** Reconciling a concatenated catalog is reconciling each part in order. */
  lemma MapDocumentsAppend(a: seq<Document>, b: seq<Document>, downloads: seq<Download>)
    ensures MapDocuments(a + b, downloads) == MapDocuments(a, downloads) + MapDocuments(b, downloads)
  {
  }

  /**
   * Reconciliation is idempotent: feeding the display documents back in
   * with the same records reproduces them.
   */
  lemma MapDocumentsIdempotent(documents: seq<Document>, downloads: seq<Download>)
    ensures MapDocuments(MapDocuments(documents, downloads), downloads) == MapDocuments(documents, downloads)
  {
  }

  /**
   * Appending records is invisible to every catalog document that already
   * had a record, or that the new records do not mention.
   */
  lemma {:induction false} MapDocumentsIgnoresLaterRecords(
    documents: seq<Document>, downloads: seq<Download>, more: seq<Download>)
    requires forall i | 0 <= i < |documents| ::
               FirstMatch(downloads, documents[i].uri).Some? || FirstMatch(more, documents[i].uri).None?
    ensures MapDocuments(documents, downloads + more) == MapDocuments(documents, downloads)
  {
    forall i | 0 <= i < |documents|
      ensures Reconcile(documents[i], downloads + more) == Reconcile(documents[i], downloads)
    {
      FirstMatchAppend(downloads, more, documents[i].uri);
    }
  }

  /**
   * A display document says "Tap to download" exactly when no record has
   * its URI.
   */
  lemma TapToDownloadIffUnmatched(documents: seq<Document>, downloads: seq<Download>, i: nat)
    requires i < |documents|
    ensures |MapDocuments(documents, downloads)| == |documents|
    ensures MapDocuments(documents, downloads)[i].status == "Tap to download"
            <==> forall k | 0 <= k < |downloads| :: downloads[k].uri != documents[i].uri
  {
  }

  /** Labels of concrete records, as the user reads them. */
  lemma RunningLabelExample()
    ensures GetStatusFromDownload(Download(1, "u", None, Some(STATUS_RUNNING), None, Some(500), 1000))
            == "Downloaded: 500 / 1000"
    ensures GetStatusFromDownload(Download(2, "u", None, Some(STATUS_RUNNING), None, None, -1))
            == "Downloaded: null / -1"
  {
  }

  lemma FailedLabelExample()
    ensures GetStatusFromDownload(Download(3, "u", None, Some(STATUS_FAILED), Some(1001), None, 0))
            == "Error: 1001"
    ensures GetStatusFromDownload(Download(4, "u", None, Some(STATUS_PAUSED), None, None, 0))
            == "Waiting for something: null"
  {
  }

  lemma OtherLabelExamples()
    ensures GetStatusFromDownload(Download(5, "u", None, Some(STATUS_SUCCESSFUL), None, None, 0))
            == GetStatusFromDownload(Download(5, "u", Some("file:///p.pdf"), Some(STATUS_SUCCESSFUL), None, None, 0))
            == "Tap to open"
    ensures GetStatusFromDownload(Download(6, "u", None, Some(3), None, None, 0))
            == GetStatusFromDownload(Download(6, "u", None, None, None, None, 0))
            == "No idea what's going on"
  {
  }
}
