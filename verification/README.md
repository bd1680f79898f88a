# Download manager sample: document reconciliation and tap policy

A Dafny model of the logic of `DocumentViewModel` in the Android download
manager sample. The application lists a catalog of documents, lets the
platform `DownloadManager` download them, and opens finished files. Its one
piece of domain logic has two halves:

- **Reconciliation** (`mapDocuments`, `getStatusFromDownload`). Each catalog
  document is joined by URI against the download manager's records. The
  result is one display document per catalog document, with a status label,
  an internal status code and a local URI. This half is modelled as pure
  functions (module `Reconciler`) over the records of module `Documents`.
  The labels are a `Label` datatype rendered to text the way Kotlin string
  templates render numbers and nulls (module `Rendering`).
- **Tap policy** (`onDocumentTap`, `downloadDocument`, `openDocument`,
  `onDocumentOpened`). A tap on a document either requests a download, puts
  the document's local URI into the single-slot "document to open" output, or
  does nothing. The slot is cleared when the UI acknowledges it. This half is
  modelled as the class `TapPolicy.DocumentViewModel`. It has the
  `openDocument` slot and a ghost log of the requests handed to
  `downloadManager.enqueue`.

Status codes are the Android platform values: pending 1, running 2, paused 4,
successful 8, failed 16. The "not started" sentinel is -1.

The model follows the code on these points:

- The failure reason is the record's nullable integer `reason` column. A
  null reason renders as `null` (for example `"Error: null"`).
- Records form a list, and the first record in list order with the
  document's URI wins.
- A record whose status column is null gets the catch-all label and the
  sentinel status -1. A tap on such a document therefore downloads it again.
- The tap `when` has no branch for unlisted codes, so such a tap does nothing.

## Model

| member | source | states |
|---|---|---|
| Rendering.NatText | app/src/main/java/com/softvision/downloadmanagersample/DocumentViewModel.kt:105-108 | a number in a template renders as non-empty decimal digits, with no leading zero, whose decimal value is the number |
| Rendering.IntText | app/src/main/java/com/softvision/downloadmanagersample/DocumentViewModel.kt:106 | an `Int`/`Long` renders with a leading '-' exactly when negative, followed by non-empty decimal digits with no leading zero whose value is the magnitude |
| Rendering.NullableText | app/src/main/java/com/softvision/downloadmanagersample/DocumentViewModel.kt:105-108 | a nullable number renders as "null" exactly when it is null, and otherwise as the number's text |
| Rendering.IntTextInjective | app/src/main/java/com/softvision/downloadmanagersample/DocumentViewModel.kt:106 | distinct integers render to distinct texts |
| Rendering.NullableTextInjective | app/src/main/java/com/softvision/downloadmanagersample/DocumentViewModel.kt:105-108 | distinct nullable numbers render differently, and never contain a space |
| Rendering.NumberTextExamples | app/src/main/java/com/softvision/downloadmanagersample/DocumentViewModel.kt:106 | 500, 1000, 1001 and -1 render as "500", "1000", "1001" and "-1" |
| Reconciler.StatusLabel | app/src/main/java/com/softvision/downloadmanagersample/DocumentViewModel.kt:102-110 | each of the five codes selects its own label: successful opens, failed shows an error, running shows the byte counts, pending, paused waits; a null or other code is "unknown"; the reason and byte counts come from the record |
| Reconciler.Label.Text | app/src/main/java/com/softvision/downloadmanagersample/DocumentViewModel.kt:104-109 | the label's text; "Tap to open" and "Tap to download" are the texts of their own labels and of no other |
| Reconciler.GetStatusFromDownload | app/src/main/java/com/softvision/downloadmanagersample/DocumentViewModel.kt:102-111 | the text is "Tap to open" exactly for a successful record, whatever its local URI, and never "Tap to download"; failed reads "Error: " and the reason, running "Downloaded: " with the byte counts separated by " / ", pending "Pending", paused "Waiting for something: " and the reason, and a null or other code "No idea what's going on" |
| Reconciler.TextInjective | app/src/main/java/com/softvision/downloadmanagersample/DocumentViewModel.kt:103-110 | two labels with the same text are the same label, reason and byte counts included |
| Reconciler.RunningLabelExample | app/src/main/java/com/softvision/downloadmanagersample/DocumentViewModel.kt:106 | a running record with 500 of 1000 bytes reads "Downloaded: 500 / 1000"; with null bytes and total -1 it reads "Downloaded: null / -1" |
| Reconciler.FailedLabelExample | app/src/main/java/com/softvision/downloadmanagersample/DocumentViewModel.kt:105-108 | a failed record with reason 1001 reads "Error: 1001"; a paused one with null reason reads "Waiting for something: null" |
| Reconciler.OtherLabelExamples | app/src/main/java/com/softvision/downloadmanagersample/DocumentViewModel.kt:104-109 | a successful record reads "Tap to open" with or without a local URI; code 3 and a null code read "No idea what's going on" |
| Reconciler.FirstMatch | app/src/main/java/com/softvision/downloadmanagersample/DocumentViewModel.kt:81 | `firstOrNull`: null exactly when no record has the URI, otherwise the record at the lowest index with that URI |
| Reconciler.FirstMatchAppend | app/src/main/java/com/softvision/downloadmanagersample/DocumentViewModel.kt:81 | appended records are consulted only when the earlier ones have no match, so later duplicates are ignored |
| Reconciler.Reconcile | app/src/main/java/com/softvision/downloadmanagersample/DocumentViewModel.kt:80-97 | URI and title kept; with no record for the URI: "Tap to download", status -1, no local URI; otherwise the first matching record gives the label, its status (or -1 when null) and its local URI verbatim |
| Reconciler.MapDocuments | app/src/main/java/com/softvision/downloadmanagersample/DocumentViewModel.kt:79-100 | the result has one entry per catalog document, in catalog order, each the reconciliation of that document |
| Reconciler.ReconcileReadsOnlyKey | app/src/main/java/com/softvision/downloadmanagersample/DocumentViewModel.kt:83-95 | documents with equal URI and title reconcile equally: the input's status, code and local URI are not read |
| Reconciler.MapDocumentsAppend | app/src/main/java/com/softvision/downloadmanagersample/DocumentViewModel.kt:79-99 | reconciling a concatenated catalog is the concatenation of the reconciled parts |
| Reconciler.MapDocumentsIdempotent | app/src/main/java/com/softvision/downloadmanagersample/DocumentViewModel.kt:79-99 | reconciling the display documents again against the same records gives them back unchanged |
| Reconciler.MapDocumentsIgnoresLaterRecords | app/src/main/java/com/softvision/downloadmanagersample/DocumentViewModel.kt:81 | appending records changes nothing for documents that already had a record or that the new records do not mention |
| Reconciler.TapToDownloadIffUnmatched | app/src/main/java/com/softvision/downloadmanagersample/DocumentViewModel.kt:81-95 | a display document reads "Tap to download" exactly when no record has its URI |
| TapPolicy.TapActionFor | app/src/main/java/com/softvision/downloadmanagersample/DocumentViewModel.kt:51-60 | a tap downloads exactly for -1 and failed, opens exactly for successful, and otherwise does nothing |
| TapPolicy.DocumentViewModel.constructor | app/src/main/java/com/softvision/downloadmanagersample/DocumentViewModel.kt:47-49 | the slot starts empty and nothing has been enqueued |
| TapPolicy.DocumentViewModel.OnDocumentTap | app/src/main/java/com/softvision/downloadmanagersample/DocumentViewModel.kt:51-60 | download: exactly one request (uri, "papers/" + title) is appended and the slot is kept; open: the slot gets the local URI, nothing is enqueued; otherwise nothing changes |
| TapPolicy.DocumentViewModel.OnDocumentOpened | app/src/main/java/com/softvision/downloadmanagersample/DocumentViewModel.kt:62-64 | the slot becomes null and the request log is unchanged |
| TapPolicy.DocumentViewModel.DownloadDocument | app/src/main/java/com/softvision/downloadmanagersample/DocumentViewModel.kt:66-73 | one request with the document's URI and destination "papers/" + title is appended; the slot is unchanged |
| TapPolicy.DocumentViewModel.OpenDocument | app/src/main/java/com/softvision/downloadmanagersample/DocumentViewModel.kt:75-77 | the slot holds the document's local URI, null included; the log is unchanged |
| TapPolicy.TapOnReconciled | app/src/main/java/com/softvision/downloadmanagersample/DocumentViewModel.kt:51-60 | a reconciled document with no record is downloaded on tap; a tap opens exactly when the label is "Tap to open", and it opens the first matching record's local URI |
| TapPolicy.NullStatusDownloadsAgain | app/src/main/java/com/softvision/downloadmanagersample/DocumentViewModel.kt:83-89 | a first matching record with a null or -1 status gives the catch-all label, and a tap downloads again |

## Left out

- `queryDownload` reads rows from the platform `DownloadManager` through a `Cursor`. That is I/O over a foreign API; the record list is an input of the model.
- `observeDownloads` and the `combine`/`asLiveData` wiring are left out. They are reactive, concurrent plumbing: a content observer, a background handler thread and a callback flow.
- The call to `downloadManager.enqueue` is recorded as a ghost request (URI, destination). The request's public downloads directory and its notification visibility flags are platform configuration, so they are not modelled.
- TapPolicy.DocumentViewModel.DownloadDocument: always appends one request. Errors raised while building or enqueuing the request are not modelled: `DownloadManager.Request` rejects a URI that is not http or https, and the platform call can fail. In the source either error propagates out of `onDocumentTap` and nothing is enqueued.
- The three catalog literals are static data, not logic.
- `MainActivity.kt` (lifecycle, file provider, intents, observers) is not part of this model. It is UI and OS interaction.
- `DocumentAdapter.kt` is not part of this model. It is list binding and diffing.
- The 32-bit and 64-bit widths of Kotlin's `Int` and `Long` are not modelled. Numbers are unbounded. The core does no arithmetic on them and only compares and renders them.
- `LiveData` delivery of the slot's value to observers is not modelled. Only the slot's current value is.
