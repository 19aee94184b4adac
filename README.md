# Bus image upload — a verified model

The application lets a user attach photographs to a bus record. Two parts of it
carry logic, and both are modelled here.

- **The upload page** (`pages/upload.js`), modelled in `upload_page.dfy`, module `Upload`.
  - It turns a selection into a queue of files. ZIP archives are expanded into the
    JPEG and PNG images they hold, and each image gets a type recomputed from its
    extension. Any other file is queued unchanged.
  - It then posts the bus id and the queue as a multipart form.
  - It follows the request through its XMLHttpRequest callbacks: in flight, then
    succeeded (the queue is cleared) or failed (the queue is kept and the error
    is shown).
  - The selection normaliser and the form builder are methods with loops, proved
    against specification functions. The page state is a class whose methods
    update its fields.
- **The ingestion endpoint** (`pages/api/uploadBusImages.js`), modelled in
  `upload_bus_images.dfy`, module `UploadBusImages`.
  - It runs a chain of checks: method, multipart parse outcome, bus id, files.
  - Then it runs a sequential loop. For each file it uploads the bytes as an
    asset, builds a `busImage` document that refers to the bus and to the new
    asset, and creates the document.
  - Anything that throws aborts the rest of the batch with a 500. Documents
    created before the failure stay created.
  - The handler is an imperative method over a `Store` class that numbers its
    calls and throws at one chosen call. It is proved equal to the pure
    specification `Respond` / `CommitFrom`, and the promised properties are
    lemmas about that specification.
- **Shared string helpers** are in `text.dfy`, module `Text`: suffix tests,
  regular-expression case folding and last occurrence.

The model makes these abstractions:
- An archive is its list of entries in enumeration order.
- The archive library is a parameter, `unzip`.
- The multipart parser's result is a `ParseOutcome`.
- The store's ids are `Minted(k)` for its k-th call.
- The upload timestamp of file j is `Reading(j)`, the clock reading taken while
  building that file's document.

## Model

| member | source | states |
|---|---|---|
| `Upload.IsArchive` | pages/upload.js:26 | a selected file is opened as an archive when its declared type is exactly `application/zip` or its name ends, case-sensitively, in `.zip` |
| `Upload.ArchiveTestExamples` | pages/upload.js:26 | `photos.ZIP` with no type is not an archive, but is one with type `application/zip`; `photos.zip` is one whatever its type; `photos.zip.jpg` is not |
| `Upload.IsImageName` | pages/upload.js:31 | the entry filter's case-insensitive name test: the name ends in `.jpg`, `.jpeg` or `.png`, letters compared with ASCII case folding |
| `Upload.Kept` | pages/upload.js:31 | an archive entry is extracted when it is not a directory and its name passes the image-name test |
| `Upload.IsJpegName` | pages/upload.js:35 | the JPEG type test `/\.jpe?g$/i`: the name ends in `.jpg` or `.jpeg`, letters compared with ASCII case folding |
| `Upload.IsPngName` | pages/upload.js:36 | the PNG type test `/\.png$/i`: the name ends in `.png`, letters compared with ASCII case folding |
| `Upload.JpegAndPngExclusive` | pages/upload.js:35-36 | no name passes both the JPEG and the PNG test, so the order of the two type assignments does not matter |
| `Upload.MimeFromName` | pages/upload.js:34-36 | the type is `image/jpeg` exactly for `.jpg`/`.jpeg` names and `image/png` exactly for `.png` names, in any letter case; it is empty exactly for names the entry filter rejects |
| `Upload.EntryFile` | pages/upload.js:32-37 | the file built from an entry keeps the entry's name and bytes; a kept entry always gets an image type, whatever the archive says |
| `Upload.KeptFiles` | pages/upload.js:29-39 | the files extracted from entries that can all be read: one `EntryFile` per kept entry, in entry order |
| `Upload.FirstUnreadable` | pages/upload.js:29-40 | the index where extraction of an archive stops: every kept entry before it can be read, and the entry at it is a kept one that cannot |
| `Upload.KeptFilesAppend` | pages/upload.js:29-39 | extraction keeps archive order: the files extracted from two runs of entries are those of the first followed by those of the second |
| `Upload.KeptFilesSound` | pages/upload.js:31-37 | every extracted file comes from a non-directory entry with an image extension |
| `Upload.KeptFilesComplete` | pages/upload.js:31-37 | every non-directory entry with an image extension is extracted |
| `Upload.KeptFilesCount` | pages/upload.js:29-39 | extraction yields exactly one file per kept entry (`CountKept`), so at most one per entry, and one per entry exactly when no entry is skipped |
| `Upload.ExtractArchive` | pages/upload.js:28-42 | the inner loop pushes the extracted files of the entries before the first unreadable one, and reports a failure exactly when such an entry exists |
| `Upload.NormaliseOne` | pages/upload.js:26-45 | what one selected file contributes: a non-archive file itself; an archive that cannot be opened nothing but the failure; an opened archive the files of its entries before the first unreadable kept one, failing when such an entry exists |
| `Upload.Normalised` | pages/upload.js:25-46 | the normalised selection: the contributions of the selected files concatenated in selection order, failing when any of them fails |
| `Upload.NormalisedAppend` | pages/upload.js:25-46 | the normaliser keeps selection order: a selection split in two normalises to the two results concatenated, failing when either part fails |
| `Upload.CorruptArchiveIsolated` | pages/upload.js:26-42 | an archive that cannot be opened only sets the failure; the files before and after it are normalised exactly as without it |
| `Upload.NoArchivesPassThrough` | pages/upload.js:43-45 | a selection without archives is queued unchanged, with no error |
| `Upload.NormalisedFilesOrigin` | pages/upload.js:25-46 | every queued file is either a selected non-archive file or an extracted image whose type matches its extension |
| `Upload.ExpandSelection` | pages/upload.js:24-46 | the outer loop computes the normalised files of the selection and whether any archive failed |
| `Upload.BuildFormData` | pages/upload.js:66-68 | the form carries the `busId` field first, then one `files` part per queued file, in queue order |
| `Upload.Percent` | pages/upload.js:75 | the shown progress is the percentage of bytes sent rounded to the nearest integer, halves up, within 0..100; 0 bytes show 0 and all bytes show 100 |
| `Upload.PercentMonotone` | pages/upload.js:73-77 | more bytes sent never show a smaller percentage |
| `Upload.FailureMessage` | pages/upload.js:90-96 | the message after a failed response is the server's non-empty `error` field when there is one, otherwise the generic failure message; never empty |
| `Upload.UploadPage.constructor` | pages/upload.js:6-11 | the page starts with no bus, an empty queue, not uploading, progress 0 and no messages |
| `Upload.UploadPage.SelectBus` | pages/upload.js:119 | choosing a bus sets the selected bus and nothing else |
| `Upload.UploadPage.HandleFiles` | pages/upload.js:21-51 | the normalised selection is appended after the existing queue, which is otherwise unchanged; the success message is cleared; the error is the extraction message exactly when some archive failed |
| `Upload.UploadPage.HandleUpload` | pages/upload.js:53-68 | it runs only while no request is in flight (the button is disabled while uploading, line 171); with no bus or an empty queue only the validation error is set and nothing is sent; otherwise the page is uploading from 0% and sends the bus id and every queued file in order |
| `Upload.UploadPage.OnProgress` | pages/upload.js:73-78 | a progress event whose length is computable shows the rounded percentage; one whose length is not computable changes nothing |
| `Upload.UploadPage.OnLoad` | pages/upload.js:80-99 | the upload is over at 100%; a 200 clears the queue and shows success with no error; any other status keeps the queue and shows the response's error or the generic message |
| `Upload.UploadPage.OnError` | pages/upload.js:101-106 | a transport error ends the upload, keeps the queue and shows the generic failure message |
| `Upload.SelectionDuringUploadIsDropped` | pages/upload.js:80-89 | the file input is not disabled during an upload (lines 130-136) and a 200 empties the whole queue (line 85): a file chosen while a request is in flight is queued behind the sent file, is not in the form sent, and is gone after the 200 without ever being sent |
| `Text.LastIndexOfFinds` | pages/api/uploadBusImages.js:68 | the last occurrence found is an occurrence and none follows it; when none is found the character does not occur |
| `UploadBusImages.ExtensionAt` | pages/api/uploadBusImages.js:68 | where `/\.[^/.]+$/` matches a name: at a dot that is not the last character, with no slash and no further dot after it; the reference the label is proved against |
| `UploadBusImages.StripExtension` | pages/api/uploadBusImages.js:68 | the label is a prefix of the original name: the replacement only ever removes a suffix |
| `UploadBusImages.StripExtensionRemovesMatch` | pages/api/uploadBusImages.js:68 | the label is the original name cut at the match of `/\.[^/.]+$/` (a dot followed by at least one character, none of them a dot or a slash, up to the end), and the name itself when nothing matches; a label that differs from the name always ends where such a match starts |
| `UploadBusImages.LabelExamples` | pages/api/uploadBusImages.js:68 | `front.jpg` gives `front`, `a.b.jpg` gives `a.b`; `file.`, `README` and `v1.2/photo` are kept as they are |
| `UploadBusImages.FirstValue` | pages/api/uploadBusImages.js:43 | a bus id sent as an array becomes its first element, and an empty array becomes absent; any other value is kept |
| `UploadBusImages.Falsy` | pages/api/uploadBusImages.js:44 | `!busId` for the normalised bus id: it is absent or the empty string |
| `UploadBusImages.AsFileList` | pages/api/uploadBusImages.js:48-52 | the files field as a list: a single file becomes a list of one, and an array is kept as it is |
| `UploadBusImages.Accepted` | pages/api/uploadBusImages.js:13-52 | the requests that reach the loop: a POST whose form parsed, whose normalised bus id is not falsy and that has a files field |
| `UploadBusImages.DocAt` | pages/api/uploadBusImages.js:65-77 | the `busImage` document for file j: a reference to the bus, the file name with its extension removed as label, a reference to the asset returned by file j's upload, and the upload date as an opaque reading |
| `UploadBusImages.StoredAt` | pages/api/uploadBusImages.js:79-80 | the document `sanity.create` returns for file j: the built document under the id of the create call that follows file j's upload |
| `UploadBusImages.ExpectedCall` | pages/api/uploadBusImages.js:60-62 | step 0 for file j is the asset upload of its bytes under its original file name; step 1 is the create of its document (line 79) |
| `UploadBusImages.CommitFrom` | pages/api/uploadBusImages.js:54-86 | the loop from file i on returns at most one document per remaining file, and one per remaining file when it goes through |
| `UploadBusImages.CommitAlternates` | pages/api/uploadBusImages.js:56-81 | the store calls strictly alternate, upload of file k then create of document k, for k in input order; there are at most two per file |
| `UploadBusImages.CommitCounts` | pages/api/uploadBusImages.js:56-81 | each created document costs exactly two calls; beyond them come at most the upload and the create of the file whose call threw (a throwing create leaves an uploaded asset with no document); a run that goes through makes exactly two calls per document |
| `UploadBusImages.CommitDocs` | pages/api/uploadBusImages.js:55-80 | the returned documents are those of a prefix of the files, in order; document n is file n's document, with the bus, its label, the asset id of its upload and the id of its create |
| `UploadBusImages.CommitSucceeds` | pages/api/uploadBusImages.js:56-81 | when every file is readable and no call throws, the loop goes through, with one document and two calls per file |
| `UploadBusImages.CommitStopsAtFailure` | pages/api/uploadBusImages.js:56-86 | when the upload or create of file m throws, the loop stops right there: documents 0..m-1 exist and no call follows the one that threw |
| `UploadBusImages.CommitStopsAtUnreadable` | pages/api/uploadBusImages.js:57 | when file m's temporary copy cannot be read, the loop stops before any call for it: documents 0..m-1 exist and there are exactly two calls each |
| `UploadBusImages.Respond` | pages/api/uploadBusImages.js:12-88 | a request rejected by any of the checks makes no store call and leaves no document; a 200 answer comes only for a request that passed every check, with one document per file |
| `UploadBusImages.RespondRejects` | pages/api/uploadBusImages.js:13-52 | non-POST gives 405; parse code 1009 gives 413; another parse error gives 500 with the parse prefix and the message or `Unknown error`; a missing or empty bus id, including an empty array, gives 400 whatever the files; missing files give 400; none of these touches the store |
| `UploadBusImages.RespondStatuses` | pages/api/uploadBusImages.js:13-86 | the status is one of 200, 400, 405, 413, 500; it is 400 exactly for a missing bus id or missing files; it is 200 exactly when the loop went through, and then the body lists the created documents |
| `UploadBusImages.RespondSucceeds` | pages/api/uploadBusImages.js:54-82 | with readable files and no throwing call the answer is 200 with one document per file, in input order; document k refers to the bus, carries file k's label and refers to the asset returned by file k's upload |
| `UploadBusImages.RespondFailsAtCall` | pages/api/uploadBusImages.js:54-86 | if file m's upload or create throws, the answer is 500 with the upload failure message; documents 0..m-1 stay created (no rollback) and the calls end with the one that threw |
| `UploadBusImages.RespondFailsAtRead` | pages/api/uploadBusImages.js:54-86 | if file m cannot be read, the answer is 500; documents 0..m-1 stay created and no call is made for file m or any later file |
| `UploadBusImages.RepeatedBusIdUsesFirst` | pages/api/uploadBusImages.js:42-43 | a bus id sent several times is handled exactly as its first value |
| `UploadBusImages.SingleFileIsListOfOne` | pages/api/uploadBusImages.js:52 | a single uploaded file is handled exactly as a list of one |
| `UploadBusImages.TwoImagesForOneBus` | pages/api/uploadBusImages.js:54-82 | `front.jpg` and `side.png` for bus `bus-42` give 200 and two documents for that bus labelled `front` and `side`, in that order |
| `UploadBusImages.Store.Upload` | pages/api/uploadBusImages.js:60-62 | an asset upload is logged as the next call and returns that call's id unless it is the call that throws |
| `UploadBusImages.Store.Create` | pages/api/uploadBusImages.js:79-80 | a document create is logged as the next call; unless it throws, the document is stored under that call's id and returned |
| `UploadBusImages.UploadFile` | pages/api/uploadBusImages.js:57-80 | one turn of the loop reads, uploads, builds the document and creates it, making the calls of the specification for that file; it returns the stored document only if none of them threw |
| `UploadBusImages.UploadAll` | pages/api/uploadBusImages.js:54-86 | the loop makes the specified calls in order, returns the specified documents, and reports completion exactly as the specification does; the store keeps every document created, even after a failure |
| `UploadBusImages.Handle` | pages/api/uploadBusImages.js:12-88 | the handler's response, its store calls and the documents it leaves created are exactly those of the specification `Respond` |

## Left out

- Fetching the bus list (`useEffect` and `/api/getBuses`) is left out, and so is the JSX markup. Two of its bindings are modelled: the selector's `onChange` is `SelectBus`, and the Upload button's `disabled={uploading}` is the requirement `!uploading` of `HandleUpload`.
- The archive library's parsing is a parameter, `unzip`. It gives the entry list in enumeration order, or `Corrupt` when loading rejects. A failing `entry.async` is an entry whose data is `None`.
- Integer-like names come first when an object's keys are enumerated. This reordering is not modelled, because such a name never ends in an image extension, so the extracted order is the entry order.
- The `console.log` and `console.error` output is left out.
- The XMLHttpRequest transport, the asynchronous interleaving of `await`, and React's batching of state updates are left out. Each callback is a method run to completion.
- `OnLoad` and `OnError` require that an upload is in flight, since the callbacks exist only for a sent request.
- The one-second `setTimeout` that resets the progress to 0 after a response is left out. So is the clearing of the file input element.
- Upload.UploadPage.OnProgress: it requires a positive total when the length is computable. A computable length of 0 would show `NaN` in the source (`0 / 0`), but the multipart body always holds the `busId` field, so its length is never 0.
- Upload.Percent: `Math.round(loaded / total * 100)` is modelled over exact rationals. Floating-point rounding near a half may differ by one.
- The response text is reduced to `Json(error)` or `NotJson`. A JSON `null`, or a non-string `error` field, falls under `NotJson` or `None`.
- Multipart parsing and its size limits are left out. The parser is its outcome: the fields and files, or an error with a code and a message. An error without a message is a message of `""`.
- The 200 body's constant `success: true` field is left out. The body is modelled as the list of images.
- A missing `originalFilename` is not modelled. In the source, `.replace` on it throws and gives the 500 upload failure. Here every uploaded file has a name.
- `fs.readFileSync` of the temporary file is modelled as the file's `contents`. `None` means the read throws.
- The content store client is the `Store` class. Its ids are `Minted(k)` for its k-th call, and one chosen call throws. Other id schemes, and several failing calls, are not modelled: the first throw ends the request anyway.
- The asset's own fields are left out. So are the document's constant `_type` fields.
- `new Date().toISOString()` is an opaque reading `Reading(j)` for file j. The timestamp text is not modelled.
- A `files` field that is an empty array passes the handler's check, as in the source. It gives 200 with no images.
- The `multiples` and size options passed to the parser are left out. They only act inside the parser.
