/** The client side of the image upload: the selection normaliser that expands
    ZIP archives into image files (`handleFiles`), the request the page sends
    (`handleUpload`), and the page state that the XMLHttpRequest callbacks move
    between idle, uploading, succeeded and failed. */
module Upload {
  import opened Text

  /** A browser `File`: its name, its declared MIME type and its bytes. */
  datatype File = File(name: string, mimeType: string, data: Bytes)

  /** One entry of an opened archive, in the archive's enumeration order.
      `data` is None when inflating the entry fails (`entry.async` rejects). */
  datatype ZipEntry = ZipEntry(name: string, isDir: bool, data: Option<Bytes>)

  /** What opening a selected file as an archive gives: its entries, or a
      failure for a corrupt or unsupported archive. */
  datatype Archive = Opened(entries: seq<ZipEntry>) | Corrupt

  /** The files a normalisation pass produces, and whether some archive failed. */
  datatype Expansion = Expansion(files: seq<File>, failed: bool)

  const ZipMime := "application/zip"
  const JpegMime := "image/jpeg"
  const PngMime := "image/png"

  const ExtractError := "Failed to extract ZIP file. Please check the file and try again."
  const ValidationError := "Please select a bus and choose at least one file."
  const GenericFailure := "Upload failed. Please try again."
  const UploadSucceeded := "Upload successful!"

  /* ---------------------------------------------------------------------------
     Extension and MIME tests
     ------------------------------------------------------------------------- */

  /** A selected file is opened as an archive when its type is exactly
      `application/zip` or its name ends, case-sensitively, in `.zip`. */
  predicate IsArchive(f: File) {
    f.mimeType == ZipMime || EndsWith(f.name, ".zip")
  }

  /** The archive test reads the declared type exactly and the name
      case-sensitively: an upper-case `.ZIP` name is an archive only when its
      type says so, and an inner `.zip` does not make a file an archive. */
  lemma ArchiveTestExamples(data: Bytes)
    ensures !IsArchive(File("photos.ZIP", "", data))
    ensures IsArchive(File("photos.ZIP", ZipMime, data))
    ensures IsArchive(File("photos.zip", "application/octet-stream", data))
    ensures !IsArchive(File("photos.zip.jpg", JpegMime, data))
  {
  }

  /** `/\.jpe?g$/i` */
  predicate IsJpegName(name: string) {
    EndsWithIgnoreCase(name, ".jpg") || EndsWithIgnoreCase(name, ".jpeg")
  }

  /** `/\.png$/i` */
  predicate IsPngName(name: string) {
    EndsWithIgnoreCase(name, ".png")
  }

  /** `/\.(jpe?g|jpeg|png)$/i` */
  predicate IsImageName(name: string) {
    EndsWithIgnoreCase(name, ".jpg") || EndsWithIgnoreCase(name, ".jpeg") || EndsWithIgnoreCase(name, ".png")
  }

  /** No name ends in both a JPEG and a PNG extension, so the two type tests of
      the normaliser never both fire and their order does not matter. */
  lemma JpegAndPngExclusive(name: string)
    ensures !(IsJpegName(name) && IsPngName(name))
  {
    var n := |name|;
    if IsPngName(name) {
      assert LowerAscii(name[n - 3]) == 'p' by { assert name[n - 4..][1] == name[n - 3]; }
      assert LowerAscii(name[n - 2]) == 'n' by { assert name[n - 4..][2] == name[n - 2]; }
    }
    if EndsWithIgnoreCase(name, ".jpg") {
      assert LowerAscii(name[n - 3]) == 'j' by { assert name[n - 4..][1] == name[n - 3]; }
    }
    if EndsWithIgnoreCase(name, ".jpeg") {
      assert LowerAscii(name[n - 2]) == 'e' by { assert name[n - 5..][3] == name[n - 2]; }
    }
  }

  /** The type an extracted entry gets: computed from its name alone, as the
      two successive tests do (the JPEG test, then the PNG test). */
  function MimeFromName(name: string): (t: string)
    ensures t == JpegMime <==> IsJpegName(name)
    ensures t == PngMime <==> IsPngName(name)
    ensures t == "" <==> !IsImageName(name)
  {
    JpegAndPngExclusive(name);
    var t0 := "";
    var t1 := if IsJpegName(name) then JpegMime else t0;
    if IsPngName(name) then PngMime else t1
  }

  /* ---------------------------------------------------------------------------
     Archive expansion
     ------------------------------------------------------------------------- */

  /** Entries the normaliser extracts: not directories, named like an image. */
  predicate Kept(e: ZipEntry) {
    !e.isDir && IsImageName(e.name)
  }

  /** A kept entry whose content cannot be inflated: reading it throws. */
  predicate Unreadable(e: ZipEntry) {
    Kept(e) && e.data.None?
  }

  predicate AllReadable(es: seq<ZipEntry>) {
    forall j :: 0 <= j < |es| ==> !Unreadable(es[j])
  }

  /** The new `File` built for a readable kept entry: its name, the type
      recomputed from the name, and its bytes. */
  function EntryFile(e: ZipEntry): (f: File)
    requires e.data.Some?
    ensures f.name == e.name && f.data == e.data.value
    ensures Kept(e) ==> f.mimeType == JpegMime || f.mimeType == PngMime
  {
    File(e.name, MimeFromName(e.name), e.data.value)
  }

  /** The files extracted from a list of entries none of which fails: one per
      kept entry, in entry order. */
  function KeptFiles(es: seq<ZipEntry>): seq<File>
    requires AllReadable(es)
  {
    if es == [] then []
    else
      var last := es[|es| - 1];
      assert !Unreadable(es[|es| - 1]);
      KeptFiles(es[..|es| - 1]) + (if Kept(last) then [EntryFile(last)] else [])
  }

  /** Index of the first kept entry that cannot be read, or |es| if none. */
  function FirstUnreadable(es: seq<ZipEntry>): (n: nat)
    ensures n <= |es|
    ensures AllReadable(es[..n])
    ensures n < |es| ==> Unreadable(es[n])
  {
    if es == [] then 0
    else if Unreadable(es[0]) then 0
    else
      var m := FirstUnreadable(es[1..]);
      assert es[..1 + m] == [es[0]] + es[1..][..m];
      1 + m
  }

  /** Extracting a concatenation extracts each part in turn: archive order is kept. */
  lemma {:induction false} KeptFilesAppend(a: seq<ZipEntry>, b: seq<ZipEntry>)
    requires AllReadable(a) && AllReadable(b)
    ensures AllReadable(a + b)
    ensures KeptFiles(a + b) == KeptFiles(a) + KeptFiles(b)
    decreases |b|
  {
    assert AllReadable(a + b) by {
      forall j | 0 <= j < |a + b| ensures !Unreadable((a + b)[j]) {
        if j >= |a| { assert (a + b)[j] == b[j - |a|]; }
      }
    }
    if b != [] {
      var b' := b[..|b| - 1];
      assert (a + b)[..|a + b| - 1] == a + b';
      assert AllReadable(b');
      KeptFilesAppend(a, b');
    } else {
      assert a + b == a;
    }
  }

  /** Every extracted file comes from a kept entry. */
  lemma {:induction false} KeptFilesSound(es: seq<ZipEntry>)
    requires AllReadable(es)
    ensures forall f :: f in KeptFiles(es) ==> exists e :: e in es && Kept(e) && e.data.Some? && f == EntryFile(e)
  {
    if es != [] {
      var init := es[..|es| - 1];
      KeptFilesSound(init);
      forall f | f in KeptFiles(es)
        ensures exists e :: e in es && Kept(e) && e.data.Some? && f == EntryFile(e)
      {
        if f in KeptFiles(init) {
          var e :| e in init && Kept(e) && e.data.Some? && f == EntryFile(e);
          assert e in es;
        } else {
          assert es[|es| - 1] in es;
        }
      }
    }
  }

  /** Every kept entry is extracted. */
  lemma {:induction false} KeptFilesComplete(es: seq<ZipEntry>)
    requires AllReadable(es)
    ensures forall e :: e in es && Kept(e) ==> e.data.Some? && EntryFile(e) in KeptFiles(es)
  {
    if es != [] {
      var init := es[..|es| - 1];
      KeptFilesComplete(init);
      forall e | e in es && Kept(e) ensures e.data.Some? && EntryFile(e) in KeptFiles(es) {
        var j :| 0 <= j < |es| && es[j] == e;
        if j < |es| - 1 {
          assert init[j] == e;
        }
      }
    }
  }

  predicate AllKept(es: seq<ZipEntry>) {
    forall j :: 0 <= j < |es| ==> Kept(es[j])
  }

  lemma AllKeptSnoc(es: seq<ZipEntry>)
    requires es != []
    ensures AllKept(es) <==> AllKept(es[..|es| - 1]) && Kept(es[|es| - 1])
  {
    var init := es[..|es| - 1];
    assert forall j :: 0 <= j < |init| ==> init[j] == es[j];
  }

  /** The number of entries the normaliser keeps. */
  function CountKept(es: seq<ZipEntry>): nat {
    if es == [] then 0
    else CountKept(es[..|es| - 1]) + (if Kept(es[|es| - 1]) then 1 else 0)
  }

  /** An archive of N kept and M skipped entries yields exactly N files, so
      never more files than entries, and as many only when none is skipped. */
  lemma {:induction false} KeptFilesCount(es: seq<ZipEntry>)
    requires AllReadable(es)
    ensures |KeptFiles(es)| == CountKept(es)
    ensures |KeptFiles(es)| <= |es|
    ensures |KeptFiles(es)| == |es| <==> AllKept(es)
  {
    if es != [] {
      KeptFilesCount(es[..|es| - 1]);
      AllKeptSnoc(es);
    }
  }

  /** Taking one more entry extends the extracted files by that entry's file
      when it is kept, and by nothing otherwise. */
  lemma KeptFilesSnoc(es: seq<ZipEntry>, i: nat)
    requires i < |es| && AllReadable(es[..i]) && !Unreadable(es[i])
    ensures AllReadable(es[..i + 1]) && (Kept(es[i]) ==> es[i].data.Some?)
    ensures KeptFiles(es[..i + 1]) == KeptFiles(es[..i]) + (if Kept(es[i]) then [EntryFile(es[i])] else [])
  {
    assert es[..i + 1][..i] == es[..i];
    assert es[..i + 1][i] == es[i];
    forall j | 0 <= j < i ensures !Unreadable(es[j]) {
      assert es[..i][j] == es[j];
    }
  }

  /** Where a scan stopped is the first unreadable entry: everything before it
      was readable and it is unreadable (or the scan reached the end). */
  lemma FirstUnreadableAt(es: seq<ZipEntry>, i: nat)
    requires i <= |es| && AllReadable(es[..i])
    requires i < |es| ==> Unreadable(es[i])
    ensures FirstUnreadable(es) == i
  {
    var n := FirstUnreadable(es);
    assert forall j :: 0 <= j < i ==> es[..i][j] == es[j];
    assert forall j :: 0 <= j < n ==> es[..n][j] == es[j];
  }

  /** The inner loop of the normaliser over one opened archive: every kept
      entry is read and pushed, until the first one that cannot be read, which
      abandons the rest of the archive. What was pushed before stays. */
  method ExtractArchive(entries: seq<ZipEntry>) returns (out: seq<File>, failed: bool)
    ensures AllReadable(entries[..FirstUnreadable(entries)])
    ensures out == KeptFiles(entries[..FirstUnreadable(entries)])
    ensures failed <==> FirstUnreadable(entries) < |entries|
  {
    out, failed := [], false;
    var i := 0;
    while i < |entries|
      invariant 0 <= i <= |entries|
      invariant AllReadable(entries[..i])
      invariant out == KeptFiles(entries[..i])
    {
      var entry := entries[i];
      if !entry.isDir && IsImageName(entry.name) {
        match entry.data
        case None =>
          failed := true;
          break;
        case Some(blob) =>
          out := out + [File(entry.name, MimeFromName(entry.name), blob)];
      }
      KeptFilesSnoc(entries, i);
      i := i + 1;
    }
    FirstUnreadableAt(entries, i);
  }

  /* ---------------------------------------------------------------------------
     Selection normalisation
     ------------------------------------------------------------------------- */

  /** What one selected file contributes. `unzip` stands for the archive
      library: what opening that file as an archive gives. */
  function NormaliseOne(f: File, unzip: File -> Archive): Expansion {
    if !IsArchive(f) then Expansion([f], false)
    else
      match unzip(f)
      case Corrupt => Expansion([], true)
      case Opened(es) =>
        var n := FirstUnreadable(es);
        Expansion(KeptFiles(es[..n]), n < |es|)
  }

  /** The normalised files of a whole selection, in selection order, and
      whether any archive in it failed. */
  function Normalised(sel: seq<File>, unzip: File -> Archive): Expansion {
    if sel == [] then Expansion([], false)
    else
      var prior := Normalised(sel[..|sel| - 1], unzip);
      var last := NormaliseOne(sel[|sel| - 1], unzip);
      Expansion(prior.files + last.files, prior.failed || last.failed)
  }

  /** Normalising a concatenation normalises each part in turn: the output keeps
      selection order, and one part's failure does not affect the other's files. */
  lemma {:induction false} NormalisedAppend(a: seq<File>, b: seq<File>, unzip: File -> Archive)
    ensures Normalised(a + b, unzip).files == Normalised(a, unzip).files + Normalised(b, unzip).files
    ensures Normalised(a + b, unzip).failed == (Normalised(a, unzip).failed || Normalised(b, unzip).failed)
    decreases |b|
  {
    if b == [] {
      assert a + b == a;
    } else {
      var b' := b[..|b| - 1];
      assert (a + b)[..|a + b| - 1] == a + b';
      assert (a + b)[|a + b| - 1] == b[|b| - 1];
      NormalisedAppend(a, b', unzip);
    }
  }

  /** A corrupt archive contributes nothing but the failure: the inputs before
      and after it are normalised exactly as without it. */
  lemma CorruptArchiveIsolated(before: seq<File>, z: File, after: seq<File>, unzip: File -> Archive)
    requires IsArchive(z) && unzip(z) == Corrupt
    ensures Normalised(before + [z] + after, unzip).files == Normalised(before, unzip).files + Normalised(after, unzip).files
    ensures Normalised(before + [z] + after, unzip).failed
  {
    NormalisedAppend(before + [z], after, unzip);
    NormalisedAppend(before, [z], unzip);
    assert [z][..0] == [];
  }

  /** A selection without archives is queued unchanged and raises no error. */
  lemma {:induction false} NoArchivesPassThrough(sel: seq<File>, unzip: File -> Archive)
    requires forall j :: 0 <= j < |sel| ==> !IsArchive(sel[j])
    ensures Normalised(sel, unzip) == Expansion(sel, false)
  {
    if sel != [] {
      var init := sel[..|sel| - 1];
      NoArchivesPassThrough(init, unzip);
      assert init + [sel[|sel| - 1]] == sel;
    }
  }

  /** Every normalised file is either a selected non-archive file passed
      through, or an image extracted from an archive with its type set from
      its extension, so never empty. */
  lemma {:induction false} NormalisedFilesOrigin(sel: seq<File>, unzip: File -> Archive)
    ensures forall f :: f in Normalised(sel, unzip).files ==>
              (f in sel && !IsArchive(f)) || (IsImageName(f.name) && f.mimeType == MimeFromName(f.name))
  {
    if sel != [] {
      var init := sel[..|sel| - 1];
      var z := sel[|sel| - 1];
      NormalisedFilesOrigin(init, unzip);
      if IsArchive(z) && unzip(z).Opened? {
        var es := unzip(z).entries;
        KeptFilesSound(es[..FirstUnreadable(es)]);
      }
      forall f | f in Normalised(sel, unzip).files
        ensures (f in sel && !IsArchive(f)) || (IsImageName(f.name) && f.mimeType == MimeFromName(f.name))
      {
        if f in Normalised(init, unzip).files {
          if f in init { assert f in sel; }
        } else {
          assert f in NormaliseOne(z, unzip).files;
        }
      }
    }
  }

  /** The outer loop of the normaliser: each selected file in order, archives
      expanded, others pushed unchanged; a failing archive only records the
      failure and the loop goes on. */
  method ExpandSelection(selection: seq<File>, unzip: File -> Archive) returns (newFiles: seq<File>, failed: bool)
    ensures newFiles == Normalised(selection, unzip).files
    ensures failed == Normalised(selection, unzip).failed
  {
    newFiles, failed := [], false;
    for i := 0 to |selection|
      invariant Normalised(selection[..i], unzip) == Expansion(newFiles, failed)
    {
      var file := selection[i];
      assert selection[..i + 1][..i] == selection[..i];
      if file.mimeType == ZipMime || EndsWith(file.name, ".zip") {
        match unzip(file)
        case Corrupt =>
          failed := true;
        case Opened(entries) =>
          var extracted, broken := ExtractArchive(entries);
          newFiles := newFiles + extracted;
          if broken {
            failed := true;
          }
      } else {
        newFiles := newFiles + [file];
      }
    }
    assert selection[..|selection|] == selection;
  }

  /* ---------------------------------------------------------------------------
     The request body and the progress figure
     ------------------------------------------------------------------------- */

  /** One part of a multipart form body. */
  datatype Part = FieldPart(name: string, value: string) | FilePart(name: string, file: File)

  /** The body `handleUpload` sends: the `busId` field first, then one `files`
      part per queued file, in queue order. */
  method BuildFormData(busId: string, files: seq<File>) returns (form: seq<Part>)
    ensures |form| == |files| + 1
    ensures form[0] == FieldPart("busId", busId)
    ensures forall k :: 0 <= k < |files| ==> form[k + 1] == FilePart("files", files[k])
  {
    form := [FieldPart("busId", busId)];
    for i := 0 to |files|
      invariant |form| == i + 1
      invariant form[0] == FieldPart("busId", busId)
      invariant forall k :: 0 <= k < i ==> form[k + 1] == FilePart("files", files[k])
    {
      form := form + [FilePart("files", files[i])];
    }
  }

  /** Multiplying both sides of an inequality by a natural number keeps it.
      Dafny proves this unaided; the lemma names the step the percentage
      proofs below need. */
  lemma MulMonotone(x: int, y: int, t: nat)
    requires x <= y
    ensures x * t <= y * t
  {
  }

  /** The percentage shown is the nearest whole percentage, within 0..100. */
  lemma PercentBounds(loaded: nat, total: nat, p: int)
    requires 0 < total && loaded <= total
    requires 2 * total * p <= 200 * loaded + total < 2 * total * p + 2 * total
    ensures 0 <= p <= 100
    ensures loaded == 0 ==> p == 0
    ensures loaded == total ==> p == 100
  {
    if p < 0 {
      MulMonotone(p, -1, total);
    }
    if p > 100 {
      MulMonotone(101, p, total);
    }
    if loaded == 0 && p > 0 {
      MulMonotone(1, p, total);
    }
    if loaded == total && p < 100 {
      MulMonotone(p, 99, total);
    }
  }

  /** `Math.round(loaded / total * 100)` over exact rationals: the nearest whole
      percentage, halves rounded up. */
  function Percent(loaded: nat, total: nat): (p: int)
    requires 0 < total && loaded <= total
    ensures 0 <= p <= 100
    ensures loaded == 0 ==> p == 0
    ensures loaded == total ==> p == 100
    ensures 2 * total * p - total <= 200 * loaded < 2 * total * p + total
  {
    var p := (200 * loaded + total) / (2 * total);
    PercentBounds(loaded, total, p);
    p
  }

  /** More bytes sent never shows a smaller percentage. */
  lemma PercentMonotone(a: nat, b: nat, total: nat)
    requires 0 < total && a <= b <= total
    ensures Percent(a, total) <= Percent(b, total)
  {
    var pa, pb := Percent(a, total), Percent(b, total);
    if pa > pb {
      MulMonotone(pb + 1, pa, total);
    }
  }

  /* ---------------------------------------------------------------------------
     The response and the page state
     ------------------------------------------------------------------------- */

  /** The response body as the page reads it: JSON whose `error` field may be
      absent, or text that is not a JSON object. */
  datatype ResponseText = Json(error: Option<string>) | NotJson

  /** The message shown for a failed response: the server's `error` field when
      present and non-empty, otherwise the generic message. Never empty. */
  function FailureMessage(body: ResponseText): (m: string)
    ensures m != ""
    ensures m != GenericFailure ==> body.Json? && body.error == Some(m)
    ensures body.Json? && body.error.Some? && body.error.value != "" ==> m == body.error.value
  {
    match body
    case NotJson => GenericFailure
    case Json(err) =>
      match err
      case Some(e) => if e != "" then e else GenericFailure
      case None => GenericFailure
  }

  /** The upload page's state: the selected bus, the queue of files, and the
      flags and messages the XHR callbacks update. */
  class UploadPage {
    var selectedBus: string
    var files: seq<File>
    var uploading: bool
    var progress: int
    var error: string
    var success: string

    /** The page never shows a success and an error together, shows no success
        while an upload is in flight, and the progress is a percentage. */
    ghost predicate Valid()
      reads this
    {
      && 0 <= progress <= 100
      && (success == "" || error == "")
      && (uploading ==> success == "")
    }

    constructor ()
      ensures Valid()
      ensures selectedBus == "" && files == [] && !uploading && progress == 0
      ensures error == "" && success == ""
    {
      selectedBus, files := "", [];
      uploading, progress := false, 0;
      error, success := "", "";
    }

    /** The bus selector's `onChange`. */
    method SelectBus(busId: string)
      requires Valid()
      modifies this`selectedBus
      ensures Valid() && selectedBus == busId
    {
      selectedBus := busId;
    }

    /** `handleFiles`: normalise the selection and append it to the queue; the
        messages are cleared, and the extraction error is set if an archive failed. */
    method HandleFiles(selection: seq<File>, unzip: File -> Archive)
      requires Valid()
      modifies this`files, this`error, this`success
      ensures Valid()
      ensures files == old(files) + Normalised(selection, unzip).files
      ensures error == (if Normalised(selection, unzip).failed then ExtractError else "")
      ensures success == ""
    {
      error := "";
      success := "";
      var newFiles, failed := ExpandSelection(selection, unzip);
      if failed {
        error := ExtractError;
      }
      files := files + newFiles;
    }

    /** `handleUpload`, run by the Upload button, which is disabled while a
        request is in flight, so at most one request is ever outstanding. With
        no bus selected or an empty queue, only the validation error is set and
        nothing is sent; otherwise the page enters the uploading state and
        sends the form built from the bus and the queue. */
    method HandleUpload() returns (sent: Option<seq<Part>>)
      requires Valid() && !uploading
      modifies this`uploading, this`progress, this`error, this`success
      ensures Valid()
      ensures sent.None? <==> selectedBus == "" || files == []
      ensures sent.None? ==> error == ValidationError && !uploading && progress == old(progress)
      ensures sent.Some? ==> error == "" && uploading && progress == 0
      ensures sent.Some? ==> |sent.value| == |files| + 1 && sent.value[0] == FieldPart("busId", selectedBus)
      ensures sent.Some? ==> forall k :: 0 <= k < |files| ==> sent.value[k + 1] == FilePart("files", files[k])
      ensures success == ""
    {
      error := "";
      success := "";
      if selectedBus == "" || |files| == 0 {
        error := ValidationError;
        return None;
      }
      uploading := true;
      progress := 0;
      var form := BuildFormData(selectedBus, files);
      sent := Some(form);
    }

    /** `xhr.upload.onprogress`: the percentage sent, when the transport knows
        the length of the body; otherwise the figure is left as it is. The
        body always holds the `busId` field, so a known length is positive. */
    method OnProgress(lengthComputable: bool, loaded: nat, total: nat)
      requires Valid()
      requires lengthComputable ==> 0 < total && loaded <= total
      modifies this`progress
      ensures Valid()
      ensures progress == if lengthComputable then Percent(loaded, total) else old(progress)
    {
      if lengthComputable {
        progress := Percent(loaded, total);
      }
    }

    /** `xhr.onload`: a 200 clears the queue and reports success; any other
        status keeps the queue and reports the server's error or the generic
        message. The upload is over either way. */
    method OnLoad(status: int, body: ResponseText)
      requires Valid() && uploading
      modifies this`files, this`uploading, this`progress, this`error, this`success
      ensures Valid()
      ensures !uploading && progress == 100
      ensures status == 200 ==> files == [] && success == UploadSucceeded && error == ""
      ensures status != 200 ==> files == old(files) && success == "" && error == FailureMessage(body)
    {
      uploading := false;
      progress := 100;
      if status == 200 {
        files := [];
        success := UploadSucceeded;
        error := "";
      } else {
        error := FailureMessage(body);
      }
    }

    /** `xhr.onerror`: no response arrived; the queue is kept for a retry. */
    method OnError()
      requires Valid() && uploading
      modifies this`uploading, this`error
      ensures Valid()
      ensures !uploading && error == GenericFailure
    {
      uploading := false;
      error := GenericFailure;
    }
  }

  /** The file input stays enabled during an upload, and a 200 empties the
      whole queue. So a file chosen while a request is in flight is queued
      behind the files being sent, is not in the form, and is gone once the
      request succeeds, without ever being sent. */
  method SelectionDuringUploadIsDropped(bus: string, a: File, extra: File, unzip: File -> Archive, body: ResponseText)
    returns (sent: seq<Part>, queued: seq<File>, left: seq<File>)
    requires bus != "" && !IsArchive(a) && !IsArchive(extra)
    ensures sent == [FieldPart("busId", bus), FilePart("files", a)]
    ensures queued == [a, extra]
    ensures left == []
  {
    var page := new UploadPage();
    page.SelectBus(bus);
    NoArchivesPassThrough([a], unzip);
    page.HandleFiles([a], unzip);
    var form := page.HandleUpload();
    NoArchivesPassThrough([extra], unzip);
    page.HandleFiles([extra], unzip);
    queued := page.files;
    page.OnLoad(200, body);
    left := page.files;
    sent := form.value;
  }
}
