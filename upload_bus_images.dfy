/** The ingestion endpoint `POST /api/uploadBusImages`: a chain of checks on the
    request (method, multipart parse outcome, bus id, file list), then a
    sequential loop that, for each file, uploads the asset to the content store
    and creates a `busImage` document referring to it. A failure part-way
    aborts the batch with a 500 and leaves the documents already created. */
module UploadBusImages {
  import opened Text

  /* ---------------------------------------------------------------------------
     Requests, responses and store calls
     ------------------------------------------------------------------------- */

  /** A text field of the parsed form: absent, one value, or several values
      (an array) when the field was sent more than once. */
  datatype FieldValue = Absent | Single(value: string) | Multiple(values: seq<string>)

  /** A file part saved by the multipart parser: its original name, and the
      bytes of its temporary copy (None when reading that copy throws). */
  datatype UploadedFile = UploadedFile(originalFilename: string, contents: Option<Bytes>)

  /** The `files` field of the parsed form: absent, one file object, or an array. */
  datatype FilesField = NoFiles | OneFile(file: UploadedFile) | FileArray(files: seq<UploadedFile>)

  /** What the multipart parser reports: the fields and files, or an error
      with its code and message. */
  datatype ParseOutcome = Parsed(busId: FieldValue, files: FilesField) | ParseError(code: int, message: string)

  datatype Request = Request(httpMethod: string, parse: ParseOutcome)

  /** An id chosen by the content store, known by the number of the store
      call that returned it (the store numbers its calls from 0). */
  datatype Id = Minted(call: nat)

  /** A reading of the clock (`new Date().toISOString()`): the reading taken
      while building the document for file j of the request. */
  datatype Instant = Reading(file: nat)

  /** The `busImage` document built for one file; its `_type` tags are the
      constants `busImage`, `reference` and `image`. */
  datatype ImageDoc = BusImage(busRef: string, labelText: string, assetRef: Id, uploadDate: Instant)

  /** A document as the store returns it after creating it. */
  datatype StoredDoc = StoredDoc(id: Id, doc: ImageDoc)

  datatype Body = ErrorBody(error: string) | Images(images: seq<StoredDoc>)

  datatype Response = Response(status: int, body: Body)

  /** A call made on the content store, whether it succeeded or threw. */
  datatype Call = UploadCall(filename: string, data: Bytes) | CreateCall(doc: ImageDoc)

  const SizeLimitCode := 1009
  const MethodNotAllowed := "Method not allowed"
  const TooLarge := "Uploaded files exceed the 1GB server limit. If you are using Vercel/Netlify, try a file under 100MB."
  const ParseFailurePrefix := "File parsing error. "
  const UnknownError := "Unknown error"
  const MissingBusId := "Missing busId"
  const NoFilesFound := "No files found in upload."
  const UploadFailed := "Failed to upload images. Try again."

  /* ---------------------------------------------------------------------------
     The label
     ------------------------------------------------------------------------- */

  /** The expression `/\.[^/.]+$/` matches `name` at position p: a dot followed
      by one or more characters, none of them a slash or a dot, up to the end. */
  ghost predicate ExtensionAt(name: string, p: int) {
    0 <= p < |name| - 1 && name[p] == '.' &&
    forall k :: p < k < |name| ==> name[k] != '/' && name[k] != '.'
  }

  /** `originalFilename.replace(/\.[^/.]+$/, "")`: cut from the last dot when
      it is not the last character and no slash follows it. */
  function StripExtension(name: string): (stem: string)
    ensures stem <= name
  {
    var dot := LastIndexOf(name, '.');
    LastIndexOfFinds(name, '.');
    var slash := LastIndexOf(name, '/');
    if dot.Some? && dot.value < |name| - 1 && (slash.None? || slash.value < dot.value) then
      name[..dot.value]
    else
      name
  }

  /** The label is the file name with the match of `/\.[^/.]+$/` removed, and
      the name itself when the expression does not match. */
  lemma StripExtensionRemovesMatch(name: string)
    ensures forall p :: ExtensionAt(name, p) ==> StripExtension(name) == name[..p]
    ensures (forall p :: !ExtensionAt(name, p)) ==> StripExtension(name) == name
    ensures StripExtension(name) != name ==> ExtensionAt(name, |StripExtension(name)|)
  {
    LastIndexOfFinds(name, '.');
    LastIndexOfFinds(name, '/');
    var dot := LastIndexOf(name, '.');
    var slash := LastIndexOf(name, '/');
    if dot.Some? && dot.value < |name| - 1 && (slash.None? || slash.value < dot.value) {
      assert ExtensionAt(name, dot.value);
    }
  }

  /** Labels of some typical names: the last extension goes, a trailing dot or
      a dot inside a directory part does not count as one. */
  lemma LabelExamples()
    ensures StripExtension("front.jpg") == "front"
    ensures StripExtension("a.b.jpg") == "a.b"
    ensures StripExtension("file.") == "file."
    ensures StripExtension("README") == "README"
    ensures StripExtension("v1.2/photo") == "v1.2/photo"
  {
    StripExtensionRemovesMatch("front.jpg");
    StripExtensionRemovesMatch("a.b.jpg");
    StripExtensionRemovesMatch("file.");
    StripExtensionRemovesMatch("README");
    StripExtensionRemovesMatch("v1.2/photo");
    assert ExtensionAt("front.jpg", 5);
    assert ExtensionAt("a.b.jpg", 3);
    assert forall p :: !ExtensionAt("file.", p);
    assert forall p :: !ExtensionAt("README", p);
    assert forall p :: !ExtensionAt("v1.2/photo", p) by {
      forall p | 0 <= p < 9 && "v1.2/photo"[p] == '.' ensures !ExtensionAt("v1.2/photo", p) {
        assert p == 2;
        assert "v1.2/photo"[4] == '/';
      }
    }
  }

  /* ---------------------------------------------------------------------------
     The commit loop, as a specification
     ------------------------------------------------------------------------- */

  /** The batch the loop works on: the bus id and the files. */
  datatype Batch = Batch(busId: string, files: seq<UploadedFile>)

  /** How the store behaves: `base` calls were made before this request; the
      call numbered `failAt` throws; any other call k returns `Minted(k)`. */
  datatype Plan = Plan(base: nat, failAt: Option<nat>)

  /** What the loop did: the calls it made, the documents it got back, and
      whether it went through every file. */
  datatype Commit = Commit(calls: seq<Call>, docs: seq<StoredDoc>, completed: bool)

  predicate Throws(plan: Plan, k: nat) {
    plan.failAt == Some(k)
  }

  /** The document for file j when every earlier file went through: its asset
      is the one uploaded by call base + 2j. */
  function DocAt(b: Batch, plan: Plan, j: nat): ImageDoc
    requires j < |b.files|
  {
    BusImage(b.busId, StripExtension(b.files[j].originalFilename), Minted(plan.base + 2 * j), Reading(j))
  }

  /** The document the store returns for file j: the one built for it, under
      the id of the create call that follows its upload. */
  function StoredAt(b: Batch, plan: Plan, j: nat): StoredDoc
    requires j < |b.files|
  {
    StoredDoc(Minted(plan.base + 2 * j + 1), DocAt(b, plan, j))
  }

  /** The call the loop makes at step `step` (0 upload, 1 create) of file j. */
  function ExpectedCall(b: Batch, plan: Plan, j: nat, step: nat): Call
    requires j < |b.files| && b.files[j].contents.Some?
  {
    if step == 0 then UploadCall(b.files[j].originalFilename, b.files[j].contents.value)
    else CreateCall(DocAt(b, plan, j))
  }

  /** The loop from file i on: read the file, upload it, build the document,
      create it, go on; anything that throws ends the loop. */
  function CommitFrom(b: Batch, i: nat, plan: Plan): (c: Commit)
    requires i <= |b.files|
    ensures |c.docs| <= |b.files| - i
    ensures c.completed ==> |c.docs| == |b.files| - i
    decreases |b.files| - i
  {
    if i == |b.files| then Commit([], [], true)
    else
      match b.files[i].contents
      case None => Commit([], [], false)
      case Some(data) =>
        var k := plan.base + 2 * i;
        var upload := ExpectedCall(b, plan, i, 0);
        if Throws(plan, k) then Commit([upload], [], false)
        else
          var create := ExpectedCall(b, plan, i, 1);
          if Throws(plan, k + 1) then Commit([upload, create], [], false)
          else
            var rest := CommitFrom(b, i + 1, plan);
            Commit([upload, create] + rest.calls, [StoredAt(b, plan, i)] + rest.docs, rest.completed)
  }

  /** Call j of the loop started at file i is step j % 2 (upload, then create)
      of file i + j / 2, and that file was readable. */
  predicate CallMatches(b: Batch, plan: Plan, i: nat, j: nat, call: Call) {
    i + j / 2 < |b.files| && b.files[i + j / 2].contents.Some? &&
    call == ExpectedCall(b, plan, i + j / 2, j % 2)
  }

  /** Store calls strictly alternate: upload of file j, then create of its
      document, file after file in input order, never more than two per file. */
  lemma {:induction false} CommitAlternates(b: Batch, i: nat, plan: Plan)
    requires i <= |b.files|
    ensures |CommitFrom(b, i, plan).calls| <= 2 * (|b.files| - i)
    ensures forall j :: 0 <= j < |CommitFrom(b, i, plan).calls| ==>
              CallMatches(b, plan, i, j, CommitFrom(b, i, plan).calls[j])
    decreases |b.files| - i
  {
    if i < |b.files| && b.files[i].contents.Some? {
      var k := plan.base + 2 * i;
      if !Throws(plan, k) && !Throws(plan, k + 1) {
        CommitAlternates(b, i + 1, plan);
        var c, rest := CommitFrom(b, i, plan).calls, CommitFrom(b, i + 1, plan).calls;
        assert c == [ExpectedCall(b, plan, i, 0), ExpectedCall(b, plan, i, 1)] + rest;
        forall j | 2 <= j < |c| ensures CallMatches(b, plan, i, j, c[j]) {
          assert c[j] == rest[j - 2];
          assert CallMatches(b, plan, i + 1, j - 2, rest[j - 2]);
          assert (i + 1) + (j - 2) / 2 == i + j / 2 && (j - 2) % 2 == j % 2;
        }
      }
    }
  }

  /** Each document follows a completed upload and create. After the last of
      them come at most the upload and the create of the file whose call
      threw: when its create throws, its asset is uploaded but no document
      refers to it. */
  lemma {:induction false} CommitCounts(b: Batch, i: nat, plan: Plan)
    requires i <= |b.files|
    ensures 2 * |CommitFrom(b, i, plan).docs| <= |CommitFrom(b, i, plan).calls| <= 2 * |CommitFrom(b, i, plan).docs| + 2
    ensures CommitFrom(b, i, plan).completed ==> |CommitFrom(b, i, plan).calls| == 2 * |CommitFrom(b, i, plan).docs|
    decreases |b.files| - i
  {
    if i < |b.files| && b.files[i].contents.Some? {
      var k := plan.base + 2 * i;
      if !Throws(plan, k) && !Throws(plan, k + 1) {
        CommitCounts(b, i + 1, plan);
      }
    }
  }

  /** Every document the loop gets back is the one built for its file, in
      input order, carrying the asset id of that file's upload. */
  lemma {:induction false} CommitDocs(b: Batch, i: nat, plan: Plan)
    requires i <= |b.files|
    ensures i + |CommitFrom(b, i, plan).docs| <= |b.files|
    ensures forall n :: 0 <= n < |CommitFrom(b, i, plan).docs| ==>
              CommitFrom(b, i, plan).docs[n] == StoredAt(b, plan, i + n)
    decreases |b.files| - i
  {
    if i < |b.files| && b.files[i].contents.Some? {
      var k := plan.base + 2 * i;
      CommitStep(b, i, plan);
      if !Throws(plan, k) && !Throws(plan, k + 1) {
        CommitDocs(b, i + 1, plan);
        DocsCons(b, plan, i, CommitFrom(b, i + 1, plan).docs);
      }
    }
  }

  /** Putting file i's document in front of the documents of files i+1, ...
      gives the documents of files i, i+1, ... */
  lemma DocsCons(b: Batch, plan: Plan, i: nat, rest: seq<StoredDoc>)
    requires i + 1 + |rest| <= |b.files|
    requires forall n :: 0 <= n < |rest| ==> rest[n] == StoredAt(b, plan, i + 1 + n)
    ensures forall n :: 0 <= n < |rest| + 1 ==> ([StoredAt(b, plan, i)] + rest)[n] == StoredAt(b, plan, i + n)
  {
  }

  /** One turn of the loop on a readable file i: the upload throws, the
      create throws, or both go through and the loop goes on with file i + 1. */
  lemma CommitStep(b: Batch, i: nat, plan: Plan)
    requires i < |b.files| && b.files[i].contents.Some?
    ensures Throws(plan, plan.base + 2 * i) ==>
              CommitFrom(b, i, plan) == Commit([ExpectedCall(b, plan, i, 0)], [], false)
    ensures !Throws(plan, plan.base + 2 * i) && Throws(plan, plan.base + 2 * i + 1) ==>
              CommitFrom(b, i, plan) == Commit([ExpectedCall(b, plan, i, 0), ExpectedCall(b, plan, i, 1)], [], false)
    ensures !Throws(plan, plan.base + 2 * i) && !Throws(plan, plan.base + 2 * i + 1) ==>
              CommitFrom(b, i, plan) ==
              Commit([ExpectedCall(b, plan, i, 0), ExpectedCall(b, plan, i, 1)] + CommitFrom(b, i + 1, plan).calls,
                     [StoredAt(b, plan, i)] + CommitFrom(b, i + 1, plan).docs,
                     CommitFrom(b, i + 1, plan).completed)
  {
  }

  /** Concatenation is associative: the handler appends calls at the back,
      while `CommitFrom` builds them from the front. Dafny knows this fact;
      the calls only point the solver at the regrouping a proof needs. */
  lemma AppendAssoc<T>(a: seq<T>, b: seq<T>, c: seq<T>)
    ensures (a + b) + c == a + (b + c)
  {
  }

  /** The first n files were readable and none of their store calls threw. */
  predicate WentThrough(b: Batch, plan: Plan, n: nat) {
    n <= |b.files| &&
    (forall j :: 0 <= j < n ==> b.files[j].contents.Some?) &&
    (plan.failAt.None? || plan.failAt.value < plan.base || plan.base + 2 * n <= plan.failAt.value)
  }

  /** The calls made for the first n files when all of them went through. */
  function CallsBefore(b: Batch, plan: Plan, n: nat): seq<Call>
    requires WentThrough(b, plan, n)
  {
    if n == 0 then []
    else CallsBefore(b, plan, n - 1) + [ExpectedCall(b, plan, n - 1, 0), ExpectedCall(b, plan, n - 1, 1)]
  }

  /** The documents created for the first n files when all of them went through. */
  function DocsBefore(b: Batch, plan: Plan, n: nat): seq<StoredDoc>
    requires n <= |b.files|
  {
    if n == 0 then [] else DocsBefore(b, plan, n - 1) + [StoredAt(b, plan, n - 1)]
  }

  /** Once the first n files went through, the loop is what it did for them
      followed by what it does from file n on. */
  lemma {:induction false} CommitPrefix(b: Batch, plan: Plan, n: nat)
    requires WentThrough(b, plan, n)
    ensures CommitFrom(b, 0, plan).calls == CallsBefore(b, plan, n) + CommitFrom(b, n, plan).calls
    ensures CommitFrom(b, 0, plan).docs == DocsBefore(b, plan, n) + CommitFrom(b, n, plan).docs
    ensures CommitFrom(b, 0, plan).completed == CommitFrom(b, n, plan).completed
  {
    if n > 0 {
      var m := n - 1;
      assert WentThrough(b, plan, m);
      CommitPrefix(b, plan, m);
      assert !Throws(plan, plan.base + 2 * m) && !Throws(plan, plan.base + 2 * m + 1);
      CommitStep(b, m, plan);
      AppendAssoc(CallsBefore(b, plan, m), [ExpectedCall(b, plan, m, 0), ExpectedCall(b, plan, m, 1)], CommitFrom(b, n, plan).calls);
      AppendAssoc(DocsBefore(b, plan, m), [StoredAt(b, plan, m)], CommitFrom(b, n, plan).docs);
    }
  }

  /** A turn on file i that went through extends the calls by that file's
      upload and create and the documents by its document. */
  lemma TurnGoesOn(b: Batch, plan: Plan, i: nat, made: seq<Call>, log0: seq<Call>, log: seq<Call>)
    requires WentThrough(b, plan, i) && i < |b.files| && b.files[i].contents.Some?
    requires !Throws(plan, plan.base + 2 * i) && !Throws(plan, plan.base + 2 * i + 1)
    requires made == [ExpectedCall(b, plan, i, 0), ExpectedCall(b, plan, i, 1)]
    requires log == log0 + CallsBefore(b, plan, i) + made
    ensures WentThrough(b, plan, i + 1)
    ensures log == log0 + CallsBefore(b, plan, i + 1)
    ensures DocsBefore(b, plan, i + 1) == DocsBefore(b, plan, i) + [StoredAt(b, plan, i)]
  {
    AppendAssoc(log0, CallsBefore(b, plan, i), made);
  }

  /** A turn on file i that threw after the first i files went through ends
      the loop with the calls made so far and the documents of files 0..i-1. */
  lemma LoopStops(b: Batch, plan: Plan, i: nat, made: seq<Call>, log0: seq<Call>, log: seq<Call>)
    requires WentThrough(b, plan, i) && i < |b.files|
    requires CommitFrom(b, i, plan) == Commit(made, [], false)
    requires log == log0 + CallsBefore(b, plan, i) + made
    ensures log == log0 + CommitFrom(b, 0, plan).calls
    ensures CommitFrom(b, 0, plan).docs == DocsBefore(b, plan, i)
    ensures !CommitFrom(b, 0, plan).completed
  {
    CommitPrefix(b, plan, i);
    AppendAssoc(log0, CallsBefore(b, plan, i), made);
    assert DocsBefore(b, plan, i) + [] == DocsBefore(b, plan, i);
  }

  /** When every file went through, the loop completes with the calls and
      documents of all of them. */
  lemma LoopEnds(b: Batch, plan: Plan, log0: seq<Call>, log: seq<Call>)
    requires WentThrough(b, plan, |b.files|)
    requires log == log0 + CallsBefore(b, plan, |b.files|)
    ensures log == log0 + CommitFrom(b, 0, plan).calls
    ensures CommitFrom(b, 0, plan).docs == DocsBefore(b, plan, |b.files|)
    ensures CommitFrom(b, 0, plan).completed
  {
    CommitPrefix(b, plan, |b.files|);
    assert CallsBefore(b, plan, |b.files|) + [] == CallsBefore(b, plan, |b.files|);
    assert DocsBefore(b, plan, |b.files|) + [] == DocsBefore(b, plan, |b.files|);
  }

  /** With every file readable and no store call failing, the loop goes
      through: one document per file, in input order. */
  lemma {:induction false} CommitSucceeds(b: Batch, i: nat, plan: Plan)
    requires i <= |b.files| && WentThrough(b, plan, |b.files|)
    ensures CommitFrom(b, i, plan).completed
    ensures |CommitFrom(b, i, plan).docs| == |b.files| - i
    ensures |CommitFrom(b, i, plan).calls| == 2 * (|b.files| - i)
    decreases |b.files| - i
  {
    if i < |b.files| {
      var k := plan.base + 2 * i;
      assert !Throws(plan, k) && !Throws(plan, k + 1);
      CommitSucceeds(b, i + 1, plan);
    }
  }

  /** If the upload (step 0) or the create (step 1) of file m throws, the loop
      stops there: the documents of the files before m stay created, the calls
      end with the one that threw, and nothing is called for later files. */
  lemma {:induction false} CommitStopsAtFailure(b: Batch, i: nat, plan: Plan, m: nat, step: nat)
    requires i <= m < |b.files| && step <= 1
    requires forall j :: i <= j <= m ==> b.files[j].contents.Some?
    requires plan.failAt == Some(plan.base + 2 * m + step)
    ensures !CommitFrom(b, i, plan).completed
    ensures |CommitFrom(b, i, plan).docs| == m - i
    ensures |CommitFrom(b, i, plan).calls| == 2 * (m - i) + step + 1
    decreases m - i
  {
    if i < m {
      CommitStopsAtFailure(b, i + 1, plan, m, step);
    }
  }

  /** If the temporary copy of file m cannot be read, the loop stops before
      any call for it: the documents of the files before m stay created. */
  lemma {:induction false} CommitStopsAtUnreadable(b: Batch, i: nat, plan: Plan, m: nat)
    requires i <= m < |b.files| && WentThrough(b, plan, m)
    requires b.files[m].contents.None?
    ensures !CommitFrom(b, i, plan).completed
    ensures |CommitFrom(b, i, plan).docs| == m - i
    ensures |CommitFrom(b, i, plan).calls| == 2 * (m - i)
    decreases m - i
  {
    if i < m {
      var k := plan.base + 2 * i;
      assert !Throws(plan, k) && !Throws(plan, k + 1);
      CommitStopsAtUnreadable(b, i + 1, plan, m);
    }
  }

  /* ---------------------------------------------------------------------------
     The handler, as a specification
     ------------------------------------------------------------------------- */

  /** What the handler does: its response, the store calls it makes and the
      documents it leaves created. */
  datatype Outcome = Outcome(response: Response, calls: seq<Call>, docs: seq<StoredDoc>)

  /** `if (Array.isArray(busId)) busId = busId[0]`: an array gives its first
      element, or nothing when it is empty. */
  function FirstValue(v: FieldValue): (r: FieldValue)
    ensures !r.Multiple?
    ensures v.Multiple? && |v.values| > 0 ==> r == Single(v.values[0])
    ensures v.Multiple? && |v.values| == 0 ==> r == Absent
    ensures !v.Multiple? ==> r == v
  {
    match v
    case Multiple(values) => if |values| == 0 then Absent else Single(values[0])
    case _ => v
  }

  /** `!busId` after normalisation: undefined or the empty string. */
  predicate Falsy(v: FieldValue) {
    v.Absent? || (v.Single? && v.value == "")
  }

  /** `if (!Array.isArray(fileArr)) fileArr = [fileArr]`. */
  function AsFileList(f: FilesField): seq<UploadedFile>
    requires !f.NoFiles?
  {
    match f
    case OneFile(file) => [file]
    case FileArray(files) => files
  }

  /** The request got past every check and reaches the loop. */
  predicate Accepted(req: Request) {
    req.httpMethod == "POST" && req.parse.Parsed? &&
    !Falsy(FirstValue(req.parse.busId)) && !req.parse.files.NoFiles?
  }

  /** The batch an accepted request hands to the loop. */
  function BatchOf(req: Request): Batch
    requires Accepted(req)
  {
    Batch(FirstValue(req.parse.busId).value, AsFileList(req.parse.files))
  }

  /** The request the handler receives and the store's behaviour determine its
      outcome: the response, the store calls made and the documents left
      created. */
  function Respond(req: Request, plan: Plan): (out: Outcome)
    ensures !Accepted(req) ==> out.calls == [] && out.docs == []
    ensures out.response.status == 200 ==> Accepted(req) && |out.docs| == |AsFileList(req.parse.files)|
  {
    if req.httpMethod != "POST" then
      Outcome(Response(405, ErrorBody(MethodNotAllowed)), [], [])
    else
      match req.parse
      case ParseError(code, message) =>
        if code == SizeLimitCode then Outcome(Response(413, ErrorBody(TooLarge)), [], [])
        else Outcome(Response(500, ErrorBody(ParseFailurePrefix + (if message != "" then message else UnknownError))), [], [])
      case Parsed(busIdField, filesField) =>
        if Falsy(FirstValue(busIdField)) then Outcome(Response(400, ErrorBody(MissingBusId)), [], [])
        else if filesField.NoFiles? then Outcome(Response(400, ErrorBody(NoFilesFound)), [], [])
        else
          var c := CommitFrom(BatchOf(req), 0, plan);
          if c.completed then Outcome(Response(200, Images(c.docs)), c.calls, c.docs)
          else Outcome(Response(500, ErrorBody(UploadFailed)), c.calls, c.docs)
  }

  /** The checks run in order: method, parse outcome, bus id, files. A request
      stopped by one of them gets its status and message and makes no store
      call at all; in particular a missing bus id is reported whatever the
      files are. */
  lemma RespondRejects(req: Request, plan: Plan)
    ensures req.httpMethod != "POST" ==>
              Respond(req, plan) == Outcome(Response(405, ErrorBody(MethodNotAllowed)), [], [])
    ensures req.httpMethod == "POST" && req.parse.ParseError? && req.parse.code == SizeLimitCode ==>
              Respond(req, plan) == Outcome(Response(413, ErrorBody(TooLarge)), [], [])
    ensures req.httpMethod == "POST" && req.parse.ParseError? && req.parse.code != SizeLimitCode ==>
              Respond(req, plan).calls == [] && Respond(req, plan).docs == [] &&
              Respond(req, plan).response ==
              Response(500, ErrorBody(ParseFailurePrefix + (if req.parse.message != "" then req.parse.message else UnknownError)))
    ensures req.httpMethod == "POST" && req.parse.Parsed? && Falsy(FirstValue(req.parse.busId)) ==>
              Respond(req, plan) == Outcome(Response(400, ErrorBody(MissingBusId)), [], [])
    ensures req.httpMethod == "POST" && req.parse.Parsed? && !Falsy(FirstValue(req.parse.busId)) && req.parse.files.NoFiles? ==>
              Respond(req, plan) == Outcome(Response(400, ErrorBody(NoFilesFound)), [], [])
    ensures req.httpMethod == "POST" && req.parse.Parsed? && req.parse.busId == Multiple([]) ==>
              Respond(req, plan) == Outcome(Response(400, ErrorBody(MissingBusId)), [], [])
    ensures !Accepted(req) ==> Respond(req, plan).calls == [] && Respond(req, plan).docs == []
  {
  }

  /** Every answer is one of 200, 400, 405, 413 and 500; 400 means exactly a
      missing bus id or missing files; 200 means exactly that the loop went
      through every file, and then the body lists the documents created. */
  lemma RespondStatuses(req: Request, plan: Plan)
    ensures Respond(req, plan).response.status in {200, 400, 405, 413, 500}
    ensures Respond(req, plan).response.status == 400 <==>
              req.httpMethod == "POST" && req.parse.Parsed? &&
              (Falsy(FirstValue(req.parse.busId)) || req.parse.files.NoFiles?)
    ensures Respond(req, plan).response.status == 200 <==>
              Accepted(req) && CommitFrom(BatchOf(req), 0, plan).completed
    ensures Respond(req, plan).response.status == 200 <==> Respond(req, plan).response.body.Images?
    ensures Respond(req, plan).response.status == 200 ==>
              Respond(req, plan).response.body.images == Respond(req, plan).docs
    ensures Accepted(req) ==>
              Respond(req, plan).calls == CommitFrom(BatchOf(req), 0, plan).calls &&
              Respond(req, plan).docs == CommitFrom(BatchOf(req), 0, plan).docs
  {
  }

  /** With every file readable and no store call of this request throwing, the
      answer is 200 and lists one created document per file, in input order:
      document k refers to the bus, carries the label of file k, refers to the
      asset that file k's upload returned, and comes back under the id of the
      create call that follows. */
  lemma RespondSucceeds(req: Request, plan: Plan)
    requires Accepted(req) && WentThrough(BatchOf(req), plan, |AsFileList(req.parse.files)|)
    ensures Respond(req, plan).response.status == 200
    ensures |Respond(req, plan).docs| == |AsFileList(req.parse.files)|
    ensures |Respond(req, plan).calls| == 2 * |AsFileList(req.parse.files)|
    ensures forall k :: 0 <= k < |Respond(req, plan).docs| ==>
              Respond(req, plan).docs[k] ==
              StoredDoc(Minted(plan.base + 2 * k + 1),
                        BusImage(FirstValue(req.parse.busId).value,
                                 StripExtension(AsFileList(req.parse.files)[k].originalFilename),
                                 Minted(plan.base + 2 * k), Reading(k)))
  {
    var b := BatchOf(req);
    CommitSucceeds(b, 0, plan);
    CommitDocs(b, 0, plan);
  }

  /** If the upload (step 0) or the create (step 1) of file m throws, the
      answer is 500 with the upload failure message; the documents of files
      0..m-1 stay created, and the calls end with the one that threw. */
  lemma RespondFailsAtCall(req: Request, plan: Plan, m: nat, step: nat)
    requires Accepted(req)
    requires m < |AsFileList(req.parse.files)| && step <= 1
    requires forall j :: 0 <= j <= m ==> AsFileList(req.parse.files)[j].contents.Some?
    requires plan.failAt == Some(plan.base + 2 * m + step)
    ensures Respond(req, plan).response == Response(500, ErrorBody(UploadFailed))
    ensures |Respond(req, plan).docs| == m
    ensures forall k :: 0 <= k < m ==> Respond(req, plan).docs[k] == StoredAt(BatchOf(req), plan, k)
    ensures |Respond(req, plan).calls| == 2 * m + step + 1
    ensures Respond(req, plan).calls[2 * m + step] == ExpectedCall(BatchOf(req), plan, m, step)
  {
    var b := BatchOf(req);
    CommitStopsAtFailure(b, 0, plan, m, step);
    CommitDocs(b, 0, plan);
    CommitAlternates(b, 0, plan);
    assert CallMatches(b, plan, 0, 2 * m + step, CommitFrom(b, 0, plan).calls[2 * m + step]);
    assert (2 * m + step) / 2 == m && (2 * m + step) % 2 == step;
  }

  /** If the temporary copy of file m cannot be read, the answer is 500 with
      the upload failure message; the documents of files 0..m-1 stay created
      and no store call is made for file m or after it. */
  lemma RespondFailsAtRead(req: Request, plan: Plan, m: nat)
    requires Accepted(req)
    requires m < |AsFileList(req.parse.files)|
    requires forall j :: 0 <= j < m ==> AsFileList(req.parse.files)[j].contents.Some?
    requires AsFileList(req.parse.files)[m].contents.None?
    requires plan.failAt.None? || plan.failAt.value < plan.base || plan.base + 2 * m <= plan.failAt.value
    ensures Respond(req, plan).response == Response(500, ErrorBody(UploadFailed))
    ensures |Respond(req, plan).docs| == m
    ensures forall k :: 0 <= k < m ==> Respond(req, plan).docs[k] == StoredAt(BatchOf(req), plan, k)
    ensures |Respond(req, plan).calls| == 2 * m
  {
    var b := BatchOf(req);
    assert WentThrough(b, plan, m);
    CommitStopsAtUnreadable(b, 0, plan, m);
    CommitDocs(b, 0, plan);
    assert !CommitFrom(b, 0, plan).completed;
  }

  /** A bus id sent several times counts as its first value. */
  lemma RepeatedBusIdUsesFirst(req: Request, plan: Plan)
    requires req.parse.Parsed? && req.parse.busId.Multiple? && |req.parse.busId.values| > 0
    ensures Respond(req, plan) == Respond(req.(parse := req.parse.(busId := Single(req.parse.busId.values[0]))), plan)
  {
  }

  /** A single file is handled as a list of one file. */
  lemma SingleFileIsListOfOne(req: Request, plan: Plan)
    requires req.parse.Parsed? && req.parse.files.OneFile?
    ensures Respond(req, plan) == Respond(req.(parse := req.parse.(files := FileArray([req.parse.files.file]))), plan)
  {
  }

  /** Two images for bus "bus-42" with no failure: two documents, labelled
      "front" and "side", in that order. */
  lemma TwoImagesForOneBus(front: Bytes, side: Bytes, base: nat)
    ensures var req := Request("POST", Parsed(Single("bus-42"),
                          FileArray([UploadedFile("front.jpg", Some(front)), UploadedFile("side.png", Some(side))])));
            var out := Respond(req, Plan(base, None));
            out.response.status == 200 && |out.docs| == 2 &&
            out.docs[0].doc.labelText == "front" && out.docs[1].doc.labelText == "side" &&
            out.docs[0].doc.busRef == "bus-42" && out.docs[1].doc.busRef == "bus-42" &&
            out.docs[1].doc.assetRef == Minted(base + 2)
  {
    var req := Request("POST", Parsed(Single("bus-42"),
                 FileArray([UploadedFile("front.jpg", Some(front)), UploadedFile("side.png", Some(side))])));
    RespondSucceeds(req, Plan(base, None));
    StripExtensionRemovesMatch("front.jpg");
    StripExtensionRemovesMatch("side.png");
    assert ExtensionAt("front.jpg", 5);
    assert ExtensionAt("side.png", 4);
  }

  /* ---------------------------------------------------------------------------
     The handler, as it runs
     ------------------------------------------------------------------------- */

  /** The content store as the handler sees it: calls are numbered from 0 in
      the order they are made; the call numbered `failAt` throws, and any
      other call k answers with the id `Minted(k)`. The log of calls and the
      documents created are kept for the proofs. */
  class Store {
    const failAt: Option<nat>
    var count: nat
    ghost var log: seq<Call>
    ghost var created: seq<StoredDoc>

    ghost predicate Valid()
      reads this
    {
      count == |log|
    }

    constructor (failAt: Option<nat>)
      ensures Valid()
      ensures this.failAt == failAt
      ensures count == 0 && log == [] && created == []
    {
      this.failAt := failAt;
      count := 0;
      log := [];
      created := [];
    }

    /** `sanity.assets.upload("image", data, { filename })`: the id of the new
        asset, or None when the call throws. */
    method Upload(filename: string, data: Bytes) returns (assetId: Option<Id>)
      requires Valid()
      modifies this
      ensures Valid()
      ensures count == old(count) + 1
      ensures log == old(log) + [UploadCall(filename, data)]
      ensures created == old(created)
      ensures assetId == if failAt == Some(old(count)) then None else Some(Minted(old(count)))
    {
      if failAt == Some(count) {
        assetId := None;
      } else {
        assetId := Some(Minted(count));
      }
      log := log + [UploadCall(filename, data)];
      count := count + 1;
    }

    /** `sanity.create(doc)`: the stored document, or None when the call throws. */
    method Create(doc: ImageDoc) returns (stored: Option<StoredDoc>)
      requires Valid()
      modifies this
      ensures Valid()
      ensures count == old(count) + 1
      ensures log == old(log) + [CreateCall(doc)]
      ensures stored == if failAt == Some(old(count)) then None else Some(StoredDoc(Minted(old(count)), doc))
      ensures created == old(created) + (if stored.Some? then [stored.value] else [])
    {
      if failAt == Some(count) {
        stored := None;
      } else {
        stored := Some(StoredDoc(Minted(count), doc));
        created := created + [stored.value];
      }
      log := log + [CreateCall(doc)];
      count := count + 1;
    }
  }

  /** The body of the loop for file i: read its bytes, upload them, build its
      document around the new asset id, create the document; anything that
      throws ends the turn. The calls it makes, and whether it returns a
      document and which, are those of `CommitFrom` for file i. */
  method UploadFile(store: Store, ghost b: Batch, ghost plan: Plan, i: nat, busId: string, file: UploadedFile)
      returns (stored: Option<StoredDoc>, ghost made: seq<Call>)
    requires store.Valid()
    requires busId == b.busId && i < |b.files| && b.files[i] == file
    requires store.failAt == plan.failAt && store.count == plan.base + 2 * i
    modifies store
    ensures store.Valid()
    ensures store.log == old(store.log) + made
    ensures store.created == old(store.created) + (if stored.Some? then [stored.value] else [])
    ensures stored.None? ==> CommitFrom(b, i, plan) == Commit(made, [], false)
    ensures stored.Some? ==>
              file.contents.Some? && !Throws(plan, plan.base + 2 * i) && !Throws(plan, plan.base + 2 * i + 1) &&
              made == [ExpectedCall(b, plan, i, 0), ExpectedCall(b, plan, i, 1)] &&
              stored.value == StoredAt(b, plan, i)
  {
    if file.contents.None? {
      return None, [];
    }
    var data := file.contents.value;
    var assetId := store.Upload(file.originalFilename, data);
    made := [UploadCall(file.originalFilename, data)];
    if assetId.None? {
      return None, made;
    }
    var doc := BusImage(busId, StripExtension(file.originalFilename), assetId.value, Reading(i));
    stored := store.Create(doc);
    AppendAssoc(old(store.log), made, [CreateCall(doc)]);
    made := made + [CreateCall(doc)];
  }

  /** The loop of the handler over the normalised file list: the calls it
      makes, the documents it gets back and whether it went through every file
      are those of `CommitFrom`, for a store whose next call is numbered
      `store.count`. */
  method UploadAll(store: Store, busId: string, fileArr: seq<UploadedFile>)
      returns (completed: bool, results: seq<StoredDoc>)
    requires store.Valid()
    modifies store
    ensures store.Valid()
    ensures completed == CommitFrom(Batch(busId, fileArr), 0, Plan(old(store.count), store.failAt)).completed
    ensures results == CommitFrom(Batch(busId, fileArr), 0, Plan(old(store.count), store.failAt)).docs
    ensures store.log == old(store.log) + CommitFrom(Batch(busId, fileArr), 0, Plan(old(store.count), store.failAt)).calls
    ensures store.created == old(store.created) + results
  {
    ghost var b := Batch(busId, fileArr);
    ghost var plan := Plan(store.count, store.failAt);
    results := [];
    var i := 0;
    while i < |fileArr|
      invariant store.Valid()
      invariant store.count == plan.base + 2 * i
      invariant WentThrough(b, plan, i)
      invariant store.log == old(store.log) + CallsBefore(b, plan, i)
      invariant results == DocsBefore(b, plan, i)
      invariant store.created == old(store.created) + results
    {
      var stored, made := UploadFile(store, b, plan, i, busId, fileArr[i]);
      if stored.None? {
        LoopStops(b, plan, i, made, old(store.log), store.log);
        return false, results;
      }
      TurnGoesOn(b, plan, i, made, old(store.log), store.log);
      results := results + [stored.value];
      i := i + 1;
    }
    LoopEnds(b, plan, old(store.log), store.log);
    return true, results;
  }

  /** The handler: the response it sends, the calls it makes on the store and
      the documents it leaves there are those of `Respond`, for a store whose
      next call is numbered `store.count`. */
  method Handle(req: Request, store: Store) returns (resp: Response)
    requires store.Valid()
    modifies store
    ensures store.Valid()
    ensures resp == Respond(req, Plan(old(store.count), store.failAt)).response
    ensures store.log == old(store.log) + Respond(req, Plan(old(store.count), store.failAt)).calls
    ensures store.created == old(store.created) + Respond(req, Plan(old(store.count), store.failAt)).docs
  {
    if req.httpMethod != "POST" {
      return Response(405, ErrorBody(MethodNotAllowed));
    }
    if req.parse.ParseError? {
      if req.parse.code == SizeLimitCode {
        return Response(413, ErrorBody(TooLarge));
      }
      var message := if req.parse.message != "" then req.parse.message else UnknownError;
      return Response(500, ErrorBody(ParseFailurePrefix + message));
    }
    var busId := req.parse.busId;
    if busId.Multiple? {
      busId := FirstValue(busId);
    }
    if Falsy(busId) {
      return Response(400, ErrorBody(MissingBusId));
    }
    if req.parse.files.NoFiles? {
      return Response(400, ErrorBody(NoFilesFound));
    }
    var fileArr := AsFileList(req.parse.files);
    var completed, results := UploadAll(store, busId.value, fileArr);
    if completed {
      resp := Response(200, Images(results));
    } else {
      resp := Response(500, ErrorBody(UploadFailed));
    }
  }
}
