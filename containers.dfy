/**
 * The decisions `AzureBlobContainerManager` makes before it hands a request
 * to the storage SDK: upload argument validation and dispatch, the default
 * download path, and the blob URL with an optional SAS query.
 */
module Containers {
  import opened Wrappers
  import opened PosixPath

  /**
   * A container manager as the account manager registers it: the container
   * it addresses and the directory downloads default to. No method of the
   * manager changes either field, so it is a value here.
   */
  datatype ContainerManager = ContainerManager(containerName: string, downloadDir: string)

  /** The `data` argument of `upload_blob`, by the runtime kinds the code distinguishes. */
  datatype Payload =
    | Bytes(bytes: seq<bv8>)       // `bytes`
    | Text(text: string)           // `str`
    | Buffer(contents: seq<bv8>)   // `io.BytesIO`
    | Object(truthy: bool)         // anything else (a dict, a list, ...), with its truthiness

  /** Python truthiness of `data`: None, b'' and '' are false; a BytesIO is always true. */
  predicate PayloadGiven(data: Option<Payload>)
  {
    match data
    case None => false
    case Some(Bytes(b)) => |b| > 0
    case Some(Text(t)) => |t| > 0
    case Some(Buffer(_)) => true
    case Some(Object(truthy)) => truthy
  }

  /** Python truthiness of an optional name: None and '' are false. */
  predicate NameGiven(name: Option<string>)
  {
    name.Some? && |name.value| > 0
  }

  /** `isinstance(data, t)` for some `t` in `(bytes, str, BytesIO)`. */
  predicate IsUploadable(payload: Payload)
  {
    payload.Bytes? || payload.Text? || payload.Buffer?
  }

  /** What is sent as the blob's content. */
  datatype Body =
    | FileContents(path: string)   // the opened local file
    | Data(payload: Payload)       // `data`, unchanged
    | JsonOf(payload: Payload)     // `data` encoded as UTF-8 JSON

  /** The one upload call made on the container's blob client. */
  datatype UploadRequest = UploadRequest(container: string, blobName: string, body: Body, overwrite: bool)

  datatype UploadError =
    | NotExactlyOneSource          // ValueError: both or neither of data and file_name
    | BlobNameRequired             // ValueError: data without blob_name
    | MissingExtension(name: string)  // ValueError: a name without extension
    | UnsupportedPayload           // TypeError: data of another kind, JSON encoding not asked for
    | EncoderMissing               // AttributeError: `self._encode_json` does not exist on this class

  /**
   * The destination of a file upload: `blob_name` when it is not None
   * (even when it is ''), otherwise the file's basename.
   */
  function FileDestination(fileName: string, blobName: Option<string>): string
  {
    if blobName.None? then Basename(fileName) else blobName.value
  }

  /** The loop's test on one name: absent, empty, or with an extension. */
  predicate ExtensionOk(name: Option<string>)
  {
    !NameGiven(name) || HasExtension(name.value)
  }

  /**
   * The outcome of `upload_blob`, as the docstring and the checks promise:
   * validation in a fixed order, then one upload request or a type error.
   */
  function UploadOutcome(mgr: ContainerManager, data: Option<Payload>, fileName: Option<string>,
                         blobName: Option<string>, overwrite: bool, encodeJson: bool): Result<UploadRequest, UploadError>
  {
    if PayloadGiven(data) == NameGiven(fileName) then Err(NotExactlyOneSource)
    else if PayloadGiven(data) && !NameGiven(blobName) then Err(BlobNameRequired)
    else if !ExtensionOk(blobName) then Err(MissingExtension(blobName.value))
    else if !ExtensionOk(fileName) then Err(MissingExtension(fileName.value))
    else if NameGiven(fileName) then
      Ok(UploadRequest(mgr.containerName, FileDestination(fileName.value, blobName), FileContents(fileName.value), overwrite))
    else if IsUploadable(data.value) then
      Ok(UploadRequest(mgr.containerName, blobName.value, Data(data.value), overwrite))
    else if encodeJson then
      Ok(UploadRequest(mgr.containerName, blobName.value, JsonOf(data.value), overwrite))
    else
      Err(UnsupportedPayload)
  }

  /**
   * `upload_blob`: the argument checks, the loop over `(blob_name, file_name)`
   * for extensions, then the choice of destination and of body. The request
   * returned is the one upload call made; the SDK's response to it is what
   * the source returns.
   */
  method UploadBlob(mgr: ContainerManager, data: Option<Payload>, fileName: Option<string>,
                    blobName: Option<string>, overwrite: bool, encodeJson: bool)
    returns (r: Result<UploadRequest, UploadError>)
    ensures r == UploadOutcome(mgr, data, fileName, blobName, overwrite, encodeJson)
  {
    if (PayloadGiven(data) && NameGiven(fileName)) || (!PayloadGiven(data) && !NameGiven(fileName)) {
      return Err(NotExactlyOneSource);
    }
    if PayloadGiven(data) && !NameGiven(blobName) {
      return Err(BlobNameRequired);
    }
    var names := [blobName, fileName];
    for i := 0 to |names|
      invariant forall j :: 0 <= j < i ==> ExtensionOk(names[j])
    {
      assert names[0] == blobName && names[1] == fileName;
      var x := names[i];
      if !ExtensionOk(x) {
        return Err(MissingExtension(x.value));
      }
    }
    assert names[0] == blobName && names[1] == fileName;
    var name := blobName;
    if NameGiven(fileName) {
      if name.None? {
        name := Some(Basename(fileName.value));
      }
      r := Ok(UploadRequest(mgr.containerName, name.value, FileContents(fileName.value), overwrite));
    } else {
      var payload := data.value;
      if !IsUploadable(payload) {
        if !encodeJson {
          return Err(UnsupportedPayload);
        }
        r := Ok(UploadRequest(mgr.containerName, name.value, JsonOf(payload), overwrite));
      } else {
        r := Ok(UploadRequest(mgr.containerName, name.value, Data(payload), overwrite));
      }
    }
  }

  // Properties of the upload decision

  /** Both or neither source given fails first, whatever the other arguments. */
  lemma ExactlyOneSource(mgr: ContainerManager, data: Option<Payload>, fileName: Option<string>,
                         blobName: Option<string>, overwrite: bool, encodeJson: bool)
    ensures UploadOutcome(mgr, data, fileName, blobName, overwrite, encodeJson) == Err(NotExactlyOneSource)
      <==> PayloadGiven(data) == NameGiven(fileName)
  {
  }

  /**
   * Every error other than the type error comes from the argument checks
   * alone: it does not depend on `overwrite`, `encode_json`, the container or
   * the payload's kind, and it is raised before any request exists.
   */
  lemma ValidationIsIndependentOfTheRest(mgr: ContainerManager, mgr': ContainerManager, data: Option<Payload>,
                                         data': Option<Payload>, fileName: Option<string>, blobName: Option<string>,
                                         overwrite: bool, overwrite': bool, encodeJson: bool, encodeJson': bool)
    requires PayloadGiven(data) == PayloadGiven(data')
    requires UploadOutcome(mgr, data, fileName, blobName, overwrite, encodeJson).Err?
    requires UploadOutcome(mgr, data, fileName, blobName, overwrite, encodeJson).error != UnsupportedPayload
    ensures UploadOutcome(mgr', data', fileName, blobName, overwrite', encodeJson') ==
            UploadOutcome(mgr, data, fileName, blobName, overwrite, encodeJson)
  {
  }

  /**
   * Each given name is checked on its own, the blob name first: a file name
   * without extension fails even when a blob name renames the upload.
   */
  lemma NamesCheckedInOrder(mgr: ContainerManager, data: Option<Payload>, fileName: Option<string>,
                            blobName: Option<string>, overwrite: bool, encodeJson: bool)
    requires PayloadGiven(data) != NameGiven(fileName)
    requires !PayloadGiven(data) || NameGiven(blobName)
    ensures var r := UploadOutcome(mgr, data, fileName, blobName, overwrite, encodeJson);
      (r.Err? && r.error.MissingExtension?) <==>
        ((NameGiven(blobName) && !HasExtension(blobName.value)) || (NameGiven(fileName) && !HasExtension(fileName.value)))
    ensures var r := UploadOutcome(mgr, data, fileName, blobName, overwrite, encodeJson);
      NameGiven(blobName) && !HasExtension(blobName.value) ==> r == Err(MissingExtension(blobName.value))
  {
  }

  /**
   * A successful file upload sends the file under `blob_name`, or under the
   * file's basename when `blob_name` is None; a data upload sends under
   * `blob_name`. The destination has an extension, except for the one case
   * the checks let through: a file with `blob_name` set to ''.
   */
  lemma UploadDestination(mgr: ContainerManager, data: Option<Payload>, fileName: Option<string>,
                          blobName: Option<string>, overwrite: bool, encodeJson: bool)
    requires UploadOutcome(mgr, data, fileName, blobName, overwrite, encodeJson).Ok?
    ensures var req := UploadOutcome(mgr, data, fileName, blobName, overwrite, encodeJson).value;
      && req.container == mgr.containerName
      && req.overwrite == overwrite
      && (NameGiven(fileName) ==>
            req.body == FileContents(fileName.value) && req.blobName == FileDestination(fileName.value, blobName))
      && (!NameGiven(fileName) ==> PayloadGiven(data) && NameGiven(blobName) && req.blobName == blobName.value)
      && (HasExtension(req.blobName) || (NameGiven(fileName) && blobName == Some("")))
  {
    if NameGiven(fileName) && blobName.None? {
      HasExtensionOfBasename(fileName.value);
    }
  }

  /**
   * With data given and the names valid, the payload's kind alone picks the
   * branch: bytes, str and BytesIO go unchanged, anything else is JSON-encoded
   * when asked for and a type error otherwise.
   */
  lemma PayloadDispatch(mgr: ContainerManager, payload: Payload, blobName: string, overwrite: bool, encodeJson: bool)
    requires PayloadGiven(Some(payload)) && |blobName| > 0 && HasExtension(blobName)
    ensures var r := UploadOutcome(mgr, Some(payload), None, Some(blobName), overwrite, encodeJson);
      && (IsUploadable(payload) ==> r == Ok(UploadRequest(mgr.containerName, blobName, Data(payload), overwrite)))
      && (!IsUploadable(payload) && encodeJson ==> r == Ok(UploadRequest(mgr.containerName, blobName, JsonOf(payload), overwrite)))
      && (!IsUploadable(payload) && !encodeJson ==> r == Err(UnsupportedPayload))
  {
  }

  /** The examples of the upload contract: neither source, both sources, data without a name. */
  lemma UploadRejections(mgr: ContainerManager, overwrite: bool, encodeJson: bool)
    ensures UploadOutcome(mgr, None, None, None, overwrite, encodeJson) == Err(NotExactlyOneSource)
    ensures UploadOutcome(mgr, Some(Bytes([0x64])), Some("file.txt"), None, overwrite, encodeJson) == Err(NotExactlyOneSource)
    ensures UploadOutcome(mgr, Some(Bytes([0x64])), None, None, overwrite, encodeJson) == Err(BlobNameRequired)
  {
  }

  /** Data under a name with no dot at all (such as "noext") is rejected for its missing extension. */
  lemma UploadRejectsNameWithoutDot(mgr: ContainerManager, data: Option<Payload>, name: string,
                                    overwrite: bool, encodeJson: bool)
    requires PayloadGiven(data) && |name| > 0 && '.' !in name
    ensures UploadOutcome(mgr, data, None, Some(name), overwrite, encodeJson) == Err(MissingExtension(name))
  {
    assert Basename(name)[0..] == Basename(name);
    LeadingDotsAreNotExtension(name, 0);
  }

  // Download path and blob URL

  /**
   * The path `download_blob` writes to: the given one, or the manager's
   * download directory joined with the blob name's basename.
   */
  function DownloadPath(mgr: ContainerManager, blobName: string, downloadPath: Option<string>): (path: string)
    ensures downloadPath.Some? ==> path == downloadPath.value
    ensures downloadPath.None? ==>
      |mgr.downloadDir| <= |path| && path[..|mgr.downloadDir|] == mgr.downloadDir &&
      Basename(path) == Basename(blobName)
  {
    if downloadPath.None? then
      JoinKeepsDirAndName(mgr.downloadDir, Basename(blobName));
      Join(mgr.downloadDir, Basename(blobName))
    else
      downloadPath.value
  }

  /**
   * `get_blob_url`: the URL the SDK gives the blob named by the basename of
   * `fileName`, followed by `?` and the SAS token when one is asked for.
   * `blobUrl` stands for the SDK's blob URL and `sasToken` for the token it
   * signs; both are outside this model.
   */
  function GetBlobUrl(fileName: string, includeSas: bool, blobUrl: string -> string, sasToken: string): string
  {
    var url := blobUrl(Basename(fileName));
    if includeSas then url + "?" + sasToken else url
  }

  /** The text before the first occurrence of `c`, or all of `s`. */
  function Before(s: string, c: char): (prefix: string)
    ensures c !in prefix && prefix <= s
    ensures |prefix| == |s| || s[|prefix|] == c
  {
    if |s| == 0 || s[0] == c then [] else [s[0]] + Before(s[1..], c)
  }

  lemma {:induction false} BeforeJoin(a: string, c: char, b: string)
    requires c !in a
    ensures Before(a + [c] + b, c) == a
  {
    if |a| > 0 {
      assert (a + [c] + b)[1..] == a[1..] + [c] + b;
      BeforeJoin(a[1..], c, b);
    } else {
      assert a + [c] + b == [c] + b;
    }
  }

  /**
   * With a SAS the URL is the URL without one, then `?`, then the token; as
   * long as the base URL has no query of its own, cutting at the first `?`
   * gives the URL without SAS back.
   */
  lemma SasUrlExtendsBaseUrl(fileName: string, blobUrl: string -> string, sasToken: string)
    ensures GetBlobUrl(fileName, true, blobUrl, sasToken) == GetBlobUrl(fileName, false, blobUrl, sasToken) + "?" + sasToken
    ensures '?' !in blobUrl(Basename(fileName)) ==>
      Before(GetBlobUrl(fileName, true, blobUrl, sasToken), '?') == GetBlobUrl(fileName, false, blobUrl, sasToken)
  {
    var base := blobUrl(Basename(fileName));
    if '?' !in base {
      BeforeJoin(base, '?', sasToken);
    }
  }

  /** The URL addresses the blob by basename: a path and its basename give the same URL. */
  lemma BlobUrlUsesBasename(fileName: string, includeSas: bool, blobUrl: string -> string, sasToken: string)
    ensures GetBlobUrl(fileName, includeSas, blobUrl, sasToken) == GetBlobUrl(Basename(fileName), includeSas, blobUrl, sasToken)
  {
    BasenameIdempotent(fileName);
  }

  // The JSON branch as the source writes it

  /**
   * `upload_blob` as written: the JSON branch calls `self._encode_json`, which
   * is defined on the account manager class only, so it raises AttributeError.
   */
  function UploadOutcomeAsWritten(mgr: ContainerManager, data: Option<Payload>, fileName: Option<string>,
                                  blobName: Option<string>, overwrite: bool, encodeJson: bool): Result<UploadRequest, UploadError>
  {
    var r := UploadOutcome(mgr, data, fileName, blobName, overwrite, encodeJson);
    if r.Ok? && r.value.body.JsonOf? then Err(EncoderMissing) else r
  }

  /**
   * As written, no call ever uploads JSON: a dict payload with `encode_json`
   * fails, where the intended behaviour uploads its JSON encoding.
   */
  lemma JsonUploadAsWrittenFails(mgr: ContainerManager, data: Option<Payload>, fileName: Option<string>,
                                 blobName: Option<string>, overwrite: bool, encodeJson: bool)
    ensures var r := UploadOutcomeAsWritten(mgr, data, fileName, blobName, overwrite, encodeJson);
      r.Ok? ==> !r.value.body.JsonOf?
    ensures data == Some(Object(true)) && !NameGiven(fileName) && NameGiven(blobName) && HasExtension(blobName.value) && encodeJson ==>
      && UploadOutcomeAsWritten(mgr, data, fileName, blobName, overwrite, encodeJson) == Err(EncoderMissing)
      && UploadOutcome(mgr, data, fileName, blobName, overwrite, encodeJson) ==
           Ok(UploadRequest(mgr.containerName, blobName.value, JsonOf(Object(true)), overwrite))
  {
  }
}
