# azb-manager decision logic in Dafny

This project models the parts of `azb_client.AzureBlobStorageClient` that decide something without the Azure Storage SDK:

- the connection-string parser of `AzureBlobStorageAccountManager`, and the constructor's lookup of the account name;
- the argument checks and payload dispatch of `AzureBlobContainerManager.upload_blob`;
- the default download path of `download_blob`;
- the blob URL of `get_blob_url`;
- the container registry that `_set_container_clients` fills, and the account manager's forwarding `upload_blob`.

Everything the SDK does is outside the model. The blob URL and the SAS token enter as parameters. An upload ends in the `UploadRequest` the code would hand to the blob client; the SDK's response to it is what the source returns.

Modules:

- `Wrappers` (wrappers.dfy): `Option` and `Result`.
- `PosixPath` (posix_path.dfy): `str.rfind`, and `basename`, `splitext` and two-argument `join` of `os.path` on POSIX.
- `ConnString` (conn_string.dfy): `_parse_conn_string`. It is a method with the source's loop over segments, proved equal to the specification function `Parse`. It also holds the `AccountName` lookup.
- `Containers` (containers.dfy): the container manager and the upload decision. `UploadBlob` is a method with the source's loop over `(blob_name, file_name)`, proved equal to `UploadOutcome`. The module also holds `DownloadPath` and `GetBlobUrl`. No method changes a manager's fields, so `ContainerManager` is a datatype value.
- `Account` (account.dfy): the class `StorageAccountManager`. Its `containers` map stands for the attributes that `setattr` adds. `SetContainerClients` fills it in a loop and keeps the invariant that every entry is a manager for its own name with the account's download directory.

In three places the code does less than its own names and comments suggest. The model follows the code:

- The parsed dictionary is compared with `expected_schema` (line 192), but only keys outside the four are rejected, and the `isinstance` test on line 204 checks the key, which is always a string. No key is required. A missing `AccountName` fails only at the lookup. Other connection-string variants (`SharedAccessSignature`, `BlobEndpoint`, ...) are rejected.
- The docstring of `upload_blob` (line 96) makes `blob_name` the destination and the file's basename only its default. The loop at lines 113-115 still checks the extension of every given name. A file without an extension fails even when `blob_name` renames it (`NamesCheckedInOrder`).
- The `except AttributeError` at line 234 is there for an unknown container name. An unknown container is modelled as `ContainerNotSet`. The same handler also catches any AttributeError raised inside the forwarded call (see "## Findings").

A segment is split on every `=` (line 201), so any value containing `=` is rejected. That includes a base64 account key with `==` padding (`PaddedValueFails`).

## Model

| member | source | states |
|---|---|---|
| PosixPath.RFind | src/azb_client/AzureBlobStorageClient.py:34 | the index of the last occurrence of a character, or -1; nothing after it is that character |
| PosixPath.Basename | src/azb_client/AzureBlobStorageClient.py:34 | the basename is the longest suffix without '/', preceded by '/' when shorter than the path |
| PosixPath.BasenameOfDirAndName | src/azb_client/AzureBlobStorageClient.py:72 | a directory part (empty or ending in '/') followed by a name without '/' has that name as basename |
| PosixPath.BasenameIdempotent | src/azb_client/AzureBlobStorageClient.py:120 | the basename of a basename is itself |
| PosixPath.SplitExt | src/azb_client/AzureBlobStorageClient.py:114 | `splitext` splits the path into a root and an extension that concatenate back to it |
| PosixPath.ExtensionShape | src/azb_client/AzureBlobStorageClient.py:114 | a non-empty extension is a '.' followed by text with no '.' and no '/' |
| PosixPath.HasExtensionOnlyIf | src/azb_client/AzureBlobStorageClient.py:114 | a path with an extension has, in its basename, a '.' preceded by a non-dot |
| PosixPath.HasExtensionAt | src/azb_client/AzureBlobStorageClient.py:114 | a '.' at a given place in the basename, after a non-dot at an earlier place, gives a non-empty extension |
| PosixPath.HasExtensionIf | src/azb_client/AzureBlobStorageClient.py:114 | a basename with a '.' preceded by a non-dot gives a non-empty extension |
| PosixPath.HasExtensionIff | src/azb_client/AzureBlobStorageClient.py:114 | both directions: the extension is non-empty exactly when the basename has a '.' after some non-dot |
| PosixPath.HasExtensionOfBasename | src/azb_client/AzureBlobStorageClient.py:113-120 | the extension test gives the same answer on a path and on its basename |
| PosixPath.TrailingDotIsExtension | src/azb_client/AzureBlobStorageClient.py:114 | a name that ends in '.' and does not start with one ("a.") passes the extension check |
| PosixPath.LeadingDotsAreNotExtension | src/azb_client/AzureBlobStorageClient.py:114 | a path whose basename has only leading dots has no extension |
| PosixPath.DotfileHasNoExtension | src/azb_client/AzureBlobStorageClient.py:114 | a hidden-file name such as ".json" (one leading dot, no other dot) fails the extension check |
| PosixPath.DirectoryDotIsIgnored | src/azb_client/AzureBlobStorageClient.py:114 | a dot in a directory part ("dir.d/file") gives no extension when the file name has no dot |
| PosixPath.Join | src/azb_client/AzureBlobStorageClient.py:72 | defines two-argument `os.path.join`: an absolute second part replaces the first; otherwise a '/' is inserted unless the first part is empty or already ends in '/' |
| PosixPath.JoinKeepsDirAndName | src/azb_client/AzureBlobStorageClient.py:72 | `join(dir, name)` starts with `dir` and has `name` as basename, for a name without '/' |
| ConnString.Split | src/azb_client/AzureBlobStorageClient.py:200-201 | `split` gives at least one part, no part holds the separator, and joining the parts gives the text back |
| ConnString.SplitLength | src/azb_client/AzureBlobStorageClient.py:200-201 | splitting gives one more part than there are separators |
| ConnString.SplitJoinRoundTrip | src/azb_client/AzureBlobStorageClient.py:200-201 | splitting a join of separator-free parts gives the same parts (the other direction of `Split`'s contract) |
| ConnString.SegmentParsesIff | src/azb_client/AzureBlobStorageClient.py:201 | a segment unpacks into key and value exactly when it holds one '=' |
| ConnString.SegmentRoundTrip | src/azb_client/AzureBlobStorageClient.py:201 | `key=value` unpacks back to the pair when neither side holds '=' |
| ConnString.ParsePairsOk | src/azb_client/AzureBlobStorageClient.py:200-202 | the segments parse exactly when each one does, into one pair per segment, in order |
| ConnString.ParsePairsErr | src/azb_client/AzureBlobStorageClient.py:200-201 | a failed parse names the first segment that does not unpack |
| ConnString.ParseSegment | src/azb_client/AzureBlobStorageClient.py:201 | defines the unpacking of one segment: exactly two parts after splitting on '=', or an error naming the segment |
| ConnString.Parse | src/azb_client/AzureBlobStorageClient.py:192-209 | defines the parser's outcome: the first segment that does not unpack, else the dictionary built in order, rejected when a key is outside the schema |
| ConnString.AccountNameOf | src/azb_client/AzureBlobStorageClient.py:163-164 | defines the account-name lookup: the parser's error, the `AccountName` value, or a KeyError when that key is absent |
| ConnString.ParseConnString | src/azb_client/AzureBlobStorageClient.py:189-209 | the loop (split on ';', unpack on '=', assign in order, then the key check) returns exactly `Parse` of the input, failing at the first bad segment |
| ConnString.ToDictKeys | src/azb_client/AzureBlobStorageClient.py:199-202 | the dictionary's keys are exactly the keys assigned |
| ConnString.MissingKeyIff | src/azb_client/AzureBlobStorageClient.py:164 | a key is absent from the dictionary exactly when no pair carries it |
| ConnString.ToDictLastWins | src/azb_client/AzureBlobStorageClient.py:199-202 | the dictionary holds exactly the keys assigned, each with the value of its last assignment |
| ConnString.ParseOkOnlyIf | src/azb_client/AzureBlobStorageClient.py:200-207 | after a successful parse, every segment holds one '=' and a schema key |
| ConnString.SchemaMismatchRejects | src/azb_client/AzureBlobStorageClient.py:204-207 | when the dictionary has a key outside the schema, some segment holds exactly one '=' and a key outside the schema |
| ConnString.BadSegmentRejects | src/azb_client/AzureBlobStorageClient.py:200-201 | when a segment does not unpack, some segment does not hold exactly one '=' |
| ConnString.ParseErrRejects | src/azb_client/AzureBlobStorageClient.py:200-207 | a failed parse comes from a segment without exactly one '=' or with a key outside the schema |
| ConnString.ParseOkIff | src/azb_client/AzureBlobStorageClient.py:192-207 | parsing succeeds exactly when every segment holds one '=' and has a key among the four schema keys; missing keys do not fail |
| ConnString.ParseLastValueWins | src/azb_client/AzureBlobStorageClient.py:199-202 | on success the dictionary's keys are the segments' keys, and a repeated key keeps its last value |
| ConnString.TrailingSemicolonFails | src/azb_client/AzureBlobStorageClient.py:200-201 | a trailing ';' leaves an empty segment, so parsing fails |
| ConnString.RenderRoundTrip | src/azb_client/AzureBlobStorageClient.py:189-209 | a connection string written from pairs with schema keys and no separators parses back to those pairs' dictionary, whichever keys are absent |
| ConnString.AccountNameOfIff | src/azb_client/AzureBlobStorageClient.py:163-164 | the account name exists exactly when parsing succeeds with an `AccountName` key; the lookup's KeyError occurs exactly when the parse succeeds and no segment has that key |
| ConnString.AccountNameIsLastValue | src/azb_client/AzureBlobStorageClient.py:163-164 | a name that is read back is the value of the last segment with key `AccountName` |
| ConnString.AccountNameOfRender | src/azb_client/AzureBlobStorageClient.py:163-164 | a connection string written from plain schema-keyed pairs reads back the value of its last `AccountName` pair |
| ConnString.AccountNameRoundTrip | src/azb_client/AzureBlobStorageClient.py:163-164 | the four account-key fields, written out and read back, give the account name unchanged |
| ConnString.PaddedSegmentFails | src/azb_client/AzureBlobStorageClient.py:201 | `key=value` with '=' inside the value does not unpack |
| ConnString.PaddedValueFails | src/azb_client/AzureBlobStorageClient.py:200-201 | a value holding '=' (such as a base64 key with padding) fails the parse, naming the first such segment |
| Containers.UploadOutcome | src/azb_client/AzureBlobStorageClient.py:106-139 | defines the upload's outcome: the three ValueError checks in order, then a file upload, a direct data upload, a JSON upload or a TypeError |
| Containers.UploadBlob | src/azb_client/AzureBlobStorageClient.py:106-141 | the checks, the loop over `(blob_name, file_name)` and the dispatch return exactly the outcome `UploadOutcome` specifies |
| Containers.ExactlyOneSource | src/azb_client/AzureBlobStorageClient.py:108-109 | the first error occurs exactly when both or neither of `data` and `file_name` are truthy |
| Containers.ValidationIsIndependentOfTheRest | src/azb_client/AzureBlobStorageClient.py:106-115 | a ValueError depends only on the truthiness of `data` and on the names, never on `overwrite`, `encode_json`, the container or the payload's kind |
| Containers.NamesCheckedInOrder | src/azb_client/AzureBlobStorageClient.py:113-115 | once the sources are valid, the extension error occurs exactly when some given name lacks an extension; the blob name is reported first |
| Containers.UploadDestination | src/azb_client/AzureBlobStorageClient.py:118-139 | a file upload goes to `blob_name` or to the file's basename when it is None; a data upload goes to `blob_name`; the destination has an extension except for a file with `blob_name` set to '' |
| Containers.PayloadDispatch | src/azb_client/AzureBlobStorageClient.py:127-139 | bytes, str and BytesIO are sent unchanged; any other payload is JSON-encoded when `encode_json` is set, and otherwise raises TypeError |
| Containers.UploadRejections | src/azb_client/AzureBlobStorageClient.py:108-111 | neither source, both sources, and data without a blob name all fail with their ValueError |
| Containers.UploadRejectsNameWithoutDot | src/azb_client/AzureBlobStorageClient.py:113-115 | data under a name without a dot fails for the missing extension |
| Containers.DownloadPath | src/azb_client/AzureBlobStorageClient.py:71-72 | without a path, the download goes under the manager's download directory, to a file named as the blob's basename; a given path is used as is |
| Containers.Before | src/azb_client/AzureBlobStorageClient.py:55 | the text before the first '?': a prefix of the URL without '?', followed in the URL by '?' unless it is the whole URL |
| Containers.GetBlobUrl | src/azb_client/AzureBlobStorageClient.py:34-59 | defines the blob URL: the SDK's URL for the basename, followed by '?' and the token when a SAS is asked for |
| Containers.SasUrlExtendsBaseUrl | src/azb_client/AzureBlobStorageClient.py:37-55 | with a SAS the URL is the plain URL, '?', then the token; when the plain URL holds no '?', cutting at the first '?' gives it back |
| Containers.BlobUrlUsesBasename | src/azb_client/AzureBlobStorageClient.py:34-37 | a path and its basename give the same URL |
| Containers.UploadOutcomeAsWritten | src/azb_client/AzureBlobStorageClient.py:106-139 | defines `upload_blob` as written: the same outcome as `UploadOutcome`, except that the JSON branch fails with AttributeError (`EncoderMissing`) because line 136 calls an encoder the container manager does not have |
| Containers.JsonUploadAsWrittenFails | src/azb_client/AzureBlobStorageClient.py:134-137 | as written no upload ever carries JSON; a dict payload with `encode_json` fails with AttributeError where the corrected outcome uploads its JSON encoding |
| Account.Registry | src/azb_client/AzureBlobStorageClient.py:217-225 | defines the registry as the assignments of one manager per name, in list order |
| Account.RegistryContents | src/azb_client/AzureBlobStorageClient.py:214-225 | the registry holds exactly the listed names, each mapped to a manager with that name and the account's download directory |
| Account.ForwardTargetsNamedContainer | src/azb_client/AzureBlobStorageClient.py:229-233 | in a valid registry, a forwarded upload is addressed to the named container |
| Account.StorageAccountManager.FromConnectionString | src/azb_client/AzureBlobStorageClient.py:160-164 | a manager is made exactly when the account name can be read; it carries that name and the download directory, with an empty registry; otherwise the parser's or the lookup's error is returned |
| Account.StorageAccountManager.SetContainerClients | src/azb_client/AzureBlobStorageClient.py:211-227 | a non-empty list adds one manager per name (later names overwrite); an empty list fails without change; the registry invariant is kept |
| Account.StorageAccountManager.UploadBlob | src/azb_client/AzureBlobStorageClient.py:229-235 | in a valid registry the manager found is the one for the named container, with the account's download directory; an unregistered name fails as not set; otherwise the call succeeds exactly when the forwarded upload does, its error is passed on, and its result is dropped |
| Account.ForwardAsWritten | src/azb_client/AzureBlobStorageClient.py:229-235 | defines the forwarding as written: an unregistered name, or an AttributeError raised inside the forwarded upload, is reported as an unset container; any other upload error is passed on |
| Account.JsonForwardAsWrittenReportsUnsetContainer | src/azb_client/AzureBlobStorageClient.py:229-235 | as written, a JSON upload through a registered container is reported as "container not set"; the corrected forwarding succeeds |

## Findings

| source | as written | input that shows it | evidently intended | confidence | as-written member | corrected member |
|---|---|---|---|---|---|---|
| src/azb_client/AzureBlobStorageClient.py:136 | The JSON branch of `AzureBlobContainerManager.upload_blob` calls `self._encode_json`. That method is defined only on `AzureBlobStorageAccountManager` (line 179), so the call raises AttributeError. The account manager's `except AttributeError` (234-235) then reports the registered container as not set. | `data={'mytest': 'json'}`, `blob_name='mock_json_dict.json'`, `encode_json=True` | encode the payload as UTF-8 JSON and upload it | high; not executed | Containers.UploadOutcomeAsWritten, Containers.JsonUploadAsWrittenFails, Account.ForwardAsWritten, Account.JsonForwardAsWrittenReportsUnsetContainer | Containers.UploadOutcome (used by Containers.UploadBlob and the account forwarding), Containers.PayloadDispatch |

## Left out

- SDK calls are not modelled: `BlobContainerClient.from_connection_string`, `BlobServiceClient.from_connection_string`, `get_blob_client`, the blob client's `upload_blob` and `download_blob`, and `generate_blob_sas`. The blob URL (`blobUrl`) and the SAS token (`sasToken`) are parameters. An upload ends in the request the code would send.
- JSON serialisation (`_encode_json`, `json.dumps`, `.encode('utf-8')`) is a library call. The model records only the decision to send the JSON encoding (`JsonOf`), not the bytes. The `Exception` that `_encode_json` raises for a payload `json.dumps` cannot serialise (lines 185-187) is not modelled either: `JsonOf` stands for an encoding that succeeded, so the corrected outcome accepts every truthy non-uploadable payload when `encode_json` is set.
- Local file I/O (`open`, `read`, `write` in `download_blob` and `upload_blob`) and `download_bytes` (an SDK download into a `BytesIO`) are I/O.
- The SAS validity window uses `datetime.now()`, which is not deterministic. The token is opaque here.
- `print` diagnostics produce no result.
- `list_blobs` and `list_containers` are projections of SDK listings. `list_containers` iterates the uncalled bound method `list_containers`, which raises TypeError. `SetContainerClients` models that only as the failure of an empty name list.
- `has_blob` passes `name_only` to `list_blobs`, which has no such parameter. It also compares a string with dictionaries whose `name` is a set. It cannot behave as documented, so it is not modelled.
- Constructor wiring is not modelled. `__init__` calls `_set_containers`, which does not exist. `_set_container_clients` reads `self.connection_str`, which is never set. `download_dir` is assigned only after the container call. `FromConnectionString` covers lines 160-164, and `SetContainerClients` runs the registry loop over an explicit list of names.
- Python attributes are not modelled. The registry is a separate map, so a container name that collides with another attribute of the manager (`download_dir`, `upload_blob`) cannot clobber it. A `getattr` lookup of such a name is not modelled either.
- Object identity is not modelled. A repeated container name creates a new, equal manager object in Python; here the two are the same value.
- A `download_dir` of None (which makes `os.path.join` raise TypeError) is not modelled: the directory is a string.
- Python truthiness of payloads of other kinds is a field (`Object(truthy)`), not derived from the object.
- Keyword arguments that `upload_blob` does not accept (a TypeError in the forwarded call) are not modelled: the forwarding method takes the five named arguments.
