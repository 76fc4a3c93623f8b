/**
 * `AzureBlobStorageAccountManager`: the account name read from the
 * connection string, the registry of container managers that
 * `_set_container_clients` fills, and `upload_blob` forwarding to it.
 */
module Account {
  import opened Wrappers
  import ConnString
  import opened Containers
  import PosixPath

  datatype AccountError =
    | ContainerNotSet(name: string)    // AttributeError: no manager registered under that name
    | UploadFailed(error: UploadError) // the forwarded `upload_blob` raised

  /** The registry that assigning one manager per name, in order, builds. */
  function Registry(names: seq<string>, downloadDir: string): map<string, ContainerManager>
  {
    if names == [] then map[]
    else Registry(names[..|names| - 1], downloadDir)[names[|names| - 1] := ContainerManager(names[|names| - 1], downloadDir)]
  }

  /** Every registered name maps to a manager for that container that downloads to `downloadDir`. */
  ghost predicate RegistryValid(containers: map<string, ContainerManager>, downloadDir: string)
  {
    forall name :: name in containers ==> containers[name] == ContainerManager(name, downloadDir)
  }

  /**
   * The registry holds exactly the listed names, each mapped to a manager
   * carrying that name and the account's download directory; a repeated
   * name is assigned again with an equal manager.
   */
  lemma {:induction false} RegistryContents(names: seq<string>, downloadDir: string)
    ensures Registry(names, downloadDir).Keys == set i | 0 <= i < |names| :: names[i]
    ensures RegistryValid(Registry(names, downloadDir), downloadDir)
  {
    if names != [] {
      var n := |names| - 1;
      RegistryContents(names[..n], downloadDir);
      assert (set i | 0 <= i < |names| :: names[i]) == (set i | 0 <= i < n :: names[..n][i]) + {names[n]};
    }
  }

  /** Forwarding reaches the manager of the named container and no other. */
  lemma ForwardTargetsNamedContainer(containers: map<string, ContainerManager>, downloadDir: string, containerName: string,
                                     data: Option<Payload>, fileName: Option<string>, blobName: Option<string>,
                                     overwrite: bool, encodeJson: bool)
    requires RegistryValid(containers, downloadDir) && containerName in containers
    ensures var r := UploadOutcome(containers[containerName], data, fileName, blobName, overwrite, encodeJson);
      r.Ok? ==> r.value.container == containerName
  {
    assert containers[containerName] == ContainerManager(containerName, downloadDir);
  }

  /** Assigning after a union is assigning in the right-hand map. */
  lemma UnionThenAssign<K, V>(left: map<K, V>, right: map<K, V>, k: K, v: V)
    ensures left + right[k := v] == (left + right)[k := v]
  {
  }

  class StorageAccountManager {
    const storageAccount: string
    const downloadDir: string
    /** The container managers `setattr` attaches, by container name. */
    var containers: map<string, ContainerManager>

    ghost predicate Valid()
      reads this
    {
      RegistryValid(containers, downloadDir)
    }

    constructor (storageAccount: string, downloadDir: string)
      ensures this.storageAccount == storageAccount && this.downloadDir == downloadDir
      ensures containers == map[] && Valid()
    {
      this.storageAccount := storageAccount;
      this.downloadDir := downloadDir;
      containers := map[];
    }

    /**
     * The constructor's use of the connection string: parse it, then take
     * `AccountName` from the result, failing when it is absent.
     */
    static method FromConnectionString(connStr: string, downloadDir: string)
      returns (r: Result<StorageAccountManager, ConnString.ConnError>)
      ensures r.Ok? <==> ConnString.AccountNameOf(connStr).Ok?
      ensures r.Err? ==> r.error == ConnString.AccountNameOf(connStr).error
      ensures r.Ok? ==> fresh(r.value) && r.value.storageAccount == ConnString.AccountNameOf(connStr).value
      ensures r.Ok? ==> r.value.downloadDir == downloadDir && r.value.containers == map[] && r.value.Valid()
    {
      var parsed := ConnString.ParseConnString(connStr);
      if parsed.Err? {
        return Err(parsed.error);
      }
      if "AccountName" !in parsed.value {
        return Err(ConnString.MissingAccountName);
      }
      var manager := new StorageAccountManager(parsed.value["AccountName"], downloadDir);
      r := Ok(manager);
    }

    /**
     * `_set_container_clients`: one manager per listed name, assigned in
     * order. An empty list falls back to `list_containers`, whose iteration
     * over an uncalled bound method raises TypeError: nothing is registered
     * and `false` is returned.
     */
    method SetContainerClients(names: seq<string>) returns (ok: bool)
      requires Valid()
      modifies this`containers
      ensures Valid()
      ensures ok == (|names| > 0)
      ensures containers == if ok then old(containers) + Registry(names, downloadDir) else old(containers)
    {
      if |names| == 0 {
        return false;
      }
      for i := 0 to |names|
        invariant containers == old(containers) + Registry(names[..i], downloadDir)
        invariant Valid()
      {
        assert names[..i + 1][..i] == names[..i];
        var manager := ContainerManager(names[i], downloadDir);
        assert Registry(names[..i + 1], downloadDir) == Registry(names[..i], downloadDir)[names[i] := manager];
        UnionThenAssign(old(containers), Registry(names[..i], downloadDir), names[i], manager);
        containers := containers[names[i] := manager];
      }
      assert names[..|names|] == names;
      ok := true;
    }

    /**
     * `upload_blob(container_name, **kwargs)`: look the manager up and
     * forward the call; the forwarded call's result is discarded.
     */
    method UploadBlob(containerName: string, data: Option<Payload>, fileName: Option<string>,
                      blobName: Option<string>, overwrite: bool, encodeJson: bool)
      returns (r: Result<(), AccountError>)
      requires Valid()
      ensures containerName in containers ==> containers[containerName] == ContainerManager(containerName, downloadDir)
      ensures containerName !in containers ==> r == Err(ContainerNotSet(containerName))
      ensures containerName in containers ==>
        var inner := UploadOutcome(containers[containerName], data, fileName, blobName, overwrite, encodeJson);
        (r.Ok? <==> inner.Ok?) && (r.Err? ==> r.error == UploadFailed(inner.error))
    {
      if containerName !in containers {
        return Err(ContainerNotSet(containerName));
      }
      var manager := containers[containerName];
      var inner := Containers.UploadBlob(manager, data, fileName, blobName, overwrite, encodeJson);
      if inner.Err? {
        return Err(UploadFailed(inner.error));
      }
      r := Ok(());
    }
  }

  // Forwarding as the source writes it

  /**
   * `upload_blob` forwarding as written: `except AttributeError` catches the
   * lookup failure and also any AttributeError the forwarded call raises,
   * reporting both as an unset container.
   */
  function ForwardAsWritten(containers: map<string, ContainerManager>, containerName: string,
                            inner: Result<UploadRequest, UploadError>): Result<(), AccountError>
  {
    if containerName !in containers || inner == Err(EncoderMissing) then Err(ContainerNotSet(containerName))
    else if inner.Err? then Err(UploadFailed(inner.error))
    else Ok(())
  }

  /**
   * As written, a JSON upload through a registered container is reported as
   * "container not set"; the intended behaviour uploads it.
   */
  lemma JsonForwardAsWrittenReportsUnsetContainer(containers: map<string, ContainerManager>, containerName: string,
                                                  blobName: string, overwrite: bool)
    requires containerName in containers && |blobName| > 0 && PosixPath.HasExtension(blobName)
    ensures var mgr := containers[containerName];
      ForwardAsWritten(containers, containerName,
                       UploadOutcomeAsWritten(mgr, Some(Object(true)), None, Some(blobName), overwrite, true))
        == Err(ContainerNotSet(containerName))
    ensures var mgr := containers[containerName];
      ForwardAsWritten(containers, containerName,
                       UploadOutcome(mgr, Some(Object(true)), None, Some(blobName), overwrite, true)) == Ok(())
  {
    JsonUploadAsWrittenFails(containers[containerName], Some(Object(true)), None, Some(blobName), overwrite, true);
  }
}
