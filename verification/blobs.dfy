/** models/blob.rb: blobs validate trivially, are checked out as a file with
    a permission chosen by class, and are cloned by storing their data in
    the target repository. */
module Blobs {

  import opened Results
  import opened ObjectData
  import opened Modes
  import MemoryRepository
  import opened GitObjects
  import opened GitRepository

  /** `validate_data`: nothing beyond the header checks. */
  function ValidateData(o: GitObject): (r: bool)
    ensures r
  {
    true
  }

  /** The file permission `checkout!` sets: 0755 for an executable file,
      0664 for a group-writable one, 0644 for a plain blob; the table has no
      entry for any other class. */
  function FileMode(cls: ObjectClass): (r: Option<int>)
    ensures cls == ExecutableFile ==> r == Some(7 * 64 + 5 * 8 + 5)
    ensures cls == GroupWritableFile ==> r == Some(6 * 64 + 6 * 8 + 4)
    ensures cls == Blob ==> r == Some(6 * 64 + 4 * 8 + 4)
    ensures r.Some? <==> cls in {Blob, ExecutableFile, GroupWritableFile}
  {
    match cls
    case ExecutableFile => Some(0x1ED)
    case GroupWritableFile => Some(0x1B4)
    case Blob => Some(0x1A4)
    case _ => None
  }

  /** The permission agrees with the mode the mode table gives the class:
      the last three octal digits of `100755`, `100664` and `100644`. */
  lemma FileModeMatchesTreeMode(cls: ObjectClass)
    requires FileMode(cls).Some?
    ensures ModeOf(cls).Some? && |ModeOf(cls).value| == 6
    ensures var m := ModeOf(cls).value;
            FileMode(cls).value == (m[3] as int - '0' as int) * 64 + (m[4] as int - '0' as int) * 8 + (m[5] as int - '0' as int)
  {
  }

  /** The file `checkout!` writes: its path, its contents and its
      permission. */
  datatype FileWrite = FileWrite(path: string, data: Payload, permission: int)

  /** `checkout!(destination_path)`: a blob loaded without its data cannot
      be checked out; otherwise its data is written with the permission of
      its class. `File.chmod` with the nil permission of a class outside the
      table raises TypeError, after the file was written. */
  function Checkout(o: GitObject, destinationPath: string): (r: Result<FileWrite>)
    ensures !o.loadBlobData ==> r == Failure(RuntimeError("Blob cannot be checked out (blob data not loaded)."))
    ensures r.Success? <==> o.loadBlobData && FileMode(o.cls).Some?
    ensures r.Success? ==> r.value == FileWrite(destinationPath, o.data, FileMode(o.cls).value)
    ensures o.loadBlobData && FileMode(o.cls).None? ==> r == Failure(TypeError)
  {
    if !o.loadBlobData then Failure(RuntimeError("Blob cannot be checked out (blob data not loaded)."))
    else
      var mode := FileMode(o.cls);
      if mode.None? then Failure(TypeError) else Success(FileWrite(destinationPath, o.data, mode.value))
  }

  /** `default_checkout_folder`: `checkout_files/` and the first seven
      characters of the hash. */
  function DefaultCheckoutFolder(o: GitObject): (p: string)
    ensures p == "checkout_files/" + First7(o.sha1)
  {
    "checkout_files/" + First7(o.sha1)
  }

  /** `clone_into(target_repository)`: a blob loaded without its data cannot
      be cloned; a blob the target reports as cloned already gives that
      hash and creates nothing; otherwise the target stores the data. */
  function CloneBlob(o: GitObject, t: Target): (r: (Result<string>, Target))
    ensures !o.loadBlobData ==> r == (Failure(RuntimeError("Blob cannot be cloned (blob data not loaded).")), t)
    ensures o.loadBlobData && FindCloned(t, o.sha1).Some? ==> r == (Success(FindCloned(t, o.sha1).value), t)
    ensures o.loadBlobData && FindCloned(t, o.sha1).None? ==>
      var created := CreateBlob(t, o.data, o.sha1);
      r == (Success(created.0), created.1)
    ensures r.1.digest == t.digest && r.1.found == t.found && r.1.repo.branches == t.repo.branches && r.1.repo.head == t.repo.head
  {
    if !o.loadBlobData then (Failure(RuntimeError("Blob cannot be cloned (blob data not loaded).")), t)
    else
      var found := FindCloned(t, o.sha1);
      if found.Some? then (Success(found.value), t)
      else
        var created := CreateBlob(t, o.data, o.sha1);
        (Success(created.0), created.1)
  }

  /** A blob loaded with its data, cloned into a target that reports
      nothing as cloned, loads back from the target as a blob with the
      same data. */
  lemma ClonedBlobLoadsBack(o: GitObject, t: Target)
    requires o.loadBlobData && o.data.Bytes? && t.found == map[]
    requires MemoryRepository.ContentAddressed(t.repo, t.digest)
    ensures var (r, after) := CloneBlob(o, t);
            r.Success? &&
            var loaded := MemoryRepository.LoadObject(after.repo, after.digest, r.value);
            loaded.Success? && loaded.value.contentSha1 == r.value &&
            (r.value !in t.repo.objects ==> loaded.value.objectType == Some("blob") && loaded.value.data == o.data)
  {
    MemoryRepository.LoadCreatedObject(t.repo, t.digest, "blob", o.data);
  }
}
