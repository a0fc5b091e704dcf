/**
 * Checking an uploaded package file and preparing the input of an add or an
 * update: the name check, the path the file is stored under, the download
 * name, and which old file an update deletes. The upload plumbing itself,
 * the move of the file and the clock behind `uniqid()` are parameters.
 */
module Upload {
  import opened Wrappers
  import opened Decimal
  import opened Php
  import opened Paths
  import opened Records

  /** Why an upload name is refused, or that it is accepted. */
  datatype UploadCheck = Accepted | NoName | BadExtension

  /** The two extensions a package file may carry. */
  predicate AllowedExtension(e: string) { e == "apk" || e == "upk" }

  /** The name check of an upload: a name must be given and carry an allowed extension. */
  function IsFileUploadValid(filename: Option<string>): (r: UploadCheck)
    ensures r == NoName <==> filename == None || !Truthy(filename.value)
    ensures r == Accepted ==> AllowedExtension(Extension(filename.value))
  {
    if filename.None? || !Truthy(filename.value) then NoName
    else if !AllowedExtension(Extension(filename.value)) then BadExtension
    else Accepted
  }

  /**
   * A name is accepted exactly when it is given, is not "0", and (trailing
   * slashes aside) ends with ".apk" or ".upk", letter case included.
   */
  lemma UploadValidIff(name: string)
    ensures IsFileUploadValid(Some(name)) == Accepted
      <==> Truthy(name) && (EndsWith(StripTrailingSlashes(name), ".apk") || EndsWith(StripTrailingSlashes(name), ".upk"))
  {
    ExtensionApk(name);
    ExtensionUpk(name);
  }

  lemma ExtensionApk(name: string)
    ensures Extension(name) == "apk" <==> EndsWith(StripTrailingSlashes(name), ".apk")
  {
    var dotted := "." + "apk";
    assert dotted == ".apk";
    ExtensionIs(name, "apk");
  }

  lemma ExtensionUpk(name: string)
    ensures Extension(name) == "upk" <==> EndsWith(StripTrailingSlashes(name), ".upk")
  {
    var dotted := "." + "upk";
    assert dotted == ".upk";
    ExtensionIs(name, "upk");
  }

  /** Any other extension after the last '.', such as "APK", is refused. */
  lemma OtherExtensionRefused(stem: string, ext: string)
    requires ext != [] && '.' !in ext && '/' !in ext
    requires ext != "apk" && ext != "upk"
    ensures IsFileUploadValid(Some(stem + "." + ext)) == BadExtension
  {
    var name := stem + "." + ext;
    assert name[|name| - 1] == ext[|ext| - 1];
    assert StripTrailingSlashes(name) == name;
    assert name[|name| - |"." + ext|..] == "." + ext;
    ExtensionIs(name, ext);
  }

  /** The directory, relative to the plugin's document directory, that holds the packages. */
  const PackageDir := "flyvemdm/package/"

  /** The name a stored upload gets: the token, '_', and the uploaded file's basename. */
  function StoredName(token: string, uploadedFile: string): string {
    token + "_" + Basename(uploadedFile)
  }

  /** Where an upload is stored: in the entity's directory under the package directory. */
  function StoredPath(entity: nat, token: string, uploadedFile: string): string {
    PackageDir + NatToDecimal(entity) + "/" + StoredName(token, uploadedFile)
  }

  /** A token without '/' gives a stored name that is one non-empty path component. */
  lemma StoredNamePlain(token: string, uploadedFile: string)
    requires '/' !in token
    ensures StoredName(token, uploadedFile) != [] && '/' !in StoredName(token, uploadedFile)
  {
    var b := Basename(uploadedFile);
    var name := token + "_" + b;
    forall k | 0 <= k < |name|
      ensures name[k] != '/'
    {
      if k < |token| { assert name[k] == token[k]; }
      else if k > |token| { assert name[k] == b[k - |token| - 1]; }
    }
  }

  /** The basename of the stored path is the stored name. */
  lemma StoredBasename(entity: nat, token: string, uploadedFile: string)
    requires '/' !in token
    ensures Basename(StoredPath(entity, token, uploadedFile)) == StoredName(token, uploadedFile)
  {
    StoredNamePlain(token, uploadedFile);
    BasenameOfComponent(PackageDir + NatToDecimal(entity), StoredName(token, uploadedFile));
  }

  /** A token without '.' or '/' leaves the extension of the upload as it was. */
  lemma StoredExtension(entity: nat, token: string, uploadedFile: string)
    requires '/' !in token && '.' !in token
    ensures Extension(StoredPath(entity, token, uploadedFile)) == Extension(uploadedFile)
  {
    StoredBasename(entity, token, uploadedFile);
    var head := token + "_";
    assert '.' !in head by {
      forall k | 0 <= k < |head| ensures head[k] != '.' {
        if k < |token| { assert head[k] == token[k]; }
      }
    }
    DotSuffixBehind(head, Basename(uploadedFile));
  }

  /**
   * An accepted upload name, placed in the temporary directory and stored,
   * gives a stored path with the extension "apk" or "upk", the two the parser
   * dispatches on.
   */
  lemma ValidUploadStoredAsPackage(entity: nat, token: string, tmpDir: string, name: string)
    requires '/' !in token && '.' !in token
    requires IsFileUploadValid(Some(name)) == Accepted
    ensures AllowedExtension(Extension(StoredPath(entity, token, tmpDir + "/" + name)))
  {
    UploadKeepsExtension(tmpDir, name);
    StoredExtension(entity, token, tmpDir + "/" + name);
  }

  lemma UploadKeepsExtension(tmpDir: string, name: string)
    requires IsFileUploadValid(Some(name)) == Accepted
    ensures Extension(tmpDir + "/" + name) == Extension(name)
  {
    var e := Extension(name);
    assert e == "apk" || e == "upk";
    assert e != [];
    ExtensionUnderDir(tmpDir, name);
  }

  /** What the upload plumbing hands over: the file in the temporary directory and its original name. */
  datatype PreparedFile = PreparedFile(uploadedFile: string, filename: Option<string>)

  /** The entity a new package goes to: the one given in the input, else the active one. */
  function TargetEntity(input: Input, sessionEntity: nat): nat {
    input.entity.GetOr(sessionEntity)
  }

  /** Outside the cron task a user may not set the package name. */
  function WithoutUserName(input: Input, isCron: bool): (r: Input)
    ensures r.packageName == (if isCron then input.packageName else None)
    ensures r == input.(packageName := r.packageName)
  {
    if isCron then input else input.(packageName := None)
  }

  /**
   * The input of an add. `prepared` is the upload (None when there is none),
   * `token` the value of `uniqid()`, and `moved` whether the entity directory
   * could be made and the file moved into it. None is PHP's `false`: the add
   * is refused.
   */
  function PrepareInputForAdd(input: Input, isCron: bool, prepared: Option<PreparedFile>,
                              sessionEntity: nat, token: string, moved: bool): (r: Option<Input>)
    ensures r.Some? <==> prepared.Some? && IsFileUploadValid(prepared.value.filename) == Accepted && moved
    ensures r.Some? ==>
      var entity := TargetEntity(input, sessionEntity);
      && r.value.entity == Some(entity)
      && r.value.filename == Some(StoredPath(entity, token, prepared.value.uploadedFile))
      && r.value.dlFilename == Some(Basename(prepared.value.uploadedFile))
      && r.value.packageName == (if isCron then input.packageName else None)
      && r.value.alias == input.alias
      && r.value.parseStatus == input.parseStatus
      && r.value == WithoutUserName(input, isCron).(entity := r.value.entity, filename := r.value.filename,
                                                    dlFilename := r.value.dlFilename)
  {
    var input := WithoutUserName(input, isCron);
    if prepared.None? then None
    else if IsFileUploadValid(prepared.value.filename) != Accepted then None
    else
      var entity := TargetEntity(input, sessionEntity);
      var uploadedFile := prepared.value.uploadedFile;
      if moved then
        Some(input.(entity := Some(entity),
                    filename := Some(StoredPath(entity, token, uploadedFile)),
                    dlFilename := Some(Basename(uploadedFile))))
      else None
  }

  /** After an add, the stored file's name is the token, '_', and the download name. */
  lemma AddDownloadNameIsStoredSuffix(input: Input, isCron: bool, prepared: Option<PreparedFile>,
                                      sessionEntity: nat, token: string, moved: bool)
    requires '/' !in token
    requires PrepareInputForAdd(input, isCron, prepared, sessionEntity, token, moved).Some?
    ensures var r := PrepareInputForAdd(input, isCron, prepared, sessionEntity, token, moved).value;
      Basename(r.filename.value) == token + "_" + r.dlFilename.value
  {
    StoredBasename(TargetEntity(input, sessionEntity), token, prepared.value.uploadedFile);
  }

  /** The input of an update, and the path of the old file under `docDir` to delete, if any. */
  datatype UpdatePlan = UpdatePlan(input: Input, unlink: Option<string>)

  /**
   * The input of an update of `current`. Without an upload the input passes
   * through; with one, the file is checked, stored under the record's own
   * entity, and the old file is deleted when its stored name differs from
   * the new file's `PATHINFO_FILENAME`. None is PHP's `false`.
   */
  function PrepareInputForUpdate(input: Input, isCron: bool, prepared: Option<PreparedFile>,
                                 current: Package, docDir: string, token: string, moved: bool): (r: Option<UpdatePlan>)
    ensures prepared.None? ==> r == Some(UpdatePlan(WithoutUserName(input, isCron), None))
    ensures prepared.Some? ==>
      (r.Some? <==> IsFileUploadValid(prepared.value.filename) == Accepted && moved)
    ensures prepared.Some? && r.Some? ==>
      var path := StoredPath(current.entity, token, prepared.value.uploadedFile);
      var destination := docDir + "/" + path;
      && r.value.input.filename == Some(path)
      && r.value.input.dlFilename == Some(Basename(destination))
      && r.value.input.entity == input.entity
      && r.value.input.parseStatus == input.parseStatus
      && r.value.input.packageName == (if isCron then input.packageName else None)
      && r.value.input == WithoutUserName(input, isCron).(filename := r.value.input.filename,
                                                          dlFilename := r.value.input.dlFilename)
      && (r.value.unlink.Some? <==> FilenamePart(destination) != current.filename)
      && (r.value.unlink.Some? ==> r.value.unlink.value == docDir + "/" + current.filename)
  {
    var input := WithoutUserName(input, isCron);
    if prepared.None? then Some(UpdatePlan(input, None))
    else if IsFileUploadValid(prepared.value.filename) != Accepted then None
    else
      var path := StoredPath(current.entity, token, prepared.value.uploadedFile);
      var destination := docDir + "/" + path;
      if moved then
        var unlink := if FilenamePart(destination) != current.filename then Some(docDir + "/" + current.filename) else None;
        Some(UpdatePlan(input.(filename := Some(path), dlFilename := Some(Basename(destination))), unlink))
      else None
  }

  /**
   * Replacing the file of a package never puts it back to 'pending': unless
   * the caller's input names a status, the row keeps the one it had, so the
   * new file is not parsed again.
   */
  lemma UpdateKeepsParseStatus(input: Input, isCron: bool, prepared: Option<PreparedFile>,
                               current: Package, docDir: string, token: string, moved: bool)
    requires input.parseStatus == None
    requires PrepareInputForUpdate(input, isCron, prepared, current, docDir, token, moved).Some?
    ensures var plan := PrepareInputForUpdate(input, isCron, prepared, current, docDir, token, moved).value;
      ApplyInput(current, plan.input).parseStatus == current.parseStatus
  {
  }

  /**
   * The old file is compared by its stored path against a name without any
   * '/', so a stored path with a directory in it is always deleted.
   */
  lemma ReplacedFileAlwaysUnlinked(input: Input, isCron: bool, prepared: Option<PreparedFile>,
                                   current: Package, docDir: string, token: string, moved: bool)
    requires '/' in current.filename
    requires prepared.Some?
    requires PrepareInputForUpdate(input, isCron, prepared, current, docDir, token, moved).Some?
    ensures PrepareInputForUpdate(input, isCron, prepared, current, docDir, token, moved).value.unlink
      == Some(docDir + "/" + current.filename)
  {
    var destination := docDir + "/" + StoredPath(current.entity, token, prepared.value.uploadedFile);
    assert '/' !in FilenamePart(destination);
  }

  /**
   * Unlike an add, an update sets the download name to the stored file's
   * basename, token included.
   */
  lemma UpdateDownloadNameCarriesToken(input: Input, isCron: bool, prepared: Option<PreparedFile>,
                                       current: Package, docDir: string, token: string, moved: bool)
    requires '/' !in token
    requires prepared.Some?
    requires PrepareInputForUpdate(input, isCron, prepared, current, docDir, token, moved).Some?
    ensures PrepareInputForUpdate(input, isCron, prepared, current, docDir, token, moved).value.input.dlFilename
      == Some(StoredName(token, prepared.value.uploadedFile))
  {
    var name := StoredName(token, prepared.value.uploadedFile);
    var dir := PackageDir + NatToDecimal(current.entity);
    Regroup(docDir, dir, name);
    StoredNamePlain(token, prepared.value.uploadedFile);
    BasenameOfComponent(docDir + "/" + dir, name);
  }
}
