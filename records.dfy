/**
 * A row of the package table and the partial update a save applies to it.
 * Only the columns the package code reads or writes are kept.
 */
module Records {
  import opened Wrappers

  /** The `parse_status` column: 'pending' until the cron task has looked at the file. */
  datatype ParseStatus = Pending | Parsed | Failed

  datatype Package = Package(
    id: nat,
    entity: nat,
    packageName: string,
    alias: string,
    version: string,
    versionCode: string,
    icon: string,
    filename: string,
    dlFilename: string,
    parseStatus: ParseStatus)

  /**
   * The input array handed to add/update: a column is written only when its
   * key is present (`Some`); an absent key keeps the stored value.
   */
  datatype Input = Input(
    entity: Option<nat>,
    packageName: Option<string>,
    alias: Option<string>,
    version: Option<string>,
    versionCode: Option<string>,
    icon: Option<string>,
    filename: Option<string>,
    dlFilename: Option<string>,
    parseStatus: Option<ParseStatus>)

  /** The empty input array `[]`. */
  const NoChange := Input(None, None, None, None, None, None, None, None, None)

  /** The row after an update with `input`: present keys overwrite, absent keys keep, the id stays. */
  function ApplyInput(p: Package, input: Input): (q: Package)
    ensures q.id == p.id
    ensures input.entity == None ==> q.entity == p.entity
    ensures input.entity.Some? ==> q.entity == input.entity.value
    ensures input.packageName == None ==> q.packageName == p.packageName
    ensures input.packageName.Some? ==> q.packageName == input.packageName.value
    ensures input.version == None ==> q.version == p.version
    ensures input.version.Some? ==> q.version == input.version.value
    ensures input.versionCode == None ==> q.versionCode == p.versionCode
    ensures input.versionCode.Some? ==> q.versionCode == input.versionCode.value
    ensures input.icon == None ==> q.icon == p.icon
    ensures input.icon.Some? ==> q.icon == input.icon.value
    ensures input.filename == None ==> q.filename == p.filename
    ensures input.filename.Some? ==> q.filename == input.filename.value
    ensures input.dlFilename == None ==> q.dlFilename == p.dlFilename
    ensures input.dlFilename.Some? ==> q.dlFilename == input.dlFilename.value
    ensures input.parseStatus == None ==> q.parseStatus == p.parseStatus
    ensures input.parseStatus.Some? ==> q.parseStatus == input.parseStatus.value
    ensures input.alias == None ==> q.alias == p.alias
    ensures input.alias.Some? ==> q.alias == input.alias.value
  {
    Package(
      p.id,
      input.entity.GetOr(p.entity),
      input.packageName.GetOr(p.packageName),
      input.alias.GetOr(p.alias),
      input.version.GetOr(p.version),
      input.versionCode.GetOr(p.versionCode),
      input.icon.GetOr(p.icon),
      input.filename.GetOr(p.filename),
      input.dlFilename.GetOr(p.dlFilename),
      input.parseStatus.GetOr(p.parseStatus))
  }
}
