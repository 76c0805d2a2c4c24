/** The two places backups are kept. The file system and the Drive API are outside the model: a
    listing is an input sequence, and a deletion removes one element from the stored set. */
module Storage {

  /** One element of a Drive `files().list` response, `files(id, name, createdTime)`. */
  datatype DriveFile = DriveFile(id: string, name: string, createdTime: string)

  predicate Distinct(s: seq<string>) {
    forall i, j :: 0 <= i < j < |s| ==> s[i] != s[j]
  }

  predicate DistinctFileIds(files: seq<DriveFile>) {
    forall i, j :: 0 <= i < j < |files| ==> files[i].id != files[j].id
  }

  /** The local `backups/` directory: whether it exists and the names of its entries. */
  class LocalDirectory {
    var present: bool
    var names: set<string>

    constructor (present: bool, names: set<string>)
      ensures this.present == present && this.names == names
    {
      this.present := present;
      this.names := names;
    }

    /** `os.remove(os.path.join(BACKUP_DIR, name))`. */
    method Remove(name: string)
      requires present && name in names
      modifies this
      ensures present && names == old(names) - {name}
    {
      names := names - {name};
    }
  }

  /** The Drive folder `GDRIVE_FOLDER_ID`: the ids of the files in it. */
  class DriveFolder {
    var ids: set<string>

    constructor (ids: set<string>)
      ensures this.ids == ids
    {
      this.ids := ids;
    }

    /** `service.files().delete(fileId=id).execute()`. */
    method Delete(id: string)
      requires id in ids
      modifies this
      ensures ids == old(ids) - {id}
    {
      ids := ids - {id};
    }
  }
}
