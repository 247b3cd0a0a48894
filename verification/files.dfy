/** The one directory the renamer works in, reduced to what the renamer
    observes of it: which names exist and whether each is a regular file. */
module Files {

  /** What `os.path.isfile` distinguishes: a regular file, or anything else
      that has a name in the directory (a sub-directory, say). */
  datatype EntryKind = RegularFile | Folder

  /** The entries of the directory, by name. */
  type Dir = map<string, EntryKind>

  /** `os.path.isfile(os.path.join(directory, name))`: false for a name that
      is not (or no longer) present. */
  predicate IsFile(d: Dir, name: string) {
    name in d && d[name] == RegularFile
  }
}
