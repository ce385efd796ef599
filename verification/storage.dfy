/**
 * The part of the filesystem the ADR tool touches, as a value: a set of
 * directories and a map from file path to content. Each `fs.*Sync` call the
 * tool makes is a pure state transformer here (src/index.js:57-61, 136,
 * 142, 167, 170, 190).
 */
module Storage {

  datatype Option<T> = None | Some(value: T)

  datatype FileSystem = FileSystem(dirs: set<string>, files: map<string, string>)
  {
    /** `existsSync`: a directory or a file is at `path`. */
    predicate Exists(path: string)
    {
      path in dirs || path in files
    }

    /** `mkdirSync`. */
    function MakeDir(dir: string): (r: FileSystem)
      ensures r.dirs == dirs + {dir} && r.files == files
    {
      this.(dirs := dirs + {dir})
    }

    /** `writeFileSync`: create or truncate. */
    function Write(path: string, content: string): (r: FileSystem)
      ensures r.dirs == dirs
      ensures r.files.Keys == files.Keys + {path}
      ensures r.files[path] == content
      ensures forall p :: p in files && p != path ==> r.files[p] == files[p]
    {
      this.(files := files[path := content])
    }

    /** `appendFileSync`: appends, creating the file when it is missing. */
    function Append(path: string, content: string): (r: FileSystem)
      ensures r.dirs == dirs
      ensures r.files.Keys == files.Keys + {path}
      ensures r.files[path] == ContentOf(path) + content
      ensures forall p :: p in files && p != path ==> r.files[p] == files[p]
    {
      this.(files := files[path := ContentOf(path) + content])
    }

    /** What a file holds, the empty string standing for a missing file. */
    function ContentOf(path: string): (r: string)
      ensures path in files ==> r == files[path]
      ensures path !in files ==> r == ""
    {
      if path in files then files[path] else ""
    }

    /** `readFileSync`: fails on a missing file. */
    function Read(path: string): (r: Option<string>)
      ensures r.Some? <==> path in files
      ensures r.Some? ==> r.value == files[path]
    {
      if path in files then Some(files[path]) else None
    }
  }

  /** The path template `${dir}/${name}`. */
  function PathIn(dir: string, name: string): string
  {
    dir + "/" + name
  }

  /** Within one directory, different names give different paths. */
  lemma PathInInjective(dir: string, a: string, b: string)
    requires PathIn(dir, a) == PathIn(dir, b)
    ensures a == b
  {
    assert a == PathIn(dir, a)[|dir| + 1..];
    assert b == PathIn(dir, b)[|dir| + 1..];
  }
}

/**
 * `createAdrFiles` (src/index.js:53-63): makes sure the ADR directory and
 * the record file exist, creating an empty record only when none is there.
 */
module Repository {
  import opened Storage

  const DefaultAdrDir: string := "./adr"
  const DefaultRecordPath: string := "./adr/RECORD.md"

  function CreateAdrFiles(fs: FileSystem, adrDir: string, recordPath: string): (r: FileSystem)
    ensures r.Exists(adrDir) && r.Exists(recordPath)
    ensures r.dirs == if fs.Exists(adrDir) then fs.dirs else fs.dirs + {adrDir}
    ensures recordPath in fs.files ==> r.files == fs.files
    ensures !fs.Exists(recordPath) && recordPath != adrDir ==> r.files == fs.files[recordPath := ""]
    ensures recordPath !in fs.files && recordPath in fs.dirs ==> r.files == fs.files
    ensures !fs.Exists(recordPath) && recordPath == adrDir ==> r.files == fs.files
  {
    var withDir := if !fs.Exists(adrDir) then fs.MakeDir(adrDir) else fs;
    if !withDir.Exists(recordPath) then withDir.Write(recordPath, "") else withDir
  }

  /** Calling it a second time changes nothing. */
  lemma CreateAdrFilesIdempotent(fs: FileSystem, adrDir: string, recordPath: string)
    ensures CreateAdrFiles(CreateAdrFiles(fs, adrDir, recordPath), adrDir, recordPath)
         == CreateAdrFiles(fs, adrDir, recordPath)
  {
  }

  /** An existing record keeps its content, whatever it is. */
  lemma CreateAdrFilesKeepsRecord(fs: FileSystem, adrDir: string, recordPath: string)
    requires recordPath in fs.files
    ensures var r := CreateAdrFiles(fs, adrDir, recordPath);
      recordPath in r.files && r.files[recordPath] == fs.files[recordPath]
  {
  }

  /** On an empty filesystem with the defaults: the directory and an empty record appear. */
  lemma CreateAdrFilesFromScratch()
    ensures CreateAdrFiles(FileSystem({}, map[]), DefaultAdrDir, DefaultRecordPath)
         == FileSystem({DefaultAdrDir}, map[DefaultRecordPath := ""])
  {
  }
}
