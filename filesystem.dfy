/** The part of Node's `fs` module the batch script uses: a set of directories and a map
    from file paths to their bytes. Paths are opaque strings; `path` normalisation is not
    part of this model. */
module NodeFs {
  import opened Archive

  type Path = string

  datatype FsState = FsState(dirs: set<Path>, files: map<Path, Bytes>)

  /** `fs.existsSync(p)`: something, directory or file, is at `p`. */
  predicate ExistsIn(s: FsState, p: Path) {
    p in s.dirs || p in s.files
  }

  class FileSystem {
    var dirs: set<Path>
    var files: map<Path, Bytes>

    function State(): FsState
      reads this
    {
      FsState(dirs, files)
    }

    constructor (s: FsState)
      ensures State() == s
    {
      dirs := s.dirs;
      files := s.files;
    }

    method ExistsSync(p: Path) returns (b: bool)
      ensures b <==> ExistsIn(State(), p)
    {
      b := p in dirs || p in files;
    }

    /** `fs.mkdirSync(p, { recursive: true })`: fails (throws) when a file is at `p`,
        otherwise `p` is a directory afterwards; an existing directory is left as it is. */
    method MkdirSync(p: Path) returns (ok: bool)
      modifies this
      ensures ok <==> p !in old(files)
      ensures files == old(files)
      ensures dirs == if ok then old(dirs) + {p} else old(dirs)
    {
      ok := p !in files;
      if ok {
        dirs := dirs + {p};
      }
    }

    /** `fs.createWriteStream(p)` with the entry's data piped into it, taken as one step:
        the file at `p` holds exactly `data` afterwards. */
    method WriteFile(p: Path, data: Bytes)
      modifies this
      ensures dirs == old(dirs)
      ensures files == old(files)[p := data]
    {
      files := files[p := data];
    }
  }
}
