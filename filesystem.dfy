/** The filesystem as the fetcher sees it: a set of directories, a set of
    files, and the record of every network fetch written to a file. */
module FileSystems {

  /** One `urlretrieve(url, path)`: the resource at `url` written to `path`. */
  datatype Fetch = Fetch(url: string, path: string)

  /** A snapshot of the filesystem. */
  datatype FsState = FsState(dirs: set<string>, files: set<string>, fetches: seq<Fetch>)

  /** The states a real filesystem can be in: `os.path.isdir('')` is always
      false, and no path is both a directory and a file. */
  predicate WellFormed(st: FsState)
  {
    "" !in st.dirs && st.dirs !! st.files
  }

  /** `os.mkdir(path)` succeeds: the path is not empty and nothing exists
      there yet. */
  predicate CanMkdir(st: FsState, path: string)
  {
    path != "" && path !in st.dirs && path !in st.files
  }

  /** The state after a successful `os.mkdir(path)`. */
  function AfterMkdir(st: FsState, path: string): FsState
  {
    st.(dirs := st.dirs + {path})
  }

  /** The state after `urlretrieve(url, path)`: the file exists (created or
      overwritten) and the fetch is recorded. */
  function AfterRetrieve(st: FsState, url: string, path: string): FsState
  {
    st.(files := st.files + {path}, fetches := st.fetches + [Fetch(url, path)])
  }

  /** The filesystem, changed in place by `mkdir` and by fetches. */
  class FileSystem {
    var dirs: set<string>
    var files: set<string>
    var fetches: seq<Fetch>

    constructor (dirs0: set<string>, files0: set<string>)
      ensures State() == FsState(dirs0, files0, [])
    {
      dirs, files, fetches := dirs0, files0, [];
    }

    function State(): FsState
      reads this
    {
      FsState(dirs, files, fetches)
    }

    /** `os.path.isdir(path)`. */
    predicate IsDir(path: string)
      reads this
    {
      path in dirs
    }

    /** `os.path.isfile(path)`. */
    predicate IsFile(path: string)
      reads this
    {
      path in files
    }

    /** `os.mkdir(path)`; `ok` is false where Python raises. */
    method Mkdir(path: string) returns (ok: bool)
      modifies this
      ensures ok == CanMkdir(old(State()), path)
      ensures State() == if ok then AfterMkdir(old(State()), path) else old(State())
    {
      ok := path != "" && path !in dirs && path !in files;
      if ok {
        dirs := dirs + {path};
      }
    }

    /** `urlretrieve(url, path)`. */
    method Retrieve(url: string, path: string)
      modifies this
      ensures State() == AfterRetrieve(old(State()), url, path)
    {
      files := files + {path};
      fetches := fetches + [Fetch(url, path)];
    }
  }
}
