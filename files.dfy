/** The file system as the preprocessing code sees it: directories by path,
    each a map from file name to the file's content. */
module Files {
  import opened Raster

  /** What a tile file holds once cv2.imwrite has written it. */
  datatype FileData = Picture(pixels: seq<seq<Pixel>>) | GreyPicture(values: seq<seq<byte>>)

  type Dir = map<string, FileData>

  /** create_directory: the directory exists afterwards; an existing one
      (and everything in it) is left as it was, a new one is empty. */
  function WithDirectory(dirs: map<string, Dir>, d: string): (r: map<string, Dir>)
    ensures r.Keys == dirs.Keys + {d}
    ensures forall e :: e in dirs ==> r[e] == dirs[e]
    ensures d !in dirs ==> r[d] == map[]
  {
    if d in dirs then dirs else dirs[d := map[]]
  }

  /** Creating a directory twice leaves the same file system as creating it once. */
  lemma CreateDirectoryIdempotent(dirs: map<string, Dir>, d: string)
    ensures WithDirectory(WithDirectory(dirs, d), d) == WithDirectory(dirs, d)
  {
  }

  /** The names a sequence of writes touches. */
  function Names(ws: seq<(string, FileData)>): set<string>
  {
    set k | 0 <= k < |ws| :: ws[k].0
  }

  predicate DistinctNames(ws: seq<(string, FileData)>)
  {
    forall i, j :: 0 <= i < j < |ws| ==> ws[i].0 != ws[j].0
  }

  /** A directory after the writes `ws`, in order: a later write of a name
      replaces the earlier file of that name. */
  function Written(m: Dir, ws: seq<(string, FileData)>): (r: Dir)
    ensures r.Keys == m.Keys + Names(ws)
  {
    if ws == [] then m
    else
      var init := ws[..|ws| - 1];
      assert Names(ws) == Names(init) + {ws[|ws| - 1].0} by {
        forall n | n in Names(ws) ensures n in Names(init) + {ws[|ws| - 1].0} {
          var k :| 0 <= k < |ws| && ws[k].0 == n;
          if k < |ws| - 1 { assert init[k] == ws[k]; }
        }
        forall n | n in Names(init) ensures n in Names(ws) {
          var k :| 0 <= k < |init| && init[k].0 == n;
          assert ws[k] == init[k];
        }
      }
      Written(m, init)[ws[|ws| - 1].0 := ws[|ws| - 1].1]
  }

  lemma {:induction false} WrittenAppend(m: Dir, a: seq<(string, FileData)>, b: seq<(string, FileData)>)
    ensures Written(m, a + b) == Written(Written(m, a), b)
  {
    if b == [] {
      assert a + b == a;
    } else {
      var init := b[..|b| - 1];
      assert (a + b)[..|a + b| - 1] == a + init;
      WrittenAppend(m, a, init);
    }
  }

  /** With distinct names, each written name holds exactly what was written
      under it, and every other file of the directory is untouched. */
  lemma {:induction false} WrittenLookup(m: Dir, ws: seq<(string, FileData)>)
    requires DistinctNames(ws)
    ensures forall k :: 0 <= k < |ws| ==> Written(m, ws)[ws[k].0] == ws[k].1
    ensures forall n :: n in m && n !in Names(ws) ==> Written(m, ws)[n] == m[n]
  {
    if ws != [] {
      var init := ws[..|ws| - 1];
      WrittenLookup(m, init);
      forall k | 0 <= k < |ws| ensures Written(m, ws)[ws[k].0] == ws[k].1 {
        if k < |ws| - 1 {
          assert init[k] == ws[k];
        }
      }
    }
  }

  /** shutil.move of one file from directory src to directory dst; a file of
      the same name in dst is replaced. */
  function Moved(dirs: map<string, Dir>, src: string, dst: string, name: string): map<string, Dir>
    requires src in dirs && dst in dirs && name in dirs[src]
  {
    dirs[src := dirs[src] - {name}][dst := dirs[dst][name := dirs[src][name]]]
  }

  /** The file system that the preprocessing code reads and writes. */
  class FileStore {
    var dirs: map<string, Dir>

    constructor (initial: map<string, Dir>)
      ensures dirs == initial
    {
      dirs := initial;
    }

    /** create_directory (src/utils.py and src/preprocessing.py). */
    method CreateDirectory(d: string)
      modifies this
      ensures dirs == WithDirectory(old(dirs), d)
    {
      if d !in dirs {
        dirs := dirs[d := map[]];
      }
    }

    /** cv2.imwrite into an existing directory. */
    method Write(d: string, name: string, data: FileData)
      requires d in dirs
      modifies this
      ensures dirs == old(dirs)[d := old(dirs)[d][name := data]]
    {
      dirs := dirs[d := dirs[d][name := data]];
    }

    /** shutil.move(src/name, dst/name) */
    method Move(src: string, name: string, dst: string)
      requires src in dirs && dst in dirs && src != dst && name in dirs[src]
      modifies this
      ensures dirs == Moved(old(dirs), src, dst, name)
    {
      var data := dirs[src][name];
      dirs := dirs[src := dirs[src] - {name}];
      dirs := dirs[dst := dirs[dst][name := data]];
    }
  }
}
