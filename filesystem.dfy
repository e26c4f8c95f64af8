/** The folder and file operations of `crudOperation/mydatabase.js` over an
    abstract filesystem: the early-return guard chains that decide whether an
    operation goes ahead, and the abstract effect of the `fs` call after them.
    A path is a sequence of segments; the empty path is the working directory
    ".", `path.dirname` drops the last segment and `path.join` appends one. */
module FileSystem {
  import opened Outcomes
  import opened JsonRecords

  /** A name as the operations receive it, already normalised: not empty, no
      separator, and neither "." nor "..". */
  type Segment = s: string | s != "" && '/' !in s && s != "." && s != ".." witness "a"

  type Path = seq<Segment>

  /** What a file holds: text that `JSON.parse` accepts, or text it rejects. */
  datatype Content = Json(value: Value) | Unparsable

  datatype Entry = Dir | File(content: Content)

  /** Every path that exists, with what is there (`fs.existsSync` is `p in fs`). */
  type FS = map<Path, Entry>

  /** `path.dirname`: the parent; "." is its own parent. */
  function Dirname(p: Path): (r: Path)
    ensures p == [] ==> r == []
    ensures p != [] ==> |r| == |p| - 1 && r + [p[|p| - 1]] == p
  {
    if p == [] then [] else p[..|p| - 1]
  }

  /** `path.join(p, name)` for a plain segment `name`. */
  function Join(p: Path, name: Segment): (r: Path)
    ensures r != [] && Dirname(r) == p && r[|r| - 1] == name
  {
    p + [name]
  }

  /** A real directory tree: "." is a folder, and every other entry sits in a
      folder. */
  ghost predicate Valid(fs: FS)
  {
    && [] in fs && fs[[]].Dir?
    && forall p :: p in fs && p != [] ==> Dirname(p) in fs && fs[Dirname(p)].Dir?
  }

  /** `fs.readdirSync(p).length > 0`. */
  predicate HasChildren(fs: FS, p: Path)
  {
    exists q :: q in fs && q != [] && Dirname(q) == p
  }

  /** Some folder on the way to `p` is in fact a file. */
  predicate BlockedByFile(fs: FS, p: Path)
  {
    exists k :: 0 <= k < |p| && p[..k] in fs && fs[p[..k]].File?
  }

  /** `p` and all of its ancestors. */
  function Ancestry(p: Path): set<Path>
  {
    set k | 0 <= k <= |p| :: p[..k]
  }

  /** `fs.mkdir(p, { recursive: true })`: `p` and every missing ancestor
      become folders. */
  function MkdirAll(fs: FS, p: Path): FS
  {
    map q | q in fs.Keys + Ancestry(p) :: if q in fs then fs[q] else Dir
  }

  /** `createFolder`: a no-op when anything exists at `p`; otherwise a
      recursive `mkdir`, which fails when an ancestor is a file. */
  function CreateFolder(fs: FS, p: Path): Result<FS>
  {
    if p in fs then Err(AlreadyExists)
    else if BlockedByFile(fs, p) then Err(IOFailure)
    else Ok(MkdirAll(fs, p))
  }

  /** The destination of `updateFolderName`:
      `path.join(path.dirname(oldFolderPath), newFolderName)`. */
  function NewFolderPath(oldPath: Path, newName: Segment): Path
  {
    Join(Dirname(oldPath), newName)
  }

  /** A path below `src`, carried over to the same place below `dst`. */
  function Rebase(src: Path, dst: Path, p: Path): (r: Path)
    requires src <= p
    ensures dst <= r && |r| - |dst| == |p| - |src|
    ensures p == src + r[|dst|..]
  {
    dst + p[|src|..]
  }

  /** The paths that `fs.rename(src, dst)` leaves where they were. */
  function Kept(fs: FS, src: Path): set<Path>
  {
    set p | p in fs && !(src <= p)
  }

  /** The new paths of `src` and of everything below it. */
  function Carried(fs: FS, src: Path, dst: Path): set<Path>
  {
    set p | p in fs && src <= p :: Rebase(src, dst, p)
  }

  /** `fs.rename(src, dst)`: the entry at `src` and everything below it now
      sit at `dst`; an entry carried to a path that was taken replaces it. */
  function Move(fs: FS, src: Path, dst: Path): FS
  {
    map q | q in Kept(fs, src) + Carried(fs, src, dst) ::
      if q in Carried(fs, src, dst) then fs[src + q[|dst|..]] else fs[q]
  }

  /** `updateFolderName`, returning the new filesystem and the new path.
      Refuses, in this order, when the old path is absent, when the
      destination is the old path, and when the destination exists; the
      `rename` then fails only for "." itself, which cannot move below itself. */
  function UpdateFolderName(fs: FS, oldPath: Path, newName: Segment): Result<(FS, Path)>
  {
    var newPath := NewFolderPath(oldPath, newName);
    if oldPath !in fs then Err(NotFound)
    else if oldPath == newPath then Err(SameName)
    else if newPath in fs then Err(AlreadyExists)
    else if oldPath == [] then Err(IOFailure)
    else Ok((Move(fs, oldPath, newPath), newPath))
  }

  /** `deleteFolder`: refuses when nothing is at `p` or the folder has
      entries; `readdirSync` throws on a file, and `rmdir` fails on ".". */
  function DeleteFolder(fs: FS, p: Path): Result<FS>
  {
    if p !in fs then Err(NotFound)
    else if fs[p].File? then Err(IOFailure)
    else if HasChildren(fs, p) then Err(NotEmpty)
    else if p == [] then Err(IOFailure)
    else Ok(fs - {p})
  }

  datatype Kind = IsFile | IsSubfolder

  /** The names that `fs.readdir(p)` lists. */
  function ChildNames(fs: FS, p: Path): set<Segment>
  {
    set q | q in fs && q != [] && Dirname(q) == p :: q[|q| - 1]
  }

  /** `readFolderContents`: refuses when nothing is at `p`; `readdir` fails
      on a file; otherwise each entry classified as `statSync` does. */
  function ReadFolderContents(fs: FS, p: Path): Result<map<Segment, Kind>>
  {
    if p !in fs then Err(NotFound)
    else if fs[p].File? then Err(IOFailure)
    else Ok(map name | name in ChildNames(fs, p) ::
              if Join(p, name) in fs && fs[Join(p, name)].File? then IsFile else IsSubfolder)
  }

  /** `createJSONFile`: refuses when the folder is absent or the file exists;
      `writeFile` fails when the "folder" is a file. */
  function CreateJSONFile(fs: FS, folder: Path, fileName: Segment, data: Value): Result<FS>
  {
    var file := Join(folder, fileName);
    if folder !in fs then Err(NotFound)
    else if file in fs then Err(AlreadyExists)
    else if fs[folder].File? then Err(IOFailure)
    else Ok(fs[file := File(Json(data))])
  }

  /** `readJSONFile`: the parsed content handed to the callback. */
  function ReadJSONFile(fs: FS, file: Path): Result<Value>
  {
    if file !in fs then Err(NotFound)
    else if fs[file].Dir? then Err(IOFailure)
    else if fs[file].content.Unparsable? then Err(ParseFailure)
    else Ok(fs[file].content.value)
  }

  // ---------------------------------------------------------------------
  // Lemmas

  /** In a tree every ancestor of an entry exists, and is a folder. */
  lemma {:induction false} AncestorsPresent(fs: FS, p: Path, q: Path)
    requires Valid(fs) && p in fs && q <= p
    ensures q in fs && (q != p ==> fs[q].Dir?)
    decreases |p|
  {
    if q != p {
      var parent := Dirname(p);
      assert q == parent[..|q|];
      AncestorsPresent(fs, parent, q);
    }
  }

  /** The parent of an entry present after `mkdir -p` is a folder. */
  lemma MkdirParent(fs: FS, p: Path, q: Path)
    requires Valid(fs) && p !in fs && !BlockedByFile(fs, p)
    requires q in MkdirAll(fs, p) && q != []
    ensures Dirname(q) in MkdirAll(fs, p) && MkdirAll(fs, p)[Dirname(q)].Dir?
  {
    if q !in fs {
      var k :| 0 <= k <= |p| && q == p[..k];
      assert Dirname(q) == p[..k - 1];
      assert Dirname(q) in Ancestry(p);
    }
  }

  /** `createFolder` is a no-op exactly when something exists at `p`; when it
      goes ahead, `p` is a folder afterwards, nothing that existed changes,
      the only new entries are folders on the way to `p`, and the tree stays
      a tree. Calling it again is a no-op. */
  lemma CreateFolderEffect(fs: FS, p: Path)
    requires Valid(fs)
    ensures CreateFolder(fs, p) == Err(AlreadyExists) <==> p in fs
    ensures CreateFolder(fs, p).Ok? <==> p !in fs && !BlockedByFile(fs, p)
    ensures CreateFolder(fs, p).Ok? ==>
              var after := CreateFolder(fs, p).value;
              && Valid(after)
              && p in after && after[p] == Dir
              && (forall q :: q in fs ==> q in after && after[q] == fs[q])
              && (forall q :: q in after && q !in fs ==> q <= p && after[q] == Dir)
              && CreateFolder(after, p) == Err(AlreadyExists)
  {
    if CreateFolder(fs, p).Ok? {
      var after := MkdirAll(fs, p);
      assert p == p[..|p|] && p in Ancestry(p);
      forall q | q in after && q != []
        ensures Dirname(q) in after && after[Dirname(q)].Dir?
      {
        MkdirParent(fs, p, q);
      }
    }
  }

  /** Nothing in a tree lies below a path that does not exist. */
  lemma NothingBelowAbsent(fs: FS, dst: Path)
    requires Valid(fs) && dst !in fs
    ensures forall p :: p in fs ==> !(dst <= p)
  {
    forall p | p in fs && dst <= p
      ensures false
    {
      AncestorsPresent(fs, p, dst);
    }
  }

  /** A path is carried by the move exactly when it lies below `dst` and
      the matching path below `src` exists. */
  lemma CarriedIff(fs: FS, src: Path, dst: Path, q: Path)
    ensures q in Carried(fs, src, dst) <==> dst <= q && src + q[|dst|..] in fs
  {
    if dst <= q && src + q[|dst|..] in fs {
      var p := src + q[|dst|..];
      assert src <= p && Rebase(src, dst, p) == q;
    }
  }

  /** The conditions under which `updateFolderName` moves `src` to `dst`. */
  ghost predicate MovePre(fs: FS, src: Path, dst: Path)
  {
    Valid(fs) && src in fs && src != [] && dst !in fs && |dst| == |src| && Dirname(dst) == Dirname(src)
  }

  /** An entry outside the moved folder stays as it was. */
  lemma KeptAt(fs: FS, src: Path, dst: Path, p: Path)
    requires MovePre(fs, src, dst)
    requires p in fs && !(src <= p)
    ensures p in Move(fs, src, dst) && Move(fs, src, dst)[p] == fs[p]
  {
    NothingBelowAbsent(fs, dst);
    CarriedIff(fs, src, dst, p);
    assert p in Kept(fs, src) && p !in Carried(fs, src, dst);
  }

  /** An entry inside the moved folder reappears below the new path. */
  lemma CarriedAt(fs: FS, src: Path, dst: Path, p: Path)
    requires MovePre(fs, src, dst)
    requires p in fs && src <= p
    ensures Rebase(src, dst, p) in Move(fs, src, dst) && Move(fs, src, dst)[Rebase(src, dst, p)] == fs[p]
  {
    assert Rebase(src, dst, p) in Carried(fs, src, dst);
  }

  /** Nothing outside the moved folder changes. */
  lemma MoveKeeps(fs: FS, src: Path, dst: Path)
    requires MovePre(fs, src, dst)
    ensures var after := Move(fs, src, dst);
            forall p :: p in fs && !(src <= p) ==> p in after && after[p] == fs[p]
  {
    forall p | p in fs && !(src <= p)
      ensures p in Move(fs, src, dst) && Move(fs, src, dst)[p] == fs[p]
    {
      KeptAt(fs, src, dst, p);
    }
  }

  /** Everything inside the moved folder reappears below the new path. */
  lemma MoveCarries(fs: FS, src: Path, dst: Path)
    requires MovePre(fs, src, dst)
    ensures var after := Move(fs, src, dst);
            forall p :: p in fs && src <= p ==> Rebase(src, dst, p) in after && after[Rebase(src, dst, p)] == fs[p]
  {
    forall p | p in fs && src <= p
      ensures Rebase(src, dst, p) in Move(fs, src, dst) && Move(fs, src, dst)[Rebase(src, dst, p)] == fs[p]
    {
      CarriedAt(fs, src, dst, p);
    }
  }

  /** The move adds nothing but the carried paths, and the old path is gone. */
  lemma MoveOnly(fs: FS, src: Path, dst: Path)
    requires MovePre(fs, src, dst)
    ensures var after := Move(fs, src, dst);
            && src !in after
            && forall q :: q in after ==> (q in fs && !(src <= q)) || (dst <= q && src + q[|dst|..] in fs)
  {
    forall q | q in Carried(fs, src, dst)
      ensures dst <= q && src + q[|dst|..] in fs
    {
      CarriedIff(fs, src, dst, q);
    }
    CarriedIff(fs, src, dst, src);
  }

  /** The parent of a path that stayed where it was is a folder after the
      move. */
  lemma KeptParent(fs: FS, src: Path, dst: Path, q: Path)
    requires MovePre(fs, src, dst)
    requires q in fs && !(src <= q) && q != []
    ensures var after := Move(fs, src, dst);
            Dirname(q) in after && after[Dirname(q)].Dir?
  {
    assert Dirname(q) in fs && !(src <= Dirname(q));
    KeptAt(fs, src, dst, Dirname(q));
  }

  /** Taking the parent commutes with carrying a path below `src` over to
      `dst`. */
  lemma RebaseParent(src: Path, dst: Path, q: Path)
    requires dst <= q && q != dst && |dst| == |src|
    ensures var p := src + q[|dst|..];
            p != [] && src <= Dirname(p) && Dirname(q) == Rebase(src, dst, Dirname(p))
  {
    var p := src + q[|dst|..];
    assert Dirname(p) == src + q[|dst|..|q| - 1];
    assert Dirname(q) == dst + q[|dst|..|q| - 1];
  }

  /** The parent of a carried path is a folder after the move. */
  lemma CarriedParent(fs: FS, src: Path, dst: Path, q: Path)
    requires MovePre(fs, src, dst)
    requires dst <= q && src + q[|dst|..] in fs
    requires q != []
    ensures var after := Move(fs, src, dst);
            Dirname(q) in after && after[Dirname(q)].Dir?
  {
    var p := src + q[|dst|..];
    if q == dst {
      assert Dirname(q) == Dirname(src) && Dirname(src) in fs && !(src <= Dirname(src));
      KeptAt(fs, src, dst, Dirname(src));
    } else {
      RebaseParent(src, dst, q);
      assert Dirname(p) in fs && fs[Dirname(p)].Dir?;
      CarriedAt(fs, src, dst, Dirname(p));
    }
  }

  /** The move keeps the tree a tree. */
  lemma MoveValid(fs: FS, src: Path, dst: Path)
    requires MovePre(fs, src, dst)
    ensures Valid(Move(fs, src, dst))
  {
    var after := Move(fs, src, dst);
    MoveKeeps(fs, src, dst);
    MoveOnly(fs, src, dst);
    forall q | q in after && q != []
      ensures Dirname(q) in after && after[Dirname(q)].Dir?
    {
      if dst <= q && src + q[|dst|..] in fs {
        CarriedParent(fs, src, dst, q);
      } else {
        KeptParent(fs, src, dst, q);
      }
    }
  }

  /** After a successful `updateFolderName` the new path is
      `join(dirname(old), newName)`, the folder and everything below it moved
      there, nothing else changed, and the tree stays a tree. It refuses, in
      this order, when the old path is absent, when the destination is the old
      path, and when the destination exists. */
  lemma UpdateFolderNameEffect(fs: FS, oldPath: Path, newName: Segment)
    requires Valid(fs)
    ensures var r, dst := UpdateFolderName(fs, oldPath, newName), NewFolderPath(oldPath, newName);
            && (r == Err(NotFound) <==> oldPath !in fs)
            && (r == Err(SameName) <==> oldPath in fs && dst == oldPath)
            && (r == Err(AlreadyExists) <==> oldPath in fs && dst != oldPath && dst in fs)
            && (r.Ok? <==> oldPath in fs && dst !in fs && oldPath != [])
    ensures var r, dst := UpdateFolderName(fs, oldPath, newName), NewFolderPath(oldPath, newName);
            r.Ok? ==>
              var after := r.value.0;
              && r.value.1 == dst
              && Valid(after)
              && oldPath !in after && dst in after && after[dst] == fs[oldPath]
              && (forall p :: p in fs && !(oldPath <= p) ==> p in after && after[p] == fs[p])
              && (forall p :: p in fs && oldPath <= p ==> Rebase(oldPath, dst, p) in after && after[Rebase(oldPath, dst, p)] == fs[p])
              && (forall q :: q in after ==> (q in fs && !(oldPath <= q)) || (dst <= q && oldPath + q[|dst|..] in fs))
  {
    var dst := NewFolderPath(oldPath, newName);
    if oldPath in fs && dst !in fs && oldPath != [] {
      MoveKeeps(fs, oldPath, dst);
      MoveCarries(fs, oldPath, dst);
      MoveOnly(fs, oldPath, dst);
      MoveValid(fs, oldPath, dst);
      assert Rebase(oldPath, dst, oldPath) == dst;
    }
  }

  /** `deleteFolder` goes ahead exactly on an empty folder other than ".";
      then only that path disappears and the tree stays a tree. On a folder
      with entries it reports not-empty. */
  lemma DeleteFolderEffect(fs: FS, p: Path)
    requires Valid(fs)
    ensures DeleteFolder(fs, p) == Err(NotFound) <==> p !in fs
    ensures DeleteFolder(fs, p) == Err(NotEmpty) <==> p in fs && fs[p].Dir? && HasChildren(fs, p)
    ensures DeleteFolder(fs, p).Ok? <==> p in fs && fs[p].Dir? && !HasChildren(fs, p) && p != []
    ensures DeleteFolder(fs, p).Ok? ==>
              var after := DeleteFolder(fs, p).value;
              && Valid(after)
              && after.Keys == fs.Keys - {p}
              && forall q :: q in after ==> after[q] == fs[q]
  {
  }

  /** `readFolderContents` lists exactly the entries directly inside the
      folder, each classified as a file or a subfolder. */
  lemma ReadFolderContentsEffect(fs: FS, p: Path)
    ensures ReadFolderContents(fs, p).Ok? <==> p in fs && fs[p].Dir?
    ensures ReadFolderContents(fs, p).Ok? ==>
              var listing := ReadFolderContents(fs, p).value;
              && (forall name :: name in listing <==> Join(p, name) in fs)
              && (forall name :: name in listing ==> (listing[name] == IsFile <==> fs[Join(p, name)].File?))
  {
    if p in fs && fs[p].Dir? {
      forall name | Join(p, name) in fs
        ensures name in ChildNames(fs, p)
      {
        var q := Join(p, name);
        assert q != [] && Dirname(q) == p && q[|q| - 1] == name;
      }
      forall name | name in ChildNames(fs, p)
        ensures Join(p, name) in fs
      {
        var q :| q in fs && q != [] && Dirname(q) == p && q[|q| - 1] == name;
        assert q == Join(p, name);
      }
    }
  }

  /** `createJSONFile` refuses when the folder is absent or the file exists;
      otherwise it adds exactly that file, the tree stays a tree, reading it
      back yields the data written, and a second call reports already-exists. */
  lemma CreateJSONFileEffect(fs: FS, folder: Path, fileName: Segment, data: Value)
    requires Valid(fs)
    ensures var r, file := CreateJSONFile(fs, folder, fileName, data), Join(folder, fileName);
            && (r == Err(NotFound) <==> folder !in fs)
            && (r == Err(AlreadyExists) <==> folder in fs && file in fs)
            && (r.Ok? <==> folder in fs && fs[folder].Dir? && file !in fs)
    ensures var r, file := CreateJSONFile(fs, folder, fileName, data), Join(folder, fileName);
            r.Ok? ==>
              && Valid(r.value)
              && r.value.Keys == fs.Keys + {file}
              && (forall q :: q in fs ==> r.value[q] == fs[q])
              && ReadJSONFile(r.value, file) == Ok(data)
              && CreateJSONFile(r.value, folder, fileName, data) == Err(AlreadyExists)
  {
  }

  /** `readJSONFile` hands the callback exactly the parsed content of an
      existing file; it reports a missing path, a folder, and content that
      does not parse. */
  lemma ReadJSONFileEffect(fs: FS, file: Path)
    ensures ReadJSONFile(fs, file) == Err(NotFound) <==> file !in fs
    ensures ReadJSONFile(fs, file) == Err(IOFailure) <==> file in fs && fs[file].Dir?
    ensures ReadJSONFile(fs, file) == Err(ParseFailure) <==> file in fs && fs[file] == File(Unparsable)
    ensures ReadJSONFile(fs, file).Ok? ==> file in fs && fs[file] == File(Json(ReadJSONFile(fs, file).value))
  {
  }

  /** Rewriting an existing file, as `updateJSONData` and `deleteJSONRecord`
      do, changes that file's content and nothing else; the tree stays a
      tree, and reading the file back yields the value written. */
  lemma RewriteEffect(fs: FS, file: Path, v: Value)
    requires Valid(fs) && ReadJSONFile(fs, file).Ok?
    ensures var after := fs[file := File(Json(v))];
            && Valid(after)
            && after.Keys == fs.Keys
            && (forall q :: q in fs && q != file ==> after[q] == fs[q])
            && ReadJSONFile(after, file) == Ok(v)
  {
  }

  /** `updateJSONData`: read the file, patch the first record whose `id` is
      strictly equal to the key in the parsed array, write the array back. */
  method UpdateJSONData(fs: FS, file: Path, key: Value, patch: Patch) returns (r: Result<FS>)
    ensures ReadJSONFile(fs, file).Err? ==> r == Err(ReadJSONFile(fs, file).error)
    ensures ReadJSONFile(fs, file).Ok? ==>
              var u := UpdateArray(ReadJSONFile(fs, file).value, key, patch);
              r == if u.Ok? then Ok(fs[file := File(Json(u.value))]) else Err(u.error)
  {
    var read := ReadJSONFile(fs, file);
    if read.Err? {
      return Err(read.error);
    }
    if !read.value.JArr? {
      return Err(ParseFailure);
    }
    var jsonData := new JsonArray(read.value.elements);
    var found := jsonData.UpdateByKey(key, patch);
    match found
    case Found(_) => r := Ok(fs[file := File(Json(JArr(jsonData.elements)))]);
    case Absent => r := Err(NoMatch);
    case Threw(_) => r := Err(ParseFailure);
  }

  /** `deleteJSONRecord`: read the file, splice out the first record whose
      `id` is strictly equal to the key, write the array back. */
  method DeleteJSONRecord(fs: FS, file: Path, key: Value) returns (r: Result<FS>)
    ensures ReadJSONFile(fs, file).Err? ==> r == Err(ReadJSONFile(fs, file).error)
    ensures ReadJSONFile(fs, file).Ok? ==>
              var u := DeleteFromArray(ReadJSONFile(fs, file).value, key);
              r == if u.Ok? then Ok(fs[file := File(Json(u.value))]) else Err(u.error)
  {
    var read := ReadJSONFile(fs, file);
    if read.Err? {
      return Err(read.error);
    }
    if !read.value.JArr? {
      return Err(ParseFailure);
    }
    var jsonData := new JsonArray(read.value.elements);
    var found := jsonData.DeleteByKey(key);
    match found
    case Found(_) => r := Ok(fs[file := File(Json(JArr(jsonData.elements)))]);
    case Absent => r := Err(NoMatch);
    case Threw(_) => r := Err(ParseFailure);
  }
}
