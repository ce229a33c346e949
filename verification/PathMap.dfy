// The reference definition RamFs is proved against: a filesystem as a finite map from locations
// to bytes or "directory", plus a byte counter. Nothing here knows about inodes.
module PathMap {
  import opened Wrappers
  import opened Paths

  const MAX_FILE_SIZE: nat := 4 * 1024 * 1024
  const MAX_PATH_LEN: nat := 256
  const MAX_NAME_LEN: nat := 64

  // Components `RamFs` walks past without looking at them.
  const SKIPPED: set<Name> := {[], DOT, DOT_DOT}

  datatype FsError =
    | NotFound | PermissionDenied | AlreadyExists | NotADirectory | NotAFile | NotEmpty
    | PathTooLong | NameTooLong | FileTooLarge | NoSpace | InvalidPath

  datatype Result<+T> = Ok(value: T) | Err(error: FsError)

  datatype Entry = File(data: seq<byte>) | Directory

  type View = map<Key, Entry>

  /** A filesystem is prefix-closed, rooted at a directory, and only directories have children. */
  ghost predicate WellFormed(v: View) {
    && Root in v && v[Root].Directory?
    && forall k, n :: Sub(k, n) in v ==> k in v && v[k].Directory?
  }

  function Walk(v: View, at: Key, comps: seq<Name>): Result<Key>
    requires at in v
    decreases |comps|
  {
    if comps == [] then Ok(at)
    else if v[at].File? then Err(NotADirectory)
    else if Sub(at, comps[0]) !in v then Err(NotFound)
    else Walk(v, Sub(at, comps[0]), comps[1..])
  }

  function Locate(v: View, path: Name): (r: Result<Key>)
    requires Root in v
  {
    if |path| > MAX_PATH_LEN then Err(PathTooLong)
    else Walk(v, Root, Keep(Split(path), SKIPPED))
  }

  /** Where a create or remove of `path` would act: always a child of an existing directory. */
  function LocateTarget(v: View, path: Name): (r: Result<Key>)
    requires Root in v
    ensures r.Ok? ==> r.value.Child? && SplitLast(path).Some?
  {
    match SplitLast(path)
    case None => Err(InvalidPath)
    case Some((parent, name)) =>
      if |name| > MAX_NAME_LEN then Err(NameTooLong)
      else
        match Locate(v, parent)
        case Err(e) => Err(e)
        case Ok(k) => if k in v && v[k].Directory? then Ok(Sub(k, name)) else Err(NotADirectory)
  }

  function Create(v: View, path: Name, e: Entry): (Result<()>, View)
    requires Root in v
  {
    match LocateTarget(v, path)
    case Err(err) => (Err(err), v)
    case Ok(k) => if k in v then (Err(AlreadyExists), v) else (Ok(()), v[k := e])
  }

  function Read(v: View, path: Name): Result<seq<byte>>
    requires Root in v
  {
    match Locate(v, path)
    case Err(err) => Err(err)
    case Ok(k) => if k in v && v[k].File? then Ok(v[k].data) else Err(NotAFile)
  }

  function Write(v: View, used: nat, maxSize: nat, path: Name, data: seq<byte>): (Result<()>, View, int)
    requires Root in v
  {
    if |data| > MAX_FILE_SIZE then (Err(FileTooLarge), v, used)
    else
      match Locate(v, path)
      case Err(err) => (Err(err), v, used)
      case Ok(k) =>
        if k !in v || v[k].Directory? then (Err(NotAFile), v, used)
        else if used - |v[k].data| + |data| > maxSize then (Err(NoSpace), v, used)
        else (Ok(()), v[k := File(data)], used - |v[k].data| + |data|)
  }

  function Append(v: View, used: nat, maxSize: nat, path: Name, data: seq<byte>): (Result<()>, View, int)
    requires Root in v
  {
    match Locate(v, path)
    case Err(err) => (Err(err), v, used)
    case Ok(k) =>
      if k !in v || v[k].Directory? then (Err(NotAFile), v, used)
      else if |v[k].data| + |data| > MAX_FILE_SIZE then (Err(FileTooLarge), v, used)
      else if used + |data| > maxSize then (Err(NoSpace), v, used)
      else (Ok(()), v[k := File(v[k].data + data)], used + |data|)
  }

  function RemoveFile(v: View, used: nat, path: Name): (Result<()>, View, int)
    requires Root in v
  {
    match LocateTarget(v, path)
    case Err(err) => (Err(err), v, used)
    case Ok(k) =>
      if k !in v then (Err(NotFound), v, used)
      else if v[k].Directory? then (Err(NotAFile), v, used)
      else (Ok(()), v - {k}, used - |v[k].data|)
  }

  ghost predicate HasChild(v: View, k: Key) {
    exists n :: Sub(k, n) in v
  }

  ghost function RemoveDir(v: View, path: Name): (Result<()>, View)
    requires Root in v
  {
    if path == [SLASH] then (Err(PermissionDenied), v)
    else
      match LocateTarget(v, path)
      case Err(err) => (Err(err), v)
      case Ok(k) =>
        if k !in v then (Err(NotFound), v)
        else if v[k].File? then (Err(NotADirectory), v)
        else if HasChild(v, k) then (Err(NotEmpty), v)
        else (Ok(()), v - {k})
  }

  // ---- What the reference promises about paths ----

  /** In a well-formed view a walk succeeds exactly at the locations the view holds, and it ends
      at the location its components spell out. */
  lemma {:induction false} WalkFinds(v: View, at: Key, comps: seq<Name>)
    requires WellFormed(v) && at in v
    ensures Walk(v, at, comps).Ok? <==> Descend(at, comps) in v
    ensures Walk(v, at, comps).Ok? ==> Walk(v, at, comps).value == Descend(at, comps)
    decreases |comps|
  {
    if comps != [] {
      var next := Sub(at, comps[0]);
      if next in v {
        WalkFinds(v, next, comps[1..]);
      } else {
        MissingStaysMissing(v, next, comps[1..]);
      }
    }
  }

  lemma {:induction false} MissingStaysMissing(v: View, at: Key, comps: seq<Name>)
    requires WellFormed(v) && at !in v
    ensures Descend(at, comps) !in v
    decreases |comps|
  {
    if comps != [] {
      MissingStaysMissing(v, Sub(at, comps[0]), comps[1..]);
    }
  }

  /** The location a create or remove acts on is the one its own path resolves to, provided the
      last component is not skipped by resolution and the path is short enough to resolve. */
  lemma {:induction false} TargetIsLocation(v: View, path: Name)
    requires WellFormed(v) && LocateTarget(v, path).Ok?
    ensures var k := LocateTarget(v, path).value;
            && (k.name !in SKIPPED ==> Descend(Root, Keep(Split(path), SKIPPED)) == k)
            && (k.name in SKIPPED ==> Descend(Root, Keep(Split(path), SKIPPED)) == k.parent)
  {
    var (parent, name) := SplitLast(path).value;
    WalkFinds(v, Root, Keep(Split(parent), SKIPPED));
    SplitLastComponents(path, SKIPPED);
    if name in SKIPPED {
      assert Keep(Split(path), SKIPPED) == Keep(Split(parent), SKIPPED);
    } else {
      DescendSnoc(Root, Keep(Split(parent), SKIPPED), name);
    }
  }

  lemma CreateKeepsWellFormed(v: View, path: Name, e: Entry)
    requires WellFormed(v)
    ensures WellFormed(Create(v, path, e).1)
  {
    if LocateTarget(v, path).Ok? {
      WalkFinds(v, Root, Keep(Split(SplitLast(path).value.0), SKIPPED));
    }
  }

  /** The file just created is the one its own path reads back, exactly when that path is within
      the length limit and does not end in a component that resolution skips. Creation itself
      checks only the parent's length, so both failing cases do create an object. */
  lemma CreatedFileIsReadable(v: View, path: Name)
    requires WellFormed(v) && Create(v, path, File([])).0.Ok?
    ensures Read(Create(v, path, File([])).1, path) == Ok([]) <==>
            |path| <= MAX_PATH_LEN && SplitLast(path).value.1 !in SKIPPED
  {
    var k := LocateTarget(v, path).value;
    var w := Create(v, path, File([])).1;
    TargetIsLocation(v, path);
    CreateKeepsWellFormed(v, path, File([]));
    WalkFinds(w, Root, Keep(Split(path), SKIPPED));
    assert k.parent in w && w[k.parent].Directory?;
  }

  lemma {:induction false} KeepSkipped(name: Name)
    requires name in SKIPPED
    ensures Keep([name], SKIPPED) == []
  {
    assert [name][1..] == [];
  }

  /** Creating ".." in an empty filesystem succeeds, and the path then leads to the root. */
  lemma CreatedButUnreadable()
    ensures var v: View := map[Root := Directory];
            Create(v, DOT_DOT, File([])).0 == Ok(()) && Read(Create(v, DOT_DOT, File([])).1, DOT_DOT) == Err(NotAFile)
  {
    var v: View := map[Root := Directory];
    assert SLASH !in DOT_DOT;
    SplitPlain(DOT_DOT);
    assert TrimStart(DOT_DOT) == DOT_DOT && TrimEnd(DOT_DOT) == DOT_DOT;
    assert SplitLast(DOT_DOT) == Some(([], DOT_DOT));
    assert Split([]) == [[]];
    KeepSkipped([]);
    KeepSkipped(DOT_DOT);
  }

  /** The location a path spells. */
  function Spelled(path: Name): Key { Descend(Root, Keep(Split(path), SKIPPED)) }

  /**
   * The directory just created is one: its path reads as no file, every plain name can be created in
   * it, and no other location changed.
   */
  lemma {:induction false} CreatedDirectoryIsUsable(v: View, path: Name, name: Name, e: Entry)
    requires WellFormed(v) && Create(v, path, Directory).0.Ok?
    requires |path| <= MAX_PATH_LEN && SplitLast(path).value.1 !in SKIPPED
    requires name != [] && SLASH !in name && |name| <= MAX_NAME_LEN
    ensures var w := Create(v, path, Directory).1;
            && Read(w, path) == Err(NotAFile)
            && Create(w, path + [SLASH] + name, e) == (Ok(()), w[Sub(Spelled(path), name) := e])
            && Spelled(path) !in v && w.Keys == v.Keys + {Spelled(path)} && forall k :: k in v ==> w[k] == v[k]
  {
    var k := LocateTarget(v, path).value;
    var w := Create(v, path, Directory).1;
    TargetIsLocation(v, path);
    CreateKeepsWellFormed(v, path, Directory);
    WalkFinds(w, Root, Keep(Split(path), SKIPPED));
    SplitLastChild(path, name);
    TrimStartKeeps(path, SKIPPED);
    assert Locate(w, path) == Ok(k) && Locate(w, TrimStart(path)) == Ok(k);
    assert LocateTarget(w, path + [SLASH] + name) == Ok(Sub(k, name));
    assert Sub(k, name) !in v;
    assert KeyDepth(Sub(k, name)) != KeyDepth(k);
  }

  /** Empty components, "." and ".." at the end of a path are walked past: the path leads where it led. */
  lemma {:induction false} SuffixIgnored(v: View, path: Name, c: Name)
    requires Root in v && (c == [] || c == DOT || c == DOT_DOT) && |path| + 1 + |c| <= MAX_PATH_LEN
    ensures Locate(v, path + [SLASH] + c) == Locate(v, path)
  {
    KeepSkippedName(path, c, SKIPPED);
  }

  /** What a remove acts on, when there is something there. */
  lemma {:induction false} RemoveTarget(v: View, path: Name)
    requires WellFormed(v) && |path| <= MAX_PATH_LEN && SplitLast(path).Some?
    requires |SplitLast(path).value.1| <= MAX_NAME_LEN && SplitLast(path).value.1 !in SKIPPED
    ensures Spelled(path) in v ==> LocateTarget(v, path) == Ok(Spelled(path))
    ensures LocateTarget(v, path).Ok? ==> LocateTarget(v, path).value == Spelled(path)
  {
    var (parent, name) := SplitLast(path).value;
    var comps := Keep(Split(parent), SKIPPED);
    SplitLastComponents(path, SKIPPED);
    DescendSnoc(Root, comps, name);
    WalkFinds(v, Root, comps);
    assert Spelled(path) == Sub(Descend(Root, comps), name);
  }

  /** Which error a walk ends in: it met a file where it had to go on, or something missing. */
  lemma {:induction false} WalkErrors(v: View, at: Key, comps: seq<Name>)
    requires WellFormed(v) && at in v
    ensures Walk(v, at, comps) == Err(NotADirectory) <==>
            exists i: nat :: i < |comps| && Descend(at, comps[..i]) in v && v[Descend(at, comps[..i])].File?
    ensures Walk(v, at, comps).Ok? || Walk(v, at, comps) == Err(NotADirectory) || Walk(v, at, comps) == Err(NotFound)
    decreases |comps|
  {
    if comps != [] {
      assert comps[..0] == [] && Descend(at, comps[..0]) == at;
      var next, rest := Sub(at, comps[0]), comps[1..];
      forall i: nat | 0 < i < |comps|
        ensures Descend(at, comps[..i]) == Descend(next, rest[..i - 1])
      {
        assert comps[..i][1..] == rest[..i - 1];
      }
      if v[at].Directory? {
        if next in v {
          WalkErrors(v, next, rest);
          forall i: nat | i < |rest|
            ensures Descend(next, rest[..i]) == Descend(at, comps[..i + 1])
          {
            assert comps[..i + 1][1..] == rest[..i];
          }
        } else {
          forall i: nat | 0 < i < |comps|
            ensures Descend(at, comps[..i]) !in v
          {
            MissingStaysMissing(v, next, rest[..i - 1]);
          }
        }
      }
    }
  }

  /** Exactly when a write succeeds, and what it leaves. */
  lemma WriteExactly(v: View, used: nat, maxSize: nat, path: Name, data: seq<byte>)
    requires WellFormed(v)
    ensures var k := Spelled(path);
            var (r, w, n) := Write(v, used, maxSize, path, data);
            && (r.Ok? <==> |data| <= MAX_FILE_SIZE && |path| <= MAX_PATH_LEN && k in v && v[k] != Directory &&
                           used - |v[k].data| + |data| <= maxSize)
            && (if r.Ok? then w == v[k := File(data)] && n == used - |v[k].data| + |data| else w == v && n == used)
  {
    WalkFinds(v, Root, Keep(Split(path), SKIPPED));
  }

  lemma AppendExactly(v: View, used: nat, maxSize: nat, path: Name, data: seq<byte>)
    requires WellFormed(v)
    ensures var k := Spelled(path);
            var (r, w, n) := Append(v, used, maxSize, path, data);
            && (r.Ok? <==> |path| <= MAX_PATH_LEN && k in v && v[k] != Directory &&
                           |v[k].data| + |data| <= MAX_FILE_SIZE && used + |data| <= maxSize)
            && (if r.Ok? then w == v[k := File(v[k].data + data)] && n == used + |data| else w == v && n == used)
  {
    WalkFinds(v, Root, Keep(Split(path), SKIPPED));
  }

  /** Exactly an empty directory can be removed, and nothing but it goes. */
  lemma RemoveDirExactly(v: View, path: Name)
    requires WellFormed(v) && |path| <= MAX_PATH_LEN && SplitLast(path).Some?
    requires |SplitLast(path).value.1| <= MAX_NAME_LEN && SplitLast(path).value.1 !in SKIPPED
    ensures var k := Spelled(path);
            && (RemoveDir(v, path).0.Ok? <==> k in v && v[k] == Directory && forall n :: Sub(k, n) !in v)
            && RemoveDir(v, path).1 == if RemoveDir(v, path).0.Ok? then v - {k} else v
  {
    RemoveTarget(v, path);
    assert path != [SLASH] by {
      assert TrimStart([]) == [];
      assert [SLASH][1..] == [];
    }
  }

  /** Exactly a file can be removed, nothing but it goes, and its bytes are given back. */
  lemma RemoveFileExactly(v: View, used: nat, path: Name)
    requires WellFormed(v) && |path| <= MAX_PATH_LEN && SplitLast(path).Some?
    requires |SplitLast(path).value.1| <= MAX_NAME_LEN && SplitLast(path).value.1 !in SKIPPED
    ensures var k := Spelled(path);
            && (RemoveFile(v, used, path).0.Ok? <==> k in v && v[k] != Directory)
            && RemoveFile(v, used, path).1 == (if RemoveFile(v, used, path).0.Ok? then v - {k} else v)
            && RemoveFile(v, used, path).2 == (if RemoveFile(v, used, path).0.Ok? then used - |v[k].data| else used)
  {
    RemoveTarget(v, path);
  }

  /** Removing a directory right after creating it gives back the filesystem there was before. */
  lemma RemoveDirUndoesCreate(v: View, path: Name)
    requires WellFormed(v) && Create(v, path, Directory).0.Ok?
    ensures RemoveDir(Create(v, path, Directory).1, path) == (Ok(()), v)
  {
    var k := LocateTarget(v, path).value;
    var w := Create(v, path, Directory).1;
    var comps := Keep(Split(SplitLast(path).value.0), SKIPPED);
    CreateKeepsWellFormed(v, path, Directory);
    WalkFinds(v, Root, comps);
    WalkFinds(w, Root, comps);
    assert path != [SLASH] by {
      assert [SLASH][1..] == [];
    }
    assert forall n :: Sub(k, n) !in v && Sub(k, n) != k;
    assert w - {k} == v;
  }

  /** Operations that succeed on one location leave every other location alone. */
  lemma OnlyTheTargetChanges(v: View, used: nat, maxSize: nat, path: Name, data: seq<byte>, other: Name)
    requires WellFormed(v) && Write(v, used, maxSize, path, data).0.Ok?
    ensures var w := Write(v, used, maxSize, path, data).1;
            && WellFormed(w)
            && Read(w, path) == Ok(data)
            && (Locate(v, other) != Locate(v, path) ==> Read(w, other) == Read(v, other))
            && Locate(w, other) == Locate(v, other)
  {
    var w := Write(v, used, maxSize, path, data).1;
    var k := Locate(v, path).value;
    WalkFinds(v, Root, Keep(Split(path), SKIPPED));
    SameShapeSameWalk(v, w, Root, Keep(Split(path), SKIPPED));
    SameShapeSameWalk(v, w, Root, Keep(Split(other), SKIPPED));
  }

  lemma {:induction false} SameShapeSameWalk(v: View, w: View, at: Key, comps: seq<Name>)
    requires v.Keys == w.Keys && at in v
    requires forall k :: k in v ==> v[k].File? == w[k].File?
    ensures Walk(v, at, comps) == Walk(w, at, comps)
    decreases |comps|
  {
    if comps != [] && v[at].Directory? && Sub(at, comps[0]) in v {
      SameShapeSameWalk(v, w, Sub(at, comps[0]), comps[1..]);
    }
  }

  /** Removing a file right after it came, whatever it holds, gives back the filesystem and the counter
      there were before. */
  lemma RemoveUndoesCreate(v: View, used: nat, path: Name, data: seq<byte>)
    requires WellFormed(v) && Create(v, path, File(data)).0.Ok?
    ensures RemoveFile(Create(v, path, File(data)).1, used + |data|, path) == (Ok(()), v, used)
  {
    var k := LocateTarget(v, path).value;
    var w := Create(v, path, File(data)).1;
    var comps := Keep(Split(SplitLast(path).value.0), SKIPPED);
    CreateKeepsWellFormed(v, path, File(data));
    WalkFinds(v, Root, comps);
    WalkFinds(w, Root, comps);
    assert w - {k} == v;
  }

  /** A second write succeeds exactly when it would have succeeded alone, with the same outcome. */
  lemma LastWriteWins(v: View, used: nat, maxSize: nat, path: Name, d1: seq<byte>, d2: seq<byte>)
    requires WellFormed(v)
    requires Write(v, used, maxSize, path, d1).0.Ok? && Write(v, used, maxSize, path, d1).2 >= 0
    ensures var (_, w, n) := Write(v, used, maxSize, path, d1);
            && Write(w, n, maxSize, path, d2).0 == Write(v, used, maxSize, path, d2).0
            && (Write(w, n, maxSize, path, d2).0.Ok? ==>
                  Write(w, n, maxSize, path, d2) == Write(v, used, maxSize, path, d2))
  {
    var (_, w, n) := Write(v, used, maxSize, path, d1);
    OnlyTheTargetChanges(v, used, maxSize, path, d1, path);
    var k := Locate(v, path).value;
    assert w[k := File(d2)] == v[k := File(d2)];
  }

  /** Writing the concatenation equals writing the first part and appending the second. */
  lemma WriteThenAppend(v: View, used: nat, maxSize: nat, path: Name, d1: seq<byte>, d2: seq<byte>)
    requires WellFormed(v)
    requires Write(v, used, maxSize, path, d1).0.Ok? && Write(v, used, maxSize, path, d1).2 >= 0
    ensures var (_, w, n) := Write(v, used, maxSize, path, d1);
            && Append(w, n, maxSize, path, d2).0 == Write(v, used, maxSize, path, d1 + d2).0
            && (Append(w, n, maxSize, path, d2).0.Ok? ==>
                  Append(w, n, maxSize, path, d2) == Write(v, used, maxSize, path, d1 + d2))
  {
    var (_, w, n) := Write(v, used, maxSize, path, d1);
    OnlyTheTargetChanges(v, used, maxSize, path, d1, path);
    var k := Locate(v, path).value;
    assert w[k := File(d1 + d2)] == v[k := File(d1 + d2)];
  }
}
