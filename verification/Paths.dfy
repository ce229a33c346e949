// Byte-level path handling shared by the two filesystems: splitting at '/', trimming,
// and the component lists that path resolution walks.
module Paths {
  import opened Wrappers

  type byte = x: int | 0 <= x < 256

  // A file name, or a whole path, as its UTF-8 bytes.
  type Name = seq<byte>

  const SLASH: byte := 47
  const DOT: Name := [46]
  const DOT_DOT: Name := [46, 46]

  /** The location of an object: the root, or a named child of a location. */
  datatype Key = Root | Child(parent: Key, name: Name)

  /** The child of `k` called `n`. Quantified facts about children are stated over this function. */
  function Sub(k: Key, n: Name): Key {
    Child(k, n)
  }

  /** The location reached from `at` by descending through `comps`. */
  function Descend(at: Key, comps: seq<Name>): Key
    decreases |comps|
  {
    if comps == [] then at else Descend(Sub(at, comps[0]), comps[1..])
  }

  function KeyDepth(k: Key): nat {
    match k
    case Root => 0
    case Child(p, _) => KeyDepth(p) + 1
  }

  /** The component list of a location; the inverse of `Descend(Root, _)`. */
  function Components(k: Key): seq<Name> {
    match k
    case Root => []
    case Child(p, n) => Components(p) + [n]
  }

  lemma {:induction false} DescendSnoc(at: Key, comps: seq<Name>, n: Name)
    ensures Descend(at, comps + [n]) == Sub(Descend(at, comps), n)
    decreases |comps|
  {
    if comps == [] {
      assert comps + [n] == [n];
    } else {
      assert (comps + [n])[1..] == comps[1..] + [n];
      DescendSnoc(Sub(at, comps[0]), comps[1..], n);
    }
  }

  lemma {:induction false} DescendComponents(k: Key)
    ensures Descend(Root, Components(k)) == k
  {
    match k
    case Root =>
    case Child(p, n) =>
      DescendComponents(p);
      DescendSnoc(Root, Components(p), n);
  }

  lemma {:induction false} ComponentsDescend(at: Key, comps: seq<Name>)
    ensures Components(Descend(at, comps)) == Components(at) + comps
    decreases |comps|
  {
    if comps != [] {
      ComponentsDescend(Sub(at, comps[0]), comps[1..]);
    }
  }

  /** `str::split('/')`: always at least one piece, none of which holds a slash. */
  function Split(s: Name): (r: seq<Name>)
    ensures |r| >= 1
    ensures forall i :: 0 <= i < |r| ==> SLASH !in r[i]
  {
    if s == [] then [[]]
    else
      var rest := Split(s[1..]);
      if s[0] == SLASH then [[]] + rest else [[s[0]] + rest[0]] + rest[1..]
  }

  function TrimStart(s: Name): (r: Name)
    ensures r == [] || r[0] != SLASH
    ensures |r| <= |s|
  {
    if s != [] && s[0] == SLASH then TrimStart(s[1..]) else s
  }

  function TrimEnd(s: Name): (r: Name)
    ensures r == [] || r[|r| - 1] != SLASH
    ensures s != [] && s[0] != SLASH ==> r != [] && r[0] == s[0]
    ensures |r| <= |s|
  {
    if s != [] && s[|s| - 1] == SLASH then TrimEnd(s[..|s| - 1]) else s
  }

  /** `str::rfind('/')`. */
  function RFind(s: Name): (r: Option<nat>)
    ensures r.None? <==> SLASH !in s
    ensures r.Some? ==> r.value < |s| && s[r.value] == SLASH && SLASH !in s[r.value + 1..]
  {
    if s == [] then None
    else if s[|s| - 1] == SLASH then Some(|s| - 1)
    else
      assert s == s[..|s| - 1] + [s[|s| - 1]];
      var r := RFind(s[..|s| - 1]);
      assert r.Some? ==> s[r.value + 1..] == s[..|s| - 1][r.value + 1..] + [s[|s| - 1]];
      r
  }

  /** The pieces a resolver does not skip. */
  function Keep(pieces: seq<Name>, skipped: set<Name>): seq<Name> {
    if pieces == [] then []
    else (if pieces[0] in skipped then [] else [pieces[0]]) + Keep(pieces[1..], skipped)
  }

  lemma KeepFirst(pieces: seq<Name>, i: nat, skipped: set<Name>)
    requires i < |pieces|
    ensures pieces[i] in skipped ==> Keep(pieces[i..], skipped) == Keep(pieces[i + 1..], skipped)
    ensures pieces[i] !in skipped ==> Keep(pieces[i..], skipped) == [pieces[i]] + Keep(pieces[i + 1..], skipped)
  {
    assert pieces[i..][1..] == pieces[i + 1..];
  }

  lemma {:induction false} KeepConcat(a: seq<Name>, b: seq<Name>, skipped: set<Name>)
    ensures Keep(a + b, skipped) == Keep(a, skipped) + Keep(b, skipped)
  {
    if a == [] {
      assert a + b == b;
    } else {
      assert (a + b)[1..] == a[1..] + b;
      KeepConcat(a[1..], b, skipped);
    }
  }

  lemma {:induction false} SplitAtSlash(a: Name, b: Name)
    ensures Split(a + [SLASH] + b) == Split(a) + Split(b)
  {
    var s := a + [SLASH] + b;
    if a == [] {
      assert s[1..] == b;
    } else {
      assert s[1..] == a[1..] + [SLASH] + b;
      SplitAtSlash(a[1..], b);
    }
  }

  lemma {:induction false} SplitPlain(s: Name)
    requires SLASH !in s
    ensures Split(s) == [s]
  {
    if s != [] {
      SplitPlain(s[1..]);
      assert [s[0]] + s[1..] == s;
    }
  }

  lemma {:induction false} TrimStartKeeps(s: Name, skipped: set<Name>)
    requires [] in skipped
    ensures Keep(Split(TrimStart(s)), skipped) == Keep(Split(s), skipped)
  {
    if s != [] && s[0] == SLASH {
      TrimStartKeeps(s[1..], skipped);
      assert Split(s)[1..] == Split(s[1..]);
    }
  }

  lemma {:induction false} TrimEndKeeps(s: Name, skipped: set<Name>)
    requires [] in skipped
    ensures Keep(Split(TrimEnd(s)), skipped) == Keep(Split(s), skipped)
    decreases |s|
  {
    if s != [] && s[|s| - 1] == SLASH {
      var t := s[..|s| - 1];
      assert s == t + [SLASH] + [];
      TrimEndKeeps(t, skipped);
      SplitAtSlash(t, []);
      KeepConcat(Split(t), [[]], skipped);
    }
  }

  /** A path split into the parent part and the last name, as both filesystems split it. */
  function SplitLast(path: Name): (r: Option<(Name, Name)>)
    ensures r.Some? ==> r.value.1 != [] && SLASH !in r.value.1
    ensures r.Some? ==> |r.value.0| <= |path|
  {
    var t := TrimEnd(TrimStart(path));
    if t == [] then None
    else
      match RFind(t)
      case None => Some(([], t))
      case Some(pos) => Some((t[..pos], t[pos + 1..]))
  }

  lemma KeepParentAndName(parent: Name, name: Name, skipped: set<Name>)
    requires SLASH !in name
    ensures Keep(Split(parent + [SLASH] + name), skipped) ==
            Keep(Split(parent), skipped) + (if name in skipped then [] else [name])
  {
    SplitAtSlash(parent, name);
    SplitPlain(name);
    KeepConcat(Split(parent), [name], skipped);
  }

  lemma KeepSkippedName(parent: Name, name: Name, skipped: set<Name>)
    requires SLASH !in name && name in skipped
    ensures Keep(Split(parent + [SLASH] + name), skipped) == Keep(Split(parent), skipped)
  {
    KeepParentAndName(parent, name, skipped);
    assert Keep(Split(parent), skipped) + [] == Keep(Split(parent), skipped);
  }

  lemma KeepTrimmed(path: Name, skipped: set<Name>)
    requires [] in skipped
    ensures Keep(Split(TrimEnd(TrimStart(path))), skipped) == Keep(Split(path), skipped)
  {
    TrimStartKeeps(path, skipped);
    TrimEndKeeps(TrimStart(path), skipped);
  }

  /** Resolving the whole path walks the parent's components and then the last name, unless that
      name is one the resolver skips. */
  lemma {:induction false} SplitLastComponents(path: Name, skipped: set<Name>)
    requires [] in skipped
    requires SplitLast(path).Some?
    ensures Keep(Split(path), skipped) ==
            Keep(Split(SplitLast(path).value.0), skipped) +
            (if SplitLast(path).value.1 in skipped then [] else [SplitLast(path).value.1])
  {
    var t := TrimEnd(TrimStart(path));
    KeepTrimmed(path, skipped);
    match RFind(t)
    case None =>
      SplitPlain(t);
      assert Keep(Split([]), skipped) == [];
    case Some(pos) =>
      assert t == t[..pos] + [SLASH] + t[pos + 1..];
      KeepParentAndName(t[..pos], t[pos + 1..], skipped);
  }

  lemma {:induction false} TrimStartConcat(a: Name, b: Name)
    requires TrimStart(a) != []
    ensures TrimStart(a + b) == TrimStart(a) + b
  {
    assert (a + b)[0] == a[0];
    if a[0] == SLASH {
      assert (a + b)[1..] == a[1..] + b;
      TrimStartConcat(a[1..], b);
    }
  }

  lemma {:induction false} RFindLast(a: Name, name: Name)
    requires SLASH !in name
    ensures RFind(a + [SLASH] + name) == Some(|a|)
  {
    var s := a + [SLASH] + name;
    assert s[|a|] == SLASH && s[|a| + 1..] == name;
    assert SLASH in s;
  }

  /** The last name of a path extended by a name, and what is left. */
  lemma {:induction false} SplitLastChild(path: Name, name: Name)
    requires SplitLast(path).Some? && name != [] && SLASH !in name
    ensures SplitLast(path + [SLASH] + name) == Some((TrimStart(path), name))
  {
    var t := TrimStart(path);
    assert path + [SLASH] + name == path + ([SLASH] + name);
    TrimStartConcat(path, [SLASH] + name);
    var u := t + [SLASH] + name;
    assert t + ([SLASH] + name) == u;
    assert u[|u| - 1] == name[|name| - 1] != SLASH;
    RFindLast(t, name);
    assert u[..|t|] == t && u[|t| + 1..] == name;
  }
}
