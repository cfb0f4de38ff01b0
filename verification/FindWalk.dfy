// The directory walk of find/find.c: process_path and process_dir, with the link-count shortcut, over any finite
// and possibly cyclic directory graph whose stat calls succeed. -prune is not part of this model.
module FindWalk {
  import opened Wrappers

  // The type readdir reports for an entry.
  datatype Kind = IsDir | IsLink | IsOther
  datatype Entry = Entry(name: string, node: nat, kind: Option<Kind>)

  // What options.xstat and readdir say of a file; node numbers are the keys of a file system.
  datatype Node = File | Dir(id: DevIno, nlink: nat, entries: seq<Entry>)

  type FileSystem = map<nat, Node>
  type Path = seq<string>

  datatype Options = Options(mindepth: int, maxdepth: int, doDirFirst: bool, stayOnFilesystem: bool, followLinks: bool)

  // Entry types are right or unknown; a symbolic link may lead to a directory when links are followed.
  predicate RightKind(fs: FileSystem, node: nat, kind: Option<Kind>, follow: bool)
    requires node in fs
  {
    kind.Some? && !(kind.value.IsLink? && follow) ==> (kind.value.IsDir? <==> fs[node].Dir?)
  }

  predicate SaneEntry(fs: FileSystem, e: Entry, follow: bool)
  {
    e.node in fs && RightKind(fs, e.node, e.kind, follow)
  }

  ghost predicate Sane(fs: FileSystem, follow: bool)
  {
    forall n :: n in fs && fs[n].Dir? ==>
      forall i :: 0 <= i < |fs[n].entries| ==> SaneEntry(fs, fs[n].entries[i], follow)
  }

  function Subdirs(fs: FileSystem, entries: seq<Entry>): (n: nat)
    ensures n <= |entries|
  {
    if entries == [] then 0
    else (if entries[0].node in fs && fs[entries[0].node].Dir? then 1 else 0) + Subdirs(fs, entries[1..])
  }

  // Link counts mean what they mean on Unix: two, and one for each subdirectory; or they are below two.
  ghost predicate HonestLinks(fs: FileSystem)
  {
    forall n :: n in fs && fs[n].Dir? ==> fs[n].nlink < 2 || fs[n].nlink == 2 + Subdirs(fs, fs[n].entries)
  }

  // ----- The unfolding of the graph, cut where a directory repeats on its branch -----

  datatype Forest = Nil | Cons(path: Path, kids: Forest, rest: Forest)

  function Ids(fs: FileSystem): set<DevIno>
  {
    set n | n in fs && fs[n].Dir? :: fs[n].id
  }

  // How many directories of the file system are not on the branch yet.
  function Left(fs: FileSystem, branch: seq<DevIno>): nat
  {
    |Ids(fs) - (set d | d in branch)|
  }

  lemma FewerLeft(fs: FileSystem, branch: seq<DevIno>, n: nat)
    requires n in fs && fs[n].Dir? && fs[n].id !in branch
    ensures Left(fs, branch + [fs[n].id]) < Left(fs, branch)
  {
    var all, on := Ids(fs), set d | d in branch;
    var d := fs[n].id;
    assert (set x | x in branch + [d]) == on + {d};
    assert d in all - on;
    assert all - (on + {d}) == (all - on) - {d};
  }

  // What is below node n at path; with -xdev, device is the one to stay on.
  ghost function Kids(fs: FileSystem, device: Option<nat>, n: nat, path: Path, branch: seq<DevIno>): Forest
    requires n in fs
    decreases Left(fs, branch), 0, 0
  {
    if fs[n].File? || fs[n].id in branch || (device.Some? && fs[n].id.dev != device.value) then Nil
    else
      FewerLeft(fs, branch, n);
      Unfold(fs, device, fs[n].entries, path, branch + [fs[n].id])
  }

  ghost function Unfold(fs: FileSystem, device: Option<nat>, entries: seq<Entry>, path: Path, branch: seq<DevIno>): Forest
    decreases Left(fs, branch), 1, |entries|
  {
    if entries == [] then Nil
    else
      var e := entries[0];
      var p := path + [e.name];
      Cons(p, if e.node in fs then Kids(fs, device, e.node, p, branch) else Nil,
           Unfold(fs, device, entries[1..], path, branch))
  }

  // The listing of a forest whose trees are at depth: pre-order, or post-order under -depth.
  function Listing(f: Forest, depth: int, o: Options): seq<Path>
  {
    if f.Nil? then []
    else
      var self := if depth >= o.mindepth then [f.path] else [];
      var kids := if o.maxdepth >= 0 && depth >= o.maxdepth then [] else Listing(f.kids, depth + 1, o);
      (if o.doDirFirst then self + kids else kids + self) + Listing(f.rest, depth, o)
  }

  function One(path: Path, kids: Forest): Forest { Cons(path, kids, Nil) }

  // ----- Parts of a listing -----

  // The paths a are among b, in the same order.
  predicate Among(a: seq<Path>, b: seq<Path>)
  {
    a == [] || (b != [] && ((a[0] == b[0] && Among(a[1..], b[1..])) || Among(a, b[1..])))
  }

  lemma {:induction false} AmongMore(a: seq<Path>, b: seq<Path>, more: seq<Path>)
    requires Among(a, b)
    ensures Among(a, more + b) && Among(a, b + more)
    decreases |a| + |b| + |more|
  {
    if a != [] {
      assert (b + more)[1..] == b[1..] + more;
      if Among(a, b[1..]) { AmongMore(a, b[1..], more); } else { AmongMore(a[1..], b[1..], more); }
    }
    if more == [] {
      assert more + b == b;
    } else {
      assert (more + b)[1..] == more[1..] + b;
      AmongMore(a, b, more[1..]);
    }
  }

  lemma {:induction false} AmongSelf(a: seq<Path>)
    ensures Among(a, a)
  {
    if a != [] { AmongSelf(a[1..]); }
  }

  lemma {:induction false} AmongConcat(a: seq<Path>, b: seq<Path>, c: seq<Path>, d: seq<Path>)
    requires Among(a, b) && Among(c, d)
    ensures Among(a + c, b + d)
    decreases |a| + |b|
  {
    if a == [] {
      assert a + c == c;
      AmongMore(c, d, b);
    } else {
      assert (a + c)[1..] == a[1..] + c && (b + d)[1..] == b[1..] + d;
      if Among(a, b[1..]) { AmongConcat(a, b[1..], c, d); } else { AmongConcat(a[1..], b[1..], c, d); }
    }
  }

  lemma {:induction false} AmongTrans(a: seq<Path>, b: seq<Path>, c: seq<Path>)
    requires Among(a, b) && Among(b, c)
    ensures Among(a, c)
    decreases |b| + |c|
  {
    if a != [] {
      if Among(b, c[1..]) {
        AmongTrans(a, b, c[1..]);
      } else if Among(a, b[1..]) {
        AmongTrans(a, b[1..], c[1..]);
      } else {
        AmongTrans(a[1..], b[1..], c[1..]);
      }
    }
  }

  // What is visited of one part of a listing, and then what comes next.
  lemma AmongStep(done: seq<Path>, more: seq<Path>, one: seq<Path>, others: seq<Path>, all: seq<Path>)
    requires Among(done + (one + others), all) && Among(more, one)
    ensures Among(done + more + others, all)
  {
    AmongSelf(done);
    AmongSelf(others);
    AmongConcat(done, done, more, one);
    AmongConcat(done + more, done + one, others, others);
    Assoc(done, one, others);
    AmongTrans(done + more + others, done + one + others, all);
  }

  // ----- The walk -----

  class Walker {
    const fs: FileSystem
    const o: Options

    var dirIds: seq<DevIno>
    var curdepth: nat
    var stopAtCurrentLevel: bool
    var noLeafCheck: bool
    var rootDev: nat

    // The calls of apply_predicate, and whether a wrong link count was reported.
    var visits: seq<Path>
    var warned: bool

    // How often a file was looked at.
    ghost var stats: nat

    constructor (fs: FileSystem, o: Options, noLeafCheck: bool)
      ensures this.fs == fs && this.o == o && this.noLeafCheck == noLeafCheck
      ensures dirIds == [] && curdepth == 0 && visits == [] && !warned
    {
      this.fs, this.o, this.noLeafCheck := fs, o, noLeafCheck;
      dirIds, curdepth, stopAtCurrentLevel, rootDev, visits, warned, stats := [], 0, false, 0, [], false, 0;
    }

    ghost function Device(): Option<nat>
      reads `rootDev
    {
      if o.stayOnFilesystem then Some(rootDev) else None
    }

    // The walk may trust the link counts, or does not look at them.
    ghost predicate Trusted()
      reads `noLeafCheck
    {
      noLeafCheck || (HonestLinks(fs) && !o.followLinks)
    }

    // What was visited since the visits before is part of a listing, in its order.
    ghost predicate Adds(before: seq<Path>, listing: seq<Path>)
      reads `visits
    {
      before <= visits && Among(visits[|before|..], listing)
    }

    // The part that was visited.
    lemma Added(before: seq<Path>, listing: seq<Path>) returns (found: seq<Path>)
      requires Adds(before, listing)
      ensures visits == before + found && Among(found, listing)
    {
      found := visits[|before|..];
    }

    lemma AddsBetween(before: seq<Path>, pre: seq<Path>, found: seq<Path>, kids: seq<Path>, post: seq<Path>)
      requires visits == before + pre + found + post && Among(found, kids)
      ensures Adds(before, pre + kids + post)
    {
      hide Among;
      Concat4(before, pre, found, post);
      AmongBetween(pre, found, kids, post);
      assert visits[|before|..] == pre + found + post;
    }

    lemma TowardStep(before: seq<Path>, now: seq<Path>, one: seq<Path>, others: seq<Path>, all: seq<Path>)
      requires Toward(before, now, one + others, all) && Adds(now, one)
      ensures Toward(before, visits, others, all)
    {
      hide Among;
      AmongStep(now[|before|..], visits[|now|..], one, others, all);
      assert visits[|before|..] == now[|before|..] + visits[|now|..];
    }

    lemma TowardEnd(before: seq<Path>, all: seq<Path>)
      requires Toward(before, visits, [], all)
      ensures Adds(before, all)
    {
      assert visits[|before|..] + [] == visits[|before|..];
    }

    // A wrong link count is reported exactly when the link counts, trusted before if check is false, are given up.
    ghost predicate Warns(check: bool, was: bool)
      reads `noLeafCheck, `warned
    {
      (check ==> noLeafCheck) && (warned <==> was || (noLeafCheck && !check))
    }

    method ApplyPredicate(path: Path)
      modifies `visits
      ensures visits == old(visits) + [path]
    {
      visits := visits + [path];
    }

    // get_statinfo, and S_ISDIR of what it found.
    method GetStatInfo(node: nat) returns (isDir: bool)
      requires node in fs
      modifies `stats
      ensures isDir == fs[node].Dir? && stats == old(stats) + 1
    {
      stats := stats + 1;
      isDir := fs[node].Dir?;
    }

    // digest_mode: whether the entry passes for a directory. Only a link to be followed and an entry of unknown type
    // that need not be a leaf are looked at.
    method DigestMode(node: nat, kind: Option<Kind>, leaf: bool) returns (isDir: bool)
      requires node in fs
      modifies `stats
      ensures stats == old(stats) + if (kind == Some(IsLink) && Following()) || (kind.None? && !leaf) then 1 else 0
      ensures isDir == if stats > old(stats) then fs[node].Dir? else kind == Some(IsDir)
      ensures !(kind.None? && leaf) && RightKind(fs, node, kind, Following()) ==> isDir == fs[node].Dir?
    {
      if kind.Some? {
        if kind.value.IsLink? && Following() {
          isDir := GetStatInfo(node);
        } else {
          isDir := kind.value.IsDir?;
        }
      } else if leaf {
        isDir := false;
      } else {
        isDir := GetStatInfo(node);
      }
    }

    // following_links, below the command line.
    predicate Following() { o.followLinks }

    // The search of dir_ids for a directory.
    method OnBranch(id: DevIno) returns (found: bool)
      ensures found <==> id in dirIds
    {
      found := false;
      var i := 0;
      while i < |dirIds|
        invariant i <= |dirIds| && (found <==> id in dirIds[..i])
      {
        if id == dirIds[i] { found := true; }
        i := i + 1;
      }
      assert dirIds[..|dirIds|] == dirIds;
    }

    // process_path; true iff path passed for a directory.
    method ProcessPath(node: nat, path: Path, leaf: bool, kind: Option<Kind>) returns (isDir: bool)
      requires node in fs && Sane(fs, o.followLinks) && RightKind(fs, node, kind, o.followLinks)
      requires curdepth == 0 <==> dirIds == []
      modifies this
      ensures dirIds == old(dirIds) && curdepth == old(curdepth)
      ensures old(curdepth) > 0 ==> rootDev == old(rootDev)
      ensures old(curdepth) == 0 && isDir && o.stayOnFilesystem ==> fs[node].Dir? && rootDev == fs[node].id.dev
      ensures old(noLeafCheck) ==> noLeafCheck
      ensures isDir ==> fs[node].Dir?
      ensures !(leaf && kind.None?) ==> isDir == fs[node].Dir?
      ensures old(Trusted()) && (leaf && kind.None? ==> fs[node].File?) ==>
        Trusted() && warned == old(warned) && noLeafCheck == old(noLeafCheck) && isDir == fs[node].Dir?
      ensures old(Trusted()) && (leaf && kind.None? ==> fs[node].File?) ==>
        visits == old(visits) + Listing(One(path, Kids(fs, Device(), node, path, dirIds)), curdepth, o)
      ensures Warns(old(noLeafCheck), old(warned))
      ensures Adds(old(visits), Listing(One(path, Kids(fs, Device(), node, path, dirIds)), curdepth, o))
      ensures leaf && kind.None? ==>
        !isDir && warned == old(warned) && noLeafCheck == old(noLeafCheck) && visits == old(visits) + Self(path)
      decreases Left(fs, dirIds), 1, 0
    {
      hide Listing, HonestLinks, Left, Sane, Kids, Among;
      isDir := DigestMode(node, kind, leaf);
      if isDir {
        ProcessDirectory(node, path);
      } else {
        FileKids(fs, Device(), node, path, dirIds);
        ListOne(path, Nil, curdepth, o);
        ListNothing(curdepth + 1, o);
        AmongOne(path, Kids(fs, Device(), node, path, dirIds), curdepth, o);
        if curdepth >= o.mindepth { ApplyPredicate(path); }
        assert visits[|old(visits)|..] == Self(path);
      }
    }

    // A path on its own, if it is deep enough.
    function Self(path: Path): seq<Path>
      reads `curdepth
    {
      if curdepth >= o.mindepth then [path] else []
    }

    // process_path, once the path is known to be a directory.
    method ProcessDirectory(node: nat, path: Path)
      requires node in fs && fs[node].Dir? && Sane(fs, o.followLinks)
      requires curdepth == 0 <==> dirIds == []
      modifies this
      ensures dirIds == old(dirIds) && curdepth == old(curdepth)
      ensures old(curdepth) > 0 ==> rootDev == old(rootDev)
      ensures old(curdepth) == 0 && o.stayOnFilesystem ==> rootDev == fs[node].id.dev
      ensures old(noLeafCheck) ==> noLeafCheck
      ensures old(Trusted()) ==> Trusted() && warned == old(warned) && noLeafCheck == old(noLeafCheck)
      ensures old(Trusted()) ==>
        visits == old(visits) + Listing(One(path, Kids(fs, Device(), node, path, dirIds)), curdepth, o)
      ensures Warns(old(noLeafCheck), old(warned))
      ensures Adds(old(visits), Listing(One(path, Kids(fs, Device(), node, path, dirIds)), curdepth, o))
      decreases Left(fs, dirIds), 0, 1
    {
      hide Listing, HonestLinks, Left, Unfold, Kids, Sane, Adds, Directory;
      var id := fs[node].id;
      ghost var branch := dirIds;
      Enter(id);
      ListDirectory(fs, Device(), node, path, branch, curdepth, o, stopAtCurrentLevel);
      assert dirIds[..|dirIds| - 1] == branch;
      if !stopAtCurrentLevel { FewerLeft(fs, branch, node); }
      Contents(node, path, stopAtCurrentLevel);
      dirIds := dirIds[..|dirIds| - 1];
    }

    // The directory itself and what is in it, once it is on the branch.
    method Contents(node: nat, path: Path, stop: bool)
      requires node in fs && fs[node].Dir? && Sane(fs, o.followLinks) && dirIds != []
      modifies this
      ensures dirIds == old(dirIds) && curdepth == old(curdepth) && rootDev == old(rootDev)
      ensures old(noLeafCheck) ==> noLeafCheck
      ensures old(Trusted()) ==> Trusted() && warned == old(warned) && noLeafCheck == old(noLeafCheck)
      ensures old(Trusted()) ==>
        visits == old(visits) + Directory(fs, Device(), node, path, dirIds, curdepth, o, stop)
      ensures Warns(old(noLeafCheck), old(warned))
      ensures Adds(old(visits), Directory(fs, Device(), node, path, dirIds, curdepth, o, stop))
      decreases Left(fs, if stop then dirIds[..|dirIds| - 1] else dirIds), if stop then 0 else 3, 0
    {
      hide Listing, HonestLinks, Left, Unfold, Sane, Among, Adds;
      ghost var before := visits;
      ghost var pre: seq<Path> := if o.doDirFirst && curdepth >= o.mindepth then [path] else [];
      ghost var post: seq<Path> := if !o.doDirFirst && curdepth >= o.mindepth then [path] else [];
      ghost var kids := if stop then []
                        else Listing(Unfold(fs, Device(), fs[node].entries, path, dirIds), curdepth + 1, o);
      if o.doDirFirst && curdepth >= o.mindepth { ApplyPredicate(path); }
      assert visits == before + pre;
      if stop { AddsNothing(before + pre); } else { ProcessDir(node, path); }
      ghost var found := Added(before + pre, kids);
      if !o.doDirFirst && curdepth >= o.mindepth { ApplyPredicate(path); }
      Concat4(before, pre, kids, post);
      Concat4(before, pre, found, post);
      AddsBetween(before, pre, found, kids, post);
    }

    lemma AddsNothing(before: seq<Path>)
      requires visits == before
      ensures Adds(before, [])
    {
    }

    // The directory goes on the branch; whether to descend depends on the depth, the branch and the device.
    method Enter(id: DevIno)
      modifies `dirIds, `stopAtCurrentLevel, `rootDev
      ensures dirIds == old(dirIds) + [id]
      ensures rootDev == if o.stayOnFilesystem && curdepth == 0 then id.dev else old(rootDev)
      ensures stopAtCurrentLevel <==>
        (o.maxdepth >= 0 && curdepth >= o.maxdepth) || id in old(dirIds) || (o.stayOnFilesystem && id.dev != rootDev)
    {
      stopAtCurrentLevel := o.maxdepth >= 0 && curdepth >= o.maxdepth;
      var seen := OnBranch(id);
      if seen { stopAtCurrentLevel := true; }
      dirIds := dirIds + [id];
      if o.stayOnFilesystem {
        if curdepth == 0 {
          rootDev := id.dev;
        } else if id.dev != rootDev {
          stopAtCurrentLevel := true;
        }
      }
    }

    // process_dir, from the entries that readdir delivered.
    method ProcessDir(node: nat, path: Path)
      requires node in fs && fs[node].Dir? && Sane(fs, o.followLinks) && dirIds != []
      modifies this
      ensures dirIds == old(dirIds) && curdepth == old(curdepth) && rootDev == old(rootDev)
      ensures old(noLeafCheck) ==> noLeafCheck
      ensures old(Trusted()) ==> Trusted() && warned == old(warned) && noLeafCheck == old(noLeafCheck)
      ensures old(Trusted()) ==>
        visits == old(visits) + Listing(Unfold(fs, Device(), fs[node].entries, path, dirIds), curdepth + 1, o)
      ensures Warns(old(noLeafCheck), old(warned))
      ensures Adds(old(visits), Listing(Unfold(fs, Device(), fs[node].entries, path, dirIds), curdepth + 1, o))
      decreases Left(fs, dirIds), 2, 0
    {
      hide HonestLinks, Left, Subdirs, Rest, First, Listing, Unfold, Adds, Toward;
      var subdirsUnreliable := fs[node].nlink < 2;
      var subdirsLeft: int := if fs[node].nlink < 2 then 0 else fs[node].nlink - 2;
      if HonestLinks(fs) { HonestAt(fs, node); }
      ghost var at := Place(Device(), path, dirIds, curdepth + 1);
      ghost var entries, before := fs[node].entries, visits;
      RestIs(fs, o, entries, at);
      ghost var all := Rest(fs, o, entries, at, 0);
      TowardStart(before, all);
      var idx := 0;
      while idx < |fs[node].entries|
        invariant idx <= |entries| && curdepth == old(curdepth) && at == Place(Device(), path, dirIds, curdepth + 1)
        invariant dirIds == old(dirIds) && rootDev == old(rootDev)
        invariant old(Trusted()) ==> Trusted() && warned == old(warned) && noLeafCheck == old(noLeafCheck)
        invariant old(Trusted()) ==> Promised(node, idx, subdirsLeft, subdirsUnreliable)
        invariant old(Trusted()) ==> visits + Rest(fs, o, entries, at, idx) == before + all
        invariant Warns(old(noLeafCheck), old(warned))
        invariant Toward(before, visits, Rest(fs, o, entries, at, idx), all)
      {
        ghost var now := visits;
        subdirsLeft, subdirsUnreliable := TakeEntry(node, path, idx, subdirsLeft, subdirsUnreliable, at);
        ghost var one, others := First(fs, o, entries, at, idx), Rest(fs, o, entries, at, idx + 1);
        Rejoin(now, visits, one, others);
        TowardStep(before, now, one, others, all);
        idx := idx + 1;
      }
      TowardEnd(before, all);
    }

    // Where the link count is looked at, it still promises as many subdirectories as there are from idx on.
    ghost predicate Promised(node: nat, idx: nat, left: int, unreliable: bool)
      requires node in fs && fs[node].Dir? && idx <= |fs[node].entries|
      reads `noLeafCheck
    {
      !noLeafCheck && !unreliable ==> left == Subdirs(fs, fs[node].entries[idx..])
    }

    // The entry at idx.
    method TakeEntry(node: nat, path: Path, idx: nat, left0: int, unreliable0: bool, ghost at: Place)
        returns (left: int, unreliable: bool)
      requires node in fs && fs[node].Dir? && Sane(fs, o.followLinks) && dirIds != [] && idx < |fs[node].entries|
      requires at == Place(Device(), path, dirIds, curdepth + 1)
      modifies this
      ensures dirIds == old(dirIds) && curdepth == old(curdepth) && rootDev == old(rootDev)
      ensures var entries := fs[node].entries;
        && entries[idx].node in fs
        && Rest(fs, o, entries, at, idx) == First(fs, o, entries, at, idx) + Rest(fs, o, entries, at, idx + 1)
        && Adds(old(visits), First(fs, o, entries, at, idx))
      ensures old(Trusted() && Promised(node, idx, left0, unreliable0)) ==>
        && Trusted() && warned == old(warned) && noLeafCheck == old(noLeafCheck)
        && Promised(node, idx + 1, left, unreliable) && visits == old(visits) + First(fs, o, fs[node].entries, at, idx)
      ensures Warns(old(noLeafCheck), old(warned))
      decreases Left(fs, dirIds), 1, 2
    {
      hide Listing, Kids, Unfold, Left, HonestLinks, RightKind, Subdirs, Adds;
      var e := fs[node].entries[idx];
      ghost var rest := fs[node].entries[idx..];
      assert rest[0] == e && rest[1..] == fs[node].entries[idx + 1..] && SaneEntry(fs, e, o.followLinks);
      CountFirst(fs, rest, o.followLinks);
      UnfoldStep(fs, Device(), rest, path, dirIds, curdepth + 1, o);
      left, unreliable := ProcessEntry(e, path + [e.name], left0, unreliable0);
    }

    // One turn of the loop of process_dir. left counts the subdirectories the link count still promises.
    method ProcessEntry(e: Entry, p: Path, left0: int, unreliable0: bool) returns (left: int, unreliable: bool)
      requires SaneEntry(fs, e, o.followLinks) && Sane(fs, o.followLinks) && dirIds != []
      modifies this
      ensures dirIds == old(dirIds) && curdepth == old(curdepth) && rootDev == old(rootDev)
      ensures old(noLeafCheck) ==> noLeafCheck
      ensures old(Trusted() && Consistent(e, left0, unreliable0)) ==>
        Trusted() && warned == old(warned) && noLeafCheck == old(noLeafCheck) && unreliable == unreliable0
      ensures old(Trusted() && Consistent(e, left0, unreliable0)) && !noLeafCheck && !unreliable ==>
        left == left0 - if fs[e.node].Dir? then 1 else 0
      ensures old(Trusted() && Consistent(e, left0, unreliable0)) ==>
        visits == old(visits) + Listing(One(p, Kids(fs, Device(), e.node, p, dirIds)), curdepth + 1, o)
      ensures Warns(old(noLeafCheck), old(warned))
      ensures Adds(old(visits), Listing(One(p, Kids(fs, Device(), e.node, p, dirIds)), curdepth + 1, o))
      ensures !old(noLeafCheck) && !unreliable0 && left0 == 0 && e.kind == Some(IsDir) ==>
        && warned && noLeafCheck && unreliable
        && visits == old(visits) + Listing(One(p, Kids(fs, Device(), e.node, p, dirIds)), curdepth + 1, o)
      ensures !old(noLeafCheck) && !unreliable0 && left0 == 0 && e.kind.None? ==>
        && warned == old(warned) && !noLeafCheck && left == 0 && !unreliable
        && visits == old(visits) + if curdepth + 1 >= o.mindepth then [p] else []
      decreases Left(fs, dirIds), 1, 1
    {
      hide Listing, Kids, Unfold, Left, HonestLinks, Subdirs, Sane, Among;
      left, unreliable := left0, unreliable0;
      curdepth := curdepth + 1;
      if !noLeafCheck && !unreliable {
        if e.kind == Some(IsDir) && left == 0 {
          warned := true;
          noLeafCheck := true;
          unreliable := true;
          left := 1;
        }
        var isDir := ProcessPath(e.node, p, left == 0, e.kind);
        if isDir { left := left - 1; }
      } else {
        var isDir := ProcessPath(e.node, p, false, e.kind);
      }
      curdepth := curdepth - 1;
    }

    // A count of zero, where it is looked at, leaves no room for a directory.
    predicate Consistent(e: Entry, left: int, unreliable: bool)
      requires e.node in fs
      reads `noLeafCheck
    {
      !noLeafCheck && !unreliable && left == 0 ==> fs[e.node].File?
    }

    // One starting point.
    method FindOne(s: Start)
      requires dirIds == [] && curdepth == 0 && Sane(fs, o.followLinks)
      requires s.node in fs && RightKind(fs, s.node, s.kind, o.followLinks)
      modifies this
      ensures dirIds == [] && curdepth == 0
      ensures old(Trusted()) ==>
        Trusted() && warned == old(warned) && noLeafCheck == old(noLeafCheck) && visits == old(visits) + Listed(fs, o, s)
      ensures Warns(old(noLeafCheck), old(warned)) && Adds(old(visits), Listed(fs, o, s))
    {
      hide Listing, Kids, HonestLinks, Sane, RightKind, Adds, Listed;
      var isDir := ProcessPath(s.node, s.path, false, s.kind);
      SameDevice(fs, o, s, Device());
    }

    // Every starting point in turn. With honest link counts the shortcut changes nothing and warns of nothing.
    method Find(starts: seq<Start>)
      requires dirIds == [] && curdepth == 0 && visits == [] && !warned && Sane(fs, o.followLinks)
      requires forall i :: 0 <= i < |starts| ==>
        starts[i].node in fs && RightKind(fs, starts[i].node, starts[i].kind, o.followLinks)
      modifies this
      ensures dirIds == [] && curdepth == 0
      ensures old(noLeafCheck) || (HonestLinks(fs) && !o.followLinks) ==>
        visits == Answer(fs, o, starts) && !warned && noLeafCheck == old(noLeafCheck)
      ensures Among(visits, Answer(fs, o, starts)) && Warns(old(noLeafCheck), false)
    {
      hide Listed, Answer, HonestLinks, Sane, RightKind, Adds, Toward;
      ghost var all := Answer(fs, o, starts);
      var i := 0;
      assert starts[0..] == starts;
      TowardStart([], all);
      while i < |starts|
        invariant i <= |starts| && dirIds == [] && curdepth == 0
        invariant old(Trusted()) ==> Trusted() && !warned && noLeafCheck == old(noLeafCheck)
        invariant old(Trusted()) ==> visits + Answer(fs, o, starts[i..]) == all
        invariant Warns(old(noLeafCheck), false) && Toward([], visits, Answer(fs, o, starts[i..]), all)
      {
        ghost var before, one, others := visits, Listed(fs, o, starts[i]), Answer(fs, o, starts[i + 1..]);
        AnswerFrom(fs, o, starts, i);
        FindOne(starts[i]);
        Rejoin(before, visits, one, others);
        TowardStep([], before, one, others, all);
        i := i + 1;
      }
      AnswerFrom(fs, o, starts, i);
      assert visits + [] == visits;
      TowardEnd([], all);
      ghost var found := Added([], all);
    }
  }

  // Where the entries of a directory are listed.
  datatype Place = Place(device: Option<nat>, path: Path, branch: seq<DevIno>, depth: int)

  // The listing of the entries from idx on, and that of one entry.
  ghost function Rest(fs: FileSystem, o: Options, entries: seq<Entry>, at: Place, idx: nat): seq<Path>
    requires idx <= |entries|
  {
    Listing(Unfold(fs, at.device, entries[idx..], at.path, at.branch), at.depth, o)
  }

  ghost function First(fs: FileSystem, o: Options, entries: seq<Entry>, at: Place, idx: nat): seq<Path>
    requires idx < |entries| && entries[idx].node in fs
  {
    var p := at.path + [entries[idx].name];
    Listing(One(p, Kids(fs, at.device, entries[idx].node, p, at.branch)), at.depth, o)
  }

  lemma RestIs(fs: FileSystem, o: Options, entries: seq<Entry>, at: Place)
    ensures Rest(fs, o, entries, at, 0) == Listing(Unfold(fs, at.device, entries, at.path, at.branch), at.depth, o)
    ensures Rest(fs, o, entries, at, |entries|) == []
  {
    hide Listing, Unfold;
    assert entries[0..] == entries && entries[|entries|..] == [];
    UnfoldNothing(fs, at.device, at.path, at.branch);
    ListNothing(at.depth, o);
  }

  datatype Start = Start(node: nat, path: Path, kind: Option<Kind>)

  // The listing of one starting point, and of all of them.
  ghost function Listed(fs: FileSystem, o: Options, s: Start): seq<Path>
    requires s.node in fs
  {
    var device := if o.stayOnFilesystem && fs[s.node].Dir? then Some(fs[s.node].id.dev) else None;
    Listing(One(s.path, Kids(fs, device, s.node, s.path, [])), 0, o)
  }

  ghost function Answer(fs: FileSystem, o: Options, starts: seq<Start>): seq<Path>
    requires forall i :: 0 <= i < |starts| ==> starts[i].node in fs
  {
    if starts == [] then [] else Listed(fs, o, starts[0]) + Answer(fs, o, starts[1..])
  }

  lemma AnswerFrom(fs: FileSystem, o: Options, starts: seq<Start>, i: nat)
    requires i <= |starts| && forall k :: 0 <= k < |starts| ==> starts[k].node in fs
    ensures Answer(fs, o, starts[i..]) ==
      if i == |starts| then [] else Listed(fs, o, starts[i]) + Answer(fs, o, starts[i + 1..])
  {
    hide Listed;
    if i < |starts| { assert starts[i..][1..] == starts[i + 1..]; }
  }

  // The device does not matter below a file.
  lemma SameDevice(fs: FileSystem, o: Options, s: Start, device: Option<nat>)
    requires s.node in fs
    requires fs[s.node].Dir? ==> device == if o.stayOnFilesystem then Some(fs[s.node].id.dev) else None
    ensures Listing(One(s.path, Kids(fs, device, s.node, s.path, [])), 0, o) == Listed(fs, o, s)
  {
  }

  lemma Concat4(a: seq<Path>, b: seq<Path>, c: seq<Path>, d: seq<Path>)
    ensures a + b + c + d == a + (b + c + d) && a + [] == a
  {
  }

  predicate AtLimit(o: Options, depth: int) { o.maxdepth >= 0 && depth >= o.maxdepth }

  // The directory itself before or after what is in it, unless find does not descend.
  ghost function Directory(fs: FileSystem, device: Option<nat>, n: nat, path: Path, branch: seq<DevIno>, depth: int,
                           o: Options, stop: bool): seq<Path>
    requires n in fs && fs[n].Dir?
  {
    (if o.doDirFirst && depth >= o.mindepth then [path] else [])
      + (if stop then [] else Listing(Unfold(fs, device, fs[n].entries, path, branch), depth + 1, o))
      + (if !o.doDirFirst && depth >= o.mindepth then [path] else [])
  }

  // A directory's part of the listing; stop is why process_path does not descend.
  lemma ListDirectory(fs: FileSystem, device: Option<nat>, n: nat, path: Path, branch: seq<DevIno>, depth: int, o: Options,
                      stop: bool)
    requires n in fs && fs[n].Dir?
    requires stop <==> AtLimit(o, depth) || fs[n].id in branch || (device.Some? && fs[n].id.dev != device.value)
    ensures Listing(One(path, Kids(fs, device, n, path, branch)), depth, o)
      == Directory(fs, device, n, path, branch + [fs[n].id], depth, o, stop)
  {
    hide Listing, Unfold;
    ListOne(path, Kids(fs, device, n, path, branch), depth, o);
    ListNothing(depth + 1, o);
  }

  lemma Rejoin(before: seq<Path>, after: seq<Path>, one: seq<Path>, others: seq<Path>)
    ensures after == before + one ==> after + others == before + (one + others)
  {
    assert before + one + others == before + (one + others);
  }

  // With the rest of the listing, what has been visited since the visits before is among the whole.
  predicate Toward(before: seq<Path>, now: seq<Path>, rest: seq<Path>, all: seq<Path>)
  {
    before <= now && Among(now[|before|..] + rest, all)
  }

  lemma TowardStart(before: seq<Path>, all: seq<Path>)
    ensures Toward(before, before, all, all)
  {
    AmongSelf(all);
    assert before[|before|..] + all == all;
  }

  lemma AmongBetween(pre: seq<Path>, found: seq<Path>, kids: seq<Path>, post: seq<Path>)
    requires Among(found, kids)
    ensures Among(pre + found + post, pre + kids + post)
  {
    AmongSelf(pre);
    AmongSelf(post);
    AmongConcat(pre, pre, found, kids);
    AmongConcat(pre + found, pre + kids, post, post);
  }

  lemma AmongOne(path: Path, kids: Forest, depth: int, o: Options)
    ensures Among(if depth >= o.mindepth then [path] else [], Listing(One(path, kids), depth, o))
  {
    var below := if o.maxdepth >= 0 && depth >= o.maxdepth then [] else Listing(kids, depth + 1, o);
    var self := if depth >= o.mindepth then [path] else [];
    hide Listing;
    ListOne(path, kids, depth, o);
    AmongSelf(self);
    AmongMore(self, self, below);
    assert self + below + [] == self + below && [] + below + self == below + self;
  }

  lemma FileKids(fs: FileSystem, device: Option<nat>, n: nat, path: Path, branch: seq<DevIno>)
    requires n in fs
    ensures fs[n].File? ==> Kids(fs, device, n, path, branch) == Nil
  {
  }

  lemma CountFirst(fs: FileSystem, entries: seq<Entry>, follow: bool)
    requires entries != [] && SaneEntry(fs, entries[0], follow)
    ensures var e := entries[0];
      Subdirs(fs, entries) == (if fs[e.node].Dir? then 1 else 0) + Subdirs(fs, entries[1..])
      && (e.kind == Some(IsDir) ==> fs[e.node].Dir?)
  {
  }

  lemma HonestAt(fs: FileSystem, n: nat)
    requires HonestLinks(fs) && n in fs && fs[n].Dir?
    ensures fs[n].nlink < 2 || fs[n].nlink == 2 + Subdirs(fs, fs[n].entries)
  {
  }

  lemma ListNothing(depth: int, o: Options)
    ensures Listing(Nil, depth, o) == []
  {
  }

  lemma UnfoldNothing(fs: FileSystem, device: Option<nat>, path: Path, branch: seq<DevIno>)
    ensures Unfold(fs, device, [], path, branch) == Nil
  {
  }

  lemma ListOne(path: Path, kids: Forest, depth: int, o: Options)
    ensures Listing(One(path, kids), depth, o) ==
      (if o.doDirFirst && depth >= o.mindepth then [path] else [])
      + (if o.maxdepth >= 0 && depth >= o.maxdepth then [] else Listing(kids, depth + 1, o))
      + (if !o.doDirFirst && depth >= o.mindepth then [path] else [])
  {
  }

  lemma UnfoldStep(fs: FileSystem, device: Option<nat>, entries: seq<Entry>, path: Path, branch: seq<DevIno>,
                   depth: int, o: Options)
    requires entries != [] && entries[0].node in fs
    ensures var p := path + [entries[0].name];
      Listing(Unfold(fs, device, entries, path, branch), depth, o)
        == Listing(One(p, Kids(fs, device, entries[0].node, p, branch)), depth, o)
         + Listing(Unfold(fs, device, entries[1..], path, branch), depth, o)
  {
  }

  // ----- What the listing is -----

  // Every path of the forest, whatever the depth limits.
  function Unlimited(o: Options): Options { o.(mindepth := 0, maxdepth := -1) }

  // Paths of n components at the roots of the forest, and one more at each level.
  predicate Depths(f: Forest, n: nat)
  {
    f.Cons? ==> |f.path| == n && Depths(f.kids, n + 1) && Depths(f.rest, n)
  }

  // The paths whose number of components, less base, is within the limits.
  function Limit(ps: seq<Path>, base: int, o: Options): (r: seq<Path>)
  {
    if ps == [] then []
    else
      var d := |ps[0]| - base;
      (if d >= o.mindepth && (o.maxdepth < 0 || d <= o.maxdepth) then [ps[0]] else []) + Limit(ps[1..], base, o)
  }

  lemma {:induction false} LimitConcat(a: seq<Path>, b: seq<Path>, base: int, o: Options)
    ensures Limit(a + b, base, o) == Limit(a, base, o) + Limit(b, base, o)
  {
    if a == [] {
      assert a + b == b;
    } else {
      assert (a + b)[1..] == a[1..] + b;
      LimitConcat(a[1..], b, base, o);
    }
  }

  lemma LimitTree(f: Forest, depth: nat, base: int, o: Options)
    requires f.Cons? && base + depth >= 0 && |f.path| == base + depth
    ensures var self := if depth >= o.mindepth && (o.maxdepth < 0 || depth <= o.maxdepth) then [f.path] else [];
      var kids := Limit(Listing(f.kids, depth + 1, Unlimited(o)), base, o);
      Limit(Listing(f, depth, Unlimited(o)), base, o)
        == (if o.doDirFirst then self + kids else kids + self) + Limit(Listing(f.rest, depth, Unlimited(o)), base, o)
  {
    hide Limit;
    var self, kids := [f.path], Listing(f.kids, depth + 1, Unlimited(o));
    LimitOne(f.path, base, o);
    LimitConcat(self, kids, base, o);
    LimitConcat(kids, self, base, o);
    LimitConcat(if o.doDirFirst then self + kids else kids + self, Listing(f.rest, depth, Unlimited(o)), base, o);
  }

  // Below the depth limit nothing is listed.
  lemma {:induction false} TooDeep(f: Forest, depth: nat, base: int, o: Options)
    requires base + depth >= 0 && Depths(f, base + depth) && o.maxdepth >= 0 && depth > o.maxdepth
    ensures Limit(Listing(f, depth, Unlimited(o)), base, o) == []
    decreases f
  {
    if f.Cons? {
      TooDeep(f.kids, depth + 1, base, o);
      TooDeep(f.rest, depth, base, o);
      LimitTree(f, depth, base, o);
    }
  }

  lemma LimitOne(p: Path, base: int, o: Options)
    ensures var d := |p| - base;
      Limit([p], base, o) == if d >= o.mindepth && (o.maxdepth < 0 || d <= o.maxdepth) then [p] else []
  {
  }

  // -mindepth and -maxdepth only filter: the listing is the unlimited one without the paths outside the limits.
  lemma {:induction false} LimitsFilter(f: Forest, depth: nat, base: int, o: Options)
    requires base + depth >= 0 && Depths(f, base + depth) && (o.maxdepth >= 0 ==> depth <= o.maxdepth)
    ensures Listing(f, depth, o) == Limit(Listing(f, depth, Unlimited(o)), base, o)
    decreases f
  {
    if f.Cons? {
      hide Limit;
      if o.maxdepth >= 0 && depth >= o.maxdepth {
        TooDeep(f.kids, depth + 1, base, o);
      } else {
        LimitsFilter(f.kids, depth + 1, base, o);
      }
      LimitsFilter(f.rest, depth, base, o);
      LimitTree(f, depth, base, o);
    }
  }

  lemma {:induction false} UnfoldDepths(fs: FileSystem, device: Option<nat>, entries: seq<Entry>, path: Path, branch: seq<DevIno>)
    ensures Depths(Unfold(fs, device, entries, path, branch), |path| + 1)
    decreases Left(fs, branch), 1, |entries|
  {
    if entries != [] {
      var e := entries[0];
      if e.node in fs { KidsDepths(fs, device, e.node, path + [e.name], branch); }
      UnfoldDepths(fs, device, entries[1..], path, branch);
    }
  }

  lemma {:induction false} KidsDepths(fs: FileSystem, device: Option<nat>, n: nat, path: Path, branch: seq<DevIno>)
    requires n in fs
    ensures Depths(Kids(fs, device, n, path, branch), |path| + 1)
    decreases Left(fs, branch), 0, 0
  {
    if fs[n].Dir? && fs[n].id !in branch {
      FewerLeft(fs, branch, n);
      UnfoldDepths(fs, device, fs[n].entries, path, branch + [fs[n].id]);
    }
  }

  // What find lists of a starting point is its unlimited listing filtered by the depth limits.
  lemma LimitsListed(fs: FileSystem, o: Options, s: Start)
    requires s.node in fs
    ensures Listed(fs, o, s) == Limit(Listed(fs, Unlimited(o), s), |s.path|, o)
  {
    var device := if o.stayOnFilesystem && fs[s.node].Dir? then Some(fs[s.node].id.dev) else None;
    KidsDepths(fs, device, s.node, s.path, []);
    LimitsFilter(One(s.path, Kids(fs, device, s.node, s.path, [])), 0, |s.path|, o);
  }

  // names leads on from directory n: no directory repeats on the way, or lies on another device.
  ghost predicate Reaches(fs: FileSystem, device: Option<nat>, n: nat, names: Path, branch: seq<DevIno>)
    requires n in fs
    decreases |names|, 1
  {
    names == [] ||
    (fs[n].Dir? && fs[n].id !in branch && (device.Some? ==> fs[n].id.dev == device.value)
     && ReachesFrom(fs, device, fs[n].entries, names, branch + [fs[n].id]))
  }

  ghost predicate ReachesFrom(fs: FileSystem, device: Option<nat>, entries: seq<Entry>, names: Path, branch: seq<DevIno>)
    requires names != []
    decreases |names|, 0
  {
    exists i :: 0 <= i < |entries| && entries[i].node in fs && entries[i].name == names[0]
      && Reaches(fs, device, entries[i].node, names[1..], branch)
  }

  lemma ListingIn(f: Forest, depth: nat, o: Options, p: Path)
    requires f.Cons? && o == Unlimited(o)
    ensures p in Listing(f, depth, o) <==>
      p == f.path || p in Listing(f.kids, depth + 1, o) || p in Listing(f.rest, depth, o)
  {
  }

  // The listing contains exactly the paths that such a way leads to.
  lemma {:induction false} UnfoldReaches(fs: FileSystem, device: Option<nat>, entries: seq<Entry>, path: Path,
                                         branch: seq<DevIno>, depth: nat, o: Options, p: Path)
    requires o == Unlimited(o) && forall i :: 0 <= i < |entries| ==> entries[i].node in fs
    requires forall n :: n in fs && fs[n].Dir? ==> forall i :: 0 <= i < |fs[n].entries| ==> fs[n].entries[i].node in fs
    ensures p in Listing(Unfold(fs, device, entries, path, branch), depth, o)
      <==> path < p && ReachesFrom(fs, device, entries, p[|path|..], branch)
    decreases Left(fs, branch), 1, |entries|
  {
    if entries != [] {
      hide Listing, Kids, Left, Reaches;
      var e := entries[0];
      var f := Unfold(fs, device, entries, path, branch);
      KidsReach(fs, device, e.node, path + [e.name], branch, depth + 1, o, p);
      UnfoldReaches(fs, device, entries[1..], path, branch, depth, o, p);
      ListingIn(f, depth, o, p);
      if path < p {
        var names := p[|path|..];
        FirstOrRest(fs, device, entries, names, branch);
        FirstName(path, e.name, p);
        ReachesNothing(fs, device, e.node, branch);
      }
    } else {
      ListNothing(depth, o);
    }
  }

  lemma ReachesNothing(fs: FileSystem, device: Option<nat>, n: nat, branch: seq<DevIno>)
    requires n in fs
    ensures Reaches(fs, device, n, [], branch)
  {
  }

  lemma FirstName(path: Path, name: string, p: Path)
    requires path < p
    ensures path + [name] <= p <==> p[|path|] == name
    ensures path + [name] <= p ==> p[|path + [name]|..] == p[|path|..][1..]
    ensures p == path + [name] <==> path + [name] <= p && p[|path|..][1..] == []
  {
  }

  lemma FirstOrRest(fs: FileSystem, device: Option<nat>, entries: seq<Entry>, names: Path, branch: seq<DevIno>)
    requires names != [] && entries != [] && entries[0].node in fs
    ensures ReachesFrom(fs, device, entries, names, branch) <==>
      (entries[0].name == names[0] && Reaches(fs, device, entries[0].node, names[1..], branch))
      || ReachesFrom(fs, device, entries[1..], names, branch)
  {
    hide Reaches;
    if ReachesFrom(fs, device, entries[1..], names, branch) {
      var i :| 0 <= i < |entries[1..]| && entries[1..][i].node in fs && entries[1..][i].name == names[0]
        && Reaches(fs, device, entries[1..][i].node, names[1..], branch);
      assert entries[i + 1] == entries[1..][i];
    }
    if ReachesFrom(fs, device, entries, names, branch) {
      var i :| 0 <= i < |entries| && entries[i].node in fs && entries[i].name == names[0]
        && Reaches(fs, device, entries[i].node, names[1..], branch);
      if i > 0 {
        assert entries[i] == entries[1..][i - 1];
      }
    }
  }

  lemma {:induction false} KidsReach(fs: FileSystem, device: Option<nat>, n: nat, path: Path,
                                     branch: seq<DevIno>, depth: nat, o: Options, p: Path)
    requires o == Unlimited(o) && n in fs
    requires forall n :: n in fs && fs[n].Dir? ==> forall i :: 0 <= i < |fs[n].entries| ==> fs[n].entries[i].node in fs
    ensures p in Listing(Kids(fs, device, n, path, branch), depth, o)
      <==> path < p && Reaches(fs, device, n, p[|path|..], branch)
    decreases Left(fs, branch), 0, 0
  {
    hide Listing, Unfold;
    ListNothing(depth, o);
    if fs[n].Dir? && fs[n].id !in branch {
      FewerLeft(fs, branch, n);
      UnfoldReaches(fs, device, fs[n].entries, path, branch + [fs[n].id], depth, o, p);
    }
  }

  // Every path of the forest goes on from path.
  predicate Extends(f: Forest, path: Path)
  {
    f.Cons? ==> path < f.path && Extends(f.kids, path) && Extends(f.rest, path)
  }

  lemma {:induction false} ExtendsFurther(f: Forest, path: Path, longer: Path)
    requires Extends(f, longer) && path < longer
    ensures Extends(f, path)
    decreases f
  {
    if f.Cons? {
      ExtendsFurther(f.kids, path, longer);
      ExtendsFurther(f.rest, path, longer);
    }
  }

  lemma {:induction false} UnfoldExtends(fs: FileSystem, device: Option<nat>, entries: seq<Entry>, path: Path, branch: seq<DevIno>)
    ensures Extends(Unfold(fs, device, entries, path, branch), path)
    decreases Left(fs, branch), 1, |entries|
  {
    if entries != [] {
      var e := entries[0];
      var p := path + [e.name];
      if e.node in fs {
        KidsExtend(fs, device, e.node, p, branch);
        ExtendsFurther(Kids(fs, device, e.node, p, branch), path, p);
      }
      UnfoldExtends(fs, device, entries[1..], path, branch);
    }
  }

  lemma {:induction false} KidsExtend(fs: FileSystem, device: Option<nat>, n: nat, path: Path, branch: seq<DevIno>)
    requires n in fs
    ensures Extends(Kids(fs, device, n, path, branch), path)
    decreases Left(fs, branch), 0, 0
  {
    if fs[n].Dir? && fs[n].id !in branch {
      FewerLeft(fs, branch, n);
      UnfoldExtends(fs, device, fs[n].entries, path, branch + [fs[n].id]);
    }
  }

  lemma {:induction false} ListingExtends(f: Forest, path: Path, depth: int, o: Options)
    requires Extends(f, path)
    ensures forall i :: 0 <= i < |Listing(f, depth, o)| ==> path < Listing(f, depth, o)[i]
    decreases f
  {
    if f.Cons? {
      ListingExtends(f.kids, path, depth + 1, o);
      ListingExtends(f.rest, path, depth, o);
    }
  }

  // A directory comes before everything below it, or after it under -depth.
  lemma TreeOrder(fs: FileSystem, device: Option<nat>, n: nat, path: Path, branch: seq<DevIno>, depth: int, o: Options)
    requires n in fs && depth >= o.mindepth
    ensures var r := Listing(One(path, Kids(fs, device, n, path, branch)), depth, o); var at := if o.doDirFirst then 0 else |r| - 1;
      r != [] && r[at] == path && forall i :: 0 <= i < |r| && i != at ==> path < r[i]
  {
    hide Kids;
    var kids := Kids(fs, device, n, path, branch);
    KidsExtend(fs, device, n, path, branch);
    ListingExtends(kids, path, depth + 1, o);
    ListOne(path, kids, depth, o);
  }
}
