// Looking up names: findInumInDir(), resolvePath(), getParentInum() and getFilename() of yfs.c.
module Paths {
  import opened Layout
  import opened RecencyQueue
  import opened BlockMap
  import opened FileSystem
  import opened ByteIO
  import BlockCache
  import LruCache
  import opened Naming

  ghost function ImageOf(fs: Server): Image
    reads fs
  {
    Image(fs.Inodes, fs.Data)
  }

  lemma EntryRead(text: seq<Byte>, was: seq<Byte>, i: nat)
    requires |was| == DIRENTSIZE && DIRENTSIZE * i + DIRENTSIZE <= |text|
    ensures |Slice(text, DIRENTSIZE * i, DIRENTSIZE)| == DIRENTSIZE
    ensures EntryAt(Overwrite(was, 0, Slice(text, DIRENTSIZE * i, DIRENTSIZE)), 0) == EntryAt(text, i)
  {
    var s, p := Overwrite(was, 0, Slice(text, DIRENTSIZE * i, DIRENTSIZE)), DIRENTSIZE * i;
    assert s == text[p..p + DIRENTSIZE];
    assert s[0..2] == text[p..p + 2] && s[2..DIRENTSIZE] == text[p + 2..p + DIRENTSIZE];
  }

  // Reading one entry of a directory; whether ReadHandler() reported an error.
  method ReadEntry(fs: Server, dir: nat, i: nat) returns (ok: bool, entry: DirEntry)
    requires fs.Valid() && fs.Sound() && fs.Settled() && dir < fs.numInodes && Live(fs.Inodes[dir])
    requires 0 <= fs.Inodes[dir].size && i < fs.Inodes[dir].size / DIRENTSIZE
    modifies fs.Repr
    ensures fs.Valid() && fs.Settled() && fs.Grown() && fs.SameState()
    ensures ok <==> DIRENTSIZE * i + DIRENTSIZE <= |Text(fs, dir)|
    ensures ok ==> entry == EntryAt(Text(fs, dir), i)
    ensures dir in old(fs.icache.Map()) ==> fs.icache.Map() == old(fs.icache.Map())
  {
    hide Server.Valid, Server.UsedBlocks, Server.UsedInodes, Server.Settled, BlockMap.Sound, TextOf, Overwrite,
      Slice, EntryAt;
    var buf := new Byte[DIRENTSIZE];
    TextLength(fs, dir);
    WithinMap(i, fs.Inodes[dir].size, |Text(fs, dir)|);
    if DIRENTSIZE * i + DIRENTSIZE <= |Text(fs, dir)| {
      EntryRead(Text(fs, dir), buf[..], i);
    }
    var r := ReadHandler(fs, dir, i * DIRENTSIZE, buf, DIRENTSIZE);
    ok := r != -1;
    entry := EntryAt(buf[..], 0);
  }

  lemma WithinMap(i: nat, size: nat, len: nat)
    requires i < size / DIRENTSIZE && len == if size <= BLOCKSIZE * MAX_BLOCKS then size else BLOCKSIZE * MAX_BLOCKS
    ensures PastMap(i * DIRENTSIZE, DIRENTSIZE, size) <==> DIRENTSIZE * i + DIRENTSIZE > len
  {
  }

  // findInumInDir(): -1 on error, 0 if there is no such entry.
  method FindInumInDir(fs: Server, filename: CString, dir: nat) returns (inum: int)
    requires fs.Valid() && fs.Sound() && fs.Settled() && dir < fs.numInodes
    modifies fs.Repr
    ensures fs.Valid() && fs.Sound() && fs.Settled() && fs.Grown() && fs.SameState()
    ensures Find(ImageOf(fs), filename, dir) == if inum == -1 then Error else Inum(inum)
    ensures !Live(fs.Inodes[dir]) ==> inum == -1
    ensures Live(fs.Inodes[dir]) ==>
        && 0 <= fs.Inodes[dir].size
        && var n := fs.Inodes[dir].size / DIRENTSIZE;
          DIRENTSIZE * n <= |Text(fs, dir)| ==> Answers(Text(fs, dir), filename, n, inum)
  {
    hide Server.Valid, Server.UsedBlocks, Server.UsedInodes, Server.Settled, BlockMap.Sound, TextOf, EntryAt, Named;
    var dirInode := fs.GetUseInode(dir);
    if dirInode == null {
      return -1;
    }
    TextLength(fs, dir);
    var n := dirInode.val.size / DIRENTSIZE;
    ghost var text := Text(fs, dir);
    for i := 0 to n
      invariant fs.Valid() && fs.Settled() && fs.Grown() && fs.SameState()
      invariant Search(text, filename, 0, n) == Search(text, filename, i, n)
      invariant DIRENTSIZE * n <= |text| ==> forall m :: 0 <= m < i ==> !Named(EntryAt(text, m), filename)
    {
      var ok, entry := ReadEntry(fs, dir, i);
      if !ok {
        return -1;
      }
      if Named(entry, filename) {
        assert DIRENTSIZE * n <= |text| ==> First(text, filename, 0, n, i);
        return entry.inum;
      }
    }
    inum := 0;
  }

  // Past leading slashes, and the name up to the next slash or the end.
  method NextName(pathname: CString) returns (nodeName: CString, rest: CString)
    ensures nodeName == Head(Strip(pathname)) && rest == Rest(Strip(pathname))
  {
    rest := SkipSlashes(pathname);
    ghost var stripped := rest;
    nodeName := [];
    while rest != [] && rest[0] != SLASH
      invariant nodeName + Head(rest) == Head(stripped) && Rest(rest) == Rest(stripped)
      decreases |rest|
    {
      nodeName, rest := nodeName + [rest[0]], rest[1..];
    }
  }

  method SkipSlashes(pathname: CString) returns (rest: CString)
    ensures rest == Strip(pathname)
  {
    rest := pathname;
    while rest != [] && rest[0] == SLASH
      invariant Strip(rest) == Strip(pathname)
      decreases |rest|
    {
      rest := rest[1..];
    }
  }

  lemma LinkBlock(fs: Server, k: nat)
    requires fs.Valid() && fs.Sound() && k < fs.numInodes && Live(fs.Inodes[k])
    ensures 0 < fs.Inodes[k].size ==> fs.Table() < fs.Inodes[k].direct[0]
  {
    hide Server.Valid, Server.UsedBlocks, Server.UsedInodes;
    if 0 < fs.Inodes[k].size {
      AtBlock(fs, k, 0);
    }
  }

  // The target of a symbolic link with the rest of the path appended.
  method FollowLink(fs: Server, link: Inode, ghost k: nat, rest: CString) returns (newPathname: CString)
    requires fs.Valid() && fs.Sound() && fs.Settled() && k < fs.numInodes && link == fs.Inodes[k]
    requires HasTarget(ImageOf(fs), k)
    modifies fs.Repr
    ensures fs.Valid() && fs.Settled() && fs.Grown() && fs.SameState()
    ensures newPathname == Redirect(Target(ImageOf(fs), k), rest)
    ensures newPathname == UpToNul(Text(fs, k)) + if rest == [] then [] else [SLASH] + rest
  {
    hide Server.Valid, Server.UsedBlocks, Server.UsedInodes, BlockMap.Sound, UpToNul;
    LinkBlock(fs, k);
    TargetText(ImageOf(fs), k);
    fs.StoreWithin();
    var firstBlock := fs.GetBlock(link.direct[0]);
    assert firstBlock.val[..link.size] == fs.Data[link.direct[0]][..link.size];
    newPathname := UpToNul(firstBlock.val[..link.size]);
    if |rest| > 0 {
      newPathname := newPathname + [SLASH];
      newPathname := newPathname + rest;
    }
  }

  method OnDisk(fs: Server, b: int) returns (r: bool)
    requires fs.Valid()
    ensures r <==> 0 <= b < |fs.Data|
  {
    hide BlockCache.BlockStore.Valid, LruCache.Cache.Valid, InodesAgree, DataAgree;
    fs.store.Sentinel();
    r := 0 <= b < |fs.store.disk.sectors|;
  }

  // Whether the link's target can be read without leaving its block or the disk.
  method CanFollow(fs: Server, link: Inode, ghost k: nat) returns (r: bool)
    requires fs.Valid() && fs.Sound() && k < fs.numInodes && link == fs.Inodes[k] && Live(link)
    requires IsLink(ImageOf(fs), k)
    ensures r <==> HasTarget(ImageOf(fs), k)
  {
    hide Server.Valid, Server.UsedBlocks, Server.UsedInodes, BlockMap.Sound, TextOf;
    TextLength(fs, k);
    var onDisk := OnDisk(fs, link.direct[0]);
    r := link.size <= BLOCKSIZE && onDisk;
  }

  // Whether a name leads to an allocated inode.
  ghost predicate LeadsTo(img: Image, name: CString, dir: int, inum: int) {
    |name| <= DIRNAMELEN && Find(img, name, dir) == Inum(inum) && 0 <= inum < |img.inodes| && Live(img.inodes[inum])
  }

  lemma LeadsNowhere(img: Image, dir: int, path: CString, links: nat, o: Outcome)
    requires path != []
    requires var name := Head(Strip(path));
      o == if |name| > DIRNAMELEN || Find(img, name, dir).Inum? then Undefined else Find(img, name, dir)
    requires forall inum :: !LeadsTo(img, Head(Strip(path)), dir, inum)
    ensures Resolve(img, dir, path, links) == (o, links)
  {
    var name := Head(Strip(path));
    assert Find(img, name, dir).Inum? ==> !LeadsTo(img, name, dir, Find(img, name, dir).n);
  }

  // findInumInDir() and get_use_inode() for one component; null if it leads nowhere, with the outcome.
  method LookUp(fs: Server, nodeName: CString, curDir: int) returns (info: Node?<Inode>, inum: int, o: Outcome)
    requires fs.Valid() && fs.Sound() && fs.Settled()
    modifies fs.Repr
    ensures fs.Valid() && fs.Settled() && fs.Grown() && fs.SameState()
    ensures info != null ==> LeadsTo(ImageOf(fs), nodeName, curDir, inum) && info.val == fs.Inodes[inum]
    ensures info == null ==> forall inum :: !LeadsTo(ImageOf(fs), nodeName, curDir, inum)
    ensures info == null ==>
        var found := Find(ImageOf(fs), nodeName, curDir);
        o == if |nodeName| > DIRNAMELEN || found.Inum? then Undefined else found
  {
    hide Server.Valid, Server.UsedBlocks, Server.UsedInodes, Server.Settled, BlockMap.Sound, TextOf;
    if |nodeName| > DIRNAMELEN || curDir < 0 || curDir >= fs.numInodes {
      return null, -1, Undefined;
    }
    inum := FindInumInDir(fs, nodeName, curDir);
    if inum == -1 {
      return null, inum, Error;
    }
    if inum < 0 || inum >= fs.numInodes {
      return null, inum, Undefined;
    }
    info := fs.GetUseInode(inum);
    o := Undefined;
  }

  lemma PlainStep(img: Image, dir: int, path: CString, links: nat, inum: int)
    requires path != [] && LeadsTo(img, Head(Strip(path)), dir, inum) && img.inodes[inum].kind != INODE_SYMLINK
    ensures Resolve(img, dir, path, links) == Resolve(img, inum, Rest(Strip(path)), links)
  {
  }

  lemma BadLink(img: Image, dir: int, path: CString, links: nat, inum: int)
    requires path != [] && LeadsTo(img, Head(Strip(path)), dir, inum) && img.inodes[inum].kind == INODE_SYMLINK
    ensures links >= MAXSYMLINKS ==> Resolve(img, dir, path, links) == (Error, links)
    ensures links < MAXSYMLINKS && !HasTarget(img, inum) ==> Resolve(img, dir, path, links) == (Undefined, links)
  {
  }

  // One symbolic link: the path that replaces it, or the outcome if it cannot be followed.
  method Expand(fs: Server, link: Inode, ghost k: nat, symlinkCount: nat, rest: CString)
    returns (expanded: bool, o: Outcome, newPathname: CString)
    requires fs.Valid() && fs.Sound() && fs.Settled() && k < fs.numInodes && link == fs.Inodes[k]
    requires Live(link) && IsLink(ImageOf(fs), k)
    modifies fs.Repr
    ensures fs.Valid() && fs.Settled() && fs.Grown() && fs.SameState()
    ensures expanded <==> symlinkCount < MAXSYMLINKS && HasTarget(ImageOf(fs), k)
    ensures expanded ==> newPathname == Redirect(Target(ImageOf(fs), k), rest)
    ensures !expanded ==> o == if symlinkCount >= MAXSYMLINKS then Error else Undefined
  {
    hide Server.Valid, Server.UsedBlocks, Server.UsedInodes, Server.Settled, BlockMap.Sound, Target, Redirect;
    expanded, o, newPathname := false, Error, rest;
    if symlinkCount >= MAXSYMLINKS {
      return;
    }
    expanded := CanFollow(fs, link, k);
    o := Undefined;
    if expanded {
      newPathname := FollowLink(fs, link, k, rest);
    }
  }

  // One round of resolvePath()'s loop: the outcome, or the path still to go and where it starts.
  method NextComponent(fs: Server, pathname: CString, curDir: int, symlinkCount: nat)
    returns (done: bool, o: Outcome, rest: CString, dir: int, count: nat)
    requires fs.Valid() && fs.Sound() && fs.Settled() && pathname != [] && symlinkCount <= MAXSYMLINKS
    modifies fs.Repr
    ensures fs.Valid() && fs.Settled() && fs.Grown() && fs.SameState() && count <= MAXSYMLINKS
    ensures done ==> Resolve(ImageOf(fs), curDir, pathname, symlinkCount) == (o, symlinkCount)
    ensures !done ==>
        && Resolve(ImageOf(fs), curDir, pathname, symlinkCount) == Resolve(ImageOf(fs), dir, rest, count)
        && (count > symlinkCount || (count == symlinkCount && |rest| < |pathname|))
  {
    hide Server.Valid, Server.UsedBlocks, Server.UsedInodes, Server.Settled, BlockMap.Sound, Find, Target,
      HasTarget, Redirect, Strip, Head, Rest, Resolve;
    ghost var img := ImageOf(fs);
    RestShorter(pathname);
    done, dir, count := true, curDir, symlinkCount;
    var nodeName;
    nodeName, rest := NextName(pathname);
    var nextInodeInfo, inum, out := LookUp(fs, nodeName, curDir);
    o := out;
    if nextInodeInfo == null {
      LeadsNowhere(img, curDir, pathname, symlinkCount, out);
      return;
    }
    if nextInodeInfo.val.kind == INODE_SYMLINK {
      assert fs.Grown() && fs.SameState();
      var expanded;
      expanded, o, rest := Expand(fs, nextInodeInfo.val, inum, symlinkCount, rest);
      if !expanded {
        BadLink(img, curDir, pathname, symlinkCount, inum);
        return;
      }
      LinkStep(img, curDir, pathname, symlinkCount, Inum(inum));
      count := symlinkCount + 1;
    } else {
      PlainStep(img, curDir, pathname, symlinkCount, inum);
    }
    done := false;
    dir := if count > symlinkCount && rest != [] && rest[0] == SLASH then ROOTINODE else inum;
  }

  lemma StartsWhere(img: Image, path: CString, dir: int)
    ensures (path == [] || path[0] != SLASH) && Plain(img, dir, Components(path)) ==>
        Naming.ResolvePath(img, path, dir) == (Walk(img, dir, Components(path)), 0)
    ensures path != [] && path[0] == SLASH && Strip(path) == [] ==>
        Naming.ResolvePath(img, path, dir) == (Inum(ROOTINODE), 0)
    ensures path != [] && path[0] == SLASH && Strip(path) != [] && Plain(img, ROOTINODE, Components(path)) ==>
        Naming.ResolvePath(img, path, dir) == (Walk(img, ROOTINODE, Components(path)), 0)
  {
    hide Naming.ResolvePath, Plain, Walk, Components, Strip;
    if path != [] && path[0] == SLASH {
      StripAll(path);
      AbsolutePath(img, path, dir);
    } else if Plain(img, dir, Components(path)) {
      RelativePath(img, path, dir);
    }
  }

  // resolvePath(). Where the C program has no defined behaviour the outcome is Undefined.
  method ResolvePath(fs: Server, path: CString, curDirIn: int) returns (o: Outcome, ghost links: nat)
    requires fs.Valid() && fs.Sound() && fs.Settled()
    modifies fs.Repr
    ensures fs.Valid() && fs.Sound() && fs.Settled() && fs.Grown() && fs.SameState()
    ensures (o, links) == Naming.ResolvePath(ImageOf(fs), path, curDirIn)
    ensures links <= MAXSYMLINKS
    // where it starts: a relative path in the directory given, an absolute one in the root
    ensures (path == [] || path[0] != SLASH) && Plain(ImageOf(fs), curDirIn, Components(path)) ==>
        (o, links) == (Walk(ImageOf(fs), curDirIn, Components(path)), 0)
    ensures path != [] && path[0] == SLASH && Strip(path) == [] ==> (o, links) == (Inum(ROOTINODE), 0)
    ensures path != [] && path[0] == SLASH && Strip(path) != [] && Plain(ImageOf(fs), ROOTINODE, Components(path)) ==>
        (o, links) == (Walk(ImageOf(fs), ROOTINODE, Components(path)), 0)
  {
    hide Server.Valid, Server.UsedBlocks, Server.UsedInodes, Server.Settled, BlockMap.Sound, Strip, Resolve, Plain,
      Walk, Components;
    ghost var img := ImageOf(fs);
    StartsWhere(img, path, curDirIn);
    var curDir := if path != [] && path[0] == SLASH then ROOTINODE else curDirIn;
    var symlinkCount: nat := 0;
    var pathname := SkipSlashes(path);
    while pathname != []
      invariant fs.Valid() && fs.Settled() && fs.Grown() && fs.SameState() && symlinkCount <= MAXSYMLINKS
      invariant Resolve(img, curDir, pathname, symlinkCount) == Naming.ResolvePath(img, path, curDirIn)
      decreases MAXSYMLINKS - symlinkCount, |pathname|
    {
      links := symlinkCount;
      var done;
      done, o, pathname, curDir, symlinkCount := NextComponent(fs, pathname, curDir, symlinkCount);
      if done {
        return;
      }
    }
    EndOfPath(img, curDir, symlinkCount);
    o, links := Inum(curDir), symlinkCount;
  }

  lemma EndOfPath(img: Image, dir: int, links: nat)
    ensures Resolve(img, dir, [], links) == (Inum(dir), links)
  {
  }

  lemma LastSlashAt(path: CString, i: int)
    requires -1 <= i < |path| && (i >= 0 ==> path[i] == SLASH) && forall j :: i < j < |path| ==> path[j] != SLASH
    ensures LastSlash(path) == i
  {
  }

  // getFilename()
  method GetFilename(pathname: CString) returns (name: CString)
    ensures name == Filename(pathname) && SLASH !in name
    ensures |name| <= |pathname| && name == pathname[|pathname| - |name|..]
    ensures |name| < |pathname| ==> pathname[|pathname| - |name| - 1] == SLASH
  {
    var i := |pathname| - 1;
    while i >= 0
      invariant -1 <= i < |pathname| && forall j :: i < j < |pathname| ==> pathname[j] != SLASH
    {
      if pathname[i] == SLASH {
        LastSlashAt(pathname, i);
        return pathname[i + 1..];
      }
      i := i - 1;
    }
    LastSlashAt(pathname, -1);
    name := pathname;
  }

  lemma ParentPlain(img: Image, path: CString, dir: int)
    ensures SLASH !in path ==> Parent(img, path, dir).0 == Undefined
    ensures forall i :: 0 <= i < |path| && path[i] == SLASH && SLASH !in path[i + 1..] ==>
        Parent(img, path, dir) == if i == 0 then (Inum(ROOTINODE), 0) else Naming.ResolvePath(img, path[..i], dir)
  {
    hide Naming.ResolvePath, LastSlash;
    forall i | 0 <= i < |path| && path[i] == SLASH && SLASH !in path[i + 1..]
      ensures LastSlash(path) == i
    {
      assert forall j :: i < j < |path| ==> path[i + 1..][j - (i + 1)] == path[j];
      LastSlashAt(path, i);
    }
  }

  // getParentInum()
  method GetParentInum(fs: Server, pathname: CString, curDirIn: int) returns (o: Outcome, ghost links: nat)
    requires fs.Valid() && fs.Sound() && fs.Settled()
    modifies fs.Repr
    ensures fs.Valid() && fs.Sound() && fs.Settled() && fs.Grown() && fs.SameState()
    ensures (o, links) == Parent(ImageOf(fs), pathname, curDirIn)
    ensures SLASH !in pathname ==> o == Undefined
    ensures forall i :: 0 <= i < |pathname| && pathname[i] == SLASH && SLASH !in pathname[i + 1..] ==>
        (o, links) == if i == 0 then (Inum(ROOTINODE), 0) else Naming.ResolvePath(ImageOf(fs), pathname[..i], curDirIn)
  {
    hide Server.Valid, Server.UsedBlocks, Server.UsedInodes, Server.Settled, BlockMap.Sound, Naming.ResolvePath;
    ParentPlain(ImageOf(fs), pathname, curDirIn);
    var parentLen := 0;
    var i := |pathname| - 1;
    while i >= 0
      invariant -1 <= i < |pathname| && forall j :: i < j < |pathname| ==> pathname[j] != SLASH
      invariant parentLen == 0
    {
      if pathname[i] == SLASH {
        parentLen := i + 1;
        break;
      }
      i := i - 1;
    }
    LastSlashAt(pathname, parentLen - 1);
    links := 0;
    if parentLen == 1 && pathname[0] == SLASH {
      return Inum(ROOTINODE), links;
    }
    parentLen := parentLen - 1;
    if parentLen < 0 {
      return Undefined, links;
    }
    o, links := ResolvePath(fs, pathname[..parentLen], curDirIn);
  }
}
