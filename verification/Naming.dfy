// What path names mean: directory entries, path components, symbolic links.
module Naming {
  import opened Layout
  import opened BlockMap

  const SLASH: Byte := 47
  const DIRNAMELEN := 30
  const DIRENTSIZE := 32
  const MAXSYMLINKS := 20

  // A C string without its terminating zero.
  type CString = seq<Byte>

  // The C string at the start of a buffer.
  function UpToNul(s: seq<Byte>): (r: CString)
    ensures |r| <= |s| && r == s[..|r|] && 0 !in r && (|r| < |s| ==> s[|r|] == 0)
  {
    if s == [] || s[0] == 0 then [] else [s[0]] + UpToNul(s[1..])
  }

  lemma {:induction false} UpToNulWhole(s: CString, rest: seq<Byte>)
    requires 0 !in s
    ensures UpToNul(s) == s && UpToNul(s + [0] + rest) == s
  {
    if s != [] {
      UpToNulWhole(s[1..], rest);
      assert (s + [0] + rest)[1..] == s[1..] + [0] + rest;
    } else {
      assert (s + [0] + rest)[0] == 0;
    }
  }

  // The file system as path resolution sees it.
  datatype Image = Image(inodes: seq<Inode>, data: seq<Block>)

  // A resolution ends in an inode number (0 for a name that is not there), in an error, or in
  // something the C program has no defined behaviour for: an entry that names no inode or a free
  // one, a component longer than 30 characters, a symbolic link longer than a block.
  datatype Outcome = Inum(n: int) | Error | Undefined

  datatype DirEntry = DirEntry(inum: Int16, name: seq<Byte>)

  function EntryAt(text: seq<Byte>, i: nat): DirEntry
    requires DIRENTSIZE * i + DIRENTSIZE <= |text|
  {
    DirEntry(Decode16(text[DIRENTSIZE * i..DIRENTSIZE * i + 2]), text[DIRENTSIZE * i + 2..DIRENTSIZE * i + DIRENTSIZE])
  }

  // struct dir_entry: the inode number in two bytes, the name in the 30 after them.
  lemma EntryLayout(text: seq<Byte>, i: nat)
    requires DIRENTSIZE * i + DIRENTSIZE <= |text|
    ensures var e := EntryAt(text, i);
      && ShortAt(text, 32 * i, e.inum) && |e.name| == 30
      && forall p :: 0 <= p < 30 ==> e.name[p] == text[32 * i + 2 + p]
  {
    hide Decode16, ShortAt;
    Decoded16(text, 32 * i);
  }

  // strncmp(filename, entry.name, DIRNAMELEN) == 0: only the first 30 characters count.
  predicate Named(e: DirEntry, name: CString) {
    UpToNul(e.name) == Shortened(name)
  }

  // As the C library compares: the bytes of the name, up to the 30th, and a zero byte after them.
  lemma NamedMeans(e: DirEntry, name: CString)
    requires |e.name| == 30 && 0 !in name
    ensures Named(e, name) <==>
        && (forall p :: 0 <= p < 30 && p < |name| ==> e.name[p] == name[p])
        && (|name| < 30 ==> e.name[|name|] == 0)
  {
    hide UpToNul;
    var n := Shortened(name);
    if (forall p :: 0 <= p < 30 && p < |name| ==> e.name[p] == name[p]) && (|name| < 30 ==> e.name[|name|] == 0) {
      assert forall p :: 0 <= p < |n| ==> n[p] == name[p];
      assert e.name[..|n|] == n;
      UpToNulIs(e.name, |n|);
    }
  }

  lemma UpToNulIs(s: seq<Byte>, n: nat)
    requires n <= |s| && 0 !in s[..n] && (n < |s| ==> s[n] == 0)
    ensures UpToNul(s) == s[..n]
  {
    hide UpToNul;
    assert forall i :: 0 <= i < n ==> s[..n][i] != 0;
    assert forall i :: 0 <= i < |UpToNul(s)| ==> UpToNul(s)[i] != 0;
  }

  function Shortened(name: CString): CString {
    if |name| > DIRNAMELEN then name[..DIRNAMELEN] else name
  }

  // The inode number in the first entry of that name among entries i to n; ERROR (-1) where the
  // entries lie beyond the block map; 0 if there is none.
  function Search(text: seq<Byte>, name: CString, i: nat, n: nat): int
    decreases n - i
  {
    if i >= n then 0
    else if DIRENTSIZE * i + DIRENTSIZE > |text| then -1
    else if Named(EntryAt(text, i), name) then EntryAt(text, i).inum
    else Search(text, name, i + 1, n)
  }

  // findInumInDir()
  function Find(img: Image, name: CString, dir: int): Outcome {
    if !(0 <= dir < |img.inodes|) then Undefined
    else if !Live(img.inodes[dir]) then Error
    else if img.inodes[dir].size < 0 then Undefined
    else
      var inum := Search(TextOf(img.inodes[dir], img.data), name, 0, img.inodes[dir].size / DIRENTSIZE);
      if inum == -1 then Error else Inum(inum)
  }

  // j is the first of the entries i to n with that name.
  predicate First(text: seq<Byte>, name: CString, i: nat, n: nat, j: int)
    requires DIRENTSIZE * n <= |text|
  {
    i <= j < n && Named(EntryAt(text, j), name) && forall m :: i <= m < j ==> !Named(EntryAt(text, m), name)
  }

  lemma {:induction false} SearchFinds(text: seq<Byte>, name: CString, i: nat, n: nat) returns (j: int)
    requires i <= n && DIRENTSIZE * n <= |text|
    ensures j == -1 ==> Search(text, name, i, n) == 0 && forall m :: i <= m < n ==> !Named(EntryAt(text, m), name)
    ensures j != -1 ==> First(text, name, i, n, j) && Search(text, name, i, n) == EntryAt(text, j).inum
    decreases n - i
  {
    hide EntryAt, Named;
    if i == n {
      j := -1;
    } else if Named(EntryAt(text, i), name) {
      j := i;
    } else {
      j := SearchFinds(text, name, i + 1, n);
    }
  }

  // What a lookup in a directory of n entries has to answer: the inode number of the first entry of
  // that name, 0 if there is none.
  ghost predicate Answers(text: seq<Byte>, name: CString, n: nat, inum: int)
    requires DIRENTSIZE * n <= |text|
  {
    || (inum == 0 && forall m :: 0 <= m < n ==> !Named(EntryAt(text, m), name))
    || exists j :: First(text, name, 0, n, j) && inum == EntryAt(text, j).inum
  }

  lemma FindAnswers(img: Image, name: CString, dir: nat) returns (inum: int)
    requires dir < |img.inodes| && Live(img.inodes[dir]) && 0 <= img.inodes[dir].size
    requires DIRENTSIZE * (img.inodes[dir].size / DIRENTSIZE) <= |TextOf(img.inodes[dir], img.data)|
    ensures Answers(TextOf(img.inodes[dir], img.data), name, img.inodes[dir].size / DIRENTSIZE, inum)
    ensures Find(img, name, dir) == if inum == -1 then Error else Inum(inum)
  {
    hide EntryAt, Named, TextOf, Search;
    var text, n := TextOf(img.inodes[dir], img.data), img.inodes[dir].size / DIRENTSIZE;
    var j := SearchFinds(text, name, 0, n);
    inum := Search(text, name, 0, n);
  }

  // Path syntax: leading slashes, then a name up to the next slash.
  function Strip(path: CString): (r: CString)
    ensures |r| <= |path| && (r != [] ==> r[0] != SLASH)
    ensures path != [] && path[0] == SLASH ==> |r| < |path|
    ensures path == [] || path[0] != SLASH ==> r == path
  {
    if path != [] && path[0] == SLASH then Strip(path[1..]) else path
  }

  function Head(path: CString): (r: CString)
    ensures |r| <= |path| && r == path[..|r|] && SLASH !in r && (|r| < |path| ==> path[|r|] == SLASH)
    ensures path != [] && path[0] != SLASH ==> |r| > 0
  {
    if path == [] || path[0] == SLASH then [] else [path[0]] + Head(path[1..])
  }

  function Rest(path: CString): (r: CString)
    ensures r != [] ==> r[0] == SLASH
  {
    path[|Head(path)|..]
  }

  lemma RestShorter(path: CString)
    requires path != []
    ensures |Rest(Strip(path))| < |path|
  {
  }

  function StartDir(path: CString, dir: int): int {
    if path != [] && path[0] == SLASH then ROOTINODE else dir
  }

  predicate IsLink(img: Image, inum: int) {
    0 <= inum < |img.inodes| && img.inodes[inum].kind == INODE_SYMLINK
  }

  // The target of a symbolic link; defined if it fits a block that exists.
  predicate HasTarget(img: Image, inum: int) {
    IsLink(img, inum) && 0 <= img.inodes[inum].size <= BLOCKSIZE && 0 <= img.inodes[inum].direct[0] < |img.data|
  }

  function Target(img: Image, inum: int): CString
    requires HasTarget(img, inum)
  {
    UpToNul(img.data[img.inodes[inum].direct[0]][..img.inodes[inum].size])
  }

  // What is left to resolve once a link has been replaced by its target.
  function Redirect(target: CString, rest: CString): CString {
    target + if rest == [] then [] else [SLASH] + rest
  }

  // Resolution of path from dir after links links; the number of links expanded in the end.
  function Resolve(img: Image, dir: int, path: CString, links: nat): (r: (Outcome, nat))
    ensures links <= r.1 && (links <= MAXSYMLINKS ==> r.1 <= MAXSYMLINKS)
    decreases MAXSYMLINKS - links, |path|
  {
    if path == [] then (Inum(dir), links)
    else
      var name, rest := Head(Strip(path)), Rest(Strip(path));
      if |name| > DIRNAMELEN then (Undefined, links)
      else
        var found := Find(img, name, dir);
        if !found.Inum? then (found, links)
        else if !(0 <= found.n < |img.inodes|) || !Live(img.inodes[found.n]) then (Undefined, links)
        else if img.inodes[found.n].kind != INODE_SYMLINK then
          RestShorter(path);
          Resolve(img, found.n, rest, links)
        else if links >= MAXSYMLINKS then (Error, links)
        else if !HasTarget(img, found.n) then (Undefined, links)
        else
          var newPath := Redirect(Target(img, found.n), rest);
          Resolve(img, StartDir(newPath, found.n), newPath, links + 1)
  }

  // resolvePath()
  function ResolvePath(img: Image, path: CString, dir: int): (Outcome, nat) {
    Resolve(img, StartDir(path, dir), Strip(path), 0)
  }

  // A link's target is the text of the link up to its first zero byte.
  lemma TargetText(img: Image, inum: int)
    requires HasTarget(img, inum)
    ensures Target(img, inum) == UpToNul(TextOf(img.inodes[inum], img.data))
  {
    hide UpToNul;
    var ino, data := img.inodes[inum], img.data;
    assert Mapped(ino.size) == if ino.size == 0 then 0 else 1;
    assert Mapped(ino.size) == 1 ==> MapOf(ino, data) == [ino.direct[0] as int];
    assert Addressable(ino, data);
    assert TextOf(ino, data) == data[ino.direct[0]][..ino.size];
  }

  // The names a path is made of. A trailing slash makes a last, empty name.
  function Components(path: CString): seq<CString>
    decreases |path|
  {
    if path == [] then []
    else
      RestShorter(path);
      [Head(Strip(path))] + Components(Rest(Strip(path)))
  }

  // Following names from a directory, one findInumInDir() each.
  function Walk(img: Image, dir: int, names: seq<CString>): Outcome
    decreases |names|
  {
    if names == [] then Inum(dir)
    else if |names[0]| > DIRNAMELEN then Undefined
    else
      var found := Find(img, names[0], dir);
      if !found.Inum? then found
      else if !(0 <= found.n < |img.inodes|) || !Live(img.inodes[found.n]) then Undefined
      else Walk(img, found.n, names[1..])
  }

  // No symbolic link is met on the way.
  predicate Plain(img: Image, dir: int, names: seq<CString>)
    decreases |names|
  {
    names != [] && |names[0]| <= DIRNAMELEN && Find(img, names[0], dir).Inum? ==>
      var n := Find(img, names[0], dir).n;
      !IsLink(img, n) && (0 <= n < |img.inodes| && Live(img.inodes[n]) ==> Plain(img, n, names[1..]))
  }

  // Where no symbolic link is met, resolution is following the components of the path.
  lemma {:induction false} ResolveIsWalk(img: Image, dir: int, path: CString, links: nat)
    requires Plain(img, dir, Components(path))
    ensures Resolve(img, dir, path, links) == (Walk(img, dir, Components(path)), links)
    decreases |path|
  {
    if path != [] {
      RestShorter(path);
      var name, rest := Head(Strip(path)), Rest(Strip(path));
      assert Components(path) == [name] + Components(rest);
      var found := Find(img, name, dir);
      if |name| <= DIRNAMELEN && found.Inum? && 0 <= found.n < |img.inodes| && Live(img.inodes[found.n]) {
        ResolveIsWalk(img, found.n, rest, links);
      }
    }
  }

  // Where a path starts: a relative one in the directory given, an absolute one in the root.
  lemma RelativePath(img: Image, path: CString, dir: int)
    requires (path == [] || path[0] != SLASH) && Plain(img, dir, Components(path))
    ensures ResolvePath(img, path, dir) == (Walk(img, dir, Components(path)), 0)
  {
    ResolveIsWalk(img, dir, path, 0);
  }

  lemma AbsolutePath(img: Image, path: CString, dir: int)
    requires path != [] && path[0] == SLASH
    ensures (forall i :: 0 <= i < |path| ==> path[i] == SLASH) ==> ResolvePath(img, path, dir) == (Inum(ROOTINODE), 0)
    ensures (exists i :: 0 <= i < |path| && path[i] != SLASH) && Plain(img, ROOTINODE, Components(path)) ==>
        ResolvePath(img, path, dir) == (Walk(img, ROOTINODE, Components(path)), 0)
  {
    hide Find, Redirect, Target, HasTarget;
    StripAll(path);
    if Strip(path) != [] && Plain(img, ROOTINODE, Components(path)) {
      assert Strip(Strip(path)) == Strip(path);
      ResolveIsWalk(img, ROOTINODE, Strip(path), 0);
    }
  }

  lemma {:induction false} StripAll(path: CString)
    ensures Strip(path) == [] <==> forall i :: 0 <= i < |path| ==> path[i] == SLASH
    ensures Components(path) == if path != [] && Strip(path) == [] then [[]] else Components(Strip(path))
  {
    if path != [] && path[0] == SLASH {
      StripAll(path[1..]);
      assert forall i :: 0 < i < |path| ==> path[i] == path[1..][i - 1];
    }
  }

  lemma {:induction false} WalkConcat(img: Image, dir: int, a: seq<CString>, b: seq<CString>)
    ensures Walk(img, dir, a + b) == var o := Walk(img, dir, a); if o.Inum? then Walk(img, o.n, b) else o
    decreases |a|
  {
    if a == [] {
      assert a + b == b;
    } else {
      assert (a + b)[1..] == a[1..] + b;
      var found := Find(img, a[0], dir);
      if |a[0]| <= DIRNAMELEN && found.Inum? && 0 <= found.n < |img.inodes| && Live(img.inodes[found.n]) {
        WalkConcat(img, found.n, a[1..], b);
      }
    }
  }

  // The header in slot 0 of the inode table passes for an empty directory.
  predicate HeaderEmpty(img: Image) {
    |img.inodes| > 0 && Live(img.inodes[0]) && !IsLink(img, 0) && 0 <= img.inodes[0].size < DIRENTSIZE
  }

  lemma {:induction false} ZeroAbsorbs(img: Image, names: seq<CString>)
    requires HeaderEmpty(img) && forall i :: 0 <= i < |names| ==> |names[i]| <= DIRNAMELEN
    ensures Plain(img, 0, names) && Walk(img, 0, names) == Inum(0)
    decreases |names|
  {
    if names != [] {
      assert Find(img, names[0], 0) == Inum(0);
      ZeroAbsorbs(img, names[1..]);
    }
  }

  // A missing name makes the whole path resolve to 0, whatever follows it.
  lemma MissingName(img: Image, dir: int, before: seq<CString>, name: CString, after: seq<CString>)
    requires HeaderEmpty(img) && |name| <= DIRNAMELEN && forall i :: 0 <= i < |after| ==> |after[i]| <= DIRNAMELEN
    requires Walk(img, dir, before).Inum? && Find(img, name, Walk(img, dir, before).n) == Inum(0)
    ensures Walk(img, dir, before + [name] + after) == Inum(0)
  {
    WalkConcat(img, dir, before, [name] + after);
    assert before + [name] + after == before + ([name] + after) && ([name] + after)[1..] == after;
    ZeroAbsorbs(img, after);
  }

  predicate EndsInSlash(path: CString) {
    path != [] && path[|path| - 1] == SLASH
  }

  // Splitting a path in front of a slash.
  lemma StripSplit(a: CString, t: CString)
    requires a != [] && !EndsInSlash(a) && (t == [] || t[0] == SLASH)
    ensures Strip(a) != [] && !EndsInSlash(Strip(a)) && Strip(a + t) == Strip(a) + t
    ensures Head(Strip(a + t)) == Head(Strip(a)) && Rest(Strip(a + t)) == Rest(Strip(a)) + t
    ensures !EndsInSlash(Rest(Strip(a)))
  {
    StripTail(a, t);
    HeadTail(Strip(a), t);
  }

  lemma {:induction false} StripTail(a: CString, t: CString)
    requires a != [] && !EndsInSlash(a)
    ensures Strip(a) != [] && !EndsInSlash(Strip(a)) && Strip(a + t) == Strip(a) + t
  {
    if a[0] == SLASH {
      assert (a + t)[1..] == a[1..] + t;
      StripTail(a[1..], t);
    }
  }

  // The part before the first slash is determined by that.
  lemma HeadIs(path: CString, n: nat)
    requires n <= |path| && SLASH !in path[..n] && (n < |path| ==> path[n] == SLASH)
    ensures Head(path) == path[..n]
  {
    hide Head;
    assert forall i :: 0 <= i < n ==> path[..n][i] != SLASH;
    assert forall i :: 0 <= i < |Head(path)| ==> Head(path)[i] != SLASH;
  }

  lemma HeadTail(a: CString, t: CString)
    requires t == [] || t[0] == SLASH
    ensures Head(a + t) == Head(a)
    ensures Rest(a + t) == Rest(a) + t
    ensures !EndsInSlash(a) ==> !EndsInSlash(Rest(a))
  {
    hide Head;
    var n := |Head(a)|;
    assert (a + t)[..n] == a[..n];
    HeadIs(a + t, n);
    assert (a + t)[n..] == a[n..] + t;
  }

  lemma {:induction false} ComponentsConcat(a: CString, t: CString)
    requires !EndsInSlash(a) && (t == [] || t[0] == SLASH)
    ensures Components(a + t) == Components(a) + Components(t)
    decreases |a|
  {
    if a == [] {
      assert a + t == t;
    } else {
      RestShorter(a);
      StripSplit(a, t);
      ComponentsConcat(Rest(Strip(a)), t);
    }
  }

  // Names joined by single slashes.
  function Join(names: seq<CString>): CString {
    if names == [] then []
    else if |names| == 1 then names[0]
    else names[0] + [SLASH] + Join(names[1..])
  }

  // The components of a path are the names it was joined from.
  lemma {:induction false} JoinedNames(names: seq<CString>)
    requires forall i :: 0 <= i < |names| ==> names[i] != [] && SLASH !in names[i]
    ensures Components(Join(names)) == names
  {
    hide Components, Strip;
    if names == [] {
      NoName();
    } else {
      OneName(names[0]);
      if |names| > 1 {
        var rest := names[1..];
        JoinedNames(rest);
        FirstName(rest);
        AfterSlash(Join(rest));
        assert Join(names) == names[0] + ([SLASH] + Join(rest));
        ComponentsConcat(names[0], [SLASH] + Join(rest));
        assert names == [names[0]] + rest;
      }
    }
  }

  lemma NoName()
    ensures Components([]) == []
  {
  }

  lemma OneName(name: CString)
    requires name != [] && SLASH !in name
    ensures Components(name) == [name]
  {
    WholeHead(name);
    assert Strip(name) == name;
  }

  lemma AfterSlash(path: CString)
    requires path != [] && path[0] != SLASH
    ensures Components([SLASH] + path) == Components(path)
  {
    hide Head, Rest;
    assert ([SLASH] + path)[1..] == path && Strip([SLASH] + path) == path && Strip(path) == path;
  }

  lemma FirstName(names: seq<CString>)
    requires names != [] && names[0] != [] && SLASH !in names[0]
    ensures Join(names) != [] && Join(names)[0] != SLASH
  {
  }

  lemma ExtraSlash(img: Image, dir: int, t: CString, links: nat)
    requires Strip(t) != []
    ensures Resolve(img, dir, [SLASH] + t, links) == Resolve(img, dir, t, links)
    ensures Components([SLASH] + t) == Components(t)
    ensures Resolve(img, dir, Strip(t), links) == Resolve(img, dir, t, links)
  {
    hide Find, Target, HasTarget, Redirect, Head, Rest;
    assert ([SLASH] + t)[1..] == t;
    assert Strip([SLASH] + t) == Strip(t);
    assert Strip(Strip(t)) == Strip(t);
  }

  lemma LinkStep(img: Image, dir: int, path: CString, links: nat, found: Outcome)
    requires path != [] && |Head(Strip(path))| <= DIRNAMELEN && found == Find(img, Head(Strip(path)), dir)
    requires found.Inum? && HasTarget(img, found.n) && Live(img.inodes[found.n])
    ensures links >= MAXSYMLINKS ==> Resolve(img, dir, path, links) == (Error, links)
    ensures links < MAXSYMLINKS ==>
        var newPath := Redirect(Target(img, found.n), Rest(Strip(path)));
        Resolve(img, dir, path, links) == Resolve(img, StartDir(newPath, found.n), newPath, links + 1)
  {
  }

  // One absolute symbolic link: resolution goes on from the root, with the components of the target
  // in place of the link's name, and one link less to spare.
  lemma AbsoluteLink(img: Image, dir: int, path: CString, links: nat)
    requires path != [] && |Head(Strip(path))| <= DIRNAMELEN && links < MAXSYMLINKS
    requires var found := Find(img, Head(Strip(path)), dir);
      found.Inum? && HasTarget(img, found.n) && Live(img.inodes[found.n])
      && Target(img, found.n) != [] && Target(img, found.n)[0] == SLASH && !EndsInSlash(Target(img, found.n))
    requires var rest := Rest(Strip(path)); rest == [] || Strip(rest) != []
    ensures var target, rest := Target(img, Find(img, Head(Strip(path)), dir).n), Rest(Strip(path));
      var newPath := Redirect(target, rest);
      && Components(newPath) == Components(target) + Components(rest)
      && Resolve(img, dir, path, links) == Resolve(img, ROOTINODE, newPath, links + 1)
      && (Plain(img, ROOTINODE, Components(newPath)) ==>
            Resolve(img, dir, path, links) == (Walk(img, ROOTINODE, Components(target) + Components(rest)), links + 1))
  {
    var target, rest := Target(img, Find(img, Head(Strip(path)), dir).n), Rest(Strip(path));
    var newPath := Redirect(target, rest);
    if rest == [] {
      ComponentsConcat(target, []);
    } else {
      ComponentsConcat(target, [SLASH] + rest);
      ExtraSlash(img, dir, rest, links);
    }
    if Plain(img, ROOTINODE, Components(newPath)) {
      ResolveIsWalk(img, ROOTINODE, newPath, links + 1);
    }
  }

  // One relative symbolic link: resolution goes on from the link itself.
  lemma RelativeLink(img: Image, dir: int, path: CString, links: nat)
    requires path != [] && |Head(Strip(path))| <= DIRNAMELEN && links < MAXSYMLINKS
    requires var found := Find(img, Head(Strip(path)), dir);
      found.Inum? && HasTarget(img, found.n) && Live(img.inodes[found.n])
      && Target(img, found.n) != [] && Target(img, found.n)[0] != SLASH && !EndsInSlash(Target(img, found.n))
    requires var rest := Rest(Strip(path)); rest == [] || Strip(rest) != []
    ensures var link, rest := Find(img, Head(Strip(path)), dir).n, Rest(Strip(path));
      var names := Components(Target(img, link)) + Components(rest);
      Plain(img, link, names) ==> Resolve(img, dir, path, links) == (Walk(img, link, names), links + 1)
  {
    var link, rest := Find(img, Head(Strip(path)), dir).n, Rest(Strip(path));
    var target := Target(img, link);
    var newPath := Redirect(target, rest);
    if rest == [] {
      ComponentsConcat(target, []);
    } else {
      ComponentsConcat(target, [SLASH] + rest);
      ExtraSlash(img, dir, rest, links);
    }
    if Plain(img, link, Components(newPath)) {
      ResolveIsWalk(img, link, newPath, links + 1);
    }
  }

  // A link to itself is an error after exactly 20 expansions.
  lemma {:induction false} SelfLink(img: Image, name: CString, links: nat)
    requires name != [] && |name| <= DIRNAMELEN && SLASH !in name && links <= MAXSYMLINKS
    requires var found := Find(img, name, ROOTINODE);
      found.Inum? && HasTarget(img, found.n) && Live(img.inodes[found.n]) && Target(img, found.n) == [SLASH] + name
    ensures Resolve(img, ROOTINODE, [SLASH] + name, links) == (Error, MAXSYMLINKS)
    decreases MAXSYMLINKS - links
  {
    var path: CString := [SLASH] + name;
    assert path[1..] == name;
    assert Strip(path) == name;
    WholeHead(name);
    assert Redirect(path, []) == path;
    LinkStep(img, ROOTINODE, path, links, Find(img, name, ROOTINODE));
    if links < MAXSYMLINKS {
      SelfLink(img, name, links + 1);
    }
  }

  lemma {:induction false} WholeHead(name: CString)
    requires SLASH !in name
    ensures Head(name) == name && Rest(name) == []
  {
    if name != [] {
      WholeHead(name[1..]);
    }
  }

  // No symbolic link is empty or ends in a slash.
  predicate Tidy(img: Image) {
    forall i :: 0 <= i < |img.inodes| && HasTarget(img, i) ==> Target(img, i) != [] && !EndsInSlash(Target(img, i))
  }

  // Resolving a longer path is resolving its beginning and going on from there, links included.
  lemma {:induction false} ResolveThrough(img: Image, dir: int, a: CString, t: CString, links: nat)
    requires Tidy(img) && !EndsInSlash(a) && t != [] && t[0] == SLASH && Strip(t) != []
    ensures Resolve(img, dir, a + t, links) ==
        var r := Resolve(img, dir, a, links); if r.0.Inum? then Resolve(img, r.0.n, t, r.1) else r
    decreases MAXSYMLINKS - links, |a|
  {
    if a == [] {
      assert a + t == t;
    } else {
      RestShorter(a);
      StripSplit(a, t);
      var name, rest := Head(Strip(a)), Rest(Strip(a));
      var found := Find(img, name, dir);
      if |name| <= DIRNAMELEN && found.Inum? && 0 <= found.n < |img.inodes| && Live(img.inodes[found.n]) {
        if img.inodes[found.n].kind != INODE_SYMLINK {
          ResolveThrough(img, found.n, rest, t, links);
        } else if links < MAXSYMLINKS && HasTarget(img, found.n) {
          ThroughLink(img, found.n, rest, t, links);
        }
      }
    }
  }

  lemma {:induction false} ThroughLink(img: Image, link: int, rest: CString, t: CString, links: nat)
    requires Tidy(img) && !EndsInSlash(rest) && t != [] && t[0] == SLASH && Strip(t) != []
    requires links < MAXSYMLINKS && HasTarget(img, link) && (rest == [] || rest[0] == SLASH)
    ensures var long, short := Redirect(Target(img, link), rest + t), Redirect(Target(img, link), rest);
      Resolve(img, StartDir(long, link), long, links + 1) ==
        var r := Resolve(img, StartDir(short, link), short, links + 1);
        if r.0.Inum? then Resolve(img, r.0.n, t, r.1) else r
    decreases MAXSYMLINKS - links, 0
  {
    var target := Target(img, link);
    if rest == [] {
      assert rest + t == t;
      var u: CString := [SLASH] + t;
      assert u[1..] == t;
      assert Redirect(target, rest + t) == target + u && Redirect(target, rest) == target;
      ResolveThrough(img, StartDir(target, link), target, u, links + 1);
      var r := Resolve(img, StartDir(target, link), target, links + 1);
      if r.0.Inum? {
        ExtraSlash(img, r.0.n, t, r.1);
      }
    } else {
      var short := Redirect(target, rest);
      assert Redirect(target, rest + t) == short + t;
      assert short[|short| - 1] == rest[|rest| - 1];
      ResolveThrough(img, StartDir(short, link), short, t, links + 1);
    }
  }

  // The position of the last slash, -1 if there is none.
  function LastSlash(path: CString): (i: int)
    ensures -1 <= i < |path| && (i >= 0 ==> path[i] == SLASH) && forall j :: i < j < |path| ==> path[j] != SLASH
  {
    if path == [] then -1
    else if path[|path| - 1] == SLASH then |path| - 1
    else LastSlash(path[..|path| - 1])
  }

  // getFilename()
  function Filename(path: CString): CString {
    path[LastSlash(path) + 1..]
  }

  // getParentInum(). Without a slash the C program copies -1 bytes.
  function Parent(img: Image, path: CString, dir: int): (Outcome, nat) {
    var i := LastSlash(path);
    if i == -1 then (Undefined, 0)
    else if i == 0 then (Inum(ROOTINODE), 0)
    else ResolvePath(img, path[..i], dir)
  }

  // Resolving a path is resolving its parent and looking up its file name there.
  lemma ParentThenName(img: Image, path: CString, dir: int)
    requires Tidy(img) && LastSlash(path) >= 0 && Filename(path) != []
    requires LastSlash(path) > 0 ==> path[LastSlash(path) - 1] != SLASH
    ensures ResolvePath(img, path, dir) ==
        var r := Parent(img, path, dir); if r.0.Inum? then Resolve(img, r.0.n, Filename(path), r.1) else r
  {
    hide Resolve, LastSlash;
    var i, name := LastSlash(path), Filename(path);
    var t: CString := path[i..];
    assert t == [SLASH] + name && t[1..] == name;
    assert Strip(t) == name;
    if i == 0 {
      assert path == t;
    } else {
      var a: CString := path[..i];
      assert path == a + t;
      StripSplit(a, t);
      ResolveThrough(img, StartDir(path, dir), Strip(a), t, 0);
      var r := Resolve(img, StartDir(path, dir), Strip(a), 0);
      if r.0.Inum? {
        ExtraSlash(img, r.0.n, t, r.1);
      }
    }
  }

  // The last step, if it does not end in a symbolic link, is what findInumInDir() says.
  lemma LastStep(img: Image, dir: int, name: CString, links: nat)
    requires name != [] && SLASH !in name && |name| <= DIRNAMELEN
    requires var found := Find(img, name, dir); found.Inum? ==>
        0 <= found.n < |img.inodes| && Live(img.inodes[found.n]) && !IsLink(img, found.n)
    ensures Resolve(img, dir, name, links) == (Find(img, name, dir), links)
  {
    WholeHead(name);
  }
}
