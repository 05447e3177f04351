/**
  The folder sidebar's file tree (FileTreeItem): a directory node starts with
  one "loading" placeholder child and, when expanded, replaces it with its
  visible subdirectories that contain Markdown somewhere below them and its
  visible Markdown files, directories first, each group in case-insensitive
  name order; an empty or failed listing shows a single status node instead.

  The filesystem is a finite tree value (`Directory`), so every traversal
  terminates structurally; the calls that read the disk become parameters.
*/
module FileTree {
  import opened Text

  // ---------------------------------------------------------------------
  // The filesystem as seen by the tree
  // ---------------------------------------------------------------------

  /** Outcome of listing a directory: readable, refused by the OS, or another I/O failure. */
  datatype Access = Readable | Denied | Faulted(message: string)

  datatype FileEntry = FileEntry(name: string, hidden: bool)

  datatype Directory = Directory(
    name: string,
    hidden: bool,
    system: bool,
    access: Access,
    files: seq<FileEntry>,
    subdirs: seq<Directory>)

  /** Directories with the Hidden or the System attribute are skipped everywhere. */
  predicate Visible(d: Directory)
  {
    !d.hidden && !d.system
  }

  /** A name matched by one of the wildcards `*.md` and `*.markdown` (case-insensitive). */
  predicate IsMarkdownName(name: string)
  {
    EndsWithIgnoreCase(name, ".md") || EndsWithIgnoreCase(name, ".markdown")
  }

  /**
    HasMarkdownFiles: the directory can be listed and either holds a Markdown
    file itself (hidden or not: the wildcard listing does not look at
    attributes) or has a visible subdirectory for which this holds. An
    unreadable directory yields false.
  */
  predicate HasMarkdownFiles(d: Directory)
  {
    d.access == Readable &&
    ((exists f :: f in d.files && IsMarkdownName(f.name)) ||
     (exists sub :: sub in d.subdirs && Visible(sub) && HasMarkdownFiles(sub)))
  }

  /**
    Independent description of the same property: following the subdirectory
    indices in `route`, every directory on the way is readable, every step
    goes into a visible subdirectory, and the last directory holds a Markdown
    file.
  */
  ghost predicate ReachesMarkdown(d: Directory, route: seq<nat>)
    decreases |route|
  {
    d.access == Readable &&
    if route == [] then exists f :: f in d.files && IsMarkdownName(f.name)
    else route[0] < |d.subdirs| && Visible(d.subdirs[route[0]])
         && ReachesMarkdown(d.subdirs[route[0]], route[1..])
  }

  lemma {:induction false} ReachImpliesHasMarkdown(d: Directory, route: seq<nat>)
    requires ReachesMarkdown(d, route)
    ensures HasMarkdownFiles(d)
    decreases |route|
  {
    if route != [] {
      var sub := d.subdirs[route[0]];
      ReachImpliesHasMarkdown(sub, route[1..]);
      assert sub in d.subdirs;
    }
  }

  lemma {:induction false} HasMarkdownWitness(d: Directory) returns (route: seq<nat>)
    requires HasMarkdownFiles(d)
    ensures ReachesMarkdown(d, route)
    decreases d
  {
    if exists f :: f in d.files && IsMarkdownName(f.name) {
      route := [];
    } else {
      var sub :| sub in d.subdirs && Visible(sub) && HasMarkdownFiles(sub);
      var i :| 0 <= i < |d.subdirs| && d.subdirs[i] == sub;
      var rest := HasMarkdownWitness(sub);
      route := [i] + rest;
      assert route[1..] == rest;
    }
  }

  /** The recursive test agrees with the route description, in both directions. */
  lemma HasMarkdownFilesIffRoute(d: Directory)
    ensures HasMarkdownFiles(d) <==> exists route :: ReachesMarkdown(d, route)
  {
    if HasMarkdownFiles(d) {
      var route := HasMarkdownWitness(d);
      assert ReachesMarkdown(d, route);
    }
    if exists route :: ReachesMarkdown(d, route) {
      var route :| ReachesMarkdown(d, route);
      ReachImpliesHasMarkdown(d, route);
    }
  }

  /**
    The scan HasMarkdownFiles performs: the files of the directory first, then
    each visible subdirectory in listing order, stopping at the first hit; a
    directory that cannot be listed answers false.
  */
  method ScanForMarkdown(d: Directory) returns (found: bool)
    ensures found == HasMarkdownFiles(d)
    decreases d
  {
    if d.access != Readable {
      return false;
    }
    for j := 0 to |d.files|
      invariant forall k :: 0 <= k < j ==> !IsMarkdownName(d.files[k].name)
    {
      if IsMarkdownName(d.files[j].name) {
        assert d.files[j] in d.files;
        return true;
      }
    }
    for i := 0 to |d.subdirs|
      invariant forall k :: 0 <= k < i ==> !(Visible(d.subdirs[k]) && HasMarkdownFiles(d.subdirs[k]))
    {
      var sub := d.subdirs[i];
      if sub.hidden || sub.system {
        continue;
      }
      var inner := ScanForMarkdown(sub);
      if inner {
        assert sub in d.subdirs;
        return true;
      }
    }
    return false;
  }

  // ---------------------------------------------------------------------
  // Paths and display names
  // ---------------------------------------------------------------------

  predicate IsSeparator(c: char)
  {
    c == '\\' || c == '/'
  }

  predicate IsDriveLetter(c: char)
  {
    'A' <= c <= 'Z' || 'a' <= c <= 'z'
  }

  /**
    The end of the server and share names of a UNC root: from `i`, skip to the
    `n`-th separator (not taken) or the end of the path.
  */
  function UncRootEnd(path: string, i: nat, n: nat): (j: nat)
    requires i <= |path| && n >= 1
    ensures i <= j <= |path|
    ensures j < |path| ==> IsSeparator(path[j])
    decreases |path| - i
  {
    if i == |path| then i
    else if !IsSeparator(path[i]) then UncRootEnd(path, i + 1, n)
    else if n > 1 then UncRootEnd(path, i + 1, n - 1)
    else i
  }

  /**
    The length of the Windows path root: `\\server\share` for a UNC path,
    `\` for a path rooted on the current drive, `C:\` or the drive-relative
    `C:`, and nothing for a relative path.
  */
  function RootLength(path: string): (n: nat)
    ensures n <= |path|
  {
    if |path| >= 2 && IsSeparator(path[0]) && IsSeparator(path[1]) then UncRootEnd(path, 2, 2)
    else if |path| >= 1 && IsSeparator(path[0]) then 1
    else if |path| >= 2 && path[1] == ':' && IsDriveLetter(path[0]) then
      (if |path| > 2 && IsSeparator(path[2]) then 3 else 2)
    else 0
  }

  /** The part of `path` after its last separator. */
  function AfterLastSeparator(path: string): string
  {
    if path == [] || IsSeparator(path[|path| - 1]) then []
    else AfterLastSeparator(path[..|path| - 1]) + [path[|path| - 1]]
  }

  /** Path.GetFileName: the part after the last separator, but never a piece of the root. */
  function FileName(path: string): string
  {
    var tail := AfterLastSeparator(path);
    if |path| - |tail| < RootLength(path) then path[RootLength(path)..] else tail
  }

  /** The part after the last separator is the longest separator-free suffix. */
  lemma {:induction false} AfterLastSeparatorSuffix(path: string)
    ensures var r := AfterLastSeparator(path);
            |r| <= |path| && r == path[|path| - |r|..] &&
            (forall i :: 0 <= i < |r| ==> !IsSeparator(r[i])) &&
            (|r| < |path| ==> IsSeparator(path[|path| - |r| - 1]))
  {
    if path != [] && !IsSeparator(path[|path| - 1]) {
      var init := path[..|path| - 1];
      AfterLastSeparatorSuffix(init);
      var r := AfterLastSeparator(path);
      assert r == AfterLastSeparator(init) + [path[|path| - 1]];
      assert forall i :: 0 <= i < |r| - 1 ==> r[i] == AfterLastSeparator(init)[i];
    }
  }

  /**
    The file name is the suffix that starts after the root and has no
    separator, and it is the longest such: it starts right after a separator
    or right at the end of the root.
  */
  lemma FileNameSuffix(path: string)
    ensures var r := FileName(path);
            var k := |path| - |r|;
            0 <= k && RootLength(path) <= k && r == path[k..] &&
            (forall i :: 0 <= i < |r| ==> !IsSeparator(r[i])) &&
            (k > RootLength(path) ==> IsSeparator(path[k - 1]))
  {
    AfterLastSeparatorSuffix(path);
    var tail := AfterLastSeparator(path);
    var root := RootLength(path);
    var start := |path| - |tail|;
    if start < root {
      var r := path[root..];
      assert FileName(path) == r;
      forall i | 0 <= i < |r| ensures !IsSeparator(r[i]) {
        assert r[i] == tail[root + i - start];
      }
    } else {
      assert FileName(path) == tail;
    }
  }

  /**
    A node's Name: the file name of its path or, when that is empty (a drive
    root, a UNC share, a path ending in a separator), the whole path.
  */
  function DisplayName(path: string): string
  {
    var n := FileName(path);
    if n == [] then path else n
  }

  /** The name shown is the file name when there is one, and otherwise the whole path. */
  lemma DisplayNameRule(path: string)
    ensures FileName(path) != [] ==> DisplayName(path) == FileName(path)
    ensures FileName(path) == [] ==> DisplayName(path) == path
    ensures DisplayName(path) == [] <==> path == []
  {
    FileNameSuffix(path);
  }

  /** A directory entry name as the OS lists it: non-empty, without separators. */
  predicate WellFormedName(name: string)
  {
    name != [] && forall i :: 0 <= i < |name| ==> !IsSeparator(name[i])
  }

  /** The path the listing returns for entry `name` inside `parent`. */
  function ChildPath(parent: string, name: string): (p: string)
    ensures |p| > |name|
  {
    if parent != [] && IsSeparator(parent[|parent| - 1]) then parent + name
    else parent + "\\" + name
  }

  /**
    When `path[k]` is the last separator of `path`, the file name is everything
    after it, or after the root when the separator lies inside the root.
  */
  lemma {:induction false} FileNameOfSeparated(path: string, k: nat)
    requires k < |path| && IsSeparator(path[k])
    requires forall i :: k < i < |path| ==> !IsSeparator(path[i])
    ensures FileName(path) == path[if k + 1 < RootLength(path) then RootLength(path) else k + 1..]
  {
    AfterLastSeparatorOfSeparated(path, k);
  }

  lemma {:induction false} AfterLastSeparatorOfSeparated(path: string, k: nat)
    requires k < |path| && IsSeparator(path[k])
    requires forall i :: k < i < |path| ==> !IsSeparator(path[i])
    ensures AfterLastSeparator(path) == path[k + 1..]
    decreases |path|
  {
    if k + 1 < |path| {
      var init := path[..|path| - 1];
      AfterLastSeparatorOfSeparated(init, k);
      assert init[k + 1..] + [path[|path| - 1]] == path[k + 1..];
    }
  }

  lemma {:induction false} AfterLastSeparatorOfPlain(path: string)
    requires forall i :: 0 <= i < |path| ==> !IsSeparator(path[i])
    ensures AfterLastSeparator(path) == path
  {
    if path != [] {
      AfterLastSeparatorOfPlain(path[..|path| - 1]);
      assert path[..|path| - 1] + [path[|path| - 1]] == path;
    }
  }

  /** The name shown for a listed entry is the entry's own name, when the parent holds the whole root. */
  lemma ChildPathName(parent: string, name: string)
    requires WellFormedName(name)
    requires RootLength(ChildPath(parent, name)) <= |ChildPath(parent, name)| - |name|
    ensures FileName(ChildPath(parent, name)) == name
    ensures DisplayName(ChildPath(parent, name)) == name
  {
    var p := ChildPath(parent, name);
    assert IsSeparator(p[|p| - |name| - 1]);
    assert p[|p| - |name|..] == name;
    FileNameOfSeparated(p, |p| - |name| - 1);
  }

  /** A UNC share root `\\server\share` has no file name, so its node is named by the whole path. */
  lemma ShareRootName(server: string, share: string)
    requires WellFormedName(server) && WellFormedName(share)
    ensures var p := "\\\\" + server + "\\" + share;
            FileName(p) == [] && DisplayName(p) == p
  {
    var p := "\\\\" + server + "\\" + share;
    var k := 2 + |server|;
    assert IsSeparator(p[k]);
    assert forall i :: k < i < |p| ==> p[i] == share[i - k - 1];
    assert forall i :: 2 <= i < k ==> p[i] == server[i - 2];
    assert UncRootEnd(p, k + 1, 1) == |p| by { UncRootEndNoSeparator(p, k + 1, 1); }
    assert UncRootEnd(p, 2, 2) == |p| by { UncRootEndSkips(p, 2, k, 2); }
    FileNameOfSeparated(p, k);
  }

  /** With no separator from `i` on, the root scan runs to the end. */
  lemma {:induction false} UncRootEndNoSeparator(path: string, i: nat, n: nat)
    requires i <= |path| && n >= 1
    requires forall j :: i <= j < |path| ==> !IsSeparator(path[j])
    ensures UncRootEnd(path, i, n) == |path|
    decreases |path| - i
  {
    if i < |path| {
      UncRootEndNoSeparator(path, i + 1, n);
    }
  }

  /** The root scan passes a separator-free stretch up to the separator at `k`, which it takes when n > 1. */
  lemma {:induction false} UncRootEndSkips(path: string, i: nat, k: nat, n: nat)
    requires i <= k < |path| && n > 1 && IsSeparator(path[k])
    requires forall j :: i <= j < k ==> !IsSeparator(path[j])
    ensures UncRootEnd(path, i, n) == UncRootEnd(path, k + 1, n - 1)
    decreases k - i
  {
    if i < k {
      UncRootEndSkips(path, i + 1, k, n);
    }
  }

  /** A drive-relative path `C:name` is named by what follows the drive. */
  lemma DriveRelativeName(drive: char, name: string)
    requires IsDriveLetter(drive) && WellFormedName(name)
    ensures FileName([drive, ':'] + name) == name
    ensures DisplayName([drive, ':'] + name) == name
  {
    var p := [drive, ':'] + name;
    assert RootLength(p) == 2;
    assert forall i :: 2 <= i < |p| ==> p[i] == name[i - 2];
    AfterLastSeparatorOfPlain(p);
  }

  /** A drive root `C:\` has no file name, so its node is named by the whole path. */
  lemma DriveRootName(drive: char)
    requires IsDriveLetter(drive)
    ensures FileName([drive, ':', '\\']) == [] && DisplayName([drive, ':', '\\']) == [drive, ':', '\\']
  {
  }

  // ---------------------------------------------------------------------
  // What a load puts under a directory node
  // ---------------------------------------------------------------------

  /** The label data of one child node: its Name, FullPath and IsDirectory. */
  datatype Item = Item(name: string, path: string, isDirectory: bool)

  const LoadingLabel := "加载中..."
  const NoMarkdownLabel := "(无 Markdown 文件)"
  const AccessDeniedLabel := "(无权访问)"
  const ErrorPrefix := "错误: "

  /** A synthetic node: a label with an empty path that is not a directory. */
  function StatusItem(caption: string): Item
  {
    Item(caption, "", false)
  }

  /** The node created for the entry `name` of the directory at `parent`. */
  function EntryItem(parent: string, name: string, isDirectory: bool): (x: Item)
    ensures x.path != [] && x.path == ChildPath(parent, name) && x.isDirectory == isDirectory
  {
    var p := ChildPath(parent, name);
    Item(DisplayName(p), p, isDirectory)
  }

  /** A subdirectory gets a node when it is visible and holds Markdown below it. */
  predicate Listed(sub: Directory)
  {
    Visible(sub) && HasMarkdownFiles(sub)
  }

  /** Nodes for the listed subdirectories, in listing order. */
  function DirItems(parent: string, subs: seq<Directory>): seq<Item>
  {
    if subs == [] then []
    else
      var last := subs[|subs| - 1];
      DirItems(parent, subs[..|subs| - 1])
      + (if Listed(last) then [EntryItem(parent, last.name, true)] else [])
  }

  lemma {:induction false} DirItemsMembers(parent: string, subs: seq<Directory>, x: Item)
    ensures x in DirItems(parent, subs) <==>
      exists sub :: sub in subs && Listed(sub) && x == EntryItem(parent, sub.name, true)
  {
    if subs != [] {
      var init, last := subs[..|subs| - 1], subs[|subs| - 1];
      assert subs == init + [last];
      DirItemsMembers(parent, init, x);
    }
  }

  /** A file the wildcard pass `*<ext>` keeps: not hidden, and its name ends with `ext` in any letter case. */
  predicate MatchesWildcard(f: FileEntry, ext: string)
  {
    !f.hidden && EndsWithIgnoreCase(f.name, ext)
  }

  /** Nodes for the non-hidden files matched by the wildcard `*<ext>`, in listing order. */
  function FileItems(parent: string, files: seq<FileEntry>, ext: string): seq<Item>
  {
    if files == [] then []
    else
      var last := files[|files| - 1];
      FileItems(parent, files[..|files| - 1], ext)
      + (if MatchesWildcard(last, ext) then [EntryItem(parent, last.name, false)] else [])
  }

  lemma {:induction false} FileItemsMembers(parent: string, files: seq<FileEntry>, ext: string, x: Item)
    ensures x in FileItems(parent, files, ext) <==>
      exists f :: f in files && !f.hidden && EndsWithIgnoreCase(f.name, ext) && x == EntryItem(parent, f.name, false)
  {
    if files != [] {
      var init, last := files[..|files| - 1], files[|files| - 1];
      assert files == init + [last];
      FileItemsMembers(parent, init, ext, x);
    }
  }

  /** File nodes for each wildcard in `exts`, one pass per wildcard. */
  function ExtensionItems(parent: string, files: seq<FileEntry>, exts: seq<string>): seq<Item>
  {
    if exts == [] then []
    else ExtensionItems(parent, files, exts[..|exts| - 1]) + FileItems(parent, files, exts[|exts| - 1])
  }

  const MarkdownExtensions: seq<string> := [".md", ".markdown"]

  /** Everything collected before sorting: subdirectories first, then `*.md`, then `*.markdown` files. */
  function Collected(parent: string, d: Directory): seq<Item>
  {
    DirItems(parent, d.subdirs) + ExtensionItems(parent, d.files, MarkdownExtensions)
  }

  /** The two wildcard passes, spelled out. */
  lemma MarkdownExtensionItems(parent: string, files: seq<FileEntry>)
    ensures ExtensionItems(parent, files, MarkdownExtensions)
         == FileItems(parent, files, ".md") + FileItems(parent, files, ".markdown")
  {
    var exts := MarkdownExtensions;
    var first := exts[..1];
    assert first[..0] == [] && first[0] == ".md";
    assert ExtensionItems(parent, files, first) == FileItems(parent, files, ".md");
    assert exts[..|exts| - 1] == first && exts[|exts| - 1] == ".markdown";
  }

  lemma CollectedMembers(parent: string, d: Directory, x: Item)
    ensures x in Collected(parent, d) <==>
      (x.isDirectory && exists sub :: sub in d.subdirs && Listed(sub) && x == EntryItem(parent, sub.name, true)) ||
      (!x.isDirectory && exists f :: f in d.files && !f.hidden && IsMarkdownName(f.name) && x == EntryItem(parent, f.name, false))
  {
    MarkdownExtensionItems(parent, d.files);
    DirItemsMembers(parent, d.subdirs, x);
    FileItemsMembers(parent, d.files, ".md", x);
    FileItemsMembers(parent, d.files, ".markdown", x);
  }

  // ---------------------------------------------------------------------
  // Ordering: directories first, then by name under OrdinalIgnoreCase
  // ---------------------------------------------------------------------

  /** `a` may come before `b`: a directory before a file, else names in case-insensitive order. */
  predicate Precedes(a: Item, b: Item)
  {
    (a.isDirectory && !b.isDirectory) ||
    (a.isDirectory == b.isDirectory && LessEqIgnoreCase(a.name, b.name))
  }

  predicate SortedItems(s: seq<Item>)
  {
    forall i, j :: 0 <= i < j < |s| ==> Precedes(s[i], s[j])
  }

  lemma PrecedesTotal(a: Item, b: Item)
    ensures Precedes(a, b) || Precedes(b, a)
  {
    LessEqIgnoreCaseTotal(a.name, b.name);
  }

  lemma PrecedesTransitive(a: Item, b: Item, c: Item)
    requires Precedes(a, b) && Precedes(b, c)
    ensures Precedes(a, c)
  {
    if a.isDirectory == b.isDirectory == c.isDirectory {
      LessEqIgnoreCaseTransitive(a.name, b.name, c.name);
    }
  }

  /** Places `x` before the first element it may precede (so ties keep their order). */
  function InsertItem(x: Item, s: seq<Item>): (r: seq<Item>)
    ensures multiset(r) == multiset(s) + multiset{x}
    ensures SortedItems(s) ==> SortedItems(r)
  {
    if s == [] then [x]
    else if Precedes(x, s[0]) then
      InsertFront(x, s);
      [x] + s
    else
      var rest := InsertItem(x, s[1..]);
      assert s == [s[0]] + s[1..];
      InsertBehind(x, s, rest);
      [s[0]] + rest
  }

  lemma InsertFront(x: Item, s: seq<Item>)
    requires s != [] && Precedes(x, s[0])
    ensures SortedItems(s) ==> SortedItems([x] + s)
  {
    if SortedItems(s) {
      var r := [x] + s;
      forall j | 1 < j < |r| ensures Precedes(r[0], r[j]) {
        PrecedesTransitive(x, s[0], r[j]);
      }
    }
  }

  lemma InsertBehind(x: Item, s: seq<Item>, rest: seq<Item>)
    requires s != [] && !Precedes(x, s[0])
    requires multiset(rest) == multiset(s[1..]) + multiset{x}
    requires SortedItems(s[1..]) ==> SortedItems(rest)
    ensures SortedItems(s) ==> SortedItems([s[0]] + rest)
  {
    if SortedItems(s) {
      PrecedesTotal(x, s[0]);
      var r := [s[0]] + rest;
      forall j | 1 <= j < |r| ensures Precedes(r[0], r[j]) {
        assert r[j] == rest[j - 1];
        assert rest[j - 1] in multiset(rest);
        if r[j] != x {
          assert r[j] in multiset(s[1..]);
          var k :| 0 <= k < |s[1..]| && s[1..][k] == r[j];
          assert s[k + 1] == r[j];
        }
      }
      assert forall i, j :: 1 <= i < j < |r| ==> r[i] == rest[i - 1] && r[j] == rest[j - 1];
    }
  }

  /**
    The LINQ ordering OrderByDescending(IsDirectory).ThenBy(Name,
    OrdinalIgnoreCase): a stable sort of `s` by Precedes.
  */
  function SortItems(s: seq<Item>): (r: seq<Item>)
    ensures SortedItems(r)
    ensures multiset(r) == multiset(s)
  {
    if s == [] then []
    else
      assert s == [s[0]] + s[1..];
      InsertItem(s[0], SortItems(s[1..]))
  }

  /** Neither item has to come first: same kind and names equal up to letter case. */
  predicate SameKey(a: Item, b: Item)
  {
    Precedes(a, b) && Precedes(b, a)
  }

  /** The items of `s` with the same sort key as `k`, in the order of `s`. */
  function Ties(s: seq<Item>, k: Item): seq<Item>
  {
    if s == [] then []
    else (if SameKey(s[0], k) then [s[0]] else []) + Ties(s[1..], k)
  }

  /** Insertion puts `x` in front of every item whose key it shares. */
  lemma {:induction false} InsertItemTies(x: Item, s: seq<Item>, k: Item)
    ensures Ties(InsertItem(x, s), k) == (if SameKey(x, k) then [x] else []) + Ties(s, k)
  {
    if s == [] {
      assert InsertItem(x, s) == [x];
      assert [x][1..] == [];
    } else if Precedes(x, s[0]) {
      assert InsertItem(x, s) == [x] + s;
      assert ([x] + s)[1..] == s;
    } else {
      var rest := InsertItem(x, s[1..]);
      assert InsertItem(x, s) == [s[0]] + rest;
      InsertItemTies(x, s[1..], k);
      TiesBehind(x, s, rest, k);
    }
  }

  /** An item that `x` may not precede cannot share a key with `x`, so it stays in front of `x`'s ties. */
  lemma TiesBehind(x: Item, s: seq<Item>, rest: seq<Item>, k: Item)
    requires s != [] && !Precedes(x, s[0])
    requires Ties(rest, k) == (if SameKey(x, k) then [x] else []) + Ties(s[1..], k)
    ensures Ties([s[0]] + rest, k) == (if SameKey(x, k) then [x] else []) + Ties(s, k)
  {
    NoSharedKey(x, s[0], k);
    var head := if SameKey(s[0], k) then [s[0]] else [];
    var own := if SameKey(x, k) then [x] else [];
    var later := Ties(s[1..], k);
    assert ([s[0]] + rest)[1..] == rest;
    assert Ties([s[0]] + rest, k) == head + (own + later);
    assert Ties(s, k) == head + later;
    SwapEmpty(head, own, later);
  }

  /** Two items of which the first may not precede the second never share a key. */
  lemma NoSharedKey(x: Item, y: Item, k: Item)
    requires !Precedes(x, y)
    ensures !(SameKey(x, k) && SameKey(y, k))
  {
    if SameKey(x, k) && SameKey(y, k) {
      PrecedesTransitive(x, k, y);
    }
  }

  lemma SwapEmpty(a: seq<Item>, b: seq<Item>, c: seq<Item>)
    requires a == [] || b == []
    ensures a + (b + c) == b + (a + c)
  {
    if a == [] {
      assert a + (b + c) == b + c == b + (a + c);
    } else {
      assert a + (b + c) == a + c == b + (a + c);
    }
  }

  /**
    The sort is stable: the items sharing a sort key appear in the result in
    the order they had in the input.
  */
  lemma {:induction false} SortItemsStable(s: seq<Item>, k: Item)
    ensures Ties(SortItems(s), k) == Ties(s, k)
  {
    if s != [] {
      SortItemsStable(s[1..], k);
      InsertItemTies(s[0], SortItems(s[1..]), k);
    }
  }

  /** All directories come before all files in a sorted list. */
  lemma SortedDirectoriesFirst(s: seq<Item>, i: int, j: int)
    requires SortedItems(s) && 0 <= i < j < |s|
    requires s[j].isDirectory
    ensures s[i].isDirectory
  {
    assert Precedes(s[i], s[j]);
  }

  // ---------------------------------------------------------------------
  // The result of LoadChildren on a directory listing
  // ---------------------------------------------------------------------

  /**
    The children a load produces for the node at `parent` whose directory is
    `d`: the sorted collected entries, or one status node when nothing
    qualifies, access is refused or listing fails.
  */
  function Loaded(parent: string, d: Directory): (r: seq<Item>)
    ensures |r| >= 1
  {
    match d.access
    case Denied => [StatusItem(AccessDeniedLabel)]
    case Faulted(message) => [StatusItem(ErrorPrefix + message)]
    case Readable =>
      var s := SortItems(Collected(parent, d));
      if s == [] then [StatusItem(NoMarkdownLabel)] else s
  }

  /** A load yields a single status node exactly when the listing fails or nothing qualifies. */
  lemma LoadedStatusCases(parent: string, d: Directory)
    ensures (|Loaded(parent, d)| == 1 && Loaded(parent, d)[0].path == [])
        <==> (d.access != Readable || Collected(parent, d) == [])
    ensures d.access == Denied ==> Loaded(parent, d) == [StatusItem(AccessDeniedLabel)]
    ensures d.access.Faulted? ==> Loaded(parent, d) == [StatusItem(ErrorPrefix + d.access.message)]
    ensures d.access == Readable && Collected(parent, d) == [] ==> Loaded(parent, d) == [StatusItem(NoMarkdownLabel)]
  {
    if d.access == Readable && Collected(parent, d) != [] {
      var s := SortItems(Collected(parent, d));
      assert s[0] in multiset(Collected(parent, d));
      CollectedMembers(parent, d, s[0]);
    }
  }

  /**
    The real entries of a load are exactly the listed subdirectories and the
    non-hidden Markdown files of a readable directory; nothing else appears
    and nothing qualifying is left out.
  */
  lemma LoadedMembers(parent: string, d: Directory, x: Item)
    requires x.path != []
    ensures x in Loaded(parent, d) <==>
      d.access == Readable &&
      ((x.isDirectory && exists sub :: sub in d.subdirs && Listed(sub) && x == EntryItem(parent, sub.name, true)) ||
       (!x.isDirectory && exists f :: f in d.files && !f.hidden && IsMarkdownName(f.name) && x == EntryItem(parent, f.name, false)))
  {
    CollectedMembers(parent, d, x);
    if d.access == Readable {
      var c := Collected(parent, d);
      assert x in SortItems(c) <==> x in multiset(c);
    }
  }

  /** Loaded children are in order: directories first, each group by name, case-insensitive. */
  lemma LoadedSorted(parent: string, d: Directory)
    ensures SortedItems(Loaded(parent, d))
  {
  }

  /**
    A readable directory whose Markdown files are all hidden still counts as
    holding Markdown, so its parent lists it; expanding it shows only the
    "no Markdown" status exactly when, in addition, none of its
    subdirectories is listed.
  */
  lemma HiddenMarkdownOnly(parent: string, d: Directory)
    requires d.access == Readable
    requires exists f :: f in d.files && IsMarkdownName(f.name)
    requires forall f :: f in d.files && IsMarkdownName(f.name) ==> f.hidden
    ensures HasMarkdownFiles(d)
    ensures Loaded(parent, d) == [StatusItem(NoMarkdownLabel)]
            <==> forall sub :: sub in d.subdirs ==> !Listed(sub)
  {
    LoadedStatusCases(parent, d);
    var c := Collected(parent, d);
    if forall sub :: sub in d.subdirs ==> !Listed(sub) {
      if c != [] {
        CollectedMembers(parent, d, c[0]);
        assert false;
      }
    } else {
      var sub :| sub in d.subdirs && Listed(sub);
      var x := EntryItem(parent, sub.name, true);
      CollectedMembers(parent, d, x);
      assert x in c;
    }
  }

  /** An item a real node can display: a non-empty path, labelled with its display name. */
  predicate EntryLike(x: Item)
  {
    x.path != [] && x.name == DisplayName(x.path)
  }

  lemma SortedCollectedEntryLike(parent: string, d: Directory)
    ensures forall x :: x in SortItems(Collected(parent, d)) ==> EntryLike(x)
  {
    forall x | x in SortItems(Collected(parent, d)) ensures EntryLike(x) {
      assert x in multiset(Collected(parent, d));
      CollectedMembers(parent, d, x);
    }
  }

  /** The subdirectory pass: each visible subdirectory that holds Markdown, in listing order. */
  method CollectDirectories(parent: string, subdirs: seq<Directory>) returns (items: seq<Item>)
    ensures items == DirItems(parent, subdirs)
  {
    items := [];
    for i := 0 to |subdirs|
      invariant items == DirItems(parent, subdirs[..i])
    {
      var sub := subdirs[i];
      assert subdirs[..i + 1] == subdirs[..i] + [sub];
      if sub.hidden || sub.system {
        continue;
      }
      if HasMarkdownFiles(sub) {
        items := items + [EntryItem(parent, sub.name, true)];
      }
    }
    assert subdirs[..|subdirs|] == subdirs;
  }

  /** One wildcard pass: the non-hidden files matching `*<ext>`, in listing order. */
  method CollectFiles(parent: string, files: seq<FileEntry>, ext: string) returns (items: seq<Item>)
    ensures items == FileItems(parent, files, ext)
  {
    items := [];
    for j := 0 to |files|
      invariant items == FileItems(parent, files[..j], ext)
    {
      var file := files[j];
      assert files[..j + 1] == files[..j] + [file];
      if MatchesWildcard(file, ext) {
        items := items + [EntryItem(parent, file.name, false)];
      }
    }
    assert files[..|files|] == files;
  }

  /**
    The two listing passes of LoadChildren over a readable directory: the
    subdirectory pass, then one file pass per Markdown wildcard.
  */
  method CollectEntries(parent: string, listing: Directory) returns (items: seq<Item>)
    ensures items == Collected(parent, listing)
  {
    items := CollectDirectories(parent, listing.subdirs);
    var extensions := MarkdownExtensions;
    assert extensions[..0] == [];
    for e := 0 to |extensions|
      invariant items == DirItems(parent, listing.subdirs) + ExtensionItems(parent, listing.files, extensions[..e])
    {
      var found := CollectFiles(parent, listing.files, extensions[e]);
      assert extensions[..e + 1][..e] == extensions[..e];
      items := items + found;
    }
    assert extensions[..|extensions|] == extensions;
  }

  // ---------------------------------------------------------------------
  // The tree node
  // ---------------------------------------------------------------------

  class FileTreeItem {
    var name: string
    var fullPath: string
    var isDirectory: bool
    var children: seq<FileTreeItem>

    /** LoadChildren's guard: a directory whose only child has an empty path. */
    predicate AwaitingLoad()
      reads this, children
    {
      isDirectory && |children| == 1 && children[0].fullPath == ""
    }

    /** The node displays `item` and is as freshly constructed: a directory holds one loading placeholder. */
    ghost predicate Shows(item: Item)
      reads this, children
    {
      name == item.name && fullPath == item.path && isDirectory == item.isDirectory &&
      if isDirectory then
        |children| == 1 && children[0].fullPath == "" && children[0].name == LoadingLabel
        && !children[0].isDirectory
      else children == []
    }

    /**
      A node for `fullPath`; `existsAsDirectory` is what the filesystem says
      of that path. A directory starts with one placeholder child.
    */
    constructor (fullPath: string, existsAsDirectory: bool)
      ensures this.fullPath == fullPath && name == DisplayName(fullPath)
      ensures isDirectory == existsAsDirectory
      ensures existsAsDirectory ==>
        |children| == 1 && fresh(children[0]) && children[0].fullPath == ""
        && children[0].name == LoadingLabel && !children[0].isDirectory && children[0].children == []
      ensures !existsAsDirectory ==> children == []
    {
      this.fullPath := fullPath;
      name := DisplayName(fullPath);
      isDirectory := existsAsDirectory;
      if existsAsDirectory {
        var placeholder := new FileTreeItem.Synthetic(LoadingLabel);
        children := [placeholder];
      } else {
        children := [];
      }
    }

    /**
      A placeholder or status node, `new FileTreeItem("") { Name = caption }`:
      the empty path names no directory, so the node is a childless non-directory.
    */
    constructor Synthetic(caption: string)
      ensures fullPath == "" && name == caption && !isDirectory && children == []
    {
      fullPath := "";
      name := caption;
      isDirectory := false;
      children := [];
    }

    /** One freshly constructed node per item, in order (the loop adding the sorted items). */
    static method NodesFor(items: seq<Item>) returns (nodes: seq<FileTreeItem>)
      requires forall x :: x in items ==> EntryLike(x)
      ensures |nodes| == |items|
      ensures forall i :: 0 <= i < |nodes| ==> fresh(nodes[i]) && nodes[i].Shows(items[i])
    {
      nodes := [];
      for k := 0 to |items|
        invariant |nodes| == k
        invariant forall i :: 0 <= i < k ==> fresh(nodes[i]) && nodes[i].Shows(items[i])
      {
        assert EntryLike(items[k]);
        var node := new FileTreeItem(items[k].path, items[k].isDirectory);
        nodes := nodes + [node];
      }
    }

    /**
      The body of LoadChildren's try block and its handlers: the nodes for
      the directory `listing` found at `parent`, one per entry Loaded lists.
    */
    static method LoadedNodes(parent: string, listing: Directory) returns (nodes: seq<FileTreeItem>)
      ensures |nodes| == |Loaded(parent, listing)|
      ensures forall i :: 0 <= i < |nodes| ==> fresh(nodes[i]) && nodes[i].Shows(Loaded(parent, listing)[i])
      ensures (|nodes| == 1 && nodes[0].fullPath == "") <==> (listing.access != Readable || Collected(parent, listing) == [])
    {
      ghost var loaded := Loaded(parent, listing);
      LoadedStatusCases(parent, listing);
      if listing.access == Denied {
        var status := new FileTreeItem.Synthetic(AccessDeniedLabel);
        nodes := [status];
        assert loaded == [StatusItem(AccessDeniedLabel)];
      } else if listing.access.Faulted? {
        var status := new FileTreeItem.Synthetic(ErrorPrefix + listing.access.message);
        nodes := [status];
        assert loaded == [StatusItem(ErrorPrefix + listing.access.message)];
      } else {
        nodes := ReadableNodes(parent, listing);
        assert nodes[0].fullPath == loaded[0].path;
      }
    }

    /** The try block on a directory that can be listed: the sorted entries, or the "no Markdown" status node. */
    static method ReadableNodes(parent: string, listing: Directory) returns (nodes: seq<FileTreeItem>)
      requires listing.access == Readable
      ensures |nodes| == |Loaded(parent, listing)|
      ensures forall i :: 0 <= i < |nodes| ==> fresh(nodes[i]) && nodes[i].Shows(Loaded(parent, listing)[i])
    {
      var items := CollectEntries(parent, listing);
      var sorted := SortItems(items);
      SortedCollectedEntryLike(parent, listing);
      nodes := NodesFor(sorted);
      if |nodes| == 0 {
        var status := new FileTreeItem.Synthetic(NoMarkdownLabel);
        nodes := [status];
      }
    }

    /**
      Replaces the placeholder of an unloaded directory node by the nodes
      Loaded describes for `listing`, the directory found at fullPath; any
      other node is left unchanged.
    */
    method LoadChildren(listing: Directory)
      modifies this
      ensures name == old(name) && fullPath == old(fullPath) && isDirectory == old(isDirectory)
      ensures !old(AwaitingLoad()) ==> children == old(children)
      ensures old(AwaitingLoad()) ==>
        |children| == |Loaded(fullPath, listing)| &&
        forall i :: 0 <= i < |children| ==> fresh(children[i]) && children[i].Shows(Loaded(fullPath, listing)[i])
      ensures old(AwaitingLoad()) ==>
        (AwaitingLoad() <==> listing.access != Readable || Collected(fullPath, listing) == [])
    {
      if !isDirectory || |children| != 1 || children[0].fullPath != "" {
        return;
      }
      var nodes := LoadedNodes(fullPath, listing);
      children := nodes;
    }
  }
}
