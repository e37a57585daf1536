/** `indexBuildDir`: one `index.js` in the build directory re-exporting every
    group (locale) directory, then one in each group directory re-exporting its
    page files. The file system is a snapshot of the build directory; every
    `writeFileSync` is recorded, in order, together with the entry it adds. */
module IndexBuild {
  import opened Results
  import opened Seqs
  import opened NameOrder
  import opened PageValidation
  import opened IndexCode

  /** `INDEX_FILE`. */
  const IndexFile := "index.js"

  /** An entry of the build directory: its name as `readdirSync` returns it,
      whether `lstatSync` reports a directory, and for a directory the names
      of its own entries. */
  datatype Entry = Entry(name: string, isDir: bool, children: seq<string>)

  /** Where an `index.js` is written: the build directory itself, or the
      group directory of that name. */
  datatype Target = RootDir | GroupDir(group: string)

  /** One `writeFileSync` of an `index.js`. */
  datatype Write = Write(target: Target, code: string)

  /** What a run leaves behind: the writes performed, in order, and the
      validation error that stopped it, if any. */
  datatype Outcome = Outcome(writes: seq<Write>, failure: Option<ValidationError>)

  // Listing

  /** The directories among the root's entries, in listing order. */
  function LocaleDirs(root: seq<Entry>): seq<string>
  {
    if root == [] then []
    else (if root[0].isDir then [root[0].name] else []) + LocaleDirs(root[1..])
  }

  /** `readdirSync` of the group directory `dir`: the entries of the first
      directory of that name (none if there is none). */
  function Readdir(root: seq<Entry>, dir: string): seq<string>
  {
    if root == [] then []
    else if root[0].isDir && root[0].name == dir then root[0].children
    else Readdir(root[1..], dir)
  }

  /** `REGEX_JS_EXT.test(x)`: `/\.js$/i`, a dot, then `j` and `s` in either
      case, at the very end. */
  predicate HasJsExtension(x: string)
  {
    |x| >= 3 && x[|x| - 3] == '.' && (x[|x| - 2] == 'j' || x[|x| - 2] == 'J') &&
    (x[|x| - 1] == 's' || x[|x| - 1] == 'S')
  }

  predicate IsNotIndexFile(x: string)
  {
    x != IndexFile
  }

  /** `x.replace(REGEX_JS_EXT, '')`: the extension removed where there is
      one, the name unchanged otherwise. */
  function StripJsExtension(x: string): (r: string)
    ensures HasJsExtension(x) ==> x == r + x[|x| - 3..] && |r| == |x| - 3
    ensures !HasJsExtension(x) ==> r == x
  {
    if HasJsExtension(x) then x[..|x| - 3] else x
  }

  /** The page files, before stripping: the `.js` files other than `index.js`. */
  function PageFiles(children: seq<string>): seq<string>
  {
    Filter(HasJsExtension, Filter(IsNotIndexFile, children))
  }

  /** The page files of a group: `index.js` dropped, only `.js` files kept,
      extensions stripped, sorted. */
  function PageNames(children: seq<string>): seq<string>
  {
    Sort(Map(StripJsExtension, PageFiles(children)))
  }

  /** `p` is the base name of some page file among `children`. */
  predicate IsPageOf(p: string, children: seq<string>)
  {
    exists x :: x in children && x != IndexFile && HasJsExtension(x) && p == x[..|x| - 3]
  }

  // Generation and the file system

  /** The writes for the groups `dirs`, in order, up to the first group with
      an invalid page name, which stops the run before its own write. */
  function GroupWrites(root: seq<Entry>, dirs: seq<string>): Outcome
  {
    if dirs == [] then Outcome([], None)
    else
      match MakeLocaleIndex(PageNames(Readdir(root, dirs[0])))
      case Failure(e) => Outcome([], Some(e))
      case Success(code) =>
        var rest := GroupWrites(root, dirs[1..]);
        Outcome([Write(GroupDir(dirs[0]), code)] + rest.writes, rest.failure)
  }

  /** The whole run on a snapshot: the root index first, then the groups. */
  function Run(root: seq<Entry>): Outcome
  {
    var dirs := LocaleDirs(root);
    var groups := GroupWrites(root, dirs);
    Outcome([Write(RootDir, MakeRootIndex(dirs))] + groups.writes, groups.failure)
  }

  predicate HasEntry(root: seq<Entry>, name: string)
  {
    exists k :: 0 <= k < |root| && root[k].name == name
  }

  /** A group directory `g` after its `index.js` is written. */
  function WithIndexFile(e: Entry, g: string): Entry
  {
    if e.isDir && e.name == g && IndexFile !in e.children then e.(children := e.children + [IndexFile]) else e
  }

  function AddToGroup(root: seq<Entry>, g: string): seq<Entry>
  {
    if root == [] then [] else [WithIndexFile(root[0], g)] + AddToGroup(root[1..], g)
  }

  /** The snapshot after an `index.js` is written to `target`: the file is
      there, whether it was before or not. */
  function AddIndexFile(root: seq<Entry>, target: Target): seq<Entry>
  {
    match target
    case RootDir => if HasEntry(root, IndexFile) then root else root + [Entry(IndexFile, false, [])]
    case GroupDir(g) => AddToGroup(root, g)
  }

  function ApplyWrites(root: seq<Entry>, writes: seq<Write>): seq<Entry>
  {
    if writes == [] then root
    else AddIndexFile(ApplyWrites(root, writes[..|writes| - 1]), writes[|writes| - 1].target)
  }

  /** Two snapshots that a run cannot tell apart: the same group directories
      in the same order, and the same page names in each. */
  ghost predicate SameListing(a: seq<Entry>, b: seq<Entry>)
  {
    LocaleDirs(a) == LocaleDirs(b) && forall d :: PageNames(Readdir(a, d)) == PageNames(Readdir(b, d))
  }

  // Properties of the listing

  /** The group directories are exactly the root entries `lstat` calls
      directories. */
  lemma {:induction false} LocaleDirsMembers(root: seq<Entry>, d: string)
    ensures d in LocaleDirs(root) <==> exists k :: 0 <= k < |root| && root[k].isDir && root[k].name == d
  {
    if root != [] {
      LocaleDirsMembers(root[1..], d);
      if exists k :: 0 <= k < |root| && root[k].isDir && root[k].name == d {
        var k :| 0 <= k < |root| && root[k].isDir && root[k].name == d;
        if k > 0 {
          assert root[1..][k - 1] == root[k];
        }
      }
      if exists k :: 0 <= k < |root| - 1 && root[1..][k].isDir && root[1..][k].name == d {
        var k :| 0 <= k < |root| - 1 && root[1..][k].isDir && root[1..][k].name == d;
        assert root[k + 1] == root[1..][k];
      }
    }
  }

  /** An entry added at the end of the listing is listed last if it is a
      directory, and not at all otherwise; in particular the root's own
      `index.js` is never taken for a group. */
  lemma {:induction false} LocaleDirsAppend(root: seq<Entry>, e: Entry)
    ensures LocaleDirs(root + [e]) == LocaleDirs(root) + if e.isDir then [e.name] else []
  {
    if root == [] {
      assert root + [e] == [e];
      AppendEmpty(if e.isDir then [e.name] else []);
    } else {
      var head := if root[0].isDir then [root[0].name] else [];
      var last := if e.isDir then [e.name] else [];
      assert (root + [e])[0] == root[0];
      assert (root + [e])[1..] == root[1..] + [e];
      LocaleDirsAppend(root[1..], e);
      assert LocaleDirs(root + [e]) == head + (LocaleDirs(root[1..]) + last);
      AppendAssociative(head, LocaleDirs(root[1..]), last);
    }
  }

  lemma {:induction false} ReaddirAppendFile(root: seq<Entry>, e: Entry, d: string)
    requires !e.isDir
    ensures Readdir(root + [e], d) == Readdir(root, d)
  {
    if root == [] {
      assert root + [e] == [e];
    } else {
      assert (root + [e])[1..] == root[1..] + [e];
      ReaddirAppendFile(root[1..], e, d);
    }
  }

  /** A file entry inserted anywhere in the root listing, not only at its end,
      leaves the groups as they were. */
  lemma {:induction false} LocaleDirsInsertFile(a: seq<Entry>, b: seq<Entry>, e: Entry)
    requires !e.isDir
    ensures LocaleDirs(a + [e] + b) == LocaleDirs(a + b)
    ensures forall d :: Readdir(a + [e] + b, d) == Readdir(a + b, d)
    decreases |a|
  {
    if a == [] {
      assert a + [e] + b == [e] + b && a + b == b;
      assert ([e] + b)[1..] == b;
    } else {
      assert (a + [e] + b)[0] == (a + b)[0] == a[0];
      assert (a + [e] + b)[1..] == a[1..] + [e] + b;
      assert (a + b)[1..] == a[1..] + b;
      LocaleDirsInsertFile(a[1..], b, e);
    }
  }

  /** `index.js` inserted anywhere among a group's entries leaves its page
      names as they were. */
  lemma PageNamesInsertIndex(a: seq<string>, b: seq<string>)
    ensures PageNames(a + [IndexFile] + b) == PageNames(a + b)
  {
    FilterAppend(IsNotIndexFile, a + [IndexFile], b);
    FilterAppend(IsNotIndexFile, a, [IndexFile]);
    FilterAppend(IsNotIndexFile, a, b);
    assert Filter(IsNotIndexFile, [IndexFile]) == [] by {
      assert [IndexFile][..0] == [];
    }
    assert Filter(IsNotIndexFile, a) + [] == Filter(IsNotIndexFile, a);
  }

  // Properties of the page names

  /** The files the two filters keep are the `.js` files other than
      `index.js`. */
  lemma PageFileMembers(children: seq<string>, x: string)
    ensures x in PageFiles(children) <==>
      x in children && x != IndexFile && HasJsExtension(x)
  {
    FilterMembers(IsNotIndexFile, children, x);
    FilterMembers(HasJsExtension, Filter(IsNotIndexFile, children), x);
  }

  lemma StrippedMembers(files: seq<string>, p: string)
    ensures p in Map(StripJsExtension, files) <==> exists i :: 0 <= i < |files| && StripJsExtension(files[i]) == p
  {
    MapIndex(StripJsExtension, files);
  }

  /** Each page file's base name is a page of the group. */
  lemma PageFileIsPage(children: seq<string>, i: int)
    requires 0 <= i < |PageFiles(children)|
    ensures IsPageOf(StripJsExtension(PageFiles(children)[i]), children)
  {
    var x := PageFiles(children)[i];
    PageFileMembers(children, x);
  }

  /** Each page of the group is some page file's base name. */
  lemma PageIsPageFile(children: seq<string>, p: string)
    requires IsPageOf(p, children)
    ensures exists i :: 0 <= i < |PageFiles(children)| && StripJsExtension(PageFiles(children)[i]) == p
  {
    var x :| x in children && x != IndexFile && HasJsExtension(x) && p == x[..|x| - 3];
    PageFileMembers(children, x);
    var i :| 0 <= i < |PageFiles(children)| && PageFiles(children)[i] == x;
    assert StripJsExtension(PageFiles(children)[i]) == p;
  }

  lemma {:induction false} PageNamesMembers(children: seq<string>, p: string)
    ensures p in PageNames(children) <==> IsPageOf(p, children)
  {
    var files := PageFiles(children);
    SortMembers(Map(StripJsExtension, files), p);
    StrippedMembers(files, p);
    if i :| 0 <= i < |files| && StripJsExtension(files[i]) == p {
      PageFileIsPage(children, i);
    }
    if IsPageOf(p, children) {
      PageIsPageFile(children, p);
    }
  }

  /** `insertIndex__Locale`'s page names are sorted, each comes from exactly
      one page file, and every page file but `index.js` gives one. */
  lemma PageNamesSpec(children: seq<string>)
    ensures Sorted(PageNames(children))
    ensures |PageNames(children)| == |PageFiles(children)|
    ensures forall p :: p in PageNames(children) <==> IsPageOf(p, children)
  {
    var stripped := Map(StripJsExtension, PageFiles(children));
    SortSpec(stripped, stripped);
    assert |PageNames(children)| == |multiset(PageNames(children))| == |multiset(stripped)|;
    forall p ensures p in PageNames(children) <==> IsPageOf(p, children) {
      PageNamesMembers(children, p);
    }
  }

  /** The order `readdirSync` lists a group in does not matter. */
  lemma PageNamesIgnoreOrder(a: seq<string>, b: seq<string>)
    requires multiset(a) == multiset(b)
    ensures PageNames(a) == PageNames(b)
  {
    FilterPermutation(IsNotIndexFile, a, b);
    FilterPermutation(HasJsExtension, Filter(IsNotIndexFile, a), Filter(IsNotIndexFile, b));
    MapPermutation(StripJsExtension, PageFiles(a), PageFiles(b));
    SortSpec(Map(StripJsExtension, PageFiles(a)), Map(StripJsExtension, PageFiles(b)));
  }

  /** A generated `index.js` in a group is not one of its pages. */
  lemma PageNamesIgnoreIndex(children: seq<string>)
    ensures PageNames(children + [IndexFile]) == PageNames(children)
  {
    FilterAppend(IsNotIndexFile, children, [IndexFile]);
    assert Filter(IsNotIndexFile, [IndexFile]) == [] by {
      assert [IndexFile][..0] == [];
    }
    assert Filter(IsNotIndexFile, children) + [] == Filter(IsNotIndexFile, children);
  }

  /** Only the exact name `index.js` is dropped: `Index.js` is a page named
      `Index`, and `About.JS` one named `About`. */
  lemma ExtensionCases()
    ensures IsNotIndexFile("Index.js") && HasJsExtension("Index.js") && StripJsExtension("Index.js") == "Index"
    ensures HasJsExtension("About.JS") && StripJsExtension("About.JS") == "About"
    ensures HasJsExtension(".js") && StripJsExtension(".js") == ""
    ensures !HasJsExtension("About.jsx") && !HasJsExtension("About.js.map")
  {
    assert "Index.js" != IndexFile by {
      assert "Index.js"[0] != IndexFile[0];
    }
    assert "Index.js"[..5] == "Index";
    assert "About.JS"[..5] == "About";
  }

  /** A file called `.js` makes a page with the empty name, and its group
      fails with the empty-name error. */
  lemma BareExtensionFails(children: seq<string>)
    requires ".js" in children
    ensures MakeLocaleIndex(PageNames(children)) == Failure(EmptyName)
  {
    BareExtensionIsEmptyPage(children);
    var names := PageNames(children);
    PageNamesSpec(children);
    var k :| 0 <= k < |names| && names[k] == "";
    if k > 0 {
      assert LessEq(names[0], names[k]);
    }
    assert names[0] == "";
    FirstInvalidIndexIs(names, 0);
  }

  /** A file named just `.js` gives the empty page name. */
  lemma BareExtensionIsEmptyPage(children: seq<string>)
    requires ".js" in children
    ensures "" in PageNames(children)
  {
    assert IsPageOf("", children) by {
      var x := ".js";
      assert |x| != |IndexFile|;
      assert HasJsExtension(x) && x[..|x| - 3] == "";
    }
    PageNamesMembers(children, "");
  }

  // Properties of a run

  /** Each group's write comes after the writes of the groups before it, and
      a group whose names fail validation is not written, nor is any group
      after it. */
  lemma {:induction false} GroupWritesShape(root: seq<Entry>, dirs: seq<string>)
    ensures var o := GroupWrites(root, dirs);
      |o.writes| <= |dirs| &&
      (o.failure.None? <==> |o.writes| == |dirs|) &&
      (forall k :: 0 <= k < |o.writes| ==> ValidGroupWrite(root, dirs[k], o.writes[k])) &&
      (o.failure.Some? ==> o.failure == FirstInvalid(PageNames(Readdir(root, dirs[|o.writes|]))))
  {
    if dirs != [] {
      GroupWritesShape(root, dirs[1..]);
      var o := GroupWrites(root, dirs);
      var rest := GroupWrites(root, dirs[1..]);
      if MakeLocaleIndex(PageNames(Readdir(root, dirs[0]))).Success? {
        forall k | 0 <= k < |o.writes| ensures ValidGroupWrite(root, dirs[k], o.writes[k]) {
          if k > 0 {
            assert o.writes[k] == rest.writes[k - 1] && dirs[k] == dirs[1..][k - 1];
          }
        }
        if o.failure.Some? {
          assert dirs[|o.writes|] == dirs[1..][|rest.writes|];
        }
      }
    }
  }

  /** `w` is the index of group `d`, generated from its page names, all
      of which are valid. */
  predicate ValidGroupWrite(root: seq<Entry>, d: string, w: Write)
  {
    var names := PageNames(Readdir(root, d));
    (forall i :: 0 <= i < |names| ==> ValidPageName(names[i])) &&
    w == Write(GroupDir(d), LocaleIndexCode(names))
  }

  /** The root index is written first; then each group in listing order
      until one fails validation; a successful run writes one file more than
      there are groups, and a failed one keeps everything it wrote before. */
  lemma RunShape(root: seq<Entry>)
    ensures var o := Run(root); var dirs := LocaleDirs(root);
      1 <= |o.writes| <= |dirs| + 1 &&
      o.writes[0] == Write(RootDir, MakeRootIndex(dirs)) &&
      (forall k :: 1 <= k < |o.writes| ==> ValidGroupWrite(root, dirs[k - 1], o.writes[k])) &&
      (o.failure.None? <==> |o.writes| == |dirs| + 1) &&
      (o.failure.Some? ==> o.failure == FirstInvalid(PageNames(Readdir(root, dirs[|o.writes| - 1]))))
  {
    var dirs := LocaleDirs(root);
    GroupWritesShape(root, dirs);
    var o := Run(root);
    var g := GroupWrites(root, dirs);
    forall k | 1 <= k < |o.writes| ensures ValidGroupWrite(root, dirs[k - 1], o.writes[k]) {
      assert o.writes[k] == g.writes[k - 1];
    }
  }

  /** A run succeeds exactly when every page name of every group is valid. */
  lemma {:induction false} GroupWritesSucceed(root: seq<Entry>, dirs: seq<string>)
    ensures GroupWrites(root, dirs).failure.None? <==>
      forall k :: 0 <= k < |dirs| ==> FirstInvalid(PageNames(Readdir(root, dirs[k]))).None?
  {
    if dirs != [] {
      GroupWritesSucceed(root, dirs[1..]);
      if FirstInvalid(PageNames(Readdir(root, dirs[0]))).None? {
        forall k | 0 < k < |dirs| ensures dirs[k] == dirs[1..][k - 1] {
        }
      }
    }
  }

  // Re-running

  lemma AddToGroupUnfold(root: seq<Entry>, g: string)
    requires root != []
    ensures AddToGroup(root, g)[0] == WithIndexFile(root[0], g)
    ensures AddToGroup(root, g)[1..] == AddToGroup(root[1..], g)
  {
  }

  lemma {:induction false} AddToGroupDirs(root: seq<Entry>, g: string)
    ensures LocaleDirs(AddToGroup(root, g)) == LocaleDirs(root)
  {
    if root != [] {
      AddToGroupUnfold(root, g);
      AddToGroupDirs(root[1..], g);
    }
  }

  lemma {:induction false} AddToGroupPages(root: seq<Entry>, g: string, d: string)
    ensures PageNames(Readdir(AddToGroup(root, g), d)) == PageNames(Readdir(root, d))
  {
    if root != [] {
      AddToGroupUnfold(root, g);
      var e := root[0];
      if e.isDir && e.name == d {
        if e.name == g && IndexFile !in e.children {
          PageNamesIgnoreIndex(e.children);
        }
      } else {
        AddToGroupPages(root[1..], g, d);
      }
    }
  }

  /** Writing an `index.js` anywhere changes nothing a run looks at. */
  lemma AddIndexFileListing(root: seq<Entry>, target: Target)
    ensures SameListing(AddIndexFile(root, target), root)
  {
    match target
    case RootDir =>
      if !HasEntry(root, IndexFile) {
        var file := Entry(IndexFile, false, []);
        LocaleDirsAppend(root, file);
        forall d ensures Readdir(root + [file], d) == Readdir(root, d) {
          ReaddirAppendFile(root, file, d);
        }
      }
    case GroupDir(g) =>
      AddToGroupDirs(root, g);
      forall d ensures PageNames(Readdir(AddToGroup(root, g), d)) == PageNames(Readdir(root, d)) {
        AddToGroupPages(root, g, d);
      }
  }

  lemma {:induction false} ApplyWritesListing(root: seq<Entry>, writes: seq<Write>)
    ensures SameListing(ApplyWrites(root, writes), root)
    decreases |writes|
  {
    if writes != [] {
      var before := ApplyWrites(root, writes[..|writes| - 1]);
      ApplyWritesListing(root, writes[..|writes| - 1]);
      AddIndexFileListing(before, writes[|writes| - 1].target);
    }
  }

  lemma {:induction false} GroupWritesSameListing(a: seq<Entry>, b: seq<Entry>, dirs: seq<string>)
    requires SameListing(a, b)
    ensures GroupWrites(a, dirs) == GroupWrites(b, dirs)
  {
    if dirs != [] {
      GroupWritesSameListing(a, b, dirs[1..]);
      assert PageNames(Readdir(a, dirs[0])) == PageNames(Readdir(b, dirs[0]));
    }
  }

  /** Running again on the tree a run left behind, whether it finished or
      stopped at an invalid name, performs the very same writes with the same
      contents and ends the same way. */
  lemma RerunIsIdentical(root: seq<Entry>)
    ensures Run(ApplyWrites(root, Run(root).writes)) == Run(root)
  {
    var after := ApplyWrites(root, Run(root).writes);
    ApplyWritesListing(root, Run(root).writes);
    GroupWritesSameListing(after, root, LocaleDirs(root));
  }

  /** The writes so far leave the page names of every group as they were. */
  lemma ApplyWritesKeepsPages(root: seq<Entry>, writes: seq<Write>, dir: string)
    ensures PageNames(Readdir(ApplyWrites(root, writes), dir)) == PageNames(Readdir(root, dir))
  {
    ApplyWritesListing(root, writes);
  }

  /** The root index does not change what the groups produce. */
  lemma RootWriteKeepsGroups(root: seq<Entry>, dirs: seq<string>)
    ensures GroupWrites(AddIndexFile(root, RootDir), dirs) == GroupWrites(root, dirs)
  {
    AddIndexFileListing(root, RootDir);
    GroupWritesSameListing(AddIndexFile(root, RootDir), root, dirs);
  }

  /** The run is the root index followed by the groups, each listed after
      the root index is in place. */
  lemma RunComposes(root: seq<Entry>)
    ensures var afterRoot := AddIndexFile(root, RootDir);
      var groups := GroupWrites(afterRoot, LocaleDirs(root));
      Run(root).writes == [Write(RootDir, MakeRootIndex(LocaleDirs(root)))] + groups.writes &&
      Run(root).failure == groups.failure &&
      ApplyWrites(root, Run(root).writes) == ApplyWrites(afterRoot, groups.writes)
  {
    RootWriteKeepsGroups(root, LocaleDirs(root));
    ApplyWritesAfterFirst(root, Write(RootDir, MakeRootIndex(LocaleDirs(root))), GroupWrites(root, LocaleDirs(root)).writes);
  }

  lemma ApplyWritesSnoc(root: seq<Entry>, writes: seq<Write>, w: Write)
    ensures ApplyWrites(root, writes + [w]) == AddIndexFile(ApplyWrites(root, writes), w.target)
  {
    assert (writes + [w])[..|writes|] == writes;
  }

  /** Applying a first write and then the rest is applying them all. */
  lemma {:induction false} ApplyWritesAfterFirst(root: seq<Entry>, first: Write, rest: seq<Write>)
    ensures ApplyWrites(AddIndexFile(root, first.target), rest) == ApplyWrites(root, [first] + rest)
    decreases |rest|
  {
    if rest == [] {
      assert [first] + rest == [] + [first];
      ApplyWritesSnoc(root, [], first);
    } else {
      var n := |rest|;
      ApplyWritesAfterFirst(root, first, rest[..n - 1]);
      assert [first] + rest == ([first] + rest[..n - 1]) + [rest[n - 1]];
      ApplyWritesSnoc(root, [first] + rest[..n - 1], rest[n - 1]);
    }
  }

  /** What the loop of `indexBuildDir` does with group `i`. */
  lemma GroupWritesUnfold(root: seq<Entry>, dirs: seq<string>, i: int)
    requires 0 <= i < |dirs|
    ensures var names := PageNames(Readdir(root, dirs[i]));
      var o := GroupWrites(root, dirs[i..]);
      var rest := GroupWrites(root, dirs[i + 1..]);
      (FirstInvalid(names).Some? ==> o == Outcome([], FirstInvalid(names))) &&
      (FirstInvalid(names).None? ==>
        o == Outcome([Write(GroupDir(dirs[i]), LocaleIndexCode(names))] + rest.writes, rest.failure))
  {
    assert dirs[i..][0] == dirs[i] && dirs[i..][1..] == dirs[i + 1..];
  }

  /** The groups from `i` on, after the writes `done`, make up `outcome`. */
  predicate Pending(root: seq<Entry>, dirs: seq<string>, i: int, done: seq<Write>, outcome: Outcome)
  {
    0 <= i <= |dirs| &&
    done + GroupWrites(root, dirs[i..]).writes == outcome.writes &&
    GroupWrites(root, dirs[i..]).failure == outcome.failure
  }

  /** Before the first group nothing is done and everything is pending. */
  lemma PendingStart(root: seq<Entry>, dirs: seq<string>)
    ensures Pending(root, dirs, 0, [], GroupWrites(root, dirs))
  {
    assert dirs[0..] == dirs;
  }

  /** After the last group everything is done and nothing failed. */
  lemma PendingEnd(root: seq<Entry>, dirs: seq<string>, done: seq<Write>, outcome: Outcome)
    requires Pending(root, dirs, |dirs|, done, outcome)
    ensures done == outcome.writes && outcome.failure.None?
  {
    assert dirs[|dirs|..] == [];
    assert done + [] == done;
  }

  /** One turn of the loop of `indexBuildDir`: group `i` either stops the
      run with its error or contributes the next write. */
  lemma RunStep(root: seq<Entry>, dirs: seq<string>, i: int, done: seq<Write>, outcome: Outcome)
    requires i < |dirs| && Pending(root, dirs, i, done, outcome)
    ensures var names := PageNames(Readdir(root, dirs[i]));
      (FirstInvalid(names).Some? ==> done == outcome.writes && FirstInvalid(names) == outcome.failure) &&
      (FirstInvalid(names).None? ==>
        Pending(root, dirs, i + 1, done + [Write(GroupDir(dirs[i]), LocaleIndexCode(names))], outcome))
  {
    GroupWritesUnfold(root, dirs, i);
    var names := PageNames(Readdir(root, dirs[i]));
    if FirstInvalid(names).Some? {
      assert done + [] == done;
    } else {
      var w := Write(GroupDir(dirs[i]), LocaleIndexCode(names));
      var rest := GroupWrites(root, dirs[i + 1..]).writes;
      assert done + ([w] + rest) == (done + [w]) + rest;
    }
  }

  /** The build directory during a run: its current listing, which each
      `writeFileSync` extends, and the writes performed so far. */
  class BuildDir {
    var entries: seq<Entry>
    var written: seq<Write>

    constructor(entries: seq<Entry>)
      ensures this.entries == entries && written == []
    {
      this.entries := entries;
      written := [];
    }

    /** `writeIndexFile`. */
    method WriteIndexFile(target: Target, code: string)
      modifies this
      ensures written == old(written) + [Write(target, code)]
      ensures entries == AddIndexFile(old(entries), target)
    {
      written := written + [Write(target, code)];
      entries := AddIndexFile(entries, target);
    }

    /** `insertIndex__Root`. */
    method InsertRootIndex(subdirs: seq<string>)
      modifies this
      ensures written == old(written) + [Write(RootDir, MakeRootIndex(subdirs))]
      ensures entries == AddIndexFile(old(entries), RootDir)
    {
      var code := MakeRootIndex(subdirs);
      WriteIndexFile(RootDir, code);
    }

    /** `insertIndex__Locale`: list the group, derive its page names, validate
      them, and write its index only if they all pass. */
    method InsertLocaleIndex(dir: string) returns (failure: Option<ValidationError>)
      modifies this
      ensures failure == FirstInvalid(PageNames(Readdir(old(entries), dir)))
      ensures failure.None? ==>
        written == old(written) + [Write(GroupDir(dir), LocaleIndexCode(PageNames(Readdir(old(entries), dir))))] &&
        entries == AddIndexFile(old(entries), GroupDir(dir))
      ensures failure.Some? ==> written == old(written) && entries == old(entries)
    {
      var pageNames := PageNames(Readdir(entries, dir));
      failure := AssertPageNamesHaveValidFormat(pageNames);
      if failure.None? {
        var code := LocaleIndexCode(pageNames);
        WriteIndexFile(GroupDir(dir), code);
      }
    }

    /** The `forEach` of `indexBuildDir`: `insertIndex__Locale` for each
      group in order, until one throws. */
    method InsertLocaleIndexes(localeDirs: seq<string>) returns (failure: Option<ValidationError>)
      modifies this
      ensures written == old(written) + GroupWrites(old(entries), localeDirs).writes
      ensures failure == GroupWrites(old(entries), localeDirs).failure
      ensures entries == ApplyWrites(old(entries), GroupWrites(old(entries), localeDirs).writes)
    {
      ghost var start := entries;
      ghost var outcome := GroupWrites(start, localeDirs);
      ghost var done := [];
      PendingStart(start, localeDirs);
      var i := 0;
      while i < |localeDirs|
        invariant 0 <= i <= |localeDirs|
        invariant written == old(written) + done
        invariant entries == ApplyWrites(start, done)
        invariant Pending(start, localeDirs, i, done, outcome)
      {
        var dir := localeDirs[i];
        ghost var names := PageNames(Readdir(start, dir));
        RunStep(start, localeDirs, i, done, outcome);
        ApplyWritesKeepsPages(start, done, dir);
        failure := InsertLocaleIndex(dir);
        if failure.Some? {
          return;
        }
        ghost var w := Write(GroupDir(dir), LocaleIndexCode(names));
        ApplyWritesSnoc(start, done, w);
        done := done + [w];
        i := i + 1;
      }
      PendingEnd(start, localeDirs, done, outcome);
      failure := None;
    }

    /** `indexBuildDir`: the root index, then every group in listing order;
      an invalid page name stops the run and leaves the earlier files in
      place. */
    method IndexBuildDir() returns (failure: Option<ValidationError>)
      modifies this
      ensures written == old(written) + Run(old(entries)).writes
      ensures failure == Run(old(entries)).failure
      ensures entries == ApplyWrites(old(entries), Run(old(entries)).writes)
    {
      ghost var start := entries;
      var localeDirs := LocaleDirs(entries);
      InsertRootIndex(localeDirs);
      ghost var afterRoot := entries;
      ghost var written1 := written;
      failure := InsertLocaleIndexes(localeDirs);
      RunComposes(start);
      AppendAssociative(old(written), [Write(RootDir, MakeRootIndex(localeDirs))], GroupWrites(afterRoot, localeDirs).writes);
    }
  }
}
