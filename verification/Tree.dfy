/** The filesystem as its users see it: a tree of directories and the bytes of each file. */
module Trees {
  import opened Guards
  import opened Codec
  import opened Records
  import opened Options
  import opened Disks

  /** Directories and files by inode number. */
  datatype Tree = Tree(dirs: map<int, seq<DirEntry>>, files: map<int, seq<byte>>)

  const SLASH: byte := 47
  const DOT: seq<byte> := [46]
  const DOT_DOT: seq<byte> := [46, 46]
  const MAX_ENTRIES: int := 18

  // ---------------------------------------------------------------------------------------
  // Paths
  // ---------------------------------------------------------------------------------------

  /** The last slash among the first `n` bytes, or -1. */
  function SlashBefore(path: seq<byte>, n: int): (k: int)
    requires 0 <= n <= |path|
    ensures -1 <= k < n && (k >= 0 ==> path[k] == SLASH) && forall j :: k < j < n ==> path[j] != SLASH
    decreases n
  {
    if n == 0 then -1 else if path[n - 1] == SLASH then n - 1 else SlashBefore(path, n - 1)
  }

  function LastSlash(path: seq<byte>): int { SlashBefore(path, |path|) }

  /** `path.split('/').filter(|s| !s.is_empty())` */
  function Components(path: seq<byte>): seq<seq<byte>>
    decreases |path|
  {
    var k := LastSlash(path);
    var rest := if k < 0 then [] else Components(path[..k]);
    if path[k + 1..] == [] then rest else rest + [path[k + 1..]]
  }

  lemma {:induction false} ComponentsArePlain(path: seq<byte>, j: int)
    requires 0 <= j < |Components(path)|
    ensures Components(path)[j] != [] && SLASH !in Components(path)[j]
    decreases |path|
  {
    var k := LastSlash(path);
    if k >= 0 && j < |Components(path[..k])| { ComponentsArePlain(path[..k], j); }
  }

  lemma LastSlashIs(path: seq<byte>, k: int)
    requires -1 <= k < |path| && (k >= 0 ==> path[k] == SLASH) && forall j :: k < j < |path| ==> path[j] != SLASH
    ensures LastSlash(path) == k
  {
  }

  lemma JoinedSlices(a: seq<byte>, b: seq<byte>, k: int)
    requires -1 <= k < |b|
    ensures var path := a + [SLASH] + b;
      path[|a| + 2 + k..] == b[k + 1..] && path[..|a| + 1 + k] == if k < 0 then a else a + [SLASH] + b[..k]
  {
  }

  lemma LastSlashOfJoined(a: seq<byte>, b: seq<byte>)
    ensures var path, k := a + [SLASH] + b, LastSlash(b);
      && LastSlash(path) == |a| + 1 + k && path[|a| + 1 + k + 1..] == b[k + 1..]
      && path[..|a| + 1 + k] == if k < 0 then a else a + [SLASH] + b[..k]
  {
    var path, k := a + [SLASH] + b, LastSlash(b);
    assert path[|a|] == SLASH && forall j :: |a| < j < |path| ==> path[j] == b[j - |a| - 1];
    assert path[|a| + 1 + k] == SLASH;
    LastSlashIs(path, |a| + 1 + k);
    JoinedSlices(a, b, k);
  }

  lemma Associates<T>(x: seq<T>, y: seq<T>, z: seq<T>)
    ensures (x + y) + z == x + (y + z)
  {
  }

  lemma Nothing<T>(x: seq<T>)
    ensures [] + x == x && x + [] == x
  {
  }

  /** The component that ends a path, if any. */
  function Ending(last: seq<byte>): seq<seq<byte>> { if last == [] then [] else [last] }

  lemma ComponentsStep(path: seq<byte>, front: seq<byte>, last: seq<byte>)
    requires var k := LastSlash(path); last == path[k + 1..] && front == if k < 0 then [] else path[..k]
    ensures Components(path) == Components(front) + Ending(last)
  {
    var k := LastSlash(path);
    hide LastSlash;
    NoComponents();
    Nothing(Components(front));
    Nothing(Ending(last));
    assert Components(path) == if k < 0 then Ending(last) else if last == [] then Components(front) else Components(front) + [last];
  }

  function Joined(a: seq<byte>, b: seq<byte>): seq<byte> { a + [SLASH] + b }

  lemma JoinedStep(a: seq<byte>, b: seq<byte>, front: seq<byte>, last: seq<byte>)
    requires var k := LastSlash(b); last == b[k + 1..] && front == if k < 0 then [] else b[..k]
    ensures Components(Joined(a, b)) == Components(if LastSlash(b) < 0 then a else Joined(a, front)) + Ending(last)
  {
    hide Components, Ending;
    LastSlashOfJoined(a, b);
    ComponentsStep(Joined(a, b), if LastSlash(b) < 0 then a else Joined(a, front), last);
  }

  /** The components are what slashes separate, without the empty ones. */
  lemma {:induction false} ComponentsSplit(a: seq<byte>, b: seq<byte>)
    ensures Components(Joined(a, b)) == Components(a) + Components(b)
    decreases |b|
  {
    var k := LastSlash(b);
    var front, last := (if k < 0 then [] else b[..k]), b[k + 1..];
    hide Components, LastSlash, Ending, Joined;
    ComponentsStep(b, front, last);
    JoinedStep(a, b, front, last);
    Associates(Components(a), Components(front), Ending(last));
    Nothing(Ending(last));
    if k < 0 { NoComponents(); } else { ComponentsSplit(a, front); }
  }

  lemma NoComponents()
    ensures Components([]) == []
  {
    assert LastSlash([]) == -1;
  }

  lemma OneComponent(s: seq<byte>)
    requires SLASH !in s
    ensures Components(s) == if s == [] then [] else [s]
  {
    assert LastSlash(s) == -1 && s[0..] == s;
  }

  /** `path.rsplit_once('/').unwrap_or((path, path))` */
  function SplitLast(path: seq<byte>): (seq<byte>, seq<byte>) {
    var k := LastSlash(path);
    if k < 0 then (path, path) else (path[..k], path[k + 1..])
  }

  /** Paths that name something: with a slash, and not at the end. */
  predicate Proper(path: seq<byte>) { SLASH in path && path[|path| - 1] != SLASH }

  /** On proper paths the two ways of taking a path apart agree. */
  lemma SplitsAgree(path: seq<byte>)
    requires Proper(path)
    ensures var (prefix, base) := SplitLast(path); base != [] && SLASH !in base && Components(path) == Components(prefix) + [base]
  {
    assert path[0..] == path;
    assert LastSlash(path) >= 0;
  }

  // ---------------------------------------------------------------------------------------
  // Looking names up
  // ---------------------------------------------------------------------------------------

  predicate ByteCompare(s: seq<byte>, entry: seq<byte>) {
    if entry != [] && entry[0] == SLASH then s == entry[1..] else s == entry
  }

  /** The inode of the first entry that matches. */
  function Lookup(es: seq<DirEntry>, s: seq<byte>): Option<int> {
    if es == [] then None else if ByteCompare(s, es[0].name()) then Some(es[0].inode) else Lookup(es[1..], s)
  }

  /** Names that are not empty and without slashes, no two the same. */
  ghost predicate Unambiguous(es: seq<DirEntry>) {
    && (forall m :: 0 <= m < |es| ==> es[m].name() != [] && SLASH !in es[m].name())
    && (forall m, k :: 0 <= m < k < |es| ==> es[m].name() != es[k].name())
  }

  ghost predicate Listed(es: seq<DirEntry>, s: seq<byte>) { exists m :: 0 <= m < |es| && es[m].name() == s }

  lemma {:induction false} LookupFinds(es: seq<DirEntry>, m: int)
    requires Unambiguous(es) && 0 <= m < |es|
    ensures Lookup(es, es[m].name()) == Some(es[m].inode)
  {
    if m > 0 { LookupFinds(es[1..], m - 1); }
  }

  lemma {:induction false} LookupMisses(es: seq<DirEntry>, s: seq<byte>)
    requires Unambiguous(es)
    ensures Lookup(es, s).None? <==> !Listed(es, s)
  {
    if es != [] {
      LookupMisses(es[1..], s);
      if Listed(es, s) {
        var m :| 0 <= m < |es| && es[m].name() == s;
        LookupFinds(es, m);
      } else {
        assert forall m :: 0 <= m < |es| - 1 ==> es[1..][m] == es[m + 1];
        assert es[0].name() != s;
      }
    }
  }

  lemma LookupPush(es: seq<DirEntry>, e: DirEntry, s: seq<byte>)
    requires Unambiguous(es) && e.name() != [] && SLASH !in e.name() && !Listed(es, e.name())
    ensures Unambiguous(es + [e])
    ensures Lookup(es + [e], s) == if s == e.name() then Some(e.inode) else Lookup(es, s)
  {
    var fs := es + [e];
    assert Unambiguous(fs) by {
      forall m, k | 0 <= m < k < |fs| ensures fs[m].name() != fs[k].name() { }
    }
    LookupMisses(es, s);
    LookupMisses(fs, s);
    if s == e.name() {
      assert fs[|es|] == e;
      LookupFinds(fs, |es|);
    } else if Listed(es, s) {
      var m :| 0 <= m < |es| && es[m].name() == s;
      assert fs[m] == es[m];
      LookupFinds(es, m);
      LookupFinds(fs, m);
    }
  }

  /** The list without entry `m`, the last entry taking its place. */
  function SwapRemove(es: seq<DirEntry>, m: int): (r: seq<DirEntry>)
    requires 0 <= m < |es|
    ensures |r| == |es| - 1
    ensures forall k :: 0 <= k < |r| ==> r[k] == if k == m then es[|es| - 1] else es[k]
  {
    es[m := es[|es| - 1]][..|es| - 1]
  }

  lemma LookupSwapRemove(es: seq<DirEntry>, m: int, s: seq<byte>)
    requires Unambiguous(es) && 0 <= m < |es|
    ensures Unambiguous(SwapRemove(es, m))
    ensures Lookup(SwapRemove(es, m), s) == if s == es[m].name() then None else Lookup(es, s)
  {
    var r := SwapRemove(es, m);
    SwapRemoveUnambiguous(es, m);
    LookupMisses(es, s);
    LookupMisses(r, s);
    if s != es[m].name() && Listed(es, s) {
      var k :| 0 <= k < |es| && es[k].name() == s;
      var now := if k == |es| - 1 then m else k;
      LookupFinds(es, k);
      assert r[now] == es[k];
      LookupFinds(r, now);
    }
    if Listed(r, s) {
      var k :| 0 <= k < |r| && r[k].name() == s;
      var was := if k == m then |es| - 1 else k;
      assert es[was].name() == s && was != m;
    }
  }

  lemma SwapRemoveUnambiguous(es: seq<DirEntry>, m: int)
    requires Unambiguous(es) && 0 <= m < |es|
    ensures Unambiguous(SwapRemove(es, m))
  {
    var r, last := SwapRemove(es, m), |es| - 1;
    forall j, k | 0 <= j < k < |r| ensures r[j].name() != r[k].name() {
      assert r[j] == es[if j == m then last else j] && r[k] == es[if k == m then last else k];
    }
  }

  // ---------------------------------------------------------------------------------------
  // Resolving paths
  // ---------------------------------------------------------------------------------------

  /** What `read_dir_entry` returns: nothing for a file. */
  function Entries(t: Tree, d: int): seq<DirEntry> { if d in t.dirs then t.dirs[d] else [] }

  /** Walk down `parts`, each of which must name a directory. */
  function Walk(t: Tree, d: int, parts: seq<seq<byte>>): Outcome<int>
    decreases |parts|
  {
    if parts == [] then Success(d)
    else
      var next := Lookup(Entries(t, d), parts[0]);
      if next.None? then Failure(NotFound)
      else if next.value !in t.dirs then Failure(NotADirectory)
      else Walk(t, next.value, parts[1..])
  }

  datatype Resolved = Resolved(parent: int, basename: seq<byte>, inode: int)

  function Resolve(t: Tree, path: seq<byte>): Outcome<Resolved> {
    var (prefix, base) := SplitLast(path);
    var parent := Walk(t, 0, Components(prefix));
    if parent.Failure? then Failure(parent.error)
    else
      var file := Lookup(Entries(t, parent.value), base);
      if file.None? then Failure(NotFound) else Success(Resolved(parent.value, base, file.value))
  }

  /** Creating `path` gets as far as entering a new name in `d`. */
  ghost predicate Creating(t: Tree, path: seq<byte>, d: int) {
    var parts := Components(path);
    && parts != [] && |parts[|parts| - 1]| <= NAME_BYTES && Walk(t, 0, parts[..|parts| - 1]) == Success(d)
    && d in t.dirs && !Listed(t.dirs[d], parts[|parts| - 1])
  }

  // ---------------------------------------------------------------------------------------
  // Well-formed trees
  // ---------------------------------------------------------------------------------------

  ghost predicate Allocated(t: Tree, i: int) { i in t.dirs || i in t.files }

  /** Entry `m` of directory `d`, not a dot entry, names inode `i`. */
  ghost predicate Names(t: Tree, d: int, m: int, i: int) {
    d in t.dirs && 2 <= m < |t.dirs[d]| && t.dirs[d][m].inode == i
  }

  ghost predicate Dotted(t: Tree, d: int, es: seq<DirEntry>) {
    && 2 <= |es| <= MAX_ENTRIES && es[0].name() == DOT && es[0].inode == d
    && es[1].name() == DOT_DOT && es[1].inode in t.dirs
  }

  ghost predicate DirsOk(t: Tree) {
    forall d :: d in t.dirs ==> Dotted(t, d, t.dirs[d]) && Unambiguous(t.dirs[d])
  }

  /** No entry but the dots names the root, and what an entry names is allocated and named nowhere else. */
  ghost predicate NamesOk(t: Tree) {
    && (forall d, m, i :: Names(t, d, m, i) ==> Allocated(t, i) && i != 0)
    && (forall d, m, d', m', i :: Names(t, d, m, i) && Names(t, d', m', i) ==> d == d' && m == m')
  }

  ghost predicate AllNamed(t: Tree) {
    forall i :: Allocated(t, i) && i != 0 ==> exists d, m :: Names(t, d, m, i)
  }

  /** Inode `i` is reached from the root through `n` entries other than the dots. */
  ghost predicate Reached(t: Tree, i: int, n: nat)
    decreases n
  {
    if n == 0 then i == 0 else exists d, m :: Names(t, d, m, i) && Reached(t, d, n - 1)
  }

  ghost predicate Within(t: Tree, i: int) { exists n: nat :: Reached(t, i, n) }

  /** Everything allocated hangs off the root. */
  ghost predicate Rooted(t: Tree) { forall i :: Allocated(t, i) ==> Within(t, i) }

  /** Above every directory is the one that names it, above the root the root itself. */
  ghost predicate ParentsOk(t: Tree) {
    && (0 in t.dirs && |t.dirs[0]| >= 2 ==> t.dirs[0][1].inode == 0)
    && forall c, m, i :: Names(t, c, m, i) && i in t.dirs && |t.dirs[i]| >= 2 ==> t.dirs[i][1].inode == c
  }

  /** No inode is both a directory and a file. */
  ghost predicate Apart(t: Tree) { forall i :: i in t.dirs ==> i !in t.files }

  /** The directory invariant: names are unambiguous, an inode is allocated exactly when it is the root or named
      by exactly one entry other than the dots, all of them hang off the root, and `..` names the parent. */
  ghost predicate WellFormed(t: Tree) {
    forall n {:trigger Open(OnNaming, n)} :: Open(OnNaming, n) ==>
      0 in t.dirs && Apart(t) && DirsOk(t) && NamesOk(t) && AllNamed(t) && Rooted(t) && ParentsOk(t)
  }

  lemma WellFormedMeans(t: Tree, i: int)
    requires WellFormed(t)
    ensures Allocated(t, i) <==> i == 0 || exists d, m :: Names(t, d, m, i)
    ensures forall d, m, d', m' :: Names(t, d, m, i) && Names(t, d', m', i) ==> d == d' && m == m'
  {
    assert Open(OnNaming, 0);
  }

  lemma Furl(t: Tree)
    requires 0 in t.dirs && Apart(t) && DirsOk(t) && NamesOk(t) && AllNamed(t) && Rooted(t) && ParentsOk(t)
    ensures WellFormed(t)
  {
  }

  /** In every directory `.` is the directory and `..` its parent. */
  lemma DotsMean(t: Tree, i: int)
    requires WellFormed(t) && i in t.dirs
    ensures Lookup(t.dirs[i], DOT) == Some(i) && Lookup(t.dirs[i], DOT_DOT).Some?
    ensures i == 0 ==> Lookup(t.dirs[i], DOT_DOT) == Some(0)
    ensures forall c, m :: Names(t, c, m, i) ==> Lookup(t.dirs[i], DOT_DOT) == Some(c)
  {
    DirOk(t, i);
    LookupFinds(t.dirs[i], 0);
    LookupFinds(t.dirs[i], 1);
    assert Open(OnNaming, 0);
  }

  lemma ParentOk(t: Tree, c: int, m: int, i: int)
    requires WellFormed(t) && i in t.dirs && ((i == 0 && c == 0) || Names(t, c, m, i))
    ensures |t.dirs[i]| >= 2 && t.dirs[i][1].inode == c
  {
    assert Open(OnNaming, 0);
  }

  lemma DirOk(t: Tree, d: int)
    requires WellFormed(t)
    ensures 0 in t.dirs && Apart(t)
    ensures d in t.dirs ==> Dotted(t, d, t.dirs[d]) && Unambiguous(t.dirs[d])
  {
    assert Open(OnNaming, 0);
  }

  lemma NamedOk(t: Tree, d: int, m: int, i: int)
    requires WellFormed(t) && Names(t, d, m, i)
    ensures Allocated(t, i) && i != 0
  {
    assert Open(OnNaming, 0);
  }

  lemma NamedOnce(t: Tree, d: int, m: int, d': int, m': int, i: int)
    requires WellFormed(t) && Names(t, d, m, i) && Names(t, d', m', i)
    ensures d == d' && m == m'
  {
    assert Open(OnNaming, 0);
  }

  lemma HangsOffRoot(t: Tree, i: int) returns (n: nat)
    requires WellFormed(t) && Allocated(t, i)
    ensures Reached(t, i, n)
  {
    assert Within(t, i) by { assert Open(OnNaming, 0); }
    n :| Reached(t, i, n);
  }

  lemma NamedBy(t: Tree, i: int) returns (d: int, m: int)
    requires WellFormed(t) && Allocated(t, i) && i != 0
    ensures Names(t, d, m, i)
  {
    assert Open(OnNaming, 0);
    d, m :| Names(t, d, m, i);
  }

  /** Whatever a directory lists is allocated. */
  lemma LookupAllocated(t: Tree, d: int, s: seq<byte>)
    requires WellFormed(t) && Lookup(Entries(t, d), s).Some?
    ensures Allocated(t, Lookup(Entries(t, d), s).value)
  {
    DirOk(t, d);
    var es := t.dirs[d];
    LookupMisses(es, s);
    var m :| 0 <= m < |es| && es[m].name() == s;
    LookupFinds(es, m);
    if m >= 2 {
      assert Names(t, d, m, es[m].inode);
      NamedOk(t, d, m, es[m].inode);
    }
  }

  // ---------------------------------------------------------------------------------------
  // What the operations do to the tree
  // ---------------------------------------------------------------------------------------

  predicate GoodName(name: seq<byte>) { 0 < |name| <= NAME_BYTES && SLASH !in name && 0 !in name }

  function CreateFile(t: Tree, d: int, name: seq<byte>, i: int): Tree
    requires d in t.dirs
  {
    Tree(t.dirs[d := t.dirs[d] + [NewEntry(name, i)]], t.files[i := []])
  }

  /** The entries of a new directory `i` in `d`. */
  function DotEntries(i: int, d: int): seq<DirEntry> { [NewEntry(DOT, i), NewEntry(DOT_DOT, d)] }

  function MakeDir(t: Tree, d: int, name: seq<byte>, i: int): Tree
    requires d in t.dirs
  {
    Tree(t.dirs[d := t.dirs[d] + [NewEntry(name, i)]][i := DotEntries(i, d)], t.files)
  }

  function RemoveFile(t: Tree, d: int, m: int): Tree
    requires d in t.dirs && 0 <= m < |t.dirs[d]|
  {
    Tree(t.dirs[d := SwapRemove(t.dirs[d], m)], t.files - {t.dirs[d][m].inode})
  }

  function AppendFile(t: Tree, i: int, bytes: seq<byte>): Tree
    requires i in t.files
  {
    t.(files := t.files[i := t.files[i] + bytes])
  }

  lemma AppendTwice(t: Tree, i: int, a: seq<byte>, b: seq<byte>)
    requires i in t.files
    ensures AppendFile(AppendFile(t, i, a), i, b) == AppendFile(t, i, a + b)
  {
    assert t.files[i] + a + b == t.files[i] + (a + b);
  }

  lemma AppendNothing(t: Tree, i: int)
    requires i in t.files
    ensures AppendFile(t, i, []) == t
  {
    assert t.files[i] + [] == t.files[i];
    assert t.files[i := t.files[i]] == t.files;
  }

  /** A directory that can take one more entry, under a name it does not list, for an unused inode. */
  ghost predicate CanLink(t: Tree, d: int, name: seq<byte>, i: int) {
    d in t.dirs && |t.dirs[d]| < MAX_ENTRIES && GoodName(name) && !Listed(t.dirs[d], name) && !Allocated(t, i)
  }

  lemma LinkedDir(t: Tree, d: int, name: seq<byte>, i: int)
    requires WellFormed(t) && CanLink(t, d, name, i)
    ensures NewEntry(name, i).name() == name && Unambiguous(t.dirs[d] + [NewEntry(name, i)])
    ensures |t.dirs[d]| >= 2 && i != 0 && i != d
  {
    DirOk(t, d);
    NameRoundTrip(name, i);
    LookupPush(t.dirs[d], NewEntry(name, i), name);
  }

  ghost function Linked(t: Tree, d: int, name: seq<byte>, i: int, isDirectory: bool): Tree
    requires d in t.dirs
  {
    if isDirectory then MakeDir(t, d, name, i) else CreateFile(t, d, name, i)
  }

  /** One more entry, naming one more inode. */
  lemma LinkedNames(t: Tree, d: int, name: seq<byte>, i: int, isDirectory: bool, d1: int, m1: int, j: int)
    requires WellFormed(t) && CanLink(t, d, name, i)
    ensures var t' := Linked(t, d, name, i, isDirectory);
      && (Allocated(t', j) <==> Allocated(t, j) || j == i)
      && (Names(t', d1, m1, j) <==> Names(t, d1, m1, j) || (d1 == d && m1 == |t.dirs[d]| && j == i))
  {
    LinkedDir(t, d, name, i);
  }

  lemma LinkedNamesOnce(t: Tree, d: int, name: seq<byte>, i: int, isDirectory: bool, d1: int, m1: int, d2: int, m2: int, j: int)
    requires WellFormed(t) && CanLink(t, d, name, i)
    requires var t' := Linked(t, d, name, i, isDirectory); Names(t', d1, m1, j) && Names(t', d2, m2, j)
    ensures j != 0 && d1 == d2 && m1 == m2
  {
    LinkedDir(t, d, name, i);
    LinkedNames(t, d, name, i, isDirectory, d1, m1, j);
    LinkedNames(t, d, name, i, isDirectory, d2, m2, j);
    if Names(t, d1, m1, j) { NamedOk(t, d1, m1, j); }
    if Names(t, d2, m2, j) { NamedOk(t, d2, m2, j); }
    if Names(t, d1, m1, j) && Names(t, d2, m2, j) { NamedOnce(t, d1, m1, d2, m2, j); }
  }

  lemma LinkedNamesOk(t: Tree, d: int, name: seq<byte>, i: int, isDirectory: bool)
    requires WellFormed(t) && CanLink(t, d, name, i)
    ensures NamesOk(Linked(t, d, name, i, isDirectory))
  {
    var t' := Linked(t, d, name, i, isDirectory);
    forall d1, m1, j | Names(t', d1, m1, j) ensures Allocated(t', j) && j != 0 {
      LinkedNames(t, d, name, i, isDirectory, d1, m1, j);
      if Names(t, d1, m1, j) { NamedOk(t, d1, m1, j); } else { LinkedDir(t, d, name, i); }
    }
    forall d1, m1, d2, m2, j | Names(t', d1, m1, j) && Names(t', d2, m2, j) ensures d1 == d2 && m1 == m2 {
      LinkedNamesOnce(t, d, name, i, isDirectory, d1, m1, d2, m2, j);
    }
  }

  lemma LinkedAllNamed(t: Tree, d: int, name: seq<byte>, i: int, isDirectory: bool)
    requires WellFormed(t) && CanLink(t, d, name, i)
    ensures AllNamed(Linked(t, d, name, i, isDirectory))
  {
    var t' := Linked(t, d, name, i, isDirectory);
    forall j | Allocated(t', j) && j != 0 ensures exists d1, m1 :: Names(t', d1, m1, j) {
      LinkedNames(t, d, name, i, isDirectory, d, |t.dirs[d]|, j);
      if j != i {
        var d1, m1 := NamedBy(t, j);
        LinkedNames(t, d, name, i, isDirectory, d1, m1, j);
      }
    }
  }

  lemma LinkedDirsOk(t: Tree, d: int, name: seq<byte>, i: int, isDirectory: bool)
    requires WellFormed(t) && CanLink(t, d, name, i)
    ensures DirsOk(Linked(t, d, name, i, isDirectory))
  {
    var t' := Linked(t, d, name, i, isDirectory);
    forall c | c in t'.dirs ensures Dotted(t', c, t'.dirs[c]) && Unambiguous(t'.dirs[c]) {
      LinkedDirOk(t, d, name, i, isDirectory, c);
    }
  }

  lemma LinkedDirOk(t: Tree, d: int, name: seq<byte>, i: int, isDirectory: bool, c: int)
    requires WellFormed(t) && CanLink(t, d, name, i) && c in Linked(t, d, name, i, isDirectory).dirs
    ensures var t' := Linked(t, d, name, i, isDirectory); Dotted(t', c, t'.dirs[c]) && Unambiguous(t'.dirs[c])
  {
    DirOk(t, c);
    LinkedDir(t, d, name, i);
    if c == i { DotsOk(i, d); }
  }

  lemma DotsOk(i: int, d: int)
    ensures var es := DotEntries(i, d);
      && |es| == 2 && es[0].name() == DOT && es[0].inode == i && es[1].name() == DOT_DOT && es[1].inode == d && Unambiguous(es)
  {
    NameRoundTrip(DOT, i);
    NameRoundTrip(DOT_DOT, d);
  }

  lemma LinkedApart(t: Tree, d: int, name: seq<byte>, i: int, isDirectory: bool)
    requires WellFormed(t) && CanLink(t, d, name, i)
    ensures 0 in Linked(t, d, name, i, isDirectory).dirs && Apart(Linked(t, d, name, i, isDirectory))
  {
    DirOk(t, 0);
  }

  lemma {:induction false} LinkedReached(t: Tree, d: int, name: seq<byte>, i: int, isDirectory: bool, j: int, n: nat)
    requires WellFormed(t) && CanLink(t, d, name, i) && Reached(t, j, n)
    ensures Reached(Linked(t, d, name, i, isDirectory), j, n)
    decreases n
  {
    if n > 0 {
      hide WellFormed, CanLink, Linked, Names;
      var d1, m1 :| Names(t, d1, m1, j) && Reached(t, d1, n - 1);
      LinkedNames(t, d, name, i, isDirectory, d1, m1, j);
      LinkedReached(t, d, name, i, isDirectory, d1, n - 1);
    }
  }

  lemma LinkedWithin(t: Tree, d: int, name: seq<byte>, i: int, isDirectory: bool, j: int)
    requires WellFormed(t) && CanLink(t, d, name, i) && Allocated(Linked(t, d, name, i, isDirectory), j)
    ensures Within(Linked(t, d, name, i, isDirectory), j)
  {
    var t' := Linked(t, d, name, i, isDirectory);
    LinkedNames(t, d, name, i, isDirectory, d, |t.dirs[d]|, j);
    if j != i {
      var n := HangsOffRoot(t, j);
      LinkedReached(t, d, name, i, isDirectory, j, n);
    } else {
      var n := HangsOffRoot(t, d);
      LinkedReached(t, d, name, i, isDirectory, d, n);
      assert Names(t', d, |t.dirs[d]|, i);
      assert Reached(t', i, n + 1);
    }
  }

  lemma LinkedRooted(t: Tree, d: int, name: seq<byte>, i: int, isDirectory: bool)
    requires WellFormed(t) && CanLink(t, d, name, i)
    ensures Rooted(Linked(t, d, name, i, isDirectory))
  {
    hide WellFormed, Linked, Within, Allocated;
    forall j | Allocated(Linked(t, d, name, i, isDirectory), j) ensures Within(Linked(t, d, name, i, isDirectory), j) {
      LinkedWithin(t, d, name, i, isDirectory, j);
    }
  }

  lemma LinkedParents(t: Tree, d: int, name: seq<byte>, i: int, isDirectory: bool)
    requires WellFormed(t) && CanLink(t, d, name, i)
    ensures ParentsOk(Linked(t, d, name, i, isDirectory))
  {
    var t' := Linked(t, d, name, i, isDirectory);
    DirOk(t, 0);
    LinkedDir(t, d, name, i);
    ParentOk(t, 0, 0, 0);
    forall c, m, j | Names(t', c, m, j) && j in t'.dirs && |t'.dirs[j]| >= 2 ensures t'.dirs[j][1].inode == c {
      LinkedNames(t, d, name, i, isDirectory, c, m, j);
      if Names(t, c, m, j) { NamedOk(t, c, m, j); ParentOk(t, c, m, j); }
    }
  }

  /** Creating a file or a directory keeps the invariant. */
  lemma CreateKeepsWellFormed(t: Tree, d: int, name: seq<byte>, i: int, isDirectory: bool)
    requires WellFormed(t) && CanLink(t, d, name, i)
    ensures WellFormed(Linked(t, d, name, i, isDirectory))
  {
    LinkedNamesOk(t, d, name, i, isDirectory);
    LinkedAllNamed(t, d, name, i, isDirectory);
    LinkedDirsOk(t, d, name, i, isDirectory);
    LinkedApart(t, d, name, i, isDirectory);
    LinkedRooted(t, d, name, i, isDirectory);
    LinkedParents(t, d, name, i, isDirectory);
    Furl(Linked(t, d, name, i, isDirectory));
  }

  lemma {:induction false} AppendReached(t: Tree, i: int, bytes: seq<byte>, j: int, n: nat)
    requires i in t.files && Reached(t, j, n)
    ensures Reached(AppendFile(t, i, bytes), j, n)
    decreases n
  {
    if n > 0 {
      var d, m :| Names(t, d, m, j) && Reached(t, d, n - 1);
      AppendReached(t, i, bytes, d, n - 1);
      assert Names(AppendFile(t, i, bytes), d, m, j);
    }
  }

  lemma AppendRooted(t: Tree, i: int, bytes: seq<byte>)
    requires WellFormed(t) && i in t.files
    ensures Rooted(AppendFile(t, i, bytes))
  {
    forall j | Allocated(AppendFile(t, i, bytes), j) ensures Within(AppendFile(t, i, bytes), j) {
      var n := HangsOffRoot(t, j);
      AppendReached(t, i, bytes, j, n);
    }
  }

  lemma AppendParents(t: Tree, i: int, bytes: seq<byte>)
    requires WellFormed(t) && i in t.files
    ensures ParentsOk(AppendFile(t, i, bytes))
  {
    var t' := AppendFile(t, i, bytes);
    DirOk(t, 0);
    ParentOk(t, 0, 0, 0);
    forall c, m, j | Names(t', c, m, j) && j in t'.dirs && |t'.dirs[j]| >= 2 ensures t'.dirs[j][1].inode == c { ParentOk(t, c, m, j); }
  }

  lemma AppendKeepsWellFormed(t: Tree, i: int, bytes: seq<byte>)
    requires WellFormed(t) && i in t.files
    ensures WellFormed(AppendFile(t, i, bytes))
  {
    var t' := AppendFile(t, i, bytes);
    DirOk(t, 0);
    forall c | c in t'.dirs ensures Dotted(t', c, t'.dirs[c]) && Unambiguous(t'.dirs[c]) { DirOk(t, c); }
    forall d1, m1, j | Names(t', d1, m1, j) ensures Allocated(t', j) && j != 0 { NamedOk(t, d1, m1, j); }
    forall d1, m1, d2, m2, j | Names(t', d1, m1, j) && Names(t', d2, m2, j) ensures d1 == d2 && m1 == m2 {
      NamedOnce(t, d1, m1, d2, m2, j);
    }
    forall j | Allocated(t', j) && j != 0 ensures exists d1, m1 :: Names(t', d1, m1, j) {
      var d1, m1 := NamedBy(t, j);
      assert Names(t', d1, m1, j);
    }
    AppendRooted(t, i, bytes);
    AppendParents(t, i, bytes);
    Furl(t');
  }

  /** Where entry `m1` of directory `d1` was before entry `m` of `d` was swap-removed. */
  ghost function Before(t: Tree, d: int, m: int, d1: int, m1: int): int
    requires d in t.dirs
  {
    if d1 == d && m1 == m then |t.dirs[d]| - 1 else m1
  }

  lemma RemovedNames(t: Tree, d: int, m: int, d1: int, m1: int, j: int)
    requires d in t.dirs && 2 <= m < |t.dirs[d]|
    ensures Names(RemoveFile(t, d, m), d1, m1, j) ==> Names(t, d1, Before(t, d, m, d1, m1), j) && (d1 == d ==> Before(t, d, m, d1, m1) != m)
    ensures Names(t, d1, m1, j) && !(d1 == d && m1 == m) ==>
      Names(RemoveFile(t, d, m), d1, if d1 == d && m1 == |t.dirs[d]| - 1 then m else m1, j)
  {
  }

  ghost predicate CanRemove(t: Tree, d: int, m: int) {
    d in t.dirs && 2 <= m < |t.dirs[d]| && t.dirs[d][m].inode in t.files
  }

  lemma RemovedNamesOk(t: Tree, d: int, m: int, d1: int, m1: int, j: int)
    requires WellFormed(t) && CanRemove(t, d, m) && Names(RemoveFile(t, d, m), d1, m1, j)
    ensures Allocated(RemoveFile(t, d, m), j) && j != 0
  {
    var i := t.dirs[d][m].inode;
    RemovedNames(t, d, m, d1, m1, j);
    var k := Before(t, d, m, d1, m1);
    NamedOk(t, d1, k, j);
    if j == i {
      assert Names(t, d, m, i);
      NamedOnce(t, d, m, d1, k, i);
    }
  }

  lemma RemovedNamesOnce(t: Tree, d: int, m: int, d1: int, m1: int, d2: int, m2: int, j: int)
    requires WellFormed(t) && CanRemove(t, d, m)
    requires Names(RemoveFile(t, d, m), d1, m1, j) && Names(RemoveFile(t, d, m), d2, m2, j)
    ensures d1 == d2 && m1 == m2
  {
    RemovedNames(t, d, m, d1, m1, j);
    RemovedNames(t, d, m, d2, m2, j);
    NamedOnce(t, d1, Before(t, d, m, d1, m1), d2, Before(t, d, m, d2, m2), j);
  }

  lemma RemovedDirsOk(t: Tree, d: int, m: int)
    requires WellFormed(t) && CanRemove(t, d, m)
    ensures var t' := RemoveFile(t, d, m); DirsOk(t') && 0 in t'.dirs && Apart(t')
  {
    var t' := RemoveFile(t, d, m);
    DirOk(t, d);
    LookupSwapRemove(t.dirs[d], m, []);
    forall c | c in t'.dirs ensures Dotted(t', c, t'.dirs[c]) && Unambiguous(t'.dirs[c]) { DirOk(t, c); }
  }

  lemma RemovedAllNamed(t: Tree, d: int, m: int)
    requires WellFormed(t) && CanRemove(t, d, m)
    ensures AllNamed(RemoveFile(t, d, m))
  {
    var t' := RemoveFile(t, d, m);
    forall j | Allocated(t', j) && j != 0 ensures exists d1, m1 :: Names(t', d1, m1, j) {
      var d1, m1 := NamedBy(t, j);
      DirOk(t, d);
      RemovedNames(t, d, m, d1, m1, j);
    }
  }

  lemma {:induction false} RemovedReached(t: Tree, d: int, m: int, j: int, n: nat)
    requires WellFormed(t) && CanRemove(t, d, m) && Reached(t, j, n) && j != t.dirs[d][m].inode
    ensures Reached(RemoveFile(t, d, m), j, n)
    decreases n
  {
    if n > 0 {
      var d1, m1 :| Names(t, d1, m1, j) && Reached(t, d1, n - 1);
      DirOk(t, d1);
      RemovedNames(t, d, m, d1, m1, j);
      RemovedReached(t, d, m, d1, n - 1);
    }
  }

  lemma RemovedRooted(t: Tree, d: int, m: int)
    requires WellFormed(t) && CanRemove(t, d, m)
    ensures Rooted(RemoveFile(t, d, m))
  {
    DirOk(t, d);
    forall j | Allocated(RemoveFile(t, d, m), j) ensures Within(RemoveFile(t, d, m), j) {
      var n := HangsOffRoot(t, j);
      RemovedReached(t, d, m, j, n);
    }
  }

  lemma RemovedParents(t: Tree, d: int, m: int)
    requires WellFormed(t) && CanRemove(t, d, m)
    ensures ParentsOk(RemoveFile(t, d, m))
  {
    var t' := RemoveFile(t, d, m);
    DirOk(t, 0);
    ParentOk(t, 0, 0, 0);
    forall c, k, j | Names(t', c, k, j) && j in t'.dirs && |t'.dirs[j]| >= 2 ensures t'.dirs[j][1].inode == c {
      RemovedNames(t, d, m, c, k, j);
      ParentOk(t, c, Before(t, d, m, c, k), j);
    }
  }

  /** Removing a file keeps the invariant. */
  lemma RemoveKeepsWellFormed(t: Tree, d: int, m: int)
    requires WellFormed(t) && CanRemove(t, d, m)
    ensures WellFormed(RemoveFile(t, d, m))
  {
    var t' := RemoveFile(t, d, m);
    forall d1, m1, j | Names(t', d1, m1, j) ensures Allocated(t', j) && j != 0 { RemovedNamesOk(t, d, m, d1, m1, j); }
    forall d1, m1, d2, m2, j | Names(t', d1, m1, j) && Names(t', d2, m2, j) ensures d1 == d2 && m1 == m2 {
      RemovedNamesOnce(t, d, m, d1, m1, d2, m2, j);
    }
    RemovedDirsOk(t, d, m);
    RemovedAllNamed(t, d, m);
    RemovedRooted(t, d, m);
    RemovedParents(t, d, m);
    Furl(t');
  }

  // ---------------------------------------------------------------------------------------
  // What the operations do to path resolution
  // ---------------------------------------------------------------------------------------

  /** Looking up any name but `name` in `d` gives the same in both trees, and directories stay directories. */
  ghost predicate AgreeBut(t: Tree, t': Tree, d: int, name: seq<byte>) {
    && t.dirs.Keys <= t'.dirs.Keys
    && forall c, s {:trigger Lookup(Entries(t, c), s)} {:trigger Lookup(Entries(t', c), s)} ::
         c in t.dirs && !(c == d && s == name) ==> Lookup(Entries(t, c), s) == Lookup(Entries(t', c), s)
  }

  /** `name` in `d` is no directory. */
  ghost predicate NoDirectory(t: Tree, d: int, name: seq<byte>) {
    var x := Lookup(Entries(t, d), name);
    x.None? || x.value !in t.dirs
  }

  lemma {:induction false} WalkStays(t: Tree, t': Tree, d: int, name: seq<byte>, c: int, parts: seq<seq<byte>>)
    requires AgreeBut(t, t', d, name) && c in t.dirs && Walk(t, c, parts).Success?
    requires NoDirectory(t, d, name)
    ensures Walk(t', c, parts) == Walk(t, c, parts) && Walk(t, c, parts).value in t.dirs
    decreases |parts|
  {
    if parts != [] {
      var next := Lookup(Entries(t, c), parts[0]);
      assert next == Lookup(Entries(t', c), parts[0]);
      WalkStays(t, t', d, name, next.value, parts[1..]);
    }
  }

  /** A path other than to `name` in `d` resolves in both trees alike. */
  lemma PathStays(t: Tree, t': Tree, d: int, name: seq<byte>, path: seq<byte>)
    requires AgreeBut(t, t', d, name) && 0 in t.dirs && Resolve(t, path).Success?
    requires NoDirectory(t, d, name)
    requires !(Resolve(t, path).value.parent == d && Resolve(t, path).value.basename == name)
    ensures Resolve(t', path) == Resolve(t, path)
  {
    var (prefix, base) := SplitLast(path);
    WalkStays(t, t', d, name, 0, Components(prefix));
    var parent := Walk(t, 0, Components(prefix)).value;
    assert Lookup(Entries(t', parent), base) == Lookup(Entries(t, parent), base);
  }

  lemma CreateAgrees(t: Tree, d: int, name: seq<byte>, i: int, isDirectory: bool)
    requires WellFormed(t) && CanLink(t, d, name, i)
    ensures AgreeBut(t, Linked(t, d, name, i, isDirectory), d, name)
    ensures Lookup(t.dirs[d], name) == None && Lookup(t.dirs[d] + [NewEntry(name, i)], name) == Some(i)
    ensures Entries(Linked(t, d, name, i, isDirectory), d) == t.dirs[d] + [NewEntry(name, i)]
  {
    LinkedDir(t, d, name, i);
    DirOk(t, d);
    LookupMisses(t.dirs[d], name);
    forall s ensures Lookup(t.dirs[d] + [NewEntry(name, i)], s) == if s == name then Some(i) else Lookup(t.dirs[d], s) {
      LookupPush(t.dirs[d], NewEntry(name, i), s);
    }
  }

  /** After a create the new path resolves to the new inode ... */
  lemma CreateResolves(t: Tree, path: seq<byte>, d: int, i: int, isDirectory: bool)
    requires WellFormed(t) && CanLink(t, d, SplitLast(path).1, i)
    requires Walk(t, 0, Components(SplitLast(path).0)) == Success(d)
    ensures var name := SplitLast(path).1; Resolve(Linked(t, d, name, i, isDirectory), path) == Success(Resolved(d, name, i))
  {
    var (prefix, name) := SplitLast(path);
    CreateAgrees(t, d, name, i, isDirectory);
    DirOk(t, 0);
    WalkStays(t, Linked(t, d, name, i, isDirectory), d, name, 0, Components(prefix));
  }

  /** ... and whatever resolved before resolves as before. */
  lemma CreateKeepsPaths(t: Tree, d: int, name: seq<byte>, i: int, isDirectory: bool, path: seq<byte>)
    requires WellFormed(t) && CanLink(t, d, name, i) && Resolve(t, path).Success?
    ensures Resolve(Linked(t, d, name, i, isDirectory), path) == Resolve(t, path)
  {
    CreateAgrees(t, d, name, i, isDirectory);
    DirOk(t, 0);
    PathStays(t, Linked(t, d, name, i, isDirectory), d, name, path);
  }

  /** A path without slash is looked up in itself. */
  lemma SlashlessLookup(t: Tree, path: seq<byte>, i: int)
    requires path != [] && SLASH !in path && Lookup(Entries(t, 0), path) == Some(i)
    ensures i !in t.dirs ==> Resolve(t, path) == Failure(NotADirectory)
    ensures i in t.dirs && Lookup(t.dirs[i], path) == None ==> Resolve(t, path) == Failure(NotFound)
  {
    assert LastSlash(path) == -1 && path[0..] == path;
    assert Components(path) == [path] && SplitLast(path) == (path, path);
    assert [path][1..] == [];
    if i in t.dirs { assert Walk(t, i, [path][1..]) == Success(i) && Walk(t, 0, [path]) == Success(i); }
  }

  lemma SlashlessFails(t: Tree, path: seq<byte>, i: int, isDirectory: bool)
    requires WellFormed(t) && path != [] && SLASH !in path && CanLink(t, 0, path, i)
    ensures Resolve(Linked(t, 0, path, i, isDirectory), path) == Failure(if isDirectory then NotFound else NotADirectory)
  {
    hide WellFormed, Resolve, Lookup, Unambiguous, AgreeBut;
    var t' := Linked(t, 0, path, i, isDirectory);
    CreateAgrees(t, 0, path, i, isDirectory);
    LinkedDir(t, 0, path, i);
    SlashlessLookup(t', path, i);
    if isDirectory { NotInItself(t, path, i); }
  }

  lemma NotInItself(t: Tree, path: seq<byte>, i: int)
    requires WellFormed(t) && CanLink(t, 0, path, i)
    ensures Lookup(DotEntries(i, 0), path) == None
  {
    DirOk(t, 0);
    DotsOk(i, 0);
    LookupMisses(DotEntries(i, 0), path);
    assert t.dirs[0][0].name() == DOT && t.dirs[0][1].name() == DOT_DOT;
  }

  lemma TrailingSlashFails(t: Tree, path: seq<byte>)
    requires WellFormed(t) && path != [] && path[|path| - 1] == SLASH
    ensures Resolve(t, path).Failure?
  {
    assert SplitLast(path).1 == [];
    var parent := Walk(t, 0, Components(SplitLast(path).0));
    if parent.Success? {
      DirOk(t, parent.value);
      LookupMisses(Entries(t, parent.value), []);
    }
  }

  /** A path that was just created resolves, to the new inode, exactly when it has a slash and not at its end. */
  lemma CreateResolvesIff(t: Tree, path: seq<byte>, d: int, i: int, isDirectory: bool)
    requires WellFormed(t) && Components(path) != []
    requires var parts := Components(path);
      CanLink(t, d, parts[|parts| - 1], i) && Walk(t, 0, parts[..|parts| - 1]) == Success(d)
    ensures var t' := Linked(t, d, Components(path)[|Components(path)| - 1], i, isDirectory);
      && (Proper(path) <==> Resolve(t', path).Success?)
      && (Proper(path) ==> Resolve(t', path) == Success(Resolved(d, Components(path)[|Components(path)| - 1], i)))
  {
    var parts := Components(path);
    var name := parts[|parts| - 1];
    if Proper(path) {
      SplitsAgree(path);
      assert parts[..|parts| - 1] == Components(SplitLast(path).0);
      CreateResolves(t, path, d, i, isDirectory);
    } else if SLASH in path {
      CreateKeepsWellFormed(t, d, name, i, isDirectory);
      TrailingSlashFails(Linked(t, d, name, i, isDirectory), path);
    } else {
      SlashlessComponents(path);
      SlashlessFails(t, path, i, isDirectory);
    }
  }

  lemma SlashlessComponents(path: seq<byte>)
    requires SLASH !in path && Components(path) != []
    ensures path != [] && Components(path) == [path]
  {
    assert LastSlash(path) == -1 && path[0..] == path;
  }

  lemma RemoveAgrees(t: Tree, d: int, m: int)
    requires WellFormed(t) && CanRemove(t, d, m)
    ensures AgreeBut(t, RemoveFile(t, d, m), d, t.dirs[d][m].name()) && AgreeBut(RemoveFile(t, d, m), t, d, t.dirs[d][m].name())
    ensures Lookup(t.dirs[d], t.dirs[d][m].name()) == Some(t.dirs[d][m].inode) && t.dirs[d][m].inode !in t.dirs
    ensures Lookup(SwapRemove(t.dirs[d], m), t.dirs[d][m].name()) == None
  {
    DirOk(t, d);
    LookupFinds(t.dirs[d], m);
    forall s ensures Lookup(SwapRemove(t.dirs[d], m), s) == if s == t.dirs[d][m].name() then None else Lookup(t.dirs[d], s) {
      LookupSwapRemove(t.dirs[d], m, s);
    }
  }

  /** A file is looked up only under the one name that names it. */
  lemma OneNameOnly(t: Tree, d: int, m: int, c: int, s: seq<byte>)
    requires WellFormed(t) && CanRemove(t, d, m) && Lookup(Entries(t, c), s) == Some(t.dirs[d][m].inode)
    ensures c == d && s == t.dirs[d][m].name()
  {
    var i := t.dirs[d][m].inode;
    DirOk(t, c);
    LookupMisses(t.dirs[c], s);
    var k :| 0 <= k < |t.dirs[c]| && t.dirs[c][k].name() == s;
    LookupFinds(t.dirs[c], k);
    assert Names(t, c, k, i) && Names(t, d, m, i);
    NamedOnce(t, d, m, c, k, i);
  }

  lemma RemoveAddsNoPath(t: Tree, d: int, m: int, path: seq<byte>, r: Resolved)
    requires WellFormed(t) && CanRemove(t, d, m) && Resolve(RemoveFile(t, d, m), path) == Success(r)
    ensures Resolve(t, path) == Success(r) && r.inode != t.dirs[d][m].inode
  {
    RemoveAgrees(t, d, m);
    DirOk(t, 0);
    PathStays(RemoveFile(t, d, m), t, d, t.dirs[d][m].name(), path);
    if r.inode == t.dirs[d][m].inode { OneNameOnly(t, d, m, r.parent, r.basename); }
  }

  lemma RemoveSparesPath(t: Tree, d: int, m: int, path: seq<byte>, r: Resolved)
    requires WellFormed(t) && CanRemove(t, d, m) && Resolve(t, path) == Success(r) && r.inode != t.dirs[d][m].inode
    ensures Resolve(RemoveFile(t, d, m), path) == Success(r)
  {
    RemoveAgrees(t, d, m);
    DirOk(t, 0);
    PathStays(t, RemoveFile(t, d, m), d, t.dirs[d][m].name(), path);
  }

  /** The entry under which a directory lists a file is no dot. */
  lemma FileEntry(t: Tree, d: int, m: int)
    requires WellFormed(t) && d in t.dirs && 0 <= m < |t.dirs[d]|
    requires Lookup(t.dirs[d], t.dirs[d][m].name()).Some? && Lookup(t.dirs[d], t.dirs[d][m].name()).value in t.files
    ensures CanRemove(t, d, m) && Lookup(t.dirs[d], t.dirs[d][m].name()).value == t.dirs[d][m].inode
  {
    DirOk(t, d);
    LookupFinds(t.dirs[d], m);
  }

  /** After a remove, a path resolves to something exactly when it did before and was not the removed file. */
  lemma RemoveKeepsPaths(t: Tree, d: int, m: int, path: seq<byte>, r: Resolved)
    requires WellFormed(t) && CanRemove(t, d, m)
    ensures Resolve(RemoveFile(t, d, m), path) == Success(r) <==> Resolve(t, path) == Success(r) && r.inode != t.dirs[d][m].inode
  {
    if Resolve(t, path) == Success(r) && r.inode != t.dirs[d][m].inode {
      RemoveSparesPath(t, d, m, path, r);
    }
    if Resolve(RemoveFile(t, d, m), path) == Success(r) {
      RemoveAddsNoPath(t, d, m, path, r);
    }
  }

  // ---------------------------------------------------------------------------------------
  // What walking, resolving and creating find
  // ---------------------------------------------------------------------------------------

  /** Directory `d` has an entry of this name for inode `i`. */
  ghost predicate Links(t: Tree, d: int, name: seq<byte>, i: int) {
    d in t.dirs && exists m :: 0 <= m < |t.dirs[d]| && t.dirs[d][m].name() == name && t.dirs[d][m].inode == i
  }

  /** `chain` goes from the root down the first of `parts`, through directories only. */
  ghost predicate Descends(t: Tree, parts: seq<seq<byte>>, chain: seq<int>) {
    && 0 < |chain| <= |parts| + 1 && chain[0] == 0 && (forall j :: 0 <= j < |chain| ==> chain[j] in t.dirs)
    && forall j :: 0 < j < |chain| ==> Links(t, chain[j - 1], parts[j - 1], chain[j])
  }

  /** All of `parts` lead to directory `c`. */
  ghost predicate Reaches(t: Tree, parts: seq<seq<byte>>, c: int) {
    exists chain :: Descends(t, parts, chain) && |chain| == |parts| + 1 && chain[|parts|] == c
  }

  /** Some of `parts` lead to a directory that does not list the next. */
  ghost predicate Missing(t: Tree, parts: seq<seq<byte>>) {
    exists chain :: Descends(t, parts, chain) && |chain| <= |parts| && !Listed(t.dirs[chain[|chain| - 1]], parts[|chain| - 1])
  }

  /** Some of `parts` lead to a directory in which the next is a file. */
  ghost predicate Blocked(t: Tree, parts: seq<seq<byte>>) {
    exists chain, i :: Descends(t, parts, chain) && |chain| <= |parts| && Links(t, chain[|chain| - 1], parts[|chain| - 1], i) && i in t.files
  }

  /** In a well-formed tree a link is what a lookup finds. */
  lemma LookupLinks(t: Tree, d: int, name: seq<byte>)
    requires WellFormed(t) && d in t.dirs
    ensures Lookup(t.dirs[d], name).None? <==> !Listed(t.dirs[d], name)
    ensures forall i :: Lookup(t.dirs[d], name) == Some(i) <==> Links(t, d, name, i)
  {
    DirOk(t, d);
    var es := t.dirs[d];
    LookupMisses(es, name);
    forall i ensures Lookup(es, name) == Some(i) <==> Links(t, d, name, i) {
      if Listed(es, name) {
        var m :| 0 <= m < |es| && es[m].name() == name;
        LookupFinds(es, m);
        if Links(t, d, name, i) {
          var k :| 0 <= k < |es| && es[k].name() == name && es[k].inode == i;
          LookupFinds(es, k);
        }
      }
    }
  }

  /** Walking may start at the end of any descent. */
  lemma {:induction false} WalkAlong(t: Tree, parts: seq<seq<byte>>, chain: seq<int>)
    requires WellFormed(t) && Descends(t, parts, chain)
    ensures Walk(t, 0, parts) == Walk(t, chain[|chain| - 1], parts[|chain| - 1..])
    decreases |chain|
  {
    var n := |chain| - 1;
    if n == 0 {
      assert parts[0..] == parts;
    } else {
      hide WellFormed, Lookup, Links;
      WalkAlong(t, parts, chain[..n]);
      LookupLinks(t, chain[n - 1], parts[n - 1]);
      assert Links(t, chain[n - 1], parts[n - 1], chain[n]);
      assert parts[n - 1..][0] == parts[n - 1] && parts[n - 1..][1..] == parts[n..];
    }
  }

  /** The walk from the end of a descent goes one step further or says why not. */
  lemma WalkStep(t: Tree, parts: seq<seq<byte>>, chain: seq<int>)
    requires WellFormed(t) && Descends(t, parts, chain) && |chain| <= |parts|
    ensures var c, s := chain[|chain| - 1], parts[|chain| - 1];
      && (!Listed(t.dirs[c], s) ==> Walk(t, 0, parts) == Failure(NotFound))
      && (forall i :: Links(t, c, s, i) && i !in t.dirs ==> Walk(t, 0, parts) == Failure(NotADirectory))
  {
    var n := |chain| - 1;
    WalkAlong(t, parts, chain);
    LookupLinks(t, chain[n], parts[n]);
    assert parts[n..][0] == parts[n];
  }

  /** Every walk ends at the end of a descent. */
  lemma {:induction false} WalkDescends(t: Tree, parts: seq<seq<byte>>, chain: seq<int>) returns (full: seq<int>)
    requires WellFormed(t) && Descends(t, parts, chain)
    ensures Descends(t, parts, full)
    ensures var c := full[|full| - 1];
      if |full| == |parts| + 1 then Walk(t, 0, parts) == Success(c)
      else var s := parts[|full| - 1];
        if !Listed(t.dirs[c], s) then Walk(t, 0, parts) == Failure(NotFound)
        else Walk(t, 0, parts) == Failure(NotADirectory) && exists i :: Links(t, c, s, i) && i in t.files
    decreases |parts| - |chain|
  {
    full := chain;
    var n := |chain| - 1;
    if n == |parts| {
      WalkAlong(t, parts, chain);
    } else {
      WalkStep(t, parts, chain);
      LookupLinks(t, chain[n], parts[n]);
      if Listed(t.dirs[chain[n]], parts[n]) {
        var i := Lookup(t.dirs[chain[n]], parts[n]).value;
        assert Links(t, chain[n], parts[n], i);
        LookupAllocated(t, chain[n], parts[n]);
        if i in t.dirs { full := WalkDescends(t, parts, chain + [i]); }
      }
    }
  }

  /** Where a walk ends and how it fails, for every list of components: at the directory they lead to; with
      `NotFound` exactly when one is missing; with `NotADirectory` exactly when one is a file. */
  lemma WalkMeans(t: Tree, parts: seq<seq<byte>>)
    requires WellFormed(t)
    ensures forall c :: Walk(t, 0, parts) == Success(c) <==> Reaches(t, parts, c)
    ensures Walk(t, 0, parts) == Failure(NotFound) <==> Missing(t, parts)
    ensures Walk(t, 0, parts) == Failure(NotADirectory) <==> Blocked(t, parts)
    ensures Walk(t, 0, parts).Failure? ==> Missing(t, parts) || Blocked(t, parts)
  {
    hide WellFormed, Walk, Descends;
    DirOk(t, 0);
    assert Descends(t, parts, [0]) by { RootDescends(t, parts); }
    var full := WalkDescends(t, parts, [0]);
    if Missing(t, parts) { MissingFails(t, parts); }
    if Blocked(t, parts) { BlockedFails(t, parts); }
    forall c | Reaches(t, parts, c) ensures Walk(t, 0, parts) == Success(c) { ReachedSucceeds(t, parts, c); }
  }

  lemma RootDescends(t: Tree, parts: seq<seq<byte>>)
    requires 0 in t.dirs
    ensures Descends(t, parts, [0])
  {
  }

  lemma MissingFails(t: Tree, parts: seq<seq<byte>>)
    requires WellFormed(t) && Missing(t, parts)
    ensures Walk(t, 0, parts) == Failure(NotFound)
  {
    hide WellFormed, Walk;
    var chain :| Descends(t, parts, chain) && |chain| <= |parts| && !Listed(t.dirs[chain[|chain| - 1]], parts[|chain| - 1]);
    WalkStep(t, parts, chain);
  }

  lemma BlockedFails(t: Tree, parts: seq<seq<byte>>)
    requires WellFormed(t) && Blocked(t, parts)
    ensures Walk(t, 0, parts) == Failure(NotADirectory)
  {
    hide WellFormed, Walk;
    var chain, i :| Descends(t, parts, chain) && |chain| <= |parts| && Links(t, chain[|chain| - 1], parts[|chain| - 1], i) && i in t.files;
    DirOk(t, 0);
    WalkStep(t, parts, chain);
  }

  lemma ReachedSucceeds(t: Tree, parts: seq<seq<byte>>, c: int)
    requires WellFormed(t) && Reaches(t, parts, c)
    ensures Walk(t, 0, parts) == Success(c)
  {
    hide WellFormed;
    var chain :| Descends(t, parts, chain) && |chain| == |parts| + 1 && chain[|parts|] == c;
    WalkAlong(t, parts, chain);
  }

  /** One more component is missing if one of the others is, or if they lead to a directory that does not list it. */
  lemma MissingSnoc(t: Tree, parts: seq<seq<byte>>, s: seq<byte>)
    ensures Missing(t, parts + [s]) <==> Missing(t, parts) || exists c :: Reaches(t, parts, c) && c in t.dirs && !Listed(t.dirs[c], s)
  {
    var more := parts + [s];
    forall chain | 0 < |chain| <= |parts| + 1 ensures Descends(t, parts, chain) <==> Descends(t, more, chain) {
      assert forall j :: 0 <= j < |parts| ==> more[j] == parts[j];
    }
    if Missing(t, more) {
      var chain :| Descends(t, more, chain) && |chain| <= |more| && !Listed(t.dirs[chain[|chain| - 1]], more[|chain| - 1]);
      if |chain| <= |parts| { assert Missing(t, parts); } else { assert Reaches(t, parts, chain[|parts|]); }
    }
    if Missing(t, parts) {
      var chain :| Descends(t, parts, chain) && |chain| <= |parts| && !Listed(t.dirs[chain[|chain| - 1]], parts[|chain| - 1]);
      assert Missing(t, more);
    }
    if c :| Reaches(t, parts, c) && c in t.dirs && !Listed(t.dirs[c], s) {
      var chain :| Descends(t, parts, chain) && |chain| == |parts| + 1 && chain[|parts|] == c;
      assert Missing(t, more);
    }
  }

  /** What resolving `path` may answer: the directory that all components but the last lead to and what the last is
      linked to there; `NotFound` exactly when a component is missing; `NotADirectory` exactly when one before the
      last is a file. */
  ghost predicate Resolves(t: Tree, path: seq<byte>, r: Outcome<Resolved>) {
    var (prefix, base) := SplitLast(path);
    var parts := Components(prefix);
    && (r.Success? ==> Reaches(t, parts, r.value.parent) && r.value.basename == base && Links(t, r.value.parent, base, r.value.inode))
    && (r == Failure(NotFound) <==> Missing(t, parts + [base])) && (r == Failure(NotADirectory) <==> Blocked(t, parts))
    && (r.Failure? ==> r.error == NotFound || r.error == NotADirectory)
  }

  lemma ResolveMeans(t: Tree, path: seq<byte>)
    requires WellFormed(t)
    ensures Resolves(t, path, Resolve(t, path))
  {
    hide Walk, Components, Missing, Blocked, Reaches, Links, LastSlash;
    var (prefix, base) := SplitLast(path);
    var parts := Components(prefix);
    WalkMeans(t, parts);
    MissingSnoc(t, parts, base);
    var parent := Walk(t, 0, parts);
    if parent.Success? {
      ReachedIsDirectory(t, parts, parent.value);
      LookupLinks(t, parent.value, base);
    }
  }

  lemma ReachedIsDirectory(t: Tree, parts: seq<seq<byte>>, c: int)
    requires Reaches(t, parts, c)
    ensures c in t.dirs
  {
  }

  // ---------------------------------------------------------------------------------------
  // Every inode has a path
  // ---------------------------------------------------------------------------------------

  ghost predicate Plain(names: seq<seq<byte>>) { forall k :: 0 <= k < |names| ==> names[k] != [] && SLASH !in names[k] }

  /** The absolute path with the given components. */
  ghost function Join(names: seq<seq<byte>>): seq<byte> {
    if names == [] then [] else Join(names[..|names| - 1]) + [SLASH] + names[|names| - 1]
  }

  lemma SplitJoined(prefix: seq<byte>, name: seq<byte>)
    requires name != [] && SLASH !in name
    ensures var path := prefix + [SLASH] + name;
      LastSlash(path) == |prefix| && path[..|prefix|] == prefix && path[|prefix| + 1..] == name && Proper(path)
  {
    var path := prefix + [SLASH] + name;
    assert path[|prefix|] == SLASH;
    assert forall j :: |prefix| < j < |path| ==> path[j] == name[j - |prefix| - 1];
  }

  lemma JoinedComponents(prefix: seq<byte>, name: seq<byte>)
    requires name != [] && SLASH !in name
    ensures Components(prefix + [SLASH] + name) == Components(prefix) + [name]
  {
    hide LastSlash;
    SplitJoined(prefix, name);
  }

  lemma JoinLast(names: seq<seq<byte>>)
    requires Plain(names) && names != []
    ensures var front, last := names[..|names| - 1], names[|names| - 1];
      && names == front + [last] && Plain(front) && last != [] && SLASH !in last
      && Join(names) == Join(front) + [SLASH] + last
  {
  }

  lemma {:induction false} ComponentsOfJoin(names: seq<seq<byte>>)
    requires Plain(names)
    ensures Components(Join(names)) == names
    decreases |names|
  {
    if names != [] {
      hide Components, LastSlash, Join, Plain;
      var front, last := names[..|names| - 1], names[|names| - 1];
      JoinLast(names);
      ComponentsOfJoin(front);
      JoinedComponents(Join(front), last);
    }
  }

  lemma {:induction false} WalkSnoc(t: Tree, c: int, parts: seq<seq<byte>>, s: seq<byte>)
    requires Walk(t, c, parts).Success?
    requires var d := Walk(t, c, parts).value; Lookup(Entries(t, d), s).Some? && Lookup(Entries(t, d), s).value in t.dirs
    ensures Walk(t, c, parts + [s]) == Success(Lookup(Entries(t, Walk(t, c, parts).value), s).value)
    decreases |parts|
  {
    if parts == [] {
      assert ([] + [s])[1..] == [];
    } else {
      assert (parts + [s])[1..] == parts[1..] + [s];
      WalkSnoc(t, Lookup(Entries(t, c), parts[0]).value, parts[1..], s);
    }
  }

  /** The names on the way to an inode. */
  lemma {:induction false} Trail(t: Tree, i: int, n: nat) returns (names: seq<seq<byte>>, d: int)
    requires WellFormed(t) && Reached(t, i, n) && n > 0
    ensures |names| == n && Plain(names) && Walk(t, 0, names[..n - 1]) == Success(d) && Lookup(Entries(t, d), names[n - 1]) == Some(i)
    decreases n
  {
    var m;
    d, m :| Names(t, d, m, i) && Reached(t, d, n - 1);
    DirOk(t, d);
    LookupFinds(t.dirs[d], m);
    var name := t.dirs[d][m].name();
    if n == 1 {
      names := [name];
      assert names[..0] == [];
    } else {
      var before, c := Trail(t, d, n - 1);
      WalkSnoc(t, 0, before[..n - 2], before[n - 2]);
      assert before[..n - 2] + [before[n - 2]] == before;
      names := before + [name];
      assert names[..n - 1] == before;
    }
  }

  /** Every allocated inode but the root is what some path resolves to. */
  lemma EveryInodeHasAPath(t: Tree, i: int) returns (path: seq<byte>)
    requires WellFormed(t) && Allocated(t, i) && i != 0
    ensures Proper(path) && Resolve(t, path).Success? && Resolve(t, path).value.inode == i
  {
    var n := HangsOffRoot(t, i);
    var names, d := Trail(t, i, n);
    hide Walk, Lookup, Join, Components, LastSlash, Plain, WellFormed, Proper;
    path := Join(names);
    JoinLast(names);
    ComponentsOfJoin(names[..n - 1]);
    SplitJoined(Join(names[..n - 1]), names[n - 1]);
  }

  // ---------------------------------------------------------------------------------------
  // Runs
  // ---------------------------------------------------------------------------------------

  lemma {:induction false} WalkSees(t: Tree, t': Tree, d: int, parts: seq<seq<byte>>)
    requires t.dirs == t'.dirs
    ensures Walk(t, d, parts) == Walk(t', d, parts)
    decreases |parts|
  {
    if parts != [] {
      var next := Lookup(Entries(t, d), parts[0]);
      if next.Some? { WalkSees(t, t', next.value, parts[1..]); }
    }
  }

  /** Resolution looks at directories alone, so appending to a file moves no path. */
  lemma AppendKeepsPaths(t: Tree, i: int, bytes: seq<byte>, path: seq<byte>)
    requires i in t.files
    ensures Resolve(AppendFile(t, i, bytes), path) == Resolve(t, path)
  {
    var t', parts := AppendFile(t, i, bytes), Components(SplitLast(path).0);
    var parent := Walk(t, 0, parts);
    assert t'.dirs == t.dirs;
    WalkSees(t, t', 0, parts);
    if parent.Success? { assert Entries(t', parent.value) == Entries(t, parent.value); }
  }

  /** One successful operation. */
  datatype Change =
    | Create(dir: int, name: seq<byte>, inode: int, isDirectory: bool)
    | Append(inode: int, bytes: seq<byte>)
    | Remove(dir: int, entry: int)

  ghost predicate Enabled(t: Tree, c: Change) {
    match c
    case Create(d, name, i, _) => CanLink(t, d, name, i)
    case Append(i, _) => i in t.files
    case Remove(d, m) => CanRemove(t, d, m)
  }

  ghost function Apply(t: Tree, c: Change): Tree
    requires Enabled(t, c)
  {
    match c
    case Create(d, name, i, isDirectory) => Linked(t, d, name, i, isDirectory)
    case Append(i, bytes) => AppendFile(t, i, bytes)
    case Remove(d, m) => RemoveFile(t, d, m)
  }

  ghost predicate Legal(t: Tree, run: seq<Change>)
    decreases |run|
  {
    run == [] || (Enabled(t, run[0]) && Legal(Apply(t, run[0]), run[1..]))
  }

  ghost function Run(t: Tree, run: seq<Change>): Tree
    requires Legal(t, run)
    decreases |run|
  {
    if run == [] then t else Run(Apply(t, run[0]), run[1..])
  }

  lemma ApplyKeepsWellFormed(t: Tree, c: Change)
    requires WellFormed(t) && Enabled(t, c)
    ensures WellFormed(Apply(t, c))
  {
    match c {
      case Create(d, name, i, isDirectory) => CreateKeepsWellFormed(t, d, name, i, isDirectory);
      case Append(i, bytes) => AppendKeepsWellFormed(t, i, bytes);
      case Remove(d, m) => RemoveKeepsWellFormed(t, d, m);
    }
  }

  /** The directory invariant holds after every run. */
  lemma {:induction false} RunKeepsWellFormed(t: Tree, run: seq<Change>)
    requires WellFormed(t) && Legal(t, run)
    ensures WellFormed(Run(t, run))
    decreases |run|
  {
    if run != [] {
      ApplyKeepsWellFormed(t, run[0]);
      RunKeepsWellFormed(Apply(t, run[0]), run[1..]);
    }
  }

  /** Everything appended to file `i` in a run, in order. */
  ghost function AppendedTo(run: seq<Change>, i: int): seq<byte>
    decreases |run|
  {
    if run == [] then []
    else AddedBy(run[0], i) + AppendedTo(run[1..], i)
  }

  ghost predicate NeverRemoved(t: Tree, run: seq<Change>, i: int)
    requires Legal(t, run)
    decreases |run|
  {
    run == [] || (i in Apply(t, run[0]).files && NeverRemoved(Apply(t, run[0]), run[1..], i))
  }

  ghost function AddedBy(c: Change, i: int): seq<byte> { if c.Append? && c.inode == i then c.bytes else [] }

  lemma ApplyToFile(t: Tree, c: Change, i: int)
    requires Enabled(t, c) && i in t.files && i in Apply(t, c).files
    ensures Apply(t, c).files[i] == t.files[i] + AddedBy(c, i)
  {
  }

  /** A file that a run does not remove holds what it held before and all that was appended to it since, no
      matter what happened to other files and directories. */
  lemma {:induction false} FileHistory(t: Tree, run: seq<Change>, i: int)
    requires Legal(t, run) && i in t.files && NeverRemoved(t, run, i)
    ensures i in Run(t, run).files && Run(t, run).files[i] == t.files[i] + AppendedTo(run, i)
    decreases |run|
  {
    if run != [] {
      ApplyToFile(t, run[0], i);
      FileHistory(Apply(t, run[0]), run[1..], i);
      var a, b, c := t.files[i], AddedBy(run[0], i), AppendedTo(run[1..], i);
      assert (a + b) + c == a + (b + c);
    }
  }
}
