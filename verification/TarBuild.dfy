/** build_tar over an in-memory directory tree. */
module TarBuild {
  import opened Octets
  import opened Results
  import opened Tar
  import opened TarHeader
  import opened Utf8

  /** What the file system holds at a path; children come in the order of their names. */
  datatype Node = FileNode(data: seq<Byte>) | DirNode(children: seq<Child>) | OtherNode
  datatype Child = Child(name: seq<Byte>, node: Node)

  const BACKSLASH: Byte := 92
  const PERIOD: Byte := 46
  const TMP: seq<Byte> := [116, 109, 112]

  /** "desertemail-backup/data/" */
  const DATA_ROOT: seq<Byte> :=
    [100, 101, 115, 101, 114, 116, 101, 109, 97, 105, 108, 45, 98, 97, 99, 107, 117, 112, 47, 100, 97, 116, 97, 47]

  // ----- paths -----

  function NonEmpty(parts: seq<seq<Byte>>): (r: seq<seq<Byte>>)
    ensures forall i :: 0 <= i < |r| ==> r[i] != []
  {
    if parts == [] then [] else (if parts[0] == [] then [] else [parts[0]]) + NonEmpty(parts[1..])
  }

  function Pieces(path: seq<Byte>): seq<seq<Byte>> {
    NonEmpty(SplitBytes(path, SLASH))
  }

  function WithoutDots(parts: seq<seq<Byte>>): seq<seq<Byte>> {
    if parts == [] then []
    else (if parts[0] in {[PERIOD], [PERIOD, PERIOD]} then [] else [parts[0]]) + WithoutDots(parts[1..])
  }

  function ForwardSlashes(s: seq<Byte>): seq<Byte> {
    seq(|s|, i requires 0 <= i < |s| => if s[i] == BACKSLASH then SLASH else s[i])
  }

  function Normalize(path: seq<Byte>): seq<Byte> {
    JoinBytes(WithoutDots(Pieces(ForwardSlashes(path))), SLASH)
  }

  function Excluded(rel: seq<Byte>): bool {
    TMP in Pieces(rel)
  }

  function BelowDataRoot(path: seq<Byte>): seq<Byte> {
    if DATA_ROOT <= path then path[|DATA_ROOT|..] else path
  }

  lemma {:induction false} NonEmptyIn(parts: seq<seq<Byte>>, x: seq<Byte>)
    ensures x in NonEmpty(parts) <==> x in parts && x != []
    decreases |parts|
  {
    if parts != [] {
      NonEmptyIn(parts[1..], x);
      assert parts == [parts[0]] + parts[1..];
    }
  }

  /** A path is excluded exactly when one of its components is tmp. */
  lemma ExcludedMeans(parts: seq<seq<Byte>>)
    requires parts != [] && forall i :: 0 <= i < |parts| ==> 47 !in parts[i]
    ensures Excluded(JoinBytes(parts, 47)) <==> [116, 109, 112] in parts
  {
    SplitOfJoin(parts, SLASH);
    NonEmptyIn(parts, [116, 109, 112]);
  }

  /** The leading directories that do not count for exclusion. */
  lemma DataRootIs(rest: seq<Byte>)
    ensures |DATA_ROOT| == 24 && forall i :: 0 <= i < 24 ==> DATA_ROOT[i] == "desertemail-backup/data/"[i] as int
    ensures BelowDataRoot(DATA_ROOT + rest) == rest
  {
    var t := "desertemail-backup/data/";
    assert t[0] == 'd' && t[1] == 'e' && t[2] == 's' && t[3] == 'e' && t[4] == 'r' && t[5] == 't' && t[6] == 'e';
    assert t[7] == 'm' && t[8] == 'a' && t[9] == 'i' && t[10] == 'l' && t[11] == '-' && t[12] == 'b' && t[13] == 'a';
    assert t[14] == 'c' && t[15] == 'k' && t[16] == 'u' && t[17] == 'p' && t[18] == '/' && t[19] == 'd';
    assert t[20] == 'a' && t[21] == 't' && t[22] == 'a' && t[23] == '/';
    assert (DATA_ROOT + rest)[..24] == DATA_ROOT;
  }

  /** A component that keeps its place in a path: not empty, not a dot or two. */
  predicate Real(part: seq<Byte>) {
    part != [] && part != [46] && part != [46, 46]
  }

  lemma {:induction false} KeptParts(parts: seq<seq<Byte>>)
    ensures (forall i :: 0 <= i < |parts| ==> Real(parts[i])) ==> WithoutDots(NonEmpty(parts)) == parts
    decreases |parts|
  {
    if parts == [] {
    } else {
      KeptParts(parts[1..]);
      assert parts == [parts[0]] + parts[1..];
      if Real(parts[0]) {
        assert NonEmpty(parts) == [parts[0]] + NonEmpty(parts[1..]);
        assert NonEmpty(parts)[1..] == NonEmpty(parts[1..]);
      }
    }
  }

  lemma {:induction false} DroppedPart(a: seq<seq<Byte>>, x: seq<Byte>, b: seq<seq<Byte>>)
    requires !Real(x)
    ensures WithoutDots(NonEmpty(a + [x] + b)) == WithoutDots(NonEmpty(a + b))
    decreases |a|
  {
    if a == [] {
      assert a + [x] + b == [x] + b && a + b == b;
      DotsStep(x, b);
    } else {
      assert (a + [x] + b)[1..] == a[1..] + [x] + b && (a + b)[1..] == a[1..] + b;
      DroppedPart(a[1..], x, b);
      DotsStep(a[0], a[1..] + [x] + b);
      DotsStep(a[0], a[1..] + b);
      assert a + [x] + b == [a[0]] + (a[1..] + [x] + b) && a + b == [a[0]] + (a[1..] + b);
    }
  }

  lemma DotsStep(p: seq<Byte>, rest: seq<seq<Byte>>)
    ensures WithoutDots(NonEmpty([p] + rest))
         == (if Real(p) then [p] else []) + WithoutDots(NonEmpty(rest))
  {
    var more, dots := NonEmpty(rest), WithoutDots(NonEmpty(rest));
    assert ([p] + rest)[1..] == rest && [] + more == more && [] + dots == dots;
    if p != [] {
      assert NonEmpty([p] + rest) == [p] + more && ([p] + more)[1..] == more;
    }
  }

  lemma {:induction false} SlashesForward(parts: seq<seq<Byte>>, sep: Byte)
    requires sep in {47, 92} && forall i :: 0 <= i < |parts| ==> 47 !in parts[i] && 92 !in parts[i]
    ensures ForwardSlashes(JoinBytes(parts, sep)) == JoinBytes(parts, 47)
    decreases |parts|
  {
    if parts == [] {
    } else if |parts| == 1 {
      NoSlashes(parts[0]);
    } else {
      SlashesForward(parts[1..], sep);
      NoSlashes(parts[0]);
      ForwardJoin(parts[0], sep, JoinBytes(parts[1..], sep));
    }
  }

  lemma NoSlashes(s: seq<Byte>)
    requires 92 !in s
    ensures ForwardSlashes(s) == s
  {
  }

  lemma ForwardJoin(a: seq<Byte>, sep: Byte, b: seq<Byte>)
    requires sep in {47, 92}
    ensures ForwardSlashes(a + [sep] + b) == ForwardSlashes(a) + [47] + ForwardSlashes(b)
  {
  }

  lemma NormalizeIs(parts: seq<seq<Byte>>, sep: Byte)
    requires parts != [] && sep in {47, 92}
    requires forall i :: 0 <= i < |parts| ==> 47 !in parts[i] && 92 !in parts[i]
    ensures Normalize(JoinBytes(parts, sep)) == JoinBytes(WithoutDots(NonEmpty(parts)), 47)
  {
    hide JoinBytes, SplitBytes, ForwardSlashes, NonEmpty, WithoutDots;
    SlashesForward(parts, sep);
    SplitOfJoin(parts, SLASH);
  }

  /** Names of archive entries: slashes of either kind separate components, which stay in order if all are real. */
  lemma NormalizeMeans(parts: seq<seq<Byte>>, sep: Byte)
    requires parts != [] && sep in {47, 92}
    requires forall i :: 0 <= i < |parts| ==> 47 !in parts[i] && 92 !in parts[i] && Real(parts[i])
    ensures Normalize(JoinBytes(parts, sep)) == JoinBytes(parts, 47)
  {
    hide JoinBytes, NonEmpty, WithoutDots, Real, Normalize;
    NormalizeIs(parts, sep);
    KeptParts(parts);
  }

  /** Empty components, dots and double dots drop out, wherever they stand. */
  lemma NormalizeDrops(a: seq<seq<Byte>>, x: seq<Byte>, b: seq<seq<Byte>>, sep: Byte)
    requires !Real(x) && a + b != [] && sep in {47, 92}
    requires forall i :: 0 <= i < |a + b| ==> 47 !in (a + b)[i] && 92 !in (a + b)[i]
    ensures Normalize(JoinBytes(a + [x] + b, sep)) == Normalize(JoinBytes(a + b, sep))
  {
    var all := a + [x] + b;
    forall i | 0 <= i < |all| ensures 47 !in all[i] && 92 !in all[i] {
      assert i < |a| ==> all[i] == (a + b)[i];
      assert i > |a| ==> all[i] == (a + b)[i - 1];
    }
    hide JoinBytes, NonEmpty, WithoutDots, Real, Normalize;
    NormalizeIs(all, sep);
    NormalizeIs(a + b, sep);
    DroppedPart(a, x, b);
  }

  // ----- what a walk produces -----

  /** Members in order, directories already seen, paths reported as skipped. */
  datatype Progress = Progress(items: seq<Item>, seen: set<seq<Byte>>, skipped: seq<seq<Byte>>)

  const NOTHING := Progress([], {}, [])

  function Fits(path: seq<Byte>): bool {
    SplitPath(path).Ok?
  }

  function WithFile(p: Progress, path: seq<Byte>, data: seq<Byte>, now: nat): Progress {
    if Fits(path) then p.(items := p.items + [FileItem(path, data, now)]) else p.(skipped := p.skipped + [path])
  }

  /** A parent directory is marked as seen even when its header does not fit. */
  function WithParent(p: Progress, dir: seq<Byte>, now: nat): Progress {
    if dir in p.seen then p
    else Progress(if Fits(dir) then p.items + [DirItem(dir, now)] else p.items, p.seen + {dir}, p.skipped)
  }

  function ParentPath(parts: seq<seq<Byte>>, k: nat): seq<Byte>
    requires k <= |parts|
  {
    JoinBytes(parts[..k], SLASH) + [SLASH]
  }

  function WithParents(p: Progress, parts: seq<seq<Byte>>, k: nat, now: nat): Progress
    requires k <= |parts|
  {
    if k == 0 then p else WithParent(WithParents(p, parts, k - 1, now), ParentPath(parts, k), now)
  }

  function Walked(p: Progress, prefix: seq<Byte>, children: seq<Child>, now: nat): Progress
    decreases children, |children| + 1
  {
    var dir := EndsWithSlash(prefix);
    if dir in p.seen then WalkedChildren(p, dir, children, |children|, now)
    else if !Fits(dir) then p.(skipped := p.skipped + [dir])
    else WalkedChildren(WithParent(p, dir, now), dir, children, |children|, now)
  }

  /** After the first k children. */
  function WalkedChildren(p: Progress, dir: seq<Byte>, children: seq<Child>, k: nat, now: nat): Progress
    requires k <= |children|
    decreases children, k
  {
    if k == 0 then p
    else
      var q := WalkedChildren(p, dir, children, k - 1, now);
      var child := children[k - 1];
      var path := dir + child.name;
      if child.name in {[PERIOD], [PERIOD, PERIOD]} || Excluded(BelowDataRoot(path)) then q
      else match child.node
           case DirNode(below) => Walked(q, path, below, now)
           case FileNode(data) => WithFile(q, path, data, now)
           case OtherNode => q
  }

  /** After ensure_parent_dirs. */
  function Parented(p: Progress, path: seq<Byte>, now: nat): Progress {
    var parts := Pieces(path);
    if |parts| <= 1 then p else WithParents(p, parts, |parts| - 1, now)
  }

  function WithEntry(p: Progress, entry: Child, now: nat): Progress {
    var path := Normalize(entry.name);
    if path == [] then p
    else
      var q := Parented(p, path, now);
      match entry.node
      case DirNode(children) => Walked(q, path, children, now)
      case FileNode(data) => WithFile(q, path, data, now)
      case OtherNode => q.(skipped := q.skipped + [path])
  }

  function Built(entries: seq<Child>, now: nat): Progress
    decreases |entries|
  {
    if entries == [] then NOTHING else WithEntry(Built(entries[..|entries| - 1], now), entries[|entries| - 1], now)
  }

  // ----- every directory once -----

  /** Only paths that fit became members, each directory once and only when marked as seen. */
  ghost predicate Sound(p: Progress) {
    && AllWritable(p.items)
    && (forall i :: 0 <= i < |p.items| && p.items[i].DirItem? ==> p.items[i].path in p.seen)
    && (forall i, j :: 0 <= i < j < |p.items| && p.items[i].DirItem? && p.items[j].DirItem?
                       ==> p.items[i].path != p.items[j].path)
  }

  lemma {:induction false} ParentsSound(p: Progress, parts: seq<seq<Byte>>, k: nat, now: nat)
    requires Sound(p) && k <= |parts|
    ensures Sound(WithParents(p, parts, k, now))
    decreases k
  {
    hide Fits, ParentPath;
    if k == 0 {
    } else {
      ParentsSound(p, parts, k - 1, now);
      ParentSound(WithParents(p, parts, k - 1, now), ParentPath(parts, k), now);
    }
  }

  lemma ParentSound(p: Progress, dir: seq<Byte>, now: nat)
    requires Sound(p)
    ensures Sound(WithParent(p, dir, now))
  {
  }

  lemma FileSound(p: Progress, path: seq<Byte>, data: seq<Byte>, now: nat)
    requires Sound(p)
    ensures Sound(WithFile(p, path, data, now))
  {
  }

  lemma {:induction false} WalkSound(p: Progress, prefix: seq<Byte>, children: seq<Child>, now: nat)
    requires Sound(p)
    ensures Sound(Walked(p, prefix, children, now))
    decreases children, |children| + 1
  {
    hide Fits, WithParent;
    var dir := EndsWithSlash(prefix);
    ParentSound(p, dir, now);
    if dir in p.seen {
      WalkChildrenSound(p, dir, children, |children|, now);
    } else if Fits(dir) {
      WalkChildrenSound(WithParent(p, dir, now), dir, children, |children|, now);
    }
  }

  lemma {:induction false} WalkChildrenSound(p: Progress, dir: seq<Byte>, children: seq<Child>, k: nat, now: nat)
    requires Sound(p) && k <= |children|
    ensures Sound(WalkedChildren(p, dir, children, k, now))
    decreases children, k
  {
    hide Excluded, BelowDataRoot, WithFile, Sound;
    if k == 0 {
    } else {
      WalkChildrenSound(p, dir, children, k - 1, now);
      var q, child := WalkedChildren(p, dir, children, k - 1, now), children[k - 1];
      match child.node {
        case DirNode(below) => WalkSound(q, dir + child.name, below, now);
        case FileNode(data) => FileSound(q, dir + child.name, data, now);
        case OtherNode =>
      }
    }
  }

  lemma {:induction false} EntrySound(p: Progress, entry: Child, now: nat)
    requires Sound(p)
    ensures Sound(WithEntry(p, entry, now))
  {
    var path := Normalize(entry.name);
    var parts := Pieces(path);
    if |parts| > 1 { ParentsSound(p, parts, |parts| - 1, now); }
    var q := Parented(p, path, now);
    hide Normalize, Pieces, Walked, WithFile, WithParents, Parented;
    match entry.node {
      case DirNode(children) => WalkSound(q, path, children, now);
      case FileNode(data) => FileSound(q, path, data, now);
      case OtherNode =>
    }
  }

  /** Whatever tree is archived, no directory appears twice in the archive. */
  lemma {:induction false} DirectoriesOnce(entries: seq<Child>, now: nat)
    ensures Sound(Built(entries, now))
    decreases |entries|
  {
    hide WithEntry;
    if entries == [] {
    } else {
      DirectoriesOnce(entries[..|entries| - 1], now);
      EntrySound(Built(entries[..|entries| - 1], now), entries[|entries| - 1], now);
    }
  }

  // ----- which files the archive holds, by the tree alone -----

  /** A directory is entered when it was marked before or its header fits. */
  predicate Enters(marked: set<seq<Byte>>, dir: seq<Byte>) {
    dir in marked || Fits(dir)
  }

  /** Following the names down from one child leads to the node. */
  ghost predicate Via(child: Child, names: seq<seq<Byte>>, node: Node)
    decreases |names|, 0
  {
    names != [] && child.name == names[0]
    && if |names| == 1 then child.node == node
       else child.node.DirNode? && Reaches(child.node.children, names[1..], node)
  }

  ghost predicate Reaches(children: seq<Child>, names: seq<seq<Byte>>, node: Node)
    decreases |names|, 1
  {
    exists k :: 0 <= k < |children| && Via(children[k], names, node)
  }

  /** The member path of a node below a directory. */
  function PathOf(dir: seq<Byte>, names: seq<seq<Byte>>): seq<Byte>
    requires names != []
    decreases |names|
  {
    if |names| == 1 then dir + names[0] else PathOf(EndsWithSlash(dir + names[0]), names[1..])
  }

  predicate Taken(dir: seq<Byte>, name: seq<Byte>) {
    name !in {[PERIOD], [PERIOD, PERIOD]} && !Excluded(BelowDataRoot(dir + name))
  }

  /** No name on the way is a dot name or excluded, and every directory on the way is entered. */
  predicate Open(marked: set<seq<Byte>>, dir: seq<Byte>, names: seq<seq<Byte>>)
    requires names != []
    decreases |names|
  {
    Taken(dir, names[0])
    && (|names| > 1 ==>
          var below := EndsWithSlash(dir + names[0]);
          Enters(marked, below) && Open(marked, below, names[1..]))
  }

  /** Some way leads to a file with these bytes and this path, is open, and the path fits. */
  ghost predicate FileBelow(marked: set<seq<Byte>>, dir: seq<Byte>, children: seq<Child>, path: seq<Byte>,
                            data: seq<Byte>)
  {
    Fits(path)
    && exists names :: names != [] && Reaches(children, names, FileNode(data)) && Open(marked, dir, names)
                       && path == PathOf(dir, names)
  }

  /** The same through one child. */
  ghost predicate FileVia(marked: set<seq<Byte>>, dir: seq<Byte>, child: Child, path: seq<Byte>, data: seq<Byte>) {
    Fits(path)
    && exists names :: names != [] && Via(child, names, FileNode(data)) && Open(marked, dir, names)
                       && path == PathOf(dir, names)
  }

  lemma FileThroughChild(marked: set<seq<Byte>>, dir: seq<Byte>, child: Child, path: seq<Byte>, data: seq<Byte>)
    ensures FileVia(marked, dir, child, path, data)
       <==> Taken(dir, child.name)
            && match child.node
               case FileNode(d) => d == data && path == dir + child.name && Fits(path)
               case DirNode(below) =>
                 var sub := EndsWithSlash(dir + child.name);
                 Enters(marked, sub) && FileBelow(marked, sub, below, path, data)
               case OtherNode => false
  {
    hide Taken, Enters, Fits, EndsWithSlash, FileBelow;
    if FileVia(marked, dir, child, path, data) {
      var names :| names != [] && Via(child, names, FileNode(data)) && Open(marked, dir, names)
                   && path == PathOf(dir, names);
      if child.node.DirNode? {
        FoundBelow(marked, EndsWithSlash(dir + child.name), child.node.children, names[1..], path, data);
      }
    }
    var name := child.name;
    if child.node == FileNode(data) && Taken(dir, name) && path == dir + name && Fits(path) {
      assert Via(child, [name], FileNode(data)) && Open(marked, dir, [name]) && PathOf(dir, [name]) == path;
    }
    if child.node.DirNode? && Taken(dir, name) && Enters(marked, EndsWithSlash(dir + name))
       && FileBelow(marked, EndsWithSlash(dir + name), child.node.children, path, data) {
      BelowFound(marked, dir, child, path, data);
    }
  }

  lemma FoundBelow(marked: set<seq<Byte>>, dir: seq<Byte>, children: seq<Child>, names: seq<seq<Byte>>, path: seq<Byte>,
                   data: seq<Byte>)
    requires Fits(path) && names != [] && Reaches(children, names, FileNode(data)) && Open(marked, dir, names)
    requires path == PathOf(dir, names)
    ensures FileBelow(marked, dir, children, path, data)
  {
    hide Fits, Reaches, Open, PathOf;
  }

  lemma BelowFound(marked: set<seq<Byte>>, dir: seq<Byte>, child: Child, path: seq<Byte>, data: seq<Byte>)
    requires child.node.DirNode? && Taken(dir, child.name) && Enters(marked, EndsWithSlash(dir + child.name))
    requires FileBelow(marked, EndsWithSlash(dir + child.name), child.node.children, path, data)
    ensures FileVia(marked, dir, child, path, data)
  {
    hide Taken, Enters, Fits, EndsWithSlash, Reaches;
    var sub, below := EndsWithSlash(dir + child.name), child.node.children;
    var rest :| rest != [] && Reaches(below, rest, FileNode(data)) && Open(marked, sub, rest)
                && path == PathOf(sub, rest);
    var names := [child.name] + rest;
    assert names[1..] == rest;
    assert Via(child, names, FileNode(data)) && Open(marked, dir, names) && PathOf(dir, names) == path;
  }

  lemma FileBelowStep(marked: set<seq<Byte>>, dir: seq<Byte>, children: seq<Child>, k: nat, path: seq<Byte>,
                      data: seq<Byte>)
    requires k < |children|
    ensures FileBelow(marked, dir, children[..k + 1], path, data)
       <==> FileBelow(marked, dir, children[..k], path, data) || FileVia(marked, dir, children[k], path, data)
  {
    hide Via, Open, PathOf, Fits;
    forall names | names != []
      ensures Reaches(children[..k + 1], names, FileNode(data))
         <==> Reaches(children[..k], names, FileNode(data)) || Via(children[k], names, FileNode(data))
    {
      ReachesStep(children, k, names, FileNode(data));
    }
  }

  lemma ReachesStep(children: seq<Child>, k: nat, names: seq<seq<Byte>>, node: Node)
    requires k < |children|
    ensures Reaches(children[..k + 1], names, node)
       <==> Reaches(children[..k], names, node) || Via(children[k], names, node)
  {
    hide Via;
    var more := children[..k + 1];
    assert more[k] == children[k];
    if Reaches(children[..k], names, node) {
      var i :| 0 <= i < k && Via(children[..k][i], names, node);
      assert more[i] == children[..k][i];
    }
    if Reaches(more, names, node) {
      var i :| 0 <= i < |more| && Via(more[i], names, node);
      if i < k { assert children[..k][i] == more[i]; }
    }
  }

  /** A walk marks only directories that fit, so it opens no way that was closed. */
  ghost predicate SameDoors(a: set<seq<Byte>>, b: set<seq<Byte>>) {
    forall d :: Enters(a, d) <==> Enters(b, d)
  }

  lemma MarkedParent(p: Progress, dir: seq<Byte>, marked: set<seq<Byte>>, now: nat, item: Item)
    requires SameDoors(p.seen, marked) && Fits(dir) && item.FileItem?
    ensures SameDoors(WithParent(p, dir, now).seen, marked)
    ensures item in WithParent(p, dir, now).items <==> item in p.items
  {
    hide Fits;
    forall d ensures Enters(WithParent(p, dir, now).seen, d) <==> Enters(marked, d) {
      assert Enters(p.seen, d) <==> Enters(marked, d);
    }
  }

  /** A walk adds exactly the files the tree shows below its directory. */
  lemma {:induction false} WalkFiles(p: Progress, prefix: seq<Byte>, children: seq<Child>, now: nat,
                                     marked: set<seq<Byte>>, path: seq<Byte>, data: seq<Byte>, m: nat)
    requires SameDoors(p.seen, marked)
    ensures var q, dir := Walked(p, prefix, children, now), EndsWithSlash(prefix);
            SameDoors(q.seen, marked)
            && (FileItem(path, data, m) in q.items
                <==> FileItem(path, data, m) in p.items
                     || (m == now && Enters(marked, dir) && FileBelow(marked, dir, children, path, data)))
    decreases children, |children| + 1
  {
    hide Fits, EndsWithSlash, FileBelow, WithParent;
    var dir := EndsWithSlash(prefix);
    assert Enters(p.seen, dir) <==> Enters(marked, dir);
    assert children[..|children|] == children;
    if dir in p.seen {
      WalkChildrenFiles(p, dir, children, |children|, now, marked, path, data, m);
    } else if Fits(dir) {
      MarkedParent(p, dir, marked, now, FileItem(path, data, m));
      WalkChildrenFiles(WithParent(p, dir, now), dir, children, |children|, now, marked, path, data, m);
    }
  }

  lemma {:induction false} WalkChildrenFiles(p: Progress, dir: seq<Byte>, children: seq<Child>, k: nat, now: nat,
                                             marked: set<seq<Byte>>, path: seq<Byte>, data: seq<Byte>, m: nat)
    requires SameDoors(p.seen, marked) && k <= |children|
    ensures var q := WalkedChildren(p, dir, children, k, now);
            SameDoors(q.seen, marked)
            && (FileItem(path, data, m) in q.items
                <==> FileItem(path, data, m) in p.items
                      || (m == now && FileBelow(marked, dir, children[..k], path, data)))
    decreases children, k
  {
    hide Fits, EndsWithSlash, FileBelow, FileVia, SameDoors, Excluded, BelowDataRoot, Enters, Walked;
    if k == 0 {
      NothingBelow(marked, dir, path, data);
      assert children[..0] == [];
    } else {
      var q, child := WalkedChildren(p, dir, children, k - 1, now), children[k - 1];
      WalkChildrenFiles(p, dir, children, k - 1, now, marked, path, data, m);
      FileBelowStep(marked, dir, children, k - 1, path, data);
      FileThroughChild(marked, dir, child, path, data);
      if child.node.DirNode? {
        WalkFiles(q, dir + child.name, child.node.children, now, marked, path, data, m);
      }
    }
  }

  lemma NothingBelow(marked: set<seq<Byte>>, dir: seq<Byte>, path: seq<Byte>, data: seq<Byte>)
    ensures !FileBelow(marked, dir, [], path, data)
  {
    hide Open, PathOf, Fits;
  }

  /** The parent directories of an entry, all marked whether they fit or not. */
  function ParentsOf(entry: Child): set<seq<Byte>> {
    var parts := Pieces(Normalize(entry.name));
    set k: nat | 0 < k < |parts| :: ParentPath(parts, k)
  }

  function MarksOf(entries: seq<Child>): set<seq<Byte>> {
    if entries == [] then {} else MarksOf(entries[..|entries| - 1]) + ParentsOf(entries[|entries| - 1])
  }

  /** Entry e puts the file into the archive: as itself, or from the directory tree it names. */
  ghost predicate Archives(entries: seq<Child>, e: nat, path: seq<Byte>, data: seq<Byte>)
    requires e < |entries|
  {
    var root, marked := Normalize(entries[e].name), MarksOf(entries[..e + 1]);
    root != []
    && match entries[e].node
       case FileNode(d) => d == data && path == root && Fits(root)
       case DirNode(children) =>
         Enters(marked, EndsWithSlash(root)) && FileBelow(marked, EndsWithSlash(root), children, path, data)
       case OtherNode => false
  }

  lemma {:induction false} ParentsMarked(p: Progress, parts: seq<seq<Byte>>, k: nat, now: nat, item: Item)
    requires k <= |parts| && item.FileItem?
    ensures WithParents(p, parts, k, now).seen == p.seen + set j: nat | 0 < j <= k :: ParentPath(parts, j)
    ensures item in WithParents(p, parts, k, now).items <==> item in p.items
    decreases k
  {
    hide Fits, ParentPath;
    if k == 0 {
    } else {
      ParentsMarked(p, parts, k - 1, now, item);
      ParentMarked(WithParents(p, parts, k - 1, now), ParentPath(parts, k), now, item);
      assert (set j: nat | 0 < j <= k :: ParentPath(parts, j))
          == (set j: nat | 0 < j <= k - 1 :: ParentPath(parts, j)) + {ParentPath(parts, k)};
    }
  }

  lemma ParentMarked(p: Progress, dir: seq<Byte>, now: nat, item: Item)
    requires item.FileItem?
    ensures WithParent(p, dir, now).seen == p.seen + {dir}
    ensures item in WithParent(p, dir, now).items <==> item in p.items
  {
    hide Fits;
  }

  lemma MarkMore(a: set<seq<Byte>>, b: set<seq<Byte>>, more: set<seq<Byte>>)
    requires SameDoors(a, b)
    ensures SameDoors(a + more, b + more)
  {
    hide Fits;
    forall d ensures Enters(a + more, d) <==> Enters(b + more, d) {
      assert Enters(a, d) <==> Enters(b, d);
    }
  }

  /** The progress after an entry's parents are marked. */
  lemma EntryParents(p: Progress, entry: Child, now: nat, marked: set<seq<Byte>>, item: Item)
    requires SameDoors(p.seen, marked) && item.FileItem?
    ensures var q := Parented(p, Normalize(entry.name), now);
            SameDoors(q.seen, marked + ParentsOf(entry)) && (item in q.items <==> item in p.items)
  {
    hide Pieces, Normalize, ParentPath, SameDoors, WithParents;
    var parts := Pieces(Normalize(entry.name));
    MarkMore(p.seen, marked, ParentsOf(entry));
    if |parts| <= 1 {
      assert ParentsOf(entry) == {};
      assert p.seen + {} == p.seen;
    } else {
      ParentsMarked(p, parts, |parts| - 1, now, item);
      assert ParentsOf(entry) == set j: nat | 0 < j <= |parts| - 1 :: ParentPath(parts, j);
    }
  }

  lemma NoParents(entry: Child)
    requires Normalize(entry.name) == []
    ensures ParentsOf(entry) == {}
  {
    hide Normalize;
    assert Pieces([]) == NonEmpty([[]]) == [] + NonEmpty([[]][1..]);
  }

  /** A file is in the archive, with its bytes, exactly when some entry archives it. */
  lemma {:induction false} FilesArchived(entries: seq<Child>, now: nat, path: seq<Byte>, data: seq<Byte>, m: nat)
    ensures SameDoors(Built(entries, now).seen, MarksOf(entries))
    ensures FileItem(path, data, m) in Built(entries, now).items
       <==> m == now && exists e :: 0 <= e < |entries| && Archives(entries, e, path, data)
    decreases |entries|
  {
    hide WithEntry, Archives, Fits;
    if entries == [] {
    } else {
      var n := |entries| - 1;
      FilesArchived(entries[..n], now, path, data, m);
      EntryFiles(Built(entries[..n], now), entries, now, path, data, m);
      EarlierEntries(entries, path, data);
    }
  }

  lemma EarlierEntries(entries: seq<Child>, path: seq<Byte>, data: seq<Byte>)
    requires entries != []
    ensures var n := |entries| - 1;
            forall e :: 0 <= e < n ==> (Archives(entries[..n], e, path, data) <==> Archives(entries, e, path, data))
  {
    hide FileBelow, Enters, Normalize, Fits, MarksOf;
    var n := |entries| - 1;
    forall e | 0 <= e < n ensures entries[..n][..e + 1] == entries[..e + 1] && entries[..n][e] == entries[e] {
    }
  }

  /** What the last entry adds. */
  lemma EntryFiles(p: Progress, entries: seq<Child>, now: nat, path: seq<Byte>, data: seq<Byte>, m: nat)
    requires entries != [] && SameDoors(p.seen, MarksOf(entries[..|entries| - 1]))
    ensures var q, n := WithEntry(p, entries[|entries| - 1], now), |entries| - 1;
            SameDoors(q.seen, MarksOf(entries))
            && (FileItem(path, data, m) in q.items
                <==> FileItem(path, data, m) in p.items || (m == now && Archives(entries, n, path, data)))
  {
    hide SameDoors, FileBelow, Enters, Normalize, Fits, Pieces, ParentsOf, Parented, Walked;
    var entry, root := entries[|entries| - 1], Normalize(entries[|entries| - 1].name);
    assert entries[..|entries|] == entries;
    if root == [] {
      NoParents(entry);
      assert MarksOf(entries[..|entries| - 1]) + {} == MarksOf(entries[..|entries| - 1]);
    } else {
      EntryParents(p, entry, now, MarksOf(entries[..|entries| - 1]), FileItem(path, data, m));
      var q := Parented(p, root, now);
      if entry.node.DirNode? {
        WalkFiles(q, root, entry.node.children, now, MarksOf(entries), path, data, m);
      }
    }
  }

  // ----- which directories the archive holds -----

  /** A directory is walked: this one, or one below an open name. */
  ghost predicate DirBelow(marked: set<seq<Byte>>, dir: seq<Byte>, children: seq<Child>, d: seq<Byte>)
    decreases children, |children| + 1
  {
    Enters(marked, dir) && (d == dir || DirAmong(marked, dir, children, |children|, d))
  }

  ghost predicate DirAmong(marked: set<seq<Byte>>, dir: seq<Byte>, children: seq<Child>, k: nat, d: seq<Byte>)
    requires k <= |children|
    decreases children, k
  {
    k > 0
    && (DirAmong(marked, dir, children, k - 1, d) ||
        (Taken(dir, children[k - 1].name) && children[k - 1].node.DirNode?
         && DirBelow(marked, EndsWithSlash(dir + children[k - 1].name), children[k - 1].node.children, d)))
  }

  /** The directory is a parent of entry e, or walked because of it. */
  ghost predicate DirOf(entries: seq<Child>, e: nat, d: seq<Byte>)
    requires e < |entries|
  {
    var root := Normalize(entries[e].name);
    d in ParentsOf(entries[e])
    || (root != [] && entries[e].node.DirNode?
        && DirBelow(MarksOf(entries[..e + 1]), EndsWithSlash(root), entries[e].node.children, d))
  }

  lemma {:induction false} WalkDirs(p: Progress, prefix: seq<Byte>, children: seq<Child>, now: nat,
                                    marked: set<seq<Byte>>, d: seq<Byte>)
    requires SameDoors(p.seen, marked)
    ensures var q, dir := Walked(p, prefix, children, now), EndsWithSlash(prefix);
            SameDoors(q.seen, marked) && (d in q.seen <==> d in p.seen || DirBelow(marked, dir, children, d))
    decreases children, |children| + 1
  {
    hide Fits, EndsWithSlash, WithParent, DirAmong;
    var dir := EndsWithSlash(prefix);
    assert Enters(p.seen, dir) <==> Enters(marked, dir);
    if dir in p.seen {
      WalkChildrenDirs(p, dir, children, |children|, now, marked, d);
    } else if Fits(dir) {
      MarkedParent(p, dir, marked, now, FileItem([], [], 0));
      ParentMarked(p, dir, now, FileItem([], [], 0));
      WalkChildrenDirs(WithParent(p, dir, now), dir, children, |children|, now, marked, d);
    }
  }

  lemma {:induction false} WalkChildrenDirs(p: Progress, dir: seq<Byte>, children: seq<Child>, k: nat, now: nat,
                                            marked: set<seq<Byte>>, d: seq<Byte>)
    requires SameDoors(p.seen, marked) && k <= |children|
    ensures var q := WalkedChildren(p, dir, children, k, now);
            SameDoors(q.seen, marked) && (d in q.seen <==> d in p.seen || DirAmong(marked, dir, children, k, d))
    decreases children, k
  {
    hide Fits, EndsWithSlash, SameDoors, Excluded, BelowDataRoot, Enters, Walked, DirBelow;
    if k == 0 {
    } else {
      var q, child := WalkedChildren(p, dir, children, k - 1, now), children[k - 1];
      WalkChildrenDirs(p, dir, children, k - 1, now, marked, d);
      if child.node.DirNode? {
        WalkDirs(q, dir + child.name, child.node.children, now, marked, d);
      }
    }
  }

  /** What the last entry marks. */
  lemma EntryDirs(p: Progress, entries: seq<Child>, now: nat, d: seq<Byte>)
    requires entries != [] && SameDoors(p.seen, MarksOf(entries[..|entries| - 1]))
    ensures var q, n := WithEntry(p, entries[|entries| - 1], now), |entries| - 1;
            d in q.seen <==> d in p.seen || DirOf(entries, n, d)
  {
    hide SameDoors, DirBelow, Enters, Normalize, Fits, Pieces, ParentsOf, Parented, Walked;
    var entry, root := entries[|entries| - 1], Normalize(entries[|entries| - 1].name);
    assert entries[..|entries|] == entries;
    if root == [] {
      NoParents(entry);
    } else {
      EntryParents(p, entry, now, MarksOf(entries[..|entries| - 1]), FileItem([], [], 0));
      ParentedSeen(p, entry, now, d);
      var q := Parented(p, root, now);
      if entry.node.DirNode? {
        WalkDirs(q, root, entry.node.children, now, MarksOf(entries), d);
      }
    }
  }

  lemma ParentedSeen(p: Progress, entry: Child, now: nat, d: seq<Byte>)
    ensures d in Parented(p, Normalize(entry.name), now).seen <==> d in p.seen || d in ParentsOf(entry)
  {
    hide Pieces, Normalize, ParentPath, WithParents;
    var parts := Pieces(Normalize(entry.name));
    if |parts| > 1 {
      ParentsMarked(p, parts, |parts| - 1, now, FileItem([], [], 0));
      assert ParentsOf(entry) == set j: nat | 0 < j <= |parts| - 1 :: ParentPath(parts, j);
    }
  }

  lemma {:induction false} SeenAre(entries: seq<Child>, now: nat, d: seq<Byte>)
    ensures d in Built(entries, now).seen <==> exists e :: 0 <= e < |entries| && DirOf(entries, e, d)
    decreases |entries|
  {
    hide WithEntry, DirOf, Fits;
    if entries == [] {
    } else {
      var n := |entries| - 1;
      SeenAre(entries[..n], now, d);
      FilesArchived(entries[..n], now, [], [], 0);
      EntryDirs(Built(entries[..n], now), entries, now, d);
      EarlierDirs(entries, d);
    }
  }

  lemma EarlierDirs(entries: seq<Child>, d: seq<Byte>)
    requires entries != []
    ensures var n := |entries| - 1;
            forall e :: 0 <= e < n ==> (DirOf(entries[..n], e, d) <==> DirOf(entries, e, d))
  {
    hide DirBelow, Normalize, MarksOf, ParentsOf;
    var n := |entries| - 1;
    forall e | 0 <= e < n ensures entries[..n][..e + 1] == entries[..e + 1] && entries[..n][e] == entries[e] {
    }
  }

  /** A directory has a header exactly when it was marked and its path fits. */
  ghost predicate DirsMatch(p: Progress, d: seq<Byte>, m: nat, now: nat) {
    DirItem(d, m) in p.items <==> m == now && d in p.seen && Fits(d)
  }

  lemma MatchParent(p: Progress, dir: seq<Byte>, d: seq<Byte>, m: nat, now: nat)
    requires DirsMatch(p, d, m, now)
    ensures DirsMatch(WithParent(p, dir, now), d, m, now)
  {
    hide Fits;
  }

  lemma {:induction false} MatchParents(p: Progress, parts: seq<seq<Byte>>, k: nat, d: seq<Byte>, m: nat, now: nat)
    requires DirsMatch(p, d, m, now) && k <= |parts|
    ensures DirsMatch(WithParents(p, parts, k, now), d, m, now)
    decreases k
  {
    hide Fits, ParentPath, DirsMatch;
    if k > 0 {
      MatchParents(p, parts, k - 1, d, m, now);
      MatchParent(WithParents(p, parts, k - 1, now), ParentPath(parts, k), d, m, now);
    }
  }

  lemma MatchFile(p: Progress, path: seq<Byte>, data: seq<Byte>, d: seq<Byte>, m: nat, now: nat)
    requires DirsMatch(p, d, m, now)
    ensures DirsMatch(WithFile(p, path, data, now), d, m, now)
  {
    hide Fits;
  }

  lemma {:induction false} MatchWalk(p: Progress, prefix: seq<Byte>, children: seq<Child>, d: seq<Byte>, m: nat,
        now: nat)
    requires DirsMatch(p, d, m, now)
    ensures DirsMatch(Walked(p, prefix, children, now), d, m, now)
    decreases children, |children| + 1
  {
    hide Fits, WithParent, DirsMatch;
    var dir := EndsWithSlash(prefix);
    MatchParent(p, dir, d, m, now);
    if dir in p.seen {
      MatchChildren(p, dir, children, |children|, d, m, now);
    } else if Fits(dir) {
      MatchChildren(WithParent(p, dir, now), dir, children, |children|, d, m, now);
    } else {
      Skipping(p, dir, d, m, now);
    }
  }

  lemma Skipping(p: Progress, dir: seq<Byte>, d: seq<Byte>, m: nat, now: nat)
    requires DirsMatch(p, d, m, now)
    ensures DirsMatch(p.(skipped := p.skipped + [dir]), d, m, now)
  {
    hide Fits;
  }

  lemma {:induction false} MatchChildren(p: Progress, dir: seq<Byte>, children: seq<Child>, k: nat, d: seq<Byte>,
        m: nat, now: nat)
    requires DirsMatch(p, d, m, now) && k <= |children|
    ensures DirsMatch(WalkedChildren(p, dir, children, k, now), d, m, now)
    decreases children, k
  {
    hide Excluded, BelowDataRoot, WithFile, DirsMatch;
    if k > 0 {
      MatchChildren(p, dir, children, k - 1, d, m, now);
      var q, child := WalkedChildren(p, dir, children, k - 1, now), children[k - 1];
      match child.node {
        case DirNode(below) => MatchWalk(q, dir + child.name, below, d, m, now);
        case FileNode(data) => MatchFile(q, dir + child.name, data, d, m, now);
        case OtherNode =>
      }
    }
  }

  lemma MatchEntry(p: Progress, entry: Child, d: seq<Byte>, m: nat, now: nat)
    requires DirsMatch(p, d, m, now)
    ensures DirsMatch(WithEntry(p, entry, now), d, m, now)
  {
    hide Normalize, Pieces, Walked, WithFile, WithParents, DirsMatch;
    var path := Normalize(entry.name);
    var parts := Pieces(path);
    if |parts| > 1 { MatchParents(p, parts, |parts| - 1, d, m, now); }
    var q := Parented(p, path, now);
    match entry.node {
      case DirNode(children) => MatchWalk(q, path, children, d, m, now);
      case FileNode(data) => MatchFile(q, path, data, d, m, now);
      case OtherNode => Skipping(q, path, d, m, now);
    }
  }

  lemma {:induction false} MatchBuilt(entries: seq<Child>, d: seq<Byte>, m: nat, now: nat)
    ensures DirsMatch(Built(entries, now), d, m, now)
    decreases |entries|
  {
    hide WithEntry, Fits;
    if entries != [] {
      MatchBuilt(entries[..|entries| - 1], d, m, now);
      MatchEntry(Built(entries[..|entries| - 1], now), entries[|entries| - 1], d, m, now);
    }
  }

  /** A directory has a header in the archive exactly when its path fits and it is a parent of some entry, or is walked
      because of one. */
  lemma DirectoriesArchived(entries: seq<Child>, now: nat, d: seq<Byte>, m: nat)
    ensures DirItem(d, m) in Built(entries, now).items
       <==> m == now && Fits(d) && exists e :: 0 <= e < |entries| && DirOf(entries, e, d)
  {
    hide Built, DirOf, Fits;
    MatchBuilt(entries, d, m, now);
    SeenAre(entries, now, d);
  }

  // ----- the builder -----

  lemma {:induction false} ArchiveSnoc(items: seq<Item>, item: Item)
    requires AllWritable(items) && Writable(item)
    ensures AllWritable(items + [item])
    ensures ArchiveBytes(items + [item]) == ArchiveBytes(items) + ItemBytes(item)
    decreases |items|
  {
    hide ItemBytes, Writable;
    if items == [] {
      assert items + [item] == [item];
      assert ArchiveBytes([item]) == ItemBytes(item) + ArchiveBytes([]);
    } else {
      ArchiveSnoc(items[1..], item);
      assert (items + [item])[1..] == items[1..] + [item];
      assert ItemBytes(items[0]) + (ArchiveBytes(items[1..]) + ItemBytes(item))
          == ItemBytes(items[0]) + ArchiveBytes(items[1..]) + ItemBytes(item);
    }
  }

  lemma FileBytes(out: seq<Byte>, path: seq<Byte>, data: seq<Byte>, now: nat)
    requires SplitPath(path).Ok?
    ensures var (name, prefix) := SplitPath(path).value;
            out + Header(name, prefix, |data|, FILE, FILE_MODE, now) + data + Zeros(PaddingFor(|data|))
            == out + ItemBytes(FileItem(path, data, now))
  {
    hide Header, SplitPath;
    var (name, prefix) := SplitPath(path).value;
    var h := Header(name, prefix, |data|, FILE, FILE_MODE, now);
    assert ItemBytes(FileItem(path, data, now)) == h + (data + Zeros(PaddingFor(|data|)));
  }

  lemma DirBytes(path: seq<Byte>, now: nat)
    requires SplitPath(path).Ok?
    ensures var (name, prefix) := SplitPath(path).value;
            ItemBytes(DirItem(path, now)) == Header(name, prefix, 0, DIR, DIR_MODE, now)
  {
    hide Header, SplitPath;
  }

  /** The archive under construction; items records what the bytes stand for. */
  class TarBuilder {
    var out: seq<Byte>
    var seen: set<seq<Byte>>
    var skipped: seq<seq<Byte>>
    const now: nat
    ghost var items: seq<Item>

    ghost function State(): Progress
      reads this
    {
      Progress(items, seen, skipped)
    }

    ghost predicate Valid()
      reads this
    {
      AllWritable(items) && out == ArchiveBytes(items)
    }

    constructor (now: nat)
      ensures Valid() && State() == NOTHING && this.now == now
    {
      this.now := now;
      out, seen, skipped, items := [], {}, [], [];
    }

    method AddFile(arc: seq<Byte>, data: seq<Byte>) returns (ok: bool)
      requires Valid()
      modifies this
      ensures Valid() && ok == Fits(arc)
      ensures seen == old(seen) && skipped == old(skipped)
      ensures items == if ok then old(items) + [FileItem(arc, data, now)] else old(items)
    {
      hide ArchiveBytes, Header, SplitPath, ItemBytes;
      var h := WriteHeader(out, arc, |data|, FILE, FILE_MODE, now);
      if h.Err? { return false; }
      ghost var item := FileItem(arc, data, now);
      ArchiveSnoc(items, item);
      FileBytes(out, arc, data, now);
      out := h.value;
      out := out + data;
      var pad := (BLOCK - |data| % BLOCK) % BLOCK;
      out := out + ZeroBytes(pad);
      items := items + [item];
      ok := true;
    }

    method AddDir(dir: seq<Byte>) returns (ok: bool)
      requires Valid()
      modifies this
      ensures Valid() && ok == Fits(dir)
      ensures seen == old(seen) && skipped == old(skipped)
      ensures items == if ok then old(items) + [DirItem(dir, now)] else old(items)
    {
      hide ArchiveBytes, Header, SplitPath, ItemBytes;
      var h := WriteHeader(out, dir, 0, DIR, DIR_MODE, now);
      if h.Err? { return false; }
      ghost var item := DirItem(dir, now);
      ArchiveSnoc(items, item);
      DirBytes(dir, now);
      out := h.value;
      items := items + [item];
      ok := true;
    }

    method EnsureParentDirs(arc: seq<Byte>)
      requires Valid()
      modifies this
      ensures Valid()
      ensures State() == Parented(old(State()), arc, now)
    {
      hide Pieces, Fits, JoinBytes, ArchiveBytes, AllWritable;
      var parts := Pieces(arc);
      if |parts| <= 1 { return; }
      for k := 0 to |parts| - 1
        invariant Valid() && State() == WithParents(old(State()), parts, k, now)
      {
        var d := JoinBytes(parts[..k + 1], SLASH) + [SLASH];
        if d !in seen {
          var ok := AddDir(d);
          seen := seen + {d};
        }
      }
    }

    /** Writes the directory's own header unless it was seen; false when it does not fit. */
    method EnterDir(dir: seq<Byte>) returns (ok: bool)
      requires Valid()
      modifies this
      ensures Valid() && ok == (dir in old(seen) || Fits(dir))
      ensures State() == if dir in old(seen) then old(State()) else if Fits(dir) then WithParent(old(State()), dir, now)
                         else old(State()).(skipped := old(skipped) + [dir])
    {
      hide Fits;
      if dir in seen { return true; }
      ok := AddDir(dir);
      if !ok {
        skipped := skipped + [dir];
        return;
      }
      seen := seen + {dir};
    }

    method AddDirRecursive(prefix: seq<Byte>, children: seq<Child>)
      requires Valid()
      modifies this
      ensures Valid() && State() == Walked(old(State()), prefix, children, now)
      decreases children
    {
      hide Fits, Excluded, BelowDataRoot, WithParent, ArchiveBytes, AllWritable;
      var dir := EndsWithSlash(prefix);
      var ok := EnterDir(dir);
      if !ok { return; }
      ghost var start := State();
      for k := 0 to |children|
        invariant Valid() && State() == WalkedChildren(start, dir, children, k, now)
      {
        var child := children[k];
        if child.name == [PERIOD] || child.name == [PERIOD, PERIOD] { continue; }
        var path := dir + child.name;
        if Excluded(BelowDataRoot(path)) { continue; }
        match child.node {
          case DirNode(below) => AddDirRecursive(path, below);
          case FileNode(data) =>
            var fits := AddFile(path, data);
            if !fits { skipped := skipped + [path]; }
          case OtherNode =>
        }
      }
    }

    method AddEntry(entry: Child)
      requires Valid()
      modifies this
      ensures Valid() && State() == WithEntry(old(State()), entry, now)
    {
      hide Normalize, Pieces, Fits, Walked, WithParents;
      var arc := Normalize(entry.name);
      if arc == [] { return; }
      EnsureParentDirs(arc);
      match entry.node {
        case DirNode(children) => AddDirRecursive(arc, children);
        case FileNode(data) =>
          var ok := AddFile(arc, data);
          if !ok { skipped := skipped + [arc]; }
        case OtherNode => skipped := skipped + [arc];
      }
    }
  }

  /** build_tar: the archive of everything the walk found, ended by two zero blocks. */
  method BuildTar(entries: seq<Child>, now: nat) returns (out: seq<Byte>, skipped: seq<seq<Byte>>)
    ensures AllWritable(Built(entries, now).items)
    ensures out == ArchiveBytes(Built(entries, now).items) + Zeros(2 * BLOCK)
    ensures skipped == Built(entries, now).skipped
  {
    hide WithEntry, ArchiveBytes;
    var builder := new TarBuilder(now);
    for i := 0 to |entries|
      invariant builder.Valid() && builder.State() == Built(entries[..i], now) && builder.now == now
    {
      assert entries[..i + 1][..i] == entries[..i];
      builder.AddEntry(entries[i]);
    }
    assert entries[..|entries|] == entries;
    out, skipped := builder.out + ZeroBytes(2 * BLOCK), builder.skipped;
  }

  /** A file is listed, with its bytes, exactly when some entry archives it under that path, edge slashes aside. */
  lemma FilesListed(entries: seq<Child>, now: nat, listed: seq<Byte>, data: seq<Byte>)
    ensures TarEntry(listed, false, data) in Listing(Built(entries, now).items)
       <==> exists path :: TrimSlashes(path) == listed && Archived(entries, path, data)
  {
    hide Archives, Built, TrimSlashes;
    var items := Built(entries, now).items;
    if TarEntry(listed, false, data) in Listing(items) {
      var i :| 0 <= i < |items| && Listing(items)[i] == TarEntry(listed, false, data);
      FilesArchived(entries, now, items[i].path, data, items[i].mtime);
      assert items[i] in items;
    }
    if path :| TrimSlashes(path) == listed && Archived(entries, path, data) {
      FilesArchived(entries, now, path, data, now);
      var i :| 0 <= i < |items| && items[i] == FileItem(path, data, now);
      assert Listing(items)[i] == TarEntry(listed, false, data);
    }
  }

  ghost predicate Archived(entries: seq<Child>, path: seq<Byte>, data: seq<Byte>) {
    exists e :: 0 <= e < |entries| && Archives(entries, e, path, data)
  }

  /** Building and reading back: the listing of the walk, in order. */
  method BuildAndParse(entries: seq<Child>, now: nat, lossy: seq<Byte> -> seq<Byte>)
      returns (listing: Result<seq<TarEntry>, TarError>)
    requires AllStorable(Built(entries, now).items) && Faithful(lossy)
    ensures listing == Ok(Listing(Built(entries, now).items))
  {
    hide Built, Entries, ArchiveBytes, Storable, Faithful;
    var out, _ := BuildTar(entries, now);
    ArchiveRoundTrip(Built(entries, now).items, [], lossy);
    assert out + [] == out;
    listing := ParseTar(out, lossy);
  }
}
