/** The virtual file system over the RAM disk: a recursive search through the directories that finds
    what the flat scan finds, and parents that are the directories their children are listed in. */
module VFS {
  import opened KernelString
  import opened Options
  import opened RamDisk
  import opened Tar

  // ---------------------------------------------------------------------------- names

  /** A name up to and with its last slash. */
  function UpToSlash(t: seq<Byte>): (p: seq<Byte>)
    ensures Prefix(p, t) && (p != [] ==> IsDirName(p))
  {
    if t == [] || t[|t| - 1] == SLASH then t else UpToSlash(t[..|t| - 1])
  }

  function Stripped(s: seq<Byte>): seq<Byte> { if IsDirName(s) then s[..|s| - 1] else s }

  /** The directory part of a name; empty for what lies in the root. */
  function ParentName(s: seq<Byte>): (p: seq<Byte>)
    ensures Prefix(p, s) && (s != [] ==> |p| < |s|) && (p != [] ==> IsDirName(p))
  {
    UpToSlash(Stripped(s))
  }

  /** No slash comes after the last one. */
  lemma {:induction false} LastSlash(t: seq<Byte>)
    ensures Count(t[|UpToSlash(t)|..], SLASH) == 0
  {
    if t != [] && t[|t| - 1] != SLASH {
      var u, n := t[..|t| - 1], |UpToSlash(t)|;
      LastSlash(u);
      assert t[n..] == u[n..] + [t[|t| - 1]];
      assert t[n..][..|t[n..]| - 1] == u[n..];
    }
  }

  lemma {:induction false} UpToLongest(t: seq<Byte>, k: nat)
    requires k <= |t| && (k == 0 || t[k - 1] == SLASH)
    ensures k <= |UpToSlash(t)|
  {
    if t != [] && t[|t| - 1] != SLASH { UpToLongest(t[..|t| - 1], k); }
  }

  /** Behind the prefix that ends in a slash and has no slash behind it, that is the last slash. */
  lemma {:induction false} UpToUnique(t: seq<Byte>, k: nat)
    requires k <= |t| && (k == 0 || t[k - 1] == SLASH) && Count(t[k..], SLASH) == 0
    ensures UpToSlash(t) == t[..k]
  {
    if k < |t| {
      var u := t[..|t| - 1];
      assert t[k..][..|t[k..]| - 1] == u[k..] && t[k..][|t[k..]| - 1] == t[|t| - 1];
      UpToUnique(u, k);
    } else {
      assert t[..k] == t;
      if t != [] { assert UpToSlash(t) == t; }
    }
  }

  // ------------------------------------------------------------------------- the tree

  /** Names are distinct, directories are what ends in a slash, and every parent is there. */
  ghost predicate TreeOK(nodes: seq<VFSNode>) {
    && Named(nodes)
    && (forall i | 0 <= i < |nodes| ::
      nodes[i].index == i &&
      (nodes[i].fileType == Directory <==> IsDirName(nodes[i].fileName)))
    && (forall i, j | 0 <= i < |nodes| && 0 <= j < |nodes| && nodes[i].fileName == nodes[j].fileName :: i == j)
    && (forall i | 0 <= i < |nodes| :: HasParent(nodes, nodes[i].fileName))
  }

  ghost predicate HasParent(nodes: seq<VFSNode>, s: seq<Byte>) {
    ParentName(s) == [] || exists j :: 0 <= j < |nodes| && nodes[j].fileName == ParentName(s)
  }

  ghost predicate IsDirectory(nodes: seq<VFSNode>, d: VFSNode) {
    d == ROOT || (d in nodes && d.fileType == Directory)
  }

  /** A name somewhere below a directory. */
  ghost predicate Under(d: VFSNode, s: seq<Byte>) { Prefix(d.fileName, s) && |d.fileName| < |s| }

  lemma DirectoryName(nodes: seq<VFSNode>, d: VFSNode)
    requires TreeOK(nodes) && IsDirectory(nodes, d)
    ensures IsString(d.fileName) && (d.fileName == [] || IsDirName(d.fileName)) && d.fileType == Directory
  {
  }

  /** A child seen by counting slashes is a child by its name. */
  lemma ChildIffParent(nodes: seq<VFSNode>, d: VFSNode, c: VFSNode)
    requires TreeOK(nodes) && IsDirectory(nodes, d) && c in nodes
    ensures IsChild(d, c) <==> ParentName(c.fileName) == d.fileName
  {
    DirectoryName(nodes, d);
    var x, y := d.fileName, c.fileName;
    if Prefix(x, y) {
      if IsDirName(y) {
        DirChild(nodes, d, c);
      } else {
        CutSlashes(x, y);
        if |x| < |y| { NotItself(nodes, d, c); } else { SameNameSameNode(nodes, d, c); }
        hide Count, UpToSlash;
      }
    }
  }

  lemma NotItself(nodes: seq<VFSNode>, d: VFSNode, c: VFSNode)
    requires TreeOK(nodes) && IsDirectory(nodes, d) && c in nodes && |d.fileName| < |c.fileName|
    ensures c.index != d.index
  {
    var i :| 0 <= i < |nodes| && nodes[i] == c;
    if d != ROOT {
      var j :| 0 <= j < |nodes| && nodes[j] == d;
    }
  }

  lemma DirChild(nodes: seq<VFSNode>, d: VFSNode, c: VFSNode)
    requires TreeOK(nodes) && IsDirectory(nodes, d) && c in nodes && Prefix(d.fileName, c.fileName)
    requires IsDirName(c.fileName)
    ensures IsChild(d, c) <==> ParentName(c.fileName) == d.fileName
  {
    hide *;
    DirectoryName(nodes, d);
    PrefixIs(d.fileName, c.fileName);
    if d.fileName == c.fileName {
      SameNameSameNode(nodes, d, c);
    } else {
      DirSlashes(d.fileName, c.fileName);
      ChildIs(d, c);
    }
  }

  lemma PrefixIs(x: seq<Byte>, y: seq<Byte>)
    requires Prefix(x, y)
    ensures x == y || |x| < |y|
  {
  }

  /** A name is cut at x exactly when no slash comes behind x. */
  lemma CutSlashes(x: seq<Byte>, t: seq<Byte>)
    requires Prefix(x, t) && (x == [] || IsDirName(x))
    ensures Count(t, SLASH) >= Count(x, SLASH)
    ensures UpToSlash(t) == x <==> Count(t, SLASH) == Count(x, SLASH)
  {
    assert t == x + t[|x|..];
    CountJoin(x, t[|x|..], SLASH);
    hide Count;
    if Count(t[|x|..], SLASH) == 0 {
      UpToUnique(t, |x|);
    } else if UpToSlash(t) == x {
      LastSlash(t);
    }
  }

  /** The parent of a directory name has one slash less. */
  lemma DirSlashes(x: seq<Byte>, y: seq<Byte>)
    requires Prefix(x, y) && |x| < |y| && IsDirName(y) && (x == [] || IsDirName(x))
    ensures Count(y, SLASH) > Count(x, SLASH)
    ensures ParentName(y) == x <==> Count(y, SLASH) == Count(x, SLASH) + 1
  {
    var t := y[..|y| - 1];
    assert t[..|x|] == x;
    assert Count(y, SLASH) == Count(t, SLASH) + 1;
    CutSlashes(x, t);
    hide Count, UpToSlash;
  }

  lemma SameNameSameNode(nodes: seq<VFSNode>, d: VFSNode, c: VFSNode)
    requires TreeOK(nodes) && IsDirectory(nodes, d) && c in nodes && d.fileName == c.fileName
    ensures d == c && !IsChild(d, c) && |ParentName(c.fileName)| < |c.fileName|
  {
  }

  /** Whatever lies below a directory is a child of it or below a child that is a directory. */
  lemma {:induction false} Descend(nodes: seq<VFSNode>, d: VFSNode, x: VFSNode) returns (i: nat)
    requires TreeOK(nodes) && IsDirectory(nodes, d) && x in nodes && Under(d, x.fileName)
    ensures i < |nodes| && IsChild(d, nodes[i])
    ensures nodes[i] == x || (nodes[i].fileType == Directory && Under(nodes[i], x.fileName))
    decreases |x.fileName|
  {
    DirectoryName(nodes, d);
    var p := ParentName(x.fileName);
    var k :| 0 <= k < |nodes| && nodes[k] == x;
    if p == d.fileName {
      ChildIffParent(nodes, d, x);
      i := k;
    } else {
      ParentLongest(d.fileName, x.fileName);
      assert HasParent(nodes, nodes[k].fileName);
      var j :| 0 <= j < |nodes| && nodes[j].fileName == p;
      i := Descend(nodes, d, nodes[j]);
      assert p == x.fileName[..|p|];
    }
  }

  /** Among the directories above a name, its parent is the deepest. */
  lemma ParentLongest(x: seq<Byte>, y: seq<Byte>)
    requires Prefix(x, y) && |x| < |y| && (x == [] || IsDirName(x))
    ensures Prefix(x, ParentName(y)) && (ParentName(y) != x ==> |x| < |ParentName(y)|)
  {
    var t, p := Stripped(y), ParentName(y);
    assert t[..|x|] == x;
    UpToLongest(t, |x|);
    assert p == y[..|p|] && p[..|x|] == y[..|x|];
  }

  // --------------------------------------------------------------------------- search

  /** A bound on the names, which bounds the depth of the search. */
  ghost function Longest(nodes: seq<VFSNode>): (n: nat)
    ensures forall i | 0 <= i < |nodes| :: |nodes[i].fileName| <= n
  {
    if nodes == [] then 0
    else
      var n := Longest(nodes[..|nodes| - 1]);
      if |nodes[|nodes| - 1].fileName| > n then |nodes[|nodes| - 1].fileName| else n
  }

  /** r is the node with a name, if that lies below directory d. */
  ghost predicate Found(nodes: seq<VFSNode>, d: VFSNode, filename: seq<Byte>, r: Option<VFSNode>) {
    match r
    case Some(n) => n in nodes && n.fileName == filename && Under(d, filename)
    case None => forall n | n in nodes && n.fileName == filename :: !Under(d, filename)
  }

  /** The children up to the i-th do not lead to a name. */
  ghost predicate Searched(nodes: seq<VFSNode>, d: VFSNode, filename: seq<Byte>, i: nat) {
    forall k: nat | k < i :: NthChild(nodes, d, k).Some? && Fruitless(nodes, NthChild(nodes, d, k).value, filename)
  }

  ghost predicate Fruitless(nodes: seq<VFSNode>, c: VFSNode, filename: seq<Byte>) {
    c.fileName != filename && (c.fileType == Directory ==> Found(nodes, c, filename, None))
  }

  lemma TreeNamed(nodes: seq<VFSNode>)
    requires TreeOK(nodes)
    ensures Named(nodes) && |nodes| < 0xFFFF_FFFF
  {
  }

  lemma SearchStart(nodes: seq<VFSNode>, d: VFSNode, filename: seq<Byte>)
    ensures Searched(nodes, d, filename, 0)
  {
  }

  /** The node that readDir gave is a child, and in the tree. */
  lemma NthIsChild(nodes: seq<VFSNode>, d: VFSNode, i: nat)
    requires TreeOK(nodes) && IsDirectory(nodes, d) && NthChild(nodes, d, i).Some?
    ensures var c := NthChild(nodes, d, i).value;
            && c in nodes && IsChild(d, c) && i < |nodes| && IsString(c.fileName)
            && ParentName(c.fileName) == d.fileName && c.fileName != [] && Under(d, c.fileName)
            && (c.fileType == Directory ==> IsDirectory(nodes, c))
  {
    var s := Children(nodes, d, |nodes|);
    assert s[i] in s;
    var c := nodes[s[i]];
    ChildIffParent(nodes, d, c);
    assert c.fileName != [];
  }

  lemma SearchNext(nodes: seq<VFSNode>, d: VFSNode, filename: seq<Byte>, i: nat)
    requires Searched(nodes, d, filename, i) && NthChild(nodes, d, i).Some?
    requires var c := NthChild(nodes, d, i).value;
              c.fileName != filename &&
              (c.fileType == Directory ==> Found(nodes, c, filename, None))
    ensures Searched(nodes, d, filename, i + 1)
  {
    hide Found;
  }

  /** When all children were tried, each of them is fruitless. */
  lemma AllFruitless(nodes: seq<VFSNode>, d: VFSNode, filename: seq<Byte>, i: nat, j: nat)
    requires Searched(nodes, d, filename, i) && NthChild(nodes, d, i) == None && j < |nodes| && IsChild(d, nodes[j])
    ensures Fruitless(nodes, nodes[j], filename)
  {
    ChildListed(nodes, d, j, |nodes|);
    var s := Children(nodes, d, |nodes|);
    var k: nat :| k < |s| && s[k] == j;
    assert NthChild(nodes, d, k) == Some(nodes[j]);
  }

  lemma FruitlessMeans(nodes: seq<VFSNode>, c: VFSNode, x: VFSNode)
    requires Fruitless(nodes, c, x.fileName) && x in nodes
    ensures c != x && !(c.fileType == Directory && Under(c, x.fileName))
  {
  }

  /** And the name is nowhere below. */
  lemma SearchEnd(nodes: seq<VFSNode>, d: VFSNode, filename: seq<Byte>, i: nat)
    requires TreeOK(nodes) && IsDirectory(nodes, d) && Searched(nodes, d, filename, i) && NthChild(nodes, d, i) == None
    ensures Found(nodes, d, filename, None)
  {
    forall x | x in nodes && x.fileName == filename ensures !Under(d, filename) {
      hide *;
      if Under(d, filename) {
        var j := Descend(nodes, d, x);
        AllFruitless(nodes, d, filename, i, j);
        FruitlessMeans(nodes, nodes[j], x);
      }
    }
  }

  lemma MakeFound(nodes: seq<VFSNode>, d: VFSNode, c: VFSNode)
    requires c in nodes && Under(d, c.fileName)
    ensures Found(nodes, d, c.fileName, Some(c))
  {
  }

  lemma ChildDeeper(nodes: seq<VFSNode>, d: VFSNode, c: VFSNode)
    requires TreeOK(nodes) && c in nodes && Under(d, c.fileName)
    ensures |d.fileName| < |c.fileName| <= Longest(nodes)
  {
    var i :| 0 <= i < |nodes| && nodes[i] == c;
    assert |nodes[i].fileName| <= Longest(nodes);
  }

  lemma FoundBelow(nodes: seq<VFSNode>, d: VFSNode, c: VFSNode, filename: seq<Byte>, f: Option<VFSNode>)
    requires Found(nodes, c, filename, f) && f.Some? && Under(d, c.fileName)
    ensures Found(nodes, d, filename, f) && f.value.fileName == filename
  {
    assert filename[..|d.fileName|] == c.fileName[..|d.fileName|];
  }

  /** VFS_searchForFile. */
  method SearchForFile(disk: Disk, node: VFSNode, filename: seq<Byte>) returns (r: Option<VFSNode>)
    requires disk.numberOfFiles == disk.fileNodes.Length && TreeOK(disk.fileNodes[..])
    requires IsDirectory(disk.fileNodes[..], node) && IsString(filename)
    ensures Found(disk.fileNodes[..], node, filename, r)
    decreases Longest(disk.fileNodes[..]) + 1 - |node.fileName|
  {
    hide *;
    ghost var nodes := disk.fileNodes[..];
    TreeNamed(nodes);
    DirectoryName(nodes, node);
    SearchStart(nodes, node, filename);
    var i := 0;
    while true
      invariant Searched(nodes, node, filename, i) && i <= |nodes|
      decreases |nodes| - i
    {
      var n := disk.ReadDir(node, i);
      if n == None {
        SearchEnd(nodes, node, filename, i);
        return None;
      }
      NthIsChild(nodes, node, i);
      var d := Compare(n.value.fileName, filename);
      if d == 0 {
        MakeFound(nodes, node, n.value);
        return Some(n.value);
      }
      var f: Option<VFSNode> := None;
      if n.value.fileType == Directory {
        ChildDeeper(nodes, node, n.value);
        f := SearchForFile(disk, n.value, filename);
      }
      if f != None {
        FoundBelow(nodes, node, n.value, filename, f);
        var e := Compare(f.value.fileName, filename);
        if e == 0 {
          return f;
        }
      }
      SearchNext(nodes, node, filename, i);
      i := i + 1;
    }
  }

  /** Searching from the root finds exactly what the flat scan finds. */
  lemma SearchIsScan(nodes: seq<VFSNode>, filename: seq<Byte>, r: Option<VFSNode>, scanned: Option<VFSNode>)
    requires TreeOK(nodes) && Found(nodes, ROOT, filename, r)
    requires scanned.Some? ==> scanned.value in nodes && scanned.value.fileName == filename
    requires scanned.None? ==> forall n | n in nodes :: n.fileName != filename
    ensures r == scanned
  {
    forall n | n in nodes && n.fileName == filename ensures Under(ROOT, filename) {
      assert n.fileName != [];
    }
  }

  // -------------------------------------------------------------------------- parents

  /** The end of VFS_getParent's loop: the name cut behind its last slash. */
  method CutBehindSlash(t: seq<Byte>) returns (name: seq<Byte>)
    requires Count(t, SLASH) > 0
    ensures name == UpToSlash(t) && name != []
  {
    name := t;
    LastSlash(t);
    assert t[0..] == t && t[..|t|] == t;
    var i := |t| - 1;
    while i >= 0
      invariant -1 <= i < |t| && name == t && UpToSlash(t) == UpToSlash(t[..i + 1])
    {
      assert t[..i + 1][..i] == t[..i];
      if name[i] == SLASH {
        name := name[..i + 1];
        break;
      }
      i := i - 1;
    }
  }

  /** VFS_getParent. */
  method GetParent(disk: Disk, child: VFSNode) returns (r: Option<VFSNode>)
    requires disk.numberOfFiles == disk.fileNodes.Length && TreeOK(disk.fileNodes[..]) && child in disk.fileNodes[..]
    ensures r.Some? && IsDirectory(disk.fileNodes[..], r.value)
    ensures r.value.fileName == ParentName(child.fileName) && IsChild(r.value, child)
  {
    hide *;
    ghost var nodes := disk.fileNodes[..];
    ChildName(nodes, child);
    SlashIs();
    var childName := child.fileName;
    var depth := CountChar(childName, 47);
    FewSlashes(nodes, child);
    if depth == 0 {
      return Some(ROOT);
    }
    if child.fileType == Directory {
      if depth == 1 {
        return Some(ROOT);
      }
      childName := childName[..|childName| - 1];
    }
    childName := CutBehindSlash(childName);
    r := SearchForFile(disk, ROOT, childName);
    ParentFound(nodes, child, r);
  }

  lemma ChildName(nodes: seq<VFSNode>, c: VFSNode)
    requires TreeOK(nodes) && c in nodes
    ensures IsString(c.fileName) && c.fileName != [] && IsDirectory(nodes, ROOT) && IsString(ParentName(c.fileName))
    ensures ParentName(c.fileName) == UpToSlash(if c.fileType == Directory then c.fileName[..|c.fileName| - 1]
              else c.fileName)
  {
    hide *;
    NodeName(nodes, c);
    NameOfParent(c.fileName);
  }

  lemma NodeName(nodes: seq<VFSNode>, c: VFSNode)
    requires TreeOK(nodes) && c in nodes
    ensures IsString(c.fileName) && c.fileName != [] && IsDirectory(nodes, ROOT)
    ensures c.fileType == Directory <==> IsDirName(c.fileName)
  {
    hide HasParent, IsString, IsDirName;
  }

  lemma NameOfParent(s: seq<Byte>)
    requires IsString(s)
    ensures IsString(ParentName(s))
    ensures IsDirName(s) ==> |s| > 0
    ensures ParentName(s) == UpToSlash(if IsDirName(s) then s[..|s| - 1] else s)
  {
    var p := ParentName(s);
    assert p == s[..|p|];
    hide UpToSlash;
  }

  /** Without a slash, or with only the one that ends a directory's name, the parent is the root. */
  lemma FewSlashes(nodes: seq<VFSNode>, c: VFSNode)
    requires TreeOK(nodes) && c in nodes
    ensures var n, d := Count(c.fileName, SLASH), c.fileType == Directory;
            && (n == 0 || (d && n == 1) ==> ParentName(c.fileName) == [] == ROOT.fileName && IsChild(ROOT, c))
            && (!(n == 0 || (d && n == 1)) ==>
              Count(if d then c.fileName[..|c.fileName| - 1] else c.fileName, SLASH) > 0)
  {
    var s := c.fileName;
    var t := Stripped(s);
    assert IsDirName(s) ==> Count(s, SLASH) == Count(t, SLASH) + 1;
    CutSlashes([], t);
    assert Count([], SLASH) == 0;
    hide Count, UpToSlash;
    ChildIffParent(nodes, ROOT, c);
  }

  lemma ParentFound(nodes: seq<VFSNode>, c: VFSNode, r: Option<VFSNode>)
    requires TreeOK(nodes) && c in nodes && ParentName(c.fileName) != []
    requires Found(nodes, ROOT, ParentName(c.fileName), r)
    ensures r.Some? && IsDirectory(nodes, r.value) && r.value.fileName == ParentName(c.fileName) && IsChild(r.value, c)
  {
    var k :| 0 <= k < |nodes| && nodes[k] == c;
    assert HasParent(nodes, nodes[k].fileName);
    var j :| 0 <= j < |nodes| && nodes[j].fileName == ParentName(c.fileName);
    assert nodes[j] in nodes && Under(ROOT, nodes[j].fileName);
    ChildIffParent(nodes, r.value, c);
  }

  /** A directory lists exactly the nodes it is the parent of. */
  lemma ListedIffParent(nodes: seq<VFSNode>, d: VFSNode, c: VFSNode, parent: VFSNode)
    requires TreeOK(nodes) && IsDirectory(nodes, d) && IsDirectory(nodes, parent) && c in nodes
    requires parent.fileName == ParentName(c.fileName)
    ensures (exists k: nat :: NthChild(nodes, d, k) == Some(c)) <==> d == parent
  {
    ChildIffParent(nodes, d, c);
    if d == parent {
      var i :| 0 <= i < |nodes| && nodes[i] == c;
      ChildListed(nodes, d, i, |nodes|);
      var s := Children(nodes, d, |nodes|);
      var k: nat :| k < |s| && s[k] == i;
      assert NthChild(nodes, d, k) == Some(c);
    } else {
      SameDirectory(nodes, d, parent);
      forall k: nat ensures NthChild(nodes, d, k) != Some(c) {
        if NthChild(nodes, d, k).Some? { NthIsChild(nodes, d, k); }
      }
    }
  }

  lemma SameDirectory(nodes: seq<VFSNode>, d: VFSNode, e: VFSNode)
    requires TreeOK(nodes) && IsDirectory(nodes, d) && IsDirectory(nodes, e)
    ensures d == e <==> d.fileName == e.fileName
  {
  }

  /** Files that make a tree: directories and only they end in a slash, parents are stored too. */
  ghost predicate FilesOK(files: seq<File>) {
    && |files| < 0xFFFF_FFFF
    && (forall i | 0 <= i < |files| :: Storable(files[i]) && NameRead(files[i]) == files[i].name)
    && (forall i | 0 <= i < |files| :: files[i].kind == 53 <==> IsDirName(files[i].name))
    && (forall i, j | 0 <= i < |files| && 0 <= j < |files| && files[i].name == files[j].name :: i == j)
    && (forall i | 0 <= i < |files| :: ParentName(files[i].name) == [] || exists j ::
      0 <= j < |files| && files[j].name == ParentName(files[i].name))
  }

  /** The nodes parsed from an archive of such files. */
  lemma ParsedTree(files: seq<File>, nodes: seq<VFSNode>)
    requires FilesOK(files) && |nodes| == |files| && forall i | 0 <= i < |files| :: nodes[i] == NodeOf(files[i], i)
    ensures TreeOK(nodes)
  {
    hide *;
    forall i | 0 <= i < |nodes|
      ensures nodes[i].index == i && (nodes[i].fileType == Directory <==> IsDirName(nodes[i].fileName))
      ensures IsString(nodes[i].fileName) && nodes[i].fileName != [] && nodes[i].fileName == files[i].name
    {
      ParsedNode(files, i);
    }
    ParsedApart(files, nodes);
    forall i | 0 <= i < |nodes| ensures HasParent(nodes, nodes[i].fileName) {
      ParsedParent(files, nodes, i);
    }
    MakeTree(nodes);
  }

  lemma ParsedApart(files: seq<File>, nodes: seq<VFSNode>)
    requires FilesOK(files) && |nodes| == |files| && forall i | 0 <= i < |nodes| :: nodes[i].fileName == files[i].name
    ensures |nodes| < 0xFFFF_FFFF
    ensures forall i, j | 0 <= i < |nodes| && 0 <= j < |nodes| && nodes[i].fileName == nodes[j].fileName :: i == j
  {
    hide ParentName, IsDirName, Storable, NameRead;
  }

  lemma ParsedParent(files: seq<File>, nodes: seq<VFSNode>, i: nat)
    requires FilesOK(files) && |nodes| == |files| && forall j | 0 <= j < |nodes| :: nodes[j].fileName == files[j].name
    requires i < |nodes|
    ensures HasParent(nodes, nodes[i].fileName)
  {
    hide ParentName, IsDirName, Storable, NameRead;
    if ParentName(files[i].name) != [] {
      var j :| 0 <= j < |files| && files[j].name == ParentName(files[i].name);
      assert nodes[j].fileName == ParentName(files[i].name);
    }
  }

  lemma MakeTree(nodes: seq<VFSNode>)
    requires |nodes| < 0xFFFF_FFFF
    requires forall i | 0 <= i < |nodes| :: IsString(nodes[i].fileName) && nodes[i].fileName != []
    requires forall i | 0 <= i < |nodes| ::
               nodes[i].index == i && (nodes[i].fileType == Directory <==> IsDirName(nodes[i].fileName))
    requires forall i, j | 0 <= i < |nodes| && 0 <= j < |nodes| && nodes[i].fileName == nodes[j].fileName :: i == j
    requires forall i | 0 <= i < |nodes| :: HasParent(nodes, nodes[i].fileName)
    ensures TreeOK(nodes)
  {
    hide HasParent, IsString, IsDirName;
  }

  lemma ParsedNode(files: seq<File>, i: nat)
    requires FilesOK(files) && i < |files|
    ensures var n := NodeOf(files[i], i);
            && n.index == i && (n.fileType == Directory <==> IsDirName(n.fileName))
            && IsString(n.fileName) && n.fileName != [] && n.fileName == files[i].name
  {
    assert Storable(files[i]);
    hide ParentName, IsString, IsDirName;
  }
}
