/** The RAM disk: one node per file of the archive, a flat scan by name, and directories listed by
    counting slashes. */
module RamDisk {
  import opened KernelString
  import opened Options
  import opened Sequences
  import opened Tar

  datatype FileType = NoType | Normal | Directory | CharDevice | BlockDevice | Pipe | SoftSymlink

  datatype VFSNode = VFSNode(fileName: seq<Byte>, index: int, fileType: FileType, fileSize: nat)

  const SLASH: Byte := 47
  const ROOT: VFSNode := VFSNode([], 0xFFFF_FFFF, Directory, 0)

  /** The types '0' to '6' of a header; nodes of any other type keep what calloc left. */
  function TypeOf(kind: Byte): FileType {
    if kind == 48 then Normal
    else if kind == 53 then Directory
    else if kind == 54 then Pipe
    else if kind == 49 || kind == 50 then SoftSymlink
    else if kind == 51 then CharDevice
    else if kind == 52 then BlockDevice
    else NoType
  }

  function NodeOf(f: File, i: nat): VFSNode { VFSNode(NameRead(f), i, TypeOf(f.kind), |f.data|) }

  lemma NodeMeans(f: File, i: nat)
    ensures var n, kind, t := NodeOf(f, i), f.kind, TypeOf(f.kind);
            && n.fileType == t && n.fileSize == |f.data| && n.index == i && (|f.name| < 100 ==> n.fileName == f.name)
            && (kind == 48 <==> t == Normal) && (kind == 53 <==> t == Directory) && (kind == 54 <==> t == Pipe)
            && (kind == 49 || kind == 50 <==> t == SoftSymlink)
            && (kind == 51 <==> t == CharDevice) && (kind == 52 <==> t == BlockDevice)
  {
  }

  // -------------------------------------------------------------------------- directories

  predicate IsDirName(s: seq<Byte>) { s != [] && s[|s| - 1] == SLASH }

  /** What RamDisk_readDir takes for a child of directory d. */
  ghost predicate IsChild(d: VFSNode, c: VFSNode) {
    && Prefix(d.fileName, c.fileName)
    && ((Count(c.fileName, SLASH) == Count(d.fileName, SLASH) && c.index != d.index)
        || (Count(c.fileName, SLASH) == Count(d.fileName, SLASH) + 1 && IsDirName(c.fileName)))
  }

  /** The children among the first n nodes. */
  ghost function Children(nodes: seq<VFSNode>, d: VFSNode, n: nat): (s: seq<int>)
    requires n <= |nodes|
    ensures |s| <= n && forall i | i in s :: 0 <= i < n && IsChild(d, nodes[i])
  {
    if n == 0 then [] else Children(nodes, d, n - 1) + (if IsChild(d, nodes[n - 1]) then [n - 1] else [])
  }

  lemma {:induction false} ChildStays(nodes: seq<VFSNode>, d: VFSNode, i: nat, n: nat)
    requires i < n <= |nodes| && IsChild(d, nodes[i])
    ensures |Children(nodes, d, n)| > |Children(nodes, d, i)| && Children(nodes, d, n)[|Children(nodes, d, i)|] == i
    decreases n - i
  {
    hide IsChild;
    if i < n - 1 { ChildStays(nodes, d, i, n - 1); }
  }

  /** The child with a given number. */
  ghost function NthChild(nodes: seq<VFSNode>, d: VFSNode, index: nat): Option<VFSNode> {
    var c := Children(nodes, d, |nodes|);
    if index < |c| then
      assert c[index] in c;
      Some(nodes[c[index]])
    else None
  }

  lemma NthFound(nodes: seq<VFSNode>, d: VFSNode, i: nat, index: nat)
    requires i < |nodes| && IsChild(d, nodes[i]) && |Children(nodes, d, i)| == index
    ensures NthChild(nodes, d, index) == Some(nodes[i])
  {
    ChildStays(nodes, d, i, |nodes|);
  }

  lemma NoNth(nodes: seq<VFSNode>, d: VFSNode, index: nat)
    requires |Children(nodes, d, |nodes|)| <= index
    ensures NthChild(nodes, d, index) == None
  {
  }

  lemma ChildCount(nodes: seq<VFSNode>, d: VFSNode, i: nat)
    requires i < |nodes|
    ensures |Children(nodes, d, i + 1)| == |Children(nodes, d, i)| + (if IsChild(d, nodes[i]) then 1 else 0)
    ensures |Children(nodes, d, i)| <= i
  {
  }

  lemma ChildIs(d: VFSNode, c: VFSNode)
    ensures IsChild(d, c) <==>
              && Prefix(d.fileName, c.fileName)
              && ((Count(c.fileName, SLASH) == Count(d.fileName, SLASH) && c.index != d.index)
                  || (Count(c.fileName, SLASH) == Count(d.fileName, SLASH) + 1 && IsDirName(c.fileName)))
  {
  }

  lemma NamedIs(nodes: seq<VFSNode>)
    requires Named(nodes)
    ensures |nodes| < 0xFFFF_FFFF && forall i | 0 <= i < |nodes| ::
              IsString(nodes[i].fileName) && nodes[i].fileName != []
  {
  }

  /** Every child is listed. */
  lemma {:induction false} ChildListed(nodes: seq<VFSNode>, d: VFSNode, i: nat, n: nat)
    requires i < n <= |nodes| && IsChild(d, nodes[i])
    ensures i in Children(nodes, d, n)
    decreases n - i
  {
    if i < n - 1 { ChildListed(nodes, d, i, n - 1); }
  }

  /** Each once, in the order of the archive. */
  lemma {:induction false} ChildrenAscend(nodes: seq<VFSNode>, d: VFSNode, n: nat)
    requires n <= |nodes|
    ensures Ascending(Children(nodes, d, n))
  {
    if n > 0 {
      ChildrenAscend(nodes, d, n - 1);
      var s, t := Children(nodes, d, n - 1), if IsChild(d, nodes[n - 1]) then [n - 1] else [];
      assert Children(nodes, d, n) == s + t;
      assert Ascending(t);
      hide *;
      AscendingJoin(s, t);
    }
  }

  ghost predicate Named(nodes: seq<VFSNode>) {
    |nodes| < 0xFFFF_FFFF && forall i | 0 <= i < |nodes| :: IsString(nodes[i].fileName) && nodes[i].fileName != []
  }

  class Disk {
    const archive: seq<Byte>
    const firstHeaderAddress: nat
    const numberOfFiles: nat
    const fileNodes: array<VFSNode>
    /** What was laid out in the archive. */
    ghost const files: seq<File>

    ghost predicate Valid()
      reads fileNodes
    {
      && LaidOut(archive, firstHeaderAddress, files) && |files| < 0xFFFF_FFFF
      && numberOfFiles == |files| == fileNodes.Length
      && forall i | 0 <= i < |files| :: fileNodes[i] == NodeOf(files[i], i)
    }

    /** RamDisk_init. */
    constructor (m: seq<Byte>, address: nat, ghost fs: seq<File>)
      requires LaidOut(m, address, fs) && |fs| < 0xFFFF_FFFF
      ensures Valid() && files == fs && archive == m && firstHeaderAddress == address && fresh(fileNodes)
      ensures forall i | 0 <= i < |fs| ::
                var kind, t := fs[i].kind, fileNodes[i].fileType;
                && (kind == 48 <==> t == Normal) && (kind == 53 <==> t == Directory) && (kind == 54 <==> t == Pipe)
                && (kind == 49 || kind == 50 <==> t == SoftSymlink)
                && (kind == 51 <==> t == CharDevice) && (kind == 52 <==> t == BlockDevice)
      ensures forall i | 0 <= i < |fs| ::
                && fileNodes[i].fileSize == |fs[i].data| && fileNodes[i].index == i
                && (|fs[i].name| < 100 ==> fileNodes[i].fileName == fs[i].name)
    {
      archive := m;
      firstHeaderAddress := address;
      files := fs;
      var n := GetNumberOfFiles(m, address, fs);
      numberOfFiles := n;
      fileNodes := new VFSNode[n](_ => VFSNode([], 0, NoType, 0));
      new;
      ParseArchive();
    }

    /** RamDisk_parseArchive: node i describes the i-th file. */
    method ParseArchive()
      requires LaidOut(archive, firstHeaderAddress, files) && numberOfFiles == |files| == fileNodes.Length
      requires forall i | 0 <= i < |files| :: fileNodes[i].fileType == NoType
      modifies fileNodes
      ensures forall i | 0 <= i < |files| :: fileNodes[i] == NodeOf(files[i], i)
      ensures forall i | 0 <= i < |files| ::
                var kind, t := files[i].kind, fileNodes[i].fileType;
                && (kind == 48 <==> t == Normal) && (kind == 53 <==> t == Directory) && (kind == 54 <==> t == Pipe)
                && (kind == 49 || kind == 50 <==> t == SoftSymlink)
                && (kind == 51 <==> t == CharDevice) && (kind == 52 <==> t == BlockDevice)
      ensures forall i | 0 <= i < |files| ::
                && fileNodes[i].fileSize == |files[i].data| && fileNodes[i].index == i
                && (|files[i].name| < 100 ==> fileNodes[i].fileName == files[i].name)
    {
      hide *;
      assert files[0..] == files;
      if files != [] { FirstHeader(firstHeaderAddress, files); }
      var header, i := firstHeaderAddress, 0;
      while true
        invariant 0 <= i <= |files| && (i < |files| || files == [])
        invariant LaidOut(archive, header, files[i..]) &&
                  (i < |files| ==> header == HeaderAt(firstHeaderAddress, files, i))
        invariant forall k | 0 <= k < i :: fileNodes[k] == NodeOf(files[k], k)
        invariant forall k | i <= k < |files| :: fileNodes[k].fileType == NoType
        decreases |files| - i
      {
        NameStarts(archive, header, files[i..]);
        if archive[header] == 0 {
          break;
        }
        HeaderIs(archive, firstHeaderAddress, files, i);
        FileParts(archive, header, files[i]);
        var node := ParseHeader(archive, header, i, fileNodes[i].fileType, files[i]);
        fileNodes[i] := node;
        var next := NextHeader(archive, header, files[i..]);
        i := i + 1;
        if next == None {
          break;
        }
        header := next.value;
      }
      forall k | 0 <= k < |files|
        ensures var kind, t := files[k].kind, fileNodes[k].fileType;
                && (kind == 48 <==> t == Normal) && (kind == 53 <==> t == Directory) && (kind == 54 <==> t == Pipe)
                && (kind == 49 || kind == 50 <==> t == SoftSymlink)
                && (kind == 51 <==> t == CharDevice) && (kind == 52 <==> t == BlockDevice)
        ensures fileNodes[k].fileSize == |files[k].data| && fileNodes[k].index == k
        ensures |files[k].name| < 100 ==> fileNodes[k].fileName == files[k].name
      {
        NodeMeans(files[k], k);
      }
    }

    /** RamDisk_read: the stretch of the file's data, and a zero behind it. */
    method Read(self: VFSNode, offset: nat, count: nat, buffer: array<Byte>) returns (r: nat)
      requires Valid() && 0 <= self.index < |files| && offset + count <= |files[self.index].data|
      requires count < buffer.Length
      modifies buffer
      ensures r == count && buffer[..count] == files[self.index].data[offset..offset + count] && buffer[count] == 0
      ensures self == fileNodes[self.index] && offset == 0 && count == self.fileSize ==>
                buffer[..count] == files[self.index].data
      ensures forall k | count < k < buffer.Length :: buffer[k] == old(buffer[k])
    {
      hide *;
      ValidParts();
      var header := GetHeader(archive, firstHeaderAddress, self.index, files);
      HeaderIs(archive, firstHeaderAddress, files, self.index);
      ghost var h, data := header.value, files[self.index].data;
      DataIs(archive, h, files[self.index], offset, count);
      var loc := header.value + 512 + offset;
      MemoryCopy(buffer, archive, loc, count);
      buffer[count] := 0;
      r := count;
      NodeSize(self.index);
      assert data[0..|data|] == data;
    }

    /** The size that a node gives is that of its file, so that any stretch within it can be read. */
    lemma NodeSize(i: nat)
      requires Valid() && i < |files|
      ensures i < fileNodes.Length && fileNodes[i].index == i && fileNodes[i].fileSize == |files[i].data|
    {
      NodeMeans(files[i], i);
    }

    lemma ValidParts()
      requires Valid()
      ensures LaidOut(archive, firstHeaderAddress, files)
    {
    }

    /** RamDisk_readDir: the child with a given number, in the order of the archive. */
    method ReadDir(self: VFSNode, index: nat) returns (r: Option<VFSNode>)
      requires numberOfFiles == fileNodes.Length && Named(fileNodes[..]) && IsString(self.fileName)
      requires index < 0xFFFF_FFFF
      ensures r == NthChild(fileNodes[..], self, index)
    {
      hide *;
      ghost var nodes := fileNodes[..];
      NamedIs(nodes);
      NothingListed(nodes, self);
      var nthChild := 0xFFFF_FFFF;
      var i := 0;
      while i < numberOfFiles
        invariant 0 <= i <= numberOfFiles && |Children(nodes, self, i)| <= index
        invariant nthChild == if |Children(nodes, self, i)| == 0 then 0xFFFF_FFFF else |Children(nodes, self, i)| - 1
      {
        var c := fileNodes[i];
        assert c == nodes[i];
        ChildCount(nodes, self, i);
        ChildIs(self, c);
        EndIs(c.fileName);
        var childDepth := CountChar(c.fileName, 47);
        var dirDepth := CountChar(self.fileName, 47);
        var below := StartsWith(c.fileName, self.fileName);
        var directory := EndsWith([], c.fileName, [47]);
        SlashIs();
        DirNameIs(c.fileName);
        if below && childDepth == dirDepth && c.index != self.index {
          nthChild := (nthChild + 1) % 0x1_0000_0000;
        } else if below && childDepth == dirDepth + 1 && directory {
          nthChild := (nthChild + 1) % 0x1_0000_0000;
        }
        if nthChild == index {
          NthFound(nodes, self, i, index);
          return Some(c);
        }
        i := i + 1;
      }
      NoNth(nodes, self, index);
      r := None;
    }

    /** RamDisk_findDir: the flat scan. */
    method FindDir(path: seq<Byte>) returns (r: Option<VFSNode>)
      requires numberOfFiles == fileNodes.Length && Named(fileNodes[..]) && IsString(path)
      ensures r.Some? ==>
                exists i | 0 <= i < fileNodes.Length :: fileNodes[i] == r.value && r.value.fileName == path &&
                  forall k | 0 <= k < i :: fileNodes[k].fileName != path
      ensures r.None? ==> forall n | n in fileNodes[..] :: n.fileName != path
    {
      var i := 0;
      while i < numberOfFiles
        invariant 0 <= i <= numberOfFiles && forall k | 0 <= k < i :: fileNodes[k].fileName != path
      {
        var d := Compare(fileNodes[i].fileName, path);
        if d == 0 {
          assert fileNodes[i] == fileNodes[..][i];
          return Some(fileNodes[i]);
        }
        i := i + 1;
      }
      r := None;
    }
  }

  lemma FirstHeader(a: nat, files: seq<File>)
    requires files != []
    ensures HeaderAt(a, files, 0) == a
  {
  }

  lemma FileParts(m: seq<Byte>, a: nat, f: File)
    requires FileAt(m, a, f)
    ensures IsHeader(m, a, f)
  {
  }

  lemma DirNameIs(s: seq<Byte>)
    requires s != []
    ensures Suffix([47], s) <==> IsDirName(s)
  {
    assert s[|s| - 1..] == [s[|s| - 1]];
  }

  lemma SlashIs()
    ensures SLASH == 47
  {
  }

  lemma NothingListed(nodes: seq<VFSNode>, d: VFSNode)
    ensures |Children(nodes, d, 0)| == 0
  {
  }

  /** Memory_copy from the archive to the front of a buffer. */
  method MemoryCopy(buffer: array<Byte>, m: seq<Byte>, loc: nat, count: nat)
    requires loc + count <= |m| && count <= buffer.Length
    modifies buffer
    ensures buffer[..count] == m[loc..loc + count]
    ensures forall k | count <= k < buffer.Length :: buffer[k] == old(buffer[k])
  {
    var i := 0;
    while i < count
      invariant 0 <= i <= count
      invariant forall k {:trigger buffer[k]} | 0 <= k < i :: buffer[k] == m[loc + k]
      invariant forall k | count <= k < buffer.Length :: buffer[k] == old(buffer[k])
    {
      buffer[i] := m[loc + i];
      i := i + 1;
    }
  }

  lemma EndIs(s: seq<Byte>)
    requires s != []
    ensures s[|s| - 1..] == [SLASH] <==> IsDirName(s)
  {
    assert s[|s| - 1..] == [s[|s| - 1]];
  }

  lemma DataIs(m: seq<Byte>, a: nat, f: File, offset: nat, count: nat)
    requires FileAt(m, a, f) && offset + count <= |f.data|
    ensures a + 512 + offset + count <= |m|
    ensures m[a + 512 + offset..a + 512 + offset + count] == f.data[offset..offset + count]
  {
    PaddedBlocks(|f.data|);
    Slice(m, a + 512, f.data, offset, offset + count);
  }

  /** The name in a header, copied up to its zero. */
  method CopyName(m: seq<Byte>, a: nat, ghost f: File) returns (name: seq<Byte>)
    requires IsHeader(m, a, f)
    ensures name == NameRead(f)
  {
    hide *;
    NameIs(m, a, f);
    ghost var s := NameRead(f);
    var i := 0;
    name := [];
    while m[a + i] != 0
      invariant 0 <= i <= |s| && name == s[..i] && (i < |s| ==> m[a + i] == s[i] != 0)
      decreases |s| - i
    {
      name := name + [m[a + i]];
      i := i + 1;
      assert i < |s| ==> m[a + i] == s[i];
    }
    assert s[..|s|] == s;
  }

  lemma NameIs(m: seq<Byte>, a: nat, f: File)
    requires IsHeader(m, a, f)
    ensures a + |NameRead(f)| < |m| && m[a + |NameRead(f)|] == 0
    ensures forall i {:trigger NameRead(f)[i]} | 0 <= i < |NameRead(f)| :: m[a + i] == NameRead(f)[i] != 0
  {
    forall i | 0 <= i < |NameRead(f)| ensures m[a + i] == NameRead(f)[i] {
      assert m[a + i] == m[a..a + |NameRead(f)|][i];
    }
  }

  /** One round of RamDisk_parseArchive. */
  method ParseHeader(m: seq<Byte>, header: nat, i: nat, was: FileType, ghost f: File) returns (node: VFSNode)
    requires IsHeader(m, header, f) && was == NoType
    ensures node == NodeOf(f, i)
  {
    var name := CopyName(m, header, f);
    HeaderSize(m, header, f);
    var size := StringToInt(m, header + 124, 8, 11);
    var fileType := was;
    match m[header + 156] {
      case 48 => fileType := Normal;
      case 53 => fileType := Directory;
      case 54 => fileType := Pipe;
      case 49 => fileType := SoftSymlink;
      case 50 => fileType := SoftSymlink;
      case 51 => fileType := CharDevice;
      case 52 => fileType := BlockDevice;
      case _ =>
    }
    node := VFSNode(name, i, fileType, size);
  }
}
