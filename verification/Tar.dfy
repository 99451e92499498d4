/** The initial RAM disk is a tar archive in memory (ustar interchange format of POSIX.1, pax utility):
    the walk over its headers finds exactly the files that were laid out in it. */
module Tar {
  import opened KernelString
  import opened Options

  /** A file as it goes into an archive. */
  datatype File = File(name: seq<Byte>, mode: seq<Byte>, kind: Byte, data: seq<Byte>)

  /** The name field has 100 bytes and needs no terminator when the name fills it; the mode field
      behind it has 8. */
  ghost predicate Storable(f: File) {
    && 0 < |f.name| <= 100 && IsString(f.name) && |f.mode| < 8 && IsString(f.mode) && |f.data| < 0x1_0000_0000
  }

  /** What is read as a string at the beginning of a header: behind a name that fills its field the
      copying goes on into the mode. */
  function NameRead(f: File): seq<Byte> {
    if |f.name| < 100 then f.name else f.name + f.mode
  }

  lemma NameReadIff(f: File)
    requires Storable(f)
    ensures NameRead(f) == f.name <==> |f.name| < 100 || f.mode == []
    ensures IsString(NameRead(f)) && NameRead(f) != [] && |NameRead(f)| < 108
  {
    if NameRead(f) == f.name && |f.name| == 100 { assert |f.mode| == 0; }
  }

  /** The whole blocks n bytes of data take. */
  function Padded(n: nat): nat { (n + 511) / 512 * 512 }

  // ---------------------------------------------------------------- octal number fields

  function Octal(n: nat, w: nat): seq<Byte> {
    if w == 0 then [] else Octal(n / 8, w - 1) + [48 + n % 8]
  }

  function Pow8(w: nat): nat { if w == 0 then 1 else 8 * Pow8(w - 1) }

  lemma {:induction false} OctalDigits(n: nat, w: nat)
    ensures |Octal(n, w)| == w && forall i | 0 <= i < w :: Digit(Octal(n, w)[i], 8)
  {
    if w > 0 { OctalDigits(n / 8, w - 1); }
  }

  /** Written in octal and read back. */
  lemma {:induction false} OctalRoundTrip(n: nat, w: nat)
    requires n < Pow8(w)
    ensures |Octal(n, w)| == w && (forall i | 0 <= i < w :: Digit(Octal(n, w)[i], 8)) && Number(Octal(n, w), 8) == n
  {
    OctalDigits(n, w);
    if w > 0 {
      assert n / 8 < Pow8(w - 1);
      OctalRoundTrip(n / 8, w - 1);
      assert Octal(n, w)[..w - 1] == Octal(n / 8, w - 1);
    }
  }

  lemma Powers()
    ensures Pow8(11) == 0x2_0000_0000 && Pow8(6) == 0x4_0000
  {
    assert Pow8(3) == 512 && Pow8(6) == 512 * Pow8(3) && Pow8(9) == 512 * Pow8(6) && Pow8(11) == 64 * Pow8(9);
  }

  // -------------------------------------------------------------------------- checksums

  /** The first n bytes of a header added up, with the checksum field taken as blanks. */
  function MaskedSum(m: seq<Byte>, a: nat, n: nat): (sum: nat)
    requires a + n <= |m| && n <= 512
    ensures sum <= 255 * n
  {
    if n == 0 then 0 else MaskedSum(m, a, n - 1) + (if 148 <= n - 1 < 156 then 32 else m[a + n - 1])
  }

  lemma {:induction false} SameSum(m: seq<Byte>, a: nat, m': seq<Byte>, a': nat, n: nat)
    requires a + n <= |m| && a' + n <= |m'| && n <= 512
    requires forall k | a <= k < a + n && !(148 <= k - a < 156) :: m[k] == m'[k - a + a']
    ensures MaskedSum(m, a, n) == MaskedSum(m', a', n)
  {
    if n > 0 {
      SameSum(m, a, m', a', n - 1);
      if !(148 <= n - 1 < 156) { assert m[a + n - 1] == m'[a' + n - 1]; }
    }
  }

  /** The checksum field at a header: the number its digits stand for. */
  ghost function Stated(m: seq<Byte>, a: nat, n: nat): nat
    requires DigitsAt(m, a + 148, n, 8)
  {
    Number(m[a + 148..a + 148 + n], 8)
  }

  /** Each byte outside the field counts once; those of the field do not count, as SameSum says. */
  lemma {:induction false} SumOfByte(m: seq<Byte>, a: nat, n: nat, k: nat, b: Byte)
    requires a + n <= |m| && n <= 512 && k < n && !(148 <= k < 156)
    ensures MaskedSum(m[a + k := b], a, n) - b == MaskedSum(m, a, n) - m[a + k]
  {
    if k < n - 1 {
      SumOfByte(m, a, n - 1, k, b);
    } else {
      SameSum(m[a + k := b], a, m, a, n - 1);
    }
  }

  lemma SubtractStep(c: int, x: int)
    ensures (c % 0x1_0000_0000 - x) % 0x1_0000_0000 == (c - x) % 0x1_0000_0000
  {
  }

  lemma NextSum(m: seq<Byte>, a: nat, i: nat)
    requires a + i < |m| && i < 512
    ensures MaskedSum(m, a, 0) == 0
    ensures MaskedSum(m, a, i + 1) == MaskedSum(m, a, i) + (if i >= 148 && i < 156 then 32 else m[a + i])
  {
  }

  method ValidateEntry(m: seq<Byte>, header: nat, ghost n: nat) returns (valid: bool)
    requires header + 512 <= |m| && DigitsAt(m, header + 148, n, 8)
    ensures valid <==> Stated(m, header, n) % 0x1_0000_0000 == MaskedSum(m, header, 512)
  {
    var checksum: int := StringToInt(m, header + 148, 8, n);
    ghost var stated := checksum;
    assert stated == Stated(m, header, n) % 0x1_0000_0000;
    hide *;
    NextSum(m, header, 0);
    var i := 0;
    while i < 512
      invariant 0 <= i <= 512
      invariant checksum == (stated - MaskedSum(m, header, i)) % 0x1_0000_0000
    {
      NextSum(m, header, i);
      SubtractStep(stated - MaskedSum(m, header, i), if i >= 148 && i < 156 then 32 else m[header + i]);
      checksum := (checksum - (if i >= 148 && i < 156 then 32 else m[header + i])) % 0x1_0000_0000;
      i := i + 1;
    }
    valid := checksum == 0;
  }

  // ---------------------------------------------------------------------------- layout

  /** The header of a file at an address. */
  ghost predicate IsHeader(m: seq<Byte>, a: nat, f: File) {
    && a + 512 <= |m| && Storable(f)
    && m[a..a + |f.name|] == f.name && (|f.name| < 100 ==> m[a + |f.name|] == 0)
    && m[a + 100..a + 100 + |f.mode|] == f.mode && m[a + 100 + |f.mode|] == 0
    && m[a + 124..a + 135] == Octal(|f.data|, 11) && !Digit(m[a + 135], 8)
    && m[a + 148..a + 154] == Octal(MaskedSum(m, a, 512), 6) && !Digit(m[a + 154], 8)
    && m[a + 156] == f.kind
  }

  /** The address behind a file: its header and its padded data. */
  function Behind(a: nat, f: File): nat { a + 512 + Padded(|f.data|) }

  /** A file at an address: header and data. */
  ghost predicate FileAt(m: seq<Byte>, a: nat, f: File) {
    IsHeader(m, a, f) && Behind(a, f) <= |m| && m[a + 512..a + 512 + |f.data|] == f.data
  }

  /** An archive of the files, one after another, ended by a block of zeros. */
  ghost predicate LaidOut(m: seq<Byte>, a: nat, files: seq<File>)
    decreases |files|
  {
    if files == [] then a + 512 <= |m| && forall k | a <= k < a + 512 :: m[k] == 0
    else FileAt(m, a, files[0]) && LaidOut(m, Behind(a, files[0]), files[1..])
  }

  /** Where the header of the i-th file stands. */
  ghost function HeaderAt(a: nat, files: seq<File>, i: nat): nat
    requires i < |files|
    decreases i
  {
    if i == 0 then a else HeaderAt(Behind(a, files[0]), files[1..], i - 1)
  }

  lemma {:induction false} HeaderIs(m: seq<Byte>, a: nat, files: seq<File>, i: nat)
    requires LaidOut(m, a, files) && i < |files|
    ensures var h := HeaderAt(a, files, i);
            FileAt(m, h, files[i]) && LaidOut(m, Behind(h, files[i]), files[i + 1..])
            && (i + 1 < |files| ==> HeaderAt(a, files, i + 1) == Behind(h, files[i]))
    decreases i
  {
    hide FileAt, Behind;
    if i > 0 {
      HeaderIs(m, Behind(a, files[0]), files[1..], i - 1);
      assert files[1..][i..] == files[i + 1..];
    }
  }

  lemma DigitsStand(m: seq<Byte>, p: nat, s: seq<Byte>)
    requires p + |s| < |m| && m[p..p + |s|] == s && !Digit(m[p + |s|], 8) && forall i | 0 <= i < |s| :: Digit(s[i], 8)
    ensures DigitsAt(m, p, |s|, 8)
  {
    forall i | p <= i < p + |s| ensures Digit(m[i], 8) {
      assert m[i] == m[p..p + |s|][i - p];
    }
  }

  /** A header's size field says how long the data is. */
  lemma HeaderSize(m: seq<Byte>, a: nat, f: File)
    requires IsHeader(m, a, f)
    ensures DigitsAt(m, a + 124, 11, 8) && Number(m[a + 124..a + 135], 8) % 0x1_0000_0000 == |f.data|
  {
    hide *;
    SizeField(m, a, f);
    Powers();
    OctalRoundTrip(|f.data|, 11);
    DigitsStand(m, a + 124, Octal(|f.data|, 11));
  }

  lemma SizeField(m: seq<Byte>, a: nat, f: File)
    requires IsHeader(m, a, f)
    ensures a + 135 < |m| && m[a + 124..a + 135] == Octal(|f.data|, 11) && !Digit(m[a + 135], 8)
    ensures |f.data| < 0x1_0000_0000
  {
  }

  /** A header's checksum is right. */
  lemma HeaderValid(m: seq<Byte>, a: nat, f: File)
    requires IsHeader(m, a, f)
    ensures DigitsAt(m, a + 148, 6, 8) && Stated(m, a, 6) % 0x1_0000_0000 == MaskedSum(m, a, 512)
  {
    Powers();
    OctalRoundTrip(MaskedSum(m, a, 512), 6);
    DigitsStand(m, a + 148, Octal(MaskedSum(m, a, 512), 6));
    hide Octal, Pow8, Number, DigitsAt, Digit;
  }

  lemma {:induction false} SumOfZeros(m: seq<Byte>, a: nat, n: nat)
    requires a + n <= |m| && n <= 512 && forall k | a <= k < a + n :: m[k] == 0
    ensures MaskedSum(m, a, n) == 32 * (if n <= 148 then 0 else if n <= 156 then n - 148 else 8)
  {
    if n > 0 {
      SumOfZeros(m, a, n - 1);
    }
  }

  /** The block of zeros is no header: its checksum would have to be that of eight blanks. */
  lemma ZerosInvalid(m: seq<Byte>, a: nat)
    requires LaidOut(m, a, [])
    ensures DigitsAt(m, a + 148, 0, 8) && Stated(m, a, 0) % 0x1_0000_0000 != MaskedSum(m, a, 512)
  {
    assert m[a + 148] == 0;
    SumOfZeros(m, a, 512);
    assert m[a + 148..a + 148 + 0] == [];
  }

  // ------------------------------------------------------------------------------- walk

  lemma LaidOutParts(m: seq<Byte>, a: nat, files: seq<File>)
    requires files != [] && LaidOut(m, a, files)
    ensures IsHeader(m, a, files[0]) && a + 512 <= |m| && LaidOut(m, Behind(a, files[0]), files[1..])
    ensures |files| == 1 ==> files[1..] == [] && Behind(a, files[0]) + 512 <= |m|
  {
  }

  lemma NextAddress(a: nat, f: File)
    ensures var n := |f.data|; Behind(a, f) == a + (n / 512 + 1) * 512 + (if n % 512 != 0 then 512 else 0)
  {
  }

  method NextHeader(m: seq<Byte>, header: nat, ghost files: seq<File>) returns (next: Option<nat>)
    requires files != [] && LaidOut(m, header, files)
    ensures next == if |files| == 1 then None else Some(Behind(header, files[0]))
  {
    hide *;
    LaidOutParts(m, header, files);
    HeaderSize(m, header, files[0]);
    NextAddress(header, files[0]);
    var fileSize := StringToInt(m, header + 124, 8, 11);
    var address := header + (fileSize / 512 + 1) * 512;
    if fileSize % 512 != 0 {
      address := address + 512;
    }
    ghost var n := 0;
    if |files| == 1 {
      ZerosInvalid(m, address);
    } else {
      n := 6;
      LaidOutParts(m, address, files[1..]);
      HeaderValid(m, address, files[1]);
    }
    var valid := ValidateEntry(m, address, n);
    next := if valid then Some(address) else None;
  }

  method GetHeader(m: seq<Byte>, firstHeader: nat, index: nat, ghost files: seq<File>) returns (r: Option<nat>)
    requires LaidOut(m, firstHeader, files)
    ensures r == if index < |files| then Some(HeaderAt(firstHeader, files, index)) else None
  {
    var i, header := 0, firstHeader;
    while true
      invariant 0 <= i <= index && i <= |files| && (i < |files| || files == [])
      invariant LaidOut(m, header, files[i..]) && (i < |files| ==> header == HeaderAt(firstHeader, files, i))
      decreases |files| - i
    {
      NameStarts(m, header, files[i..]);
      if m[header] == 0 {
        break;
      }
      if index == i {
        return Some(header);
      }
      HeaderIs(m, firstHeader, files, i);
      var next := NextHeader(m, header, files[i..]);
      i := i + 1;
      if next == None {
        break;
      }
      header := next.value;
    }
    r := None;
  }

  method GetNumberOfFiles(m: seq<Byte>, firstHeader: nat, ghost files: seq<File>) returns (fileCount: nat)
    requires LaidOut(m, firstHeader, files)
    ensures fileCount == |files|
  {
    var header := firstHeader;
    fileCount := 0;
    while true
      invariant 0 <= fileCount <= |files| && (fileCount < |files| || files == [])
      invariant LaidOut(m, header, files[fileCount..]) &&
                (fileCount < |files| ==> header == HeaderAt(firstHeader, files, fileCount))
      decreases |files| - fileCount
    {
      NameStarts(m, header, files[fileCount..]);
      if m[header] == 0 {
        break;
      }
      HeaderIs(m, firstHeader, files, fileCount);
      var next := NextHeader(m, header, files[fileCount..]);
      fileCount := fileCount + 1;
      if next == None {
        break;
      }
      header := next.value;
    }
  }

  /** An archive begins with a zero byte exactly when it is empty. */
  lemma NameStarts(m: seq<Byte>, a: nat, files: seq<File>)
    requires LaidOut(m, a, files)
    ensures a + 512 <= |m| && (m[a] == 0 <==> files == [])
  {
    if files != [] { assert m[a] == m[a..a + |files[0].name|][0] == files[0].name[0]; }
  }

  // --------------------------------------------------------------------- an archive made

  function Zeros(n: nat): (z: seq<Byte>)
    ensures |z| == n && forall i | 0 <= i < n :: z[i] == 0
  {
    seq(n, _ => 0)
  }

  /** A header up to its checksum field, and from there on. */
  function Front(f: File): (s: seq<Byte>)
    requires |f.name| <= 100 && |f.mode| < 8
    ensures |s| == 148
  {
    OctalDigits(|f.data|, 11);
    f.name + Zeros(100 - |f.name|) + f.mode + Zeros(24 - |f.mode|) + Octal(|f.data|, 11) + Zeros(13)
  }

  function Back(f: File): (s: seq<Byte>)
    ensures |s| == 356
  {
    [f.kind] + Zeros(355)
  }

  function Header(f: File): (s: seq<Byte>)
    requires |f.name| <= 100 && |f.mode| < 8
    ensures |s| == 512
  {
    var sum := MaskedSum(Front(f) + Zeros(8) + Back(f), 0, 512);
    OctalDigits(sum, 6);
    Front(f) + (Octal(sum, 6) + [0, 32]) + Back(f)
  }

  /** The least number of whole blocks. */
  lemma PaddedBlocks(n: nat)
    ensures n <= Padded(n) < n + 512 && Padded(n) % 512 == 0
  {
  }

  function Encode(files: seq<File>): seq<Byte>
    requires forall f | f in files :: Storable(f)
  {
    if files == [] then Zeros(512)
    else
      assert Storable(files[0]);
      PaddedBlocks(|files[0].data|);
      Header(files[0]) + files[0].data + Zeros(Padded(|files[0].data|) - |files[0].data|) + Encode(files[1..])
  }

  lemma HeaderFields(f: File)
    requires Storable(f)
    ensures var h := Header(f);
            && h[..|f.name|] == f.name && (|f.name| < 100 ==> h[|f.name|] == 0)
            && h[100..100 + |f.mode|] == f.mode && h[100 + |f.mode|] == 0
            && h[124..135] == Octal(|f.data|, 11) && h[135] == 0
            && h[148..154] == Octal(MaskedSum(h, 0, 512), 6) && h[154] == 0 && h[156] == f.kind
  {
    hide *;
    StorableSizes(f);
    var h := Header(f);
    var sum := MaskedSum(Front(f) + Zeros(8) + Back(f), 0, 512);
    HeaderParts(f, sum);
    SumOfHeader(f);
    FrontFields(f);
    BackFields(f);
    Within(h, 148, 0, |f.name|);
    Within(h, 148, 100, 100 + |f.mode|);
    Within(h, 148, 124, 135);
    assert h[148..154] == h[148..156][..6];
    assert h[154] == h[148..156][6];
    assert h[156] == h[156..][0];
  }

  lemma StorableSizes(f: File)
    requires Storable(f)
    ensures |f.name| <= 100 && |f.mode| < 8
  {
  }

  lemma HeaderParts(f: File, sum: nat)
    requires |f.name| <= 100 && |f.mode| < 8 && sum == MaskedSum(Front(f) + Zeros(8) + Back(f), 0, 512)
    ensures |Octal(sum, 6)| == 6
    ensures var h := Header(f); h[..148] == Front(f) && h[148..156] == Octal(sum, 6) + [0, 32] && h[156..] == Back(f)
  {
    OctalDigits(sum, 6);
    ThreeParts(Front(f), Octal(sum, 6) + [0, 32], Back(f));
  }

  lemma ThreeParts(p: seq<Byte>, q: seq<Byte>, r: seq<Byte>)
    ensures var h := p + q + r; h[..|p|] == p && h[|p|..|p| + |q|] == q && h[|p| + |q|..] == r
  {
  }

  /** The checksum is the same with blanks in its place. */
  lemma SumOfHeader(f: File)
    requires |f.name| <= 100 && |f.mode| < 8
    ensures MaskedSum(Front(f) + Zeros(8) + Back(f), 0, 512) == MaskedSum(Header(f), 0, 512)
  {
    hide *;
    var x, h := Front(f) + Zeros(8) + Back(f), Header(f);
    HeaderParts(f, MaskedSum(x, 0, 512));
    ThreeParts(Front(f), Zeros(8), Back(f));
    forall k | 0 <= k < 512 && !(148 <= k < 156) ensures x[k] == h[k] {
      if k < 148 {
        assert x[k] == x[..148][k] && h[k] == h[..148][k];
      } else {
        assert x[k] == x[156..][k - 156] && h[k] == h[156..][k - 156];
      }
    }
    SameSum(x, 0, h, 0, 512);
  }

  lemma BackFields(f: File)
    ensures Back(f)[0] == f.kind
  {
  }

  lemma Within(h: seq<Byte>, n: nat, i: nat, j: nat)
    requires i <= j < n <= |h|
    ensures h[i..j] == h[..n][i..j] && h[j] == h[..n][j]
  {
  }

  lemma FrontFields(f: File)
    requires |f.name| <= 100 && |f.mode| < 8
    ensures var s := Front(f);
            && s[..|f.name|] == f.name && (|f.name| < 100 ==> s[|f.name|] == 0)
            && s[100..100 + |f.mode|] == f.mode && s[100 + |f.mode|] == 0
            && s[124..135] == Octal(|f.data|, 11) && s[135] == 0
  {
    OctalDigits(|f.data|, 11);
  }

  lemma HeaderEncoded(m: seq<Byte>, a: nat, f: File)
    requires Storable(f) && a + 512 <= |m| && m[a..a + 512] == Header(f)
    ensures IsHeader(m, a, f)
  {
    hide *;
    StorableSizes(f);
    HeaderFields(f);
    var h := Header(f);
    SameBytesAt(m, a, h);
    SameSum(m, a, h, 0, 512);
    Field(m, a, h, 0, |f.name|);
    Field(m, a, h, 100, 100 + |f.mode|);
    Field(m, a, h, 124, 135);
    Field(m, a, h, 148, 154);
    Field(m, a, h, 156, 156);
    assert m[a + 0..a + |f.name|] == m[a..a + |f.name|];
    assert h[0..|f.name|] == h[..|f.name|];
    MakeHeader(m, a, f);
  }

  lemma SameBytesAt(m: seq<Byte>, a: nat, h: seq<Byte>)
    requires a + 512 <= |m| && |h| == 512 && m[a..a + 512] == h
    ensures forall k | a <= k < a + 512 :: m[k] == h[k - a]
  {
    forall k | a <= k < a + 512 ensures m[k] == h[k - a] {
      assert m[k] == m[a..a + 512][k - a];
    }
  }

  lemma Field(m: seq<Byte>, a: nat, h: seq<Byte>, i: nat, j: nat)
    requires a + |h| <= |m| && m[a..a + |h|] == h && i <= j < |h|
    ensures m[a + i..a + j] == h[i..j] && m[a + j] == h[j]
  {
    Slice(m, a, h, i, j);
    assert m[a + j] == m[a..a + |h|][j];
  }

  lemma MakeHeader(m: seq<Byte>, a: nat, f: File)
    requires a + 512 <= |m| && Storable(f)
    requires m[a..a + |f.name|] == f.name && (|f.name| < 100 ==> m[a + |f.name|] == 0)
    requires m[a + 100..a + 100 + |f.mode|] == f.mode && m[a + 100 + |f.mode|] == 0
    requires m[a + 124..a + 135] == Octal(|f.data|, 11) && m[a + 135] == 0
    requires m[a + 148..a + 154] == Octal(MaskedSum(m, a, 512), 6) && m[a + 154] == 0 && m[a + 156] == f.kind
    ensures IsHeader(m, a, f)
  {
    hide Octal, MaskedSum, Storable;
  }

  /** What is encoded is laid out, wherever in memory it is put: together with the walk this reads an
      archive back file by file. */
  lemma {:induction false} EncodedLaidOut(m: seq<Byte>, a: nat, files: seq<File>)
    requires forall f | f in files :: Storable(f)
    requires a + |Encode(files)| <= |m| && m[a..a + |Encode(files)|] == Encode(files)
    ensures LaidOut(m, a, files)
    decreases |files|
  {
    if files == [] {
      Slice(m, a, Zeros(512), 0, 512);
      forall k | a <= k < a + 512 ensures m[k] == 0 {
        assert m[k] == m[a + 0..a + 512][k - a];
      }
    } else {
      EncodedFirst(m, a, files);
      EncodedLaidOut(m, Behind(a, files[0]), files[1..]);
    }
  }

  lemma EncodedFirst(m: seq<Byte>, a: nat, files: seq<File>)
    requires files != [] && forall f | f in files :: Storable(f)
    requires a + |Encode(files)| <= |m| && m[a..a + |Encode(files)|] == Encode(files)
    ensures FileAt(m, a, files[0])
    ensures var b := Behind(a, files[0]);
              b + |Encode(files[1..])| <= |m| &&
              m[b..b + |Encode(files[1..])|] == Encode(files[1..])
  {
    hide *;
    var f := files[0];
    assert Storable(f);
    PaddedBlocks(|f.data|);
    var z := Zeros(Padded(|f.data|) - |f.data|);
    EncodeIs(files);
    EncodedParts(m, a, Header(f), f.data, z, Encode(files[1..]));
    HeaderEncoded(m, a, f);
    MakeFileAt(m, a, f);
  }

  lemma EncodeIs(files: seq<File>)
    requires files != [] && forall f | f in files :: Storable(f)
    ensures |files[0].name| <= 100 && |files[0].mode| < 8 && Padded(|files[0].data|) >= |files[0].data|
    ensures Encode(files) == Header(files[0]) + files[0].data
                             + Zeros(Padded(|files[0].data|) - |files[0].data|) + Encode(files[1..])
    ensures |Encode(files)| == 512 + Padded(|files[0].data|) + |Encode(files[1..])|
  {
    assert Storable(files[0]);
    hide Header, Zeros, Padded;
  }

  lemma MakeFileAt(m: seq<Byte>, a: nat, f: File)
    requires IsHeader(m, a, f) && a + 512 + Padded(|f.data|) <= |m| && |f.data| <= Padded(|f.data|)
    requires m[a + 512..a + 512 + |f.data|] == f.data
    ensures FileAt(m, a, f) && Behind(a, f) == a + 512 + Padded(|f.data|)
  {
    hide IsHeader, Padded;
  }

  lemma EncodedParts(m: seq<Byte>, a: nat, h: seq<Byte>, d: seq<Byte>, z: seq<Byte>, rest: seq<Byte>)
    requires var e := h + d + z + rest; a + |e| <= |m| && m[a..a + |e|] == e
    ensures m[a..a + |h|] == h && m[a + |h|..a + |h| + |d|] == d
    ensures var b := a + |h| + |d| + |z|; m[b..b + |rest|] == rest
  {
    var e := h + d + z + rest;
    var i := |h| + |d| + |z|;
    Slice(m, a, e, 0, |h|);
    Slice(m, a, e, |h|, |h| + |d|);
    Slice(m, a, e, i, i + |rest|);
    assert e[..|h|] == h && e[|h|..|h| + |d|] == d && e[i..i + |rest|] == rest;
  }

  lemma Slice(m: seq<Byte>, a: nat, e: seq<Byte>, i: nat, j: nat)
    requires a + |e| <= |m| && m[a..a + |e|] == e && i <= j <= |e|
    ensures m[a + i..a + j] == e[i..j]
  {
    forall k | a + i <= k < a + j ensures m[k] == e[k - a] {
      assert m[k] == m[a..a + |e|][k - a];
    }
  }
}
