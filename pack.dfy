/** A writer for the layout the decoder reads. The source repository has no
    writer; this one exists to state what the decoder recovers: decoding a
    packed list of files gives the list back, in order. */
module Pack {
  import opened Bytes
  import Utf8
  import opened Wxapkg

  /** The 14 octets of a header: markers, zero padding and the two lengths. */
  function HeaderBytes(h: WxapkgHeader): (s: seq<u8>)
    ensures |s| == HeaderSize
  {
    [StartMarker, 0, 0, 0, 0] + U32Bytes(h.lenIndex) + U32Bytes(h.lenData) + [EndMarker]
  }

  /** The header decoder reads back any header the writer puts down. */
  lemma ParseHeaderBytes(h: WxapkgHeader)
    ensures ParseHeader(HeaderBytes(h)) == Ok(h)
  {
    var s := HeaderBytes(h);
    assert s[5..9] == U32Bytes(h.lenIndex) && s[9..13] == U32Bytes(h.lenData);
    BeU32OfU32Bytes(h.lenIndex);
    BeU32OfU32Bytes(h.lenData);
  }

  /** A header that decodes is the one the writer would put down for its
      fields: the header format has a single form for each pair of lengths. */
  lemma HeaderBytesOfParse(buf: seq<u8>)
    requires |buf| == HeaderSize && ParseHeader(buf).Ok?
    ensures HeaderBytes(ParseHeader(buf).value) == buf
  {
    U32BytesOfBeU32(buf[5..9]);
    U32BytesOfBeU32(buf[9..13]);
    assert buf == buf[..5] + buf[5..9] + buf[9..13] + buf[13..];
  }

  /** The low 32 bits of `n` as a big-endian word, as a writer casting to
      u32 puts them down. */
  function Word(n: nat): (s: seq<u8>)
    ensures |s| == 4
  {
    U32Bytes(n % 0x1_0000_0000)
  }

  /** A word below 2^32 is read back as itself. */
  lemma BeU32OfWord(n: nat)
    requires n < 0x1_0000_0000
    ensures BeU32(Word(n)) == n
  {
    BeU32OfU32Bytes(n);
  }

  /** A word below 256 is three zero octets and the value. */
  lemma SmallWord(n: nat)
    requires n < 0x100
    ensures Word(n) == [0, 0, 0, n as u8]
  {
  }

  /** The parts, one after the other. */
  function Concat(parts: seq<seq<u8>>): seq<u8>
  {
    if parts == [] then [] else parts[0] + Concat(parts[1..])
  }

  /** The first k + 1 parts are the first k parts followed by part k. */
  lemma {:induction false} ConcatSnoc(parts: seq<seq<u8>>, k: nat)
    requires k < |parts|
    ensures Concat(parts[..k + 1]) == Concat(parts[..k]) + parts[k]
    decreases k
  {
    if k == 0 {
      assert parts[..1] == [parts[0]] && parts[..1][1..] == [] && parts[..0] == [];
    } else {
      var rest := parts[1..];
      ConcatSnoc(rest, k - 1);
      assert parts[..k + 1][0] == parts[0] && parts[..k + 1][1..] == rest[..k];
      assert parts[..k][0] == parts[0] && parts[..k][1..] == rest[..k - 1];
      assert rest[k - 1] == parts[k];
    }
  }

  /** The parts up to k are a prefix of all the parts. */
  lemma {:induction false} ConcatPrefix(parts: seq<seq<u8>>, k: nat)
    requires k <= |parts|
    ensures Concat(parts) == Concat(parts[..k]) + Concat(parts[k..])
    decreases k
  {
    if k == 0 {
      assert parts[..0] == [] && parts[0..] == parts;
    } else {
      var rest := parts[1..];
      ConcatPrefix(rest, k - 1);
      assert parts[..k][0] == parts[0] && parts[..k][1..] == rest[..k - 1];
      assert rest[k - 1..] == parts[k..];
    }
  }

  /** Part k of a concatenation starts after the parts before it. */
  lemma ConcatPart(parts: seq<seq<u8>>, k: nat)
    requires k < |parts|
    ensures |Concat(parts[..k])| + |parts[k]| == |Concat(parts[..k + 1])| <= |Concat(parts)|
    ensures Concat(parts)[|Concat(parts[..k])|..|Concat(parts[..k + 1])|] == parts[k]
  {
    ConcatSnoc(parts, k);
    ConcatPrefix(parts, k + 1);
    var before, whole := Concat(parts[..k]), Concat(parts);
    assert whole[..|before| + |parts[k]|] == before + parts[k];
    assert whole[|before|..|before| + |parts[k]|] == (before + parts[k])[|before|..];
  }

  /** The UTF-8 octets of a file's name. */
  function NameBytes(f: MiniappFile): seq<u8>
  {
    Utf8.Encode(f.filename)
  }

  /** The octets the directory record of a file takes: length, name, offset, size. */
  function RecordSize(f: MiniappFile): nat
  {
    12 + |NameBytes(f)|
  }

  function DirectorySize(files: seq<MiniappFile>): nat
  {
    if files == [] then 0 else RecordSize(files[0]) + DirectorySize(files[1..])
  }

  /** The records of the first k + 1 files take those of the first k files
      and that of file k, and no more than those of all files. */
  lemma {:induction false} PrefixSizes(files: seq<MiniappFile>, k: nat)
    requires k < |files|
    ensures DirectorySize(files[..k + 1]) == DirectorySize(files[..k]) + RecordSize(files[k])
    ensures DirectorySize(files[..k + 1]) <= DirectorySize(files)
    decreases k
  {
    var f, rest := files[0], files[1..];
    if k == 0 {
      assert files[..0] == [] && files[..1] == [f] && [f][1..] == [];
    } else {
      PrefixSizes(rest, k - 1);
      assert files[..k][0] == f && files[..k][1..] == rest[..k - 1];
      assert files[..k + 1][0] == f && files[..k + 1][1..] == rest[..k];
    }
  }

  /** The contents of the files, in order. */
  function Contents(files: seq<MiniappFile>): (parts: seq<seq<u8>>)
    ensures |parts| == |files|
  {
    seq(|files|, i requires 0 <= i < |files| => files[i].content)
  }

  /** The contents, one after the other. */
  function DataBytes(files: seq<MiniappFile>): seq<u8>
  {
    Concat(Contents(files))
  }

  /** Where the contents start: right after the directory. */
  function DataStart(files: seq<MiniappFile>): nat
  {
    FirstRecord + DirectorySize(files)
  }

  /** Where the content of file k starts: after the contents of the files
      before it. */
  function ContentStart(files: seq<MiniappFile>, k: nat): nat
    requires k <= |files|
  {
    DataStart(files) + |Concat(Contents(files)[..k])|
  }

  /** The directory record of a file whose content is at `offset`. */
  function RecordBytes(f: MiniappFile, offset: nat): (s: seq<u8>)
    ensures |s| == RecordSize(f)
  {
    Word(|NameBytes(f)|) + NameBytes(f) + Word(offset) + Word(|f.content|)
  }

  /** The directory records of the files, in order. */
  function Records(files: seq<MiniappFile>): (parts: seq<seq<u8>>)
    ensures |parts| == |files|
  {
    seq(|files|, i requires 0 <= i < |files| => RecordBytes(files[i], ContentStart(files, i)))
  }

  function DirectoryBytes(files: seq<MiniappFile>): seq<u8>
  {
    Concat(Records(files))
  }

  /** The records of the first k files take DirectorySize of those files. */
  lemma {:induction false} RecordsPrefixSize(files: seq<MiniappFile>, k: nat)
    requires k <= |files|
    ensures |Concat(Records(files)[..k])| == DirectorySize(files[..k])
    decreases k
  {
    if k == 0 {
      assert Records(files)[..0] == [] && files[..0] == [];
    } else {
      var records := Records(files);
      RecordsPrefixSize(files, k - 1);
      ConcatSnoc(records, k - 1);
      PrefixSizes(files, k - 1);
      assert |records[k - 1]| == RecordSize(files[k - 1]);
    }
  }

  /** Every count, length, offset and size of the packed files fits in 32
      bits: the package is shorter than 2^32 octets. */
  predicate Packable(files: seq<MiniappFile>)
  {
    |files| < 0x1_0000_0000 && DataStart(files) + |DataBytes(files)| < 0x1_0000_0000
  }

  /** A package holding `files`: header, count, directory, then the contents. */
  function PackFiles(files: seq<MiniappFile>, h: WxapkgHeader): seq<u8>
  {
    HeaderBytes(h) + Word(|files|) + DirectoryBytes(files) + DataBytes(files)
  }

  /** A slice of a slice of the buffer is a slice of the buffer. */
  lemma SliceOfSlice(buf: seq<u8>, p: nat, s: seq<u8>, i: nat, j: nat)
    requires p + |s| <= |buf| && buf[p..p + |s|] == s && i <= j <= |s|
    ensures buf[p + i..p + j] == s[i..j]
  {
    forall k | 0 <= k < j - i
      ensures buf[p + i..p + j][k] == s[i..j][k]
    {
      assert buf[p + i..p + j][k] == buf[p..p + |s|][i + k];
    }
  }

  /** Where the fields of a record laid out as length word, name, offset word
      and size word are read from. */
  lemma RecordFields(buf: seq<u8>, p: nat, lenWord: seq<u8>, name: seq<u8>, offsetWord: seq<u8>, sizeWord: seq<u8>)
    requires |lenWord| == |offsetWord| == |sizeWord| == 4 && BeU32(lenWord) == |name|
    requires p + 12 + |name| <= |buf| && buf[p..p + 12 + |name|] == lenWord + name + offsetWord + sizeWord
    ensures FieldsInBounds(buf, p) && NameEnd(buf, p) == p + 4 + |name|
    ensures buf[p + 4..NameEnd(buf, p)] == name
    ensures ContentOffset(buf, p) == BeU32(offsetWord) && ContentSize(buf, p) == BeU32(sizeWord)
  {
    var record := lenWord + name + offsetWord + sizeWord;
    var len := |name|;
    ConcatParts(lenWord, name, offsetWord, sizeWord);
    SliceOfSlice(buf, p, record, 0, 4);
    SliceOfSlice(buf, p, record, 4, 4 + len);
    SliceOfSlice(buf, p, record, 4 + len, 8 + len);
    SliceOfSlice(buf, p, record, 8 + len, 12 + len);
  }

  /** The record decoder reads back a record the writer put down, with its
      content wherever the offset points. */
  lemma RecordRoundTrip(buf: seq<u8>, p: nat, f: MiniappFile, offset: nat, next: nat)
    requires |NameBytes(f)| < 0x1_0000_0000 && offset < 0x1_0000_0000 && |f.content| < 0x1_0000_0000
    requires next == p + RecordSize(f) <= |buf| && buf[p..next] == RecordBytes(f, offset)
    requires offset + |f.content| <= |buf| && buf[offset..offset + |f.content|] == f.content
    ensures ConvertToMiniappFile(buf, p) == Ok((f, next))
  {
    var name := NameBytes(f);
    BeU32OfWord(|name|);
    BeU32OfWord(offset);
    BeU32OfWord(|f.content|);
    RecordFields(buf, p, Word(|name|), name, Word(offset), Word(|f.content|));
    Utf8.DecodeOfEncode(f.filename);
    ConvertToMiniappFileOutcome(buf, p);
    var (g, _) := ConvertToMiniappFile(buf, p).value;
    Utf8.EncodeInjective(g.filename, f.filename);
  }

  /** `buf` holds the header `h`, the count of `files`, their directory and
      their contents, one after the other. */
  predicate IsPackageOf(buf: seq<u8>, files: seq<MiniappFile>, h: WxapkgHeader)
  {
    && Packable(files)
    && |buf| == DataStart(files) + |DataBytes(files)|
    && buf[..HeaderSize] == HeaderBytes(h)
    && buf[HeaderSize..FirstRecord] == Word(|files|)
    && buf[FirstRecord..DataStart(files)] == DirectoryBytes(files)
    && buf[DataStart(files)..] == DataBytes(files)
  }

  /** The writer lays a package out as described. */
  lemma PackLayout(files: seq<MiniappFile>, h: WxapkgHeader)
    requires Packable(files)
    ensures IsPackageOf(PackFiles(files, h), files, h)
  {
    var header, count, dir, data := HeaderBytes(h), Word(|files|), DirectoryBytes(files), DataBytes(files);
    DirectoryLength(files);
    ConcatParts(header, count, dir, data);
  }

  /** The four parts of a concatenation are its slices at their offsets. */
  lemma ConcatParts(a: seq<u8>, b: seq<u8>, c: seq<u8>, d: seq<u8>)
    ensures var s := a + b + c + d;
            && |s| == |a| + |b| + |c| + |d|
            && s[..|a|] == a
            && s[|a|..|a| + |b|] == b
            && s[|a| + |b|..|a| + |b| + |c|] == c
            && s[|a| + |b| + |c|..|a| + |b| + |c| + |d|] == d
  {
    var s := a + b + c + d;
    assert s[..|a|] == a;
    assert s[|a|..|a| + |b|] == b;
    assert s[|a| + |b|..|a| + |b| + |c|] == c;
    assert s[|a| + |b| + |c|..|a| + |b| + |c| + |d|] == d;
  }

  /** Part k of a concatenation that the buffer holds from `start` on. */
  lemma PartAt(buf: seq<u8>, start: nat, parts: seq<seq<u8>>, k: nat)
    requires k < |parts|
    requires start + |Concat(parts)| <= |buf| && buf[start..start + |Concat(parts)|] == Concat(parts)
    ensures |Concat(parts[..k])| + |parts[k]| == |Concat(parts[..k + 1])|
    ensures start + |Concat(parts[..k + 1])| <= |buf|
    ensures buf[start + |Concat(parts[..k])|..start + |Concat(parts[..k + 1])|] == parts[k]
  {
    ConcatPart(parts, k);
    SliceOfSlice(buf, start, Concat(parts), |Concat(parts[..k])|, |Concat(parts[..k + 1])|);
  }

  /** The directory of a package takes DirectorySize octets. */
  lemma DirectoryLength(files: seq<MiniappFile>)
    ensures |DirectoryBytes(files)| == DirectorySize(files)
  {
    RecordsPrefixSize(files, |files|);
    assert Records(files)[..|files|] == Records(files) && files[..|files|] == files;
  }

  /** Record k of a package sits after the records of the files before it,
      and its fields fit in 32 bits. */
  lemma RecordOfPackage(buf: seq<u8>, files: seq<MiniappFile>, h: WxapkgHeader, k: nat, at: nat, next: nat)
    requires IsPackageOf(buf, files, h) && k < |files|
    requires at == RecordAt(files, k) && next == RecordAt(files, k + 1)
    ensures |NameBytes(files[k])| < 0x1_0000_0000 && ContentStart(files, k) < 0x1_0000_0000
    ensures |files[k].content| < 0x1_0000_0000
    ensures next == at + RecordSize(files[k]) <= |buf|
    ensures buf[at..next] == RecordBytes(files[k], ContentStart(files, k))
  {
    DirectoryLength(files);
    PartAt(buf, FirstRecord, Records(files), k);
    ContentOfPackage(buf, files, h, k);
  }

  /** The content of file k sits after the contents of the files before it. */
  lemma ContentOfPackage(buf: seq<u8>, files: seq<MiniappFile>, h: WxapkgHeader, k: nat)
    requires IsPackageOf(buf, files, h) && k < |files|
    ensures ContentStart(files, k) + |files[k].content| <= |buf|
    ensures buf[ContentStart(files, k)..ContentStart(files, k) + |files[k].content|] == files[k].content
  {
    PartAt(buf, DataStart(files), Contents(files), k);
  }

  /** Record k of a package decodes to file k and ends where record k + 1
      starts. */
  lemma PackedRecord(buf: seq<u8>, files: seq<MiniappFile>, h: WxapkgHeader, k: nat)
    requires IsPackageOf(buf, files, h) && k < |files|
    ensures ConvertToMiniappFile(buf, RecordAt(files, k)) == Ok((files[k], RecordAt(files, k + 1)))
  {
    RecordOfPackage(buf, files, h, k, RecordAt(files, k), RecordAt(files, k + 1));
    ContentOfPackage(buf, files, h, k);
    RecordRoundTrip(buf, RecordAt(files, k), files[k], ContentStart(files, k), RecordAt(files, k + 1));
  }

  /** The header and count of a package laid out as described are accepted,
      and the walk over its directory is what decides the result. */
  lemma PackageWalk(buf: seq<u8>, files: seq<MiniappFile>, h: WxapkgHeader)
    requires IsPackageOf(buf, files, h)
    ensures ParseWxapkg(buf) == Walk(RecordStep(buf), FirstRecord, |files|)
  {
    ParseHeaderBytes(h);
    BeU32OfWord(|files|);
  }

  /** Where the decoder finds the record of file k: after the records of the
      files before it. */
  function RecordAt(files: seq<MiniappFile>, k: nat): nat
    requires k <= |files|
  {
    FirstRecord + |Concat(Records(files)[..k])|
  }

  /** Every record of a package decodes to its file and leads to the next. */
  lemma PackageSteps(buf: seq<u8>, files: seq<MiniappFile>, h: WxapkgHeader, cursors: seq<nat>)
    requires IsPackageOf(buf, files, h)
    requires |cursors| == |files| + 1 && forall k | 0 <= k <= |files| :: cursors[k] == RecordAt(files, k)
    ensures forall k | 0 <= k < |files| :: RecordStep(buf)(cursors[k]) == Ok((files[k], cursors[k + 1]))
  {
    forall k | 0 <= k < |files|
      ensures RecordStep(buf)(cursors[k]) == Ok((files[k], cursors[k + 1]))
    {
      PackedRecord(buf, files, h, k);
    }
  }

  /** A package laid out as described decodes to its files, in order. */
  lemma DecodeOfLayout(buf: seq<u8>, files: seq<MiniappFile>, h: WxapkgHeader)
    requires IsPackageOf(buf, files, h)
    ensures ParseWxapkg(buf) == Ok(files)
  {
    var cursors: seq<nat> := seq(|files| + 1, k requires 0 <= k <= |files| => RecordAt(files, k));
    PackageSteps(buf, files, h, cursors);
    assert cursors[0] == FirstRecord by {
      assert Records(files)[..0] == [];
    }
    WalkOfSteps(RecordStep(buf), files, cursors);
    PackageWalk(buf, files, h);
  }

  /** Decoding a packed list of files gives the list back: every name and
      content, in order. */
  lemma DecodeOfPack(files: seq<MiniappFile>, h: WxapkgHeader)
    requires Packable(files)
    ensures ParseWxapkg(PackFiles(files, h)) == Ok(files)
  {
    PackLayout(files, h);
    DecodeOfLayout(PackFiles(files, h), files, h);
  }

  /** A package of one file "/a.txt" whose content record says it is 3
      octets at `offset`; the content "ABC" is at 36, right after the
      directory, and the header declares lengths 3 and 5. */
  function OneFilePackage(offset: u8): seq<u8>
  {
    SampleHeader() + [0, 0, 0, 1] + SampleRecord(offset) + [0x41, 0x42, 0x43]
  }

  function SampleHeader(): seq<u8>
  {
    [0xBE, 0, 0, 0, 0, 0, 0, 0, 3, 0, 0, 0, 5, 0xED]
  }

  /** Length 6, the name "/a.txt", the offset and the size 3. */
  function SampleRecord(offset: u8): seq<u8>
  {
    [0, 0, 0, 6] + [0x2F, 0x61, 0x2E, 0x74, 0x78, 0x74] + [0, 0, 0, offset] + [0, 0, 0, 3]
  }

  /** The UTF-8 octets of the name "/a.txt". */
  lemma SampleName()
    ensures Utf8.Encode("/a.txt") == [0x2F, 0x61, 0x2E, 0x74, 0x78, 0x74]
  {
    assert Utf8.Encode("t") == [0x74] by {
      assert "t"[1..] == "";
    }
    assert Utf8.Encode("xt") == [0x78, 0x74] by {
      assert "xt"[1..] == "t";
    }
    assert Utf8.Encode("txt") == [0x74, 0x78, 0x74] by {
      assert "txt"[1..] == "xt";
    }
    assert Utf8.Encode(".txt") == [0x2E, 0x74, 0x78, 0x74] by {
      assert ".txt"[1..] == "txt";
    }
    assert Utf8.Encode("a.txt") == [0x61, 0x2E, 0x74, 0x78, 0x74] by {
      assert "a.txt"[1..] == ".txt";
    }
    assert "/a.txt"[1..] == "a.txt";
  }

  /** With the offset pointing at the content the package decodes to the one
      file "/a.txt" holding "ABC". */
  lemma OneFileDecodes()
    ensures ParseWxapkg(OneFilePackage(36)) == Ok([MiniappFile("/a.txt", [0x41, 0x42, 0x43])])
  {
    var f := MiniappFile("/a.txt", [0x41, 0x42, 0x43]);
    var files := [f];
    SampleName();
    assert files[1..] == [] && files[..0] == [];
    assert Contents(files) == [f.content] && [f.content][1..] == [];
    assert DataBytes(files) == f.content + Concat([]);
    assert RecordSize(f) == 18 && DirectorySize(files) == 18 + DirectorySize([]);
    assert Contents(files)[..0] == [];
    assert DataStart(files) == 36 && ContentStart(files, 0) == 36;
    SmallWord(6);
    SmallWord(36);
    SmallWord(3);
    SmallWord(1);
    assert Records(files) == [SampleRecord(36)] && [SampleRecord(36)][1..] == [];
    assert PackFiles(files, WxapkgHeader(3, 5)) == OneFilePackage(36);
    DecodeOfPack(files, WxapkgHeader(3, 5));
  }

  /** The header and the count of the one-file package. */
  lemma OneFileHeader(offset: u8)
    ensures |OneFilePackage(offset)| == 39
    ensures ParseHeader(OneFilePackage(offset)[..HeaderSize]).Ok?
    ensures NumFiles(OneFilePackage(offset)) == 1
  {
    var buf := OneFilePackage(offset);
    ConcatParts(SampleHeader(), [0, 0, 0, 1], SampleRecord(offset), [0x41, 0x42, 0x43]);
    assert SampleHeader()[1..5] == [0, 0, 0, 0];
  }

  /** The fields of the record of the one-file package. */
  lemma OneFileRecord(offset: u8)
    ensures FieldsInBounds(OneFilePackage(offset), FirstRecord)
    ensures NameEnd(OneFilePackage(offset), FirstRecord) == 28
    ensures ContentOffset(OneFilePackage(offset), FirstRecord) == offset as int
    ensures ContentSize(OneFilePackage(offset), FirstRecord) == 3
    ensures Utf8.IsValid(OneFilePackage(offset)[22..28])
  {
    var buf := OneFilePackage(offset);
    var name: seq<u8> := [0x2F, 0x61, 0x2E, 0x74, 0x78, 0x74];
    var record := SampleRecord(offset);
    ConcatParts(SampleHeader(), [0, 0, 0, 1], record, [0x41, 0x42, 0x43]);
    ConcatParts([0, 0, 0, 6], name, [0, 0, 0, offset], [0, 0, 0, 3]);
    SliceOfSlice(buf, 18, record, 0, 4);
    SliceOfSlice(buf, 18, record, 4, 10);
    SliceOfSlice(buf, 18, record, 10, 14);
    SliceOfSlice(buf, 18, record, 14, 18);
    assert Utf8.IsValid(name) by {
      SampleName();
      Utf8.DecodeOfEncode("/a.txt");
    }
  }

  /** With the offset one octet further the content would run past the end
      of the buffer: the package is refused with OutOfBounds. */
  lemma OneFileContentPastEnd()
    ensures ParseWxapkg(OneFilePackage(37)) == Err(OutOfBounds)
  {
    var buf := OneFilePackage(37);
    OneFileHeader(37);
    OneFileRecord(37);
    assert RecordCursor(buf, 0) == FirstRecord;
    DecodeContentPastEnd(buf, 0);
  }
}
