/** The wxapkg decoder of src/lib.rs: header validation, the walk over the
    directory records and the copying of each entry's content out of the
    buffer. The buffer is the whole package, already read into memory.

    Layout (every word big-endian, unsigned, 32 bits):
      0       start marker 0xBE
      1..5    zero padding
      5..9    index length (decoded, not used)
      9..13   data length (decoded, not used)
      13      end marker 0xED
      14..18  number of files
      18..    the directory records, packed one after the other:
              filename length, filename (UTF-8), content offset, content size */
module Wxapkg {
  import opened Bytes
  import Utf8

  /** Why a package is refused. The source panics on every out-of-range
      slice; here each such range is checked and gives OutOfBounds. */
  datatype DecodeError = BadMagic | BadPadding | BadUtf8 | OutOfBounds

  datatype Result<+T> = Ok(value: T) | Err(error: DecodeError)

  /** One extracted file: its full path, such as /pages/webview/webview.html,
      and its content. */
  datatype MiniappFile = MiniappFile(filename: string, content: seq<u8>)

  /** The two length fields of the header. */
  datatype WxapkgHeader = WxapkgHeader(lenIndex: u32, lenData: u32)

  const HeaderSize: nat := 14
  const StartMarker: u8 := 0xBE
  const EndMarker: u8 := 0xED
  /** The cursor of the first directory record, right after the file count. */
  const FirstRecord: nat := 18

  // ---------------------------------------------------------------- header

  /** What the 14 header octets decode to. The marker check comes first, so a
      header with a wrong marker and non-zero padding is refused as BadMagic. */
  function ParseHeader(buf: seq<u8>): (r: Result<WxapkgHeader>)
    requires |buf| == HeaderSize
    ensures r == Err(BadMagic) <==> buf[0] != StartMarker || buf[13] != EndMarker
    ensures buf[0] == StartMarker && buf[13] == EndMarker && (exists i | 1 <= i < 5 :: buf[i] != 0)
      ==> r == Err(BadPadding)
    ensures r == Err(BadPadding) ==> exists i | 1 <= i < 5 :: buf[i] != 0
    ensures r.Ok? ==> forall i | 1 <= i < 5 :: buf[i] == 0
    ensures r.Err? ==> r.error == BadMagic || r.error == BadPadding
    ensures r.Ok? ==> r.value.lenIndex == BeU32(buf[5..9]) && r.value.lenData == BeU32(buf[9..13])
  {
    if buf[0] != StartMarker || buf[13] != EndMarker then Err(BadMagic)
    else if buf[1..5] != [0, 0, 0, 0] then Err(BadPadding)
    else Ok(WxapkgHeader(BeU32(buf[5..9]), BeU32(buf[9..13])))
  }

  /** `convert_to_header`: checks the markers, then the four padding octets
      one by one, then reads the two length fields. */
  method ConvertToHeader(buf: seq<u8>) returns (r: Result<WxapkgHeader>)
    requires |buf| == HeaderSize
    ensures r == ParseHeader(buf)
  {
    if buf[0] != StartMarker || buf[13] != EndMarker {
      return Err(BadMagic);
    }
    var inner := buf[1..13];
    for i := 0 to 4
      invariant forall j | 0 <= j < i :: inner[j] == 0
    {
      if inner[i] != 0 {
        assert buf[1..5][i] != 0;
        return Err(BadPadding);
      }
    }
    var lenIndex := ConvertToU32(inner[4..8]);
    var lenData := ConvertToU32(inner[8..12]);
    assert forall j | 0 <= j < 4 :: buf[1..5][j] == inner[j];
    assert buf[1..5] == [0, 0, 0, 0];
    assert inner[4..8] == buf[5..9] && inner[8..12] == buf[9..13];
    r := Ok(WxapkgHeader(lenIndex, lenData));
  }

  // ------------------------------------------------------ directory records

  /** Where the filename of the record at `p` ends: p + 4 + its length. */
  function NameEnd(wxapkg: seq<u8>, p: nat): nat
    requires p + 4 <= |wxapkg|
  {
    p + 4 + BeU32(wxapkg[p..p + 4])
  }

  /** The record at `p` has its length word, its filename and its offset and
      size words inside the buffer. */
  predicate FieldsInBounds(wxapkg: seq<u8>, p: nat)
  {
    p + 4 <= |wxapkg| && NameEnd(wxapkg, p) + 8 <= |wxapkg|
  }

  /** The content offset and size of the record at `p`. */
  function ContentOffset(wxapkg: seq<u8>, p: nat): u32
    requires FieldsInBounds(wxapkg, p)
  {
    BeU32(wxapkg[NameEnd(wxapkg, p)..NameEnd(wxapkg, p) + 4])
  }

  function ContentSize(wxapkg: seq<u8>, p: nat): u32
    requires FieldsInBounds(wxapkg, p)
  {
    BeU32(wxapkg[NameEnd(wxapkg, p) + 4..NameEnd(wxapkg, p) + 8])
  }

  /** `convert_to_miniapp_file`: decodes the record at `startIndex` and
      returns the file with the cursor of the next record. The next cursor
      is startIndex + 4 + filename length + 8, whatever the content offset
      is; the filename is the text whose UTF-8 octets are exactly the name
      octets of the record; the content is the slice the offset and size
      words designate. */
  function ConvertToMiniappFile(wxapkg: seq<u8>, startIndex: nat): (r: Result<(MiniappFile, nat)>)
    ensures r.Ok? ==>
      && FieldsInBounds(wxapkg, startIndex)
      && var nameEnd := NameEnd(wxapkg, startIndex);
      && var offset := ContentOffset(wxapkg, startIndex);
      && var size := ContentSize(wxapkg, startIndex);
      && r.value.1 == nameEnd + 8 > startIndex
      && Utf8.Encode(r.value.0.filename) == wxapkg[startIndex + 4..nameEnd]
      && offset + size <= |wxapkg|
      && r.value.0.content == wxapkg[offset..offset + size]
    ensures r.Err? ==> r.error == BadUtf8 || r.error == OutOfBounds
  {
    if startIndex + 4 > |wxapkg| then Err(OutOfBounds)
    else if NameEnd(wxapkg, startIndex) > |wxapkg| then Err(OutOfBounds)
    else
      var nameBytes := wxapkg[startIndex + 4..NameEnd(wxapkg, startIndex)];
      match Utf8.Decode(nameBytes)
      case None => Err(BadUtf8)
      case Some(filename) =>
        if NameEnd(wxapkg, startIndex) + 8 > |wxapkg| then Err(OutOfBounds)
        else
          var offset := ContentOffset(wxapkg, startIndex);
          var contentSize := ContentSize(wxapkg, startIndex);
          if offset + contentSize > |wxapkg| then Err(OutOfBounds)
          else
            Utf8.EncodeOfDecode(nameBytes);
            Ok((MiniappFile(filename, wxapkg[offset..offset + contentSize]), NameEnd(wxapkg, startIndex) + 8))
  }

  /** Which outcome a record has: it decodes exactly when its fields lie
      inside the buffer, its filename is well-formed UTF-8 and its content
      slice lies inside the buffer; it is refused as BadUtf8 exactly when the
      filename octets are in the buffer but not UTF-8; every other failure is
      OutOfBounds. */
  lemma ConvertToMiniappFileOutcome(wxapkg: seq<u8>, startIndex: nat)
    ensures ConvertToMiniappFile(wxapkg, startIndex).Ok? <==>
      FieldsInBounds(wxapkg, startIndex)
      && Utf8.IsValid(wxapkg[startIndex + 4..NameEnd(wxapkg, startIndex)])
      && ContentOffset(wxapkg, startIndex) + ContentSize(wxapkg, startIndex) <= |wxapkg|
    ensures ConvertToMiniappFile(wxapkg, startIndex) == Err(BadUtf8) <==>
      startIndex + 4 <= |wxapkg| && NameEnd(wxapkg, startIndex) <= |wxapkg|
      && !Utf8.IsValid(wxapkg[startIndex + 4..NameEnd(wxapkg, startIndex)])
  {
  }

  // ------------------------------------------------------- directory walk

  /** The walk over `count` records from cursor `start`: `step` decodes the
      record at a cursor and gives the cursor of the next one. The result is
      the decoded records in directory order, or the error of the first
      record that fails. */
  function Walk<T>(step: nat -> Result<(T, nat)>, start: nat, count: nat): (r: Result<seq<T>>)
    ensures r.Ok? ==> |r.value| == count
    decreases count
  {
    if count == 0 then Ok([])
    else match step(start)
      case Err(e) => Err(e)
      case Ok((item, next)) =>
        match Walk(step, next, count - 1)
        case Err(e) => Err(e)
        case Ok(items) => Ok([item] + items)
  }

  /** The cursor of record number `i` of a walk from `start`. */
  function Cursor<T>(step: nat -> Result<(T, nat)>, start: nat, i: nat): nat
    decreases i
  {
    if i == 0 then start
    else match step(start)
      case Err(_) => start
      case Ok((_, next)) => Cursor(step, next, i - 1)
  }

  /** Item i of a successful walk is what the step decodes at cursor i, and
      the step's next cursor is cursor i + 1. */
  lemma {:induction false} WalkInOrder<T>(step: nat -> Result<(T, nat)>, start: nat, count: nat, i: nat)
    requires Walk(step, start, count).Ok? && i < count
    ensures step(Cursor(step, start, i)) == Ok((Walk(step, start, count).value[i], Cursor(step, start, i + 1)))
    decreases i
  {
    if i > 0 {
      WalkInOrder(step, step(start).value.1, count - 1, i - 1);
    }
  }

  /** A walk fails exactly when one of its `count` steps fails. */
  lemma {:induction false} WalkAllOrNothing<T>(step: nat -> Result<(T, nat)>, start: nat, count: nat)
    ensures Walk(step, start, count).Err? ==> exists i | 0 <= i < count :: step(Cursor(step, start, i)).Err?
    ensures (exists i | 0 <= i < count :: step(Cursor(step, start, i)).Err?) ==> Walk(step, start, count).Err?
    decreases count
  {
    if count > 0 {
      assert Cursor(step, start, 0) == start;
      if step(start).Ok? {
        var next := step(start).value.1;
        WalkAllOrNothing(step, next, count - 1);
        if exists i | 0 <= i < count - 1 :: step(Cursor(step, next, i)).Err? {
          var i :| 0 <= i < count - 1 && step(Cursor(step, next, i)).Err?;
          assert Cursor(step, start, i + 1) == Cursor(step, next, i);
        }
        if exists i | 0 <= i < count :: step(Cursor(step, start, i)).Err? {
          var i :| 0 <= i < count && step(Cursor(step, start, i)).Err?;
          assert i != 0;
          assert Cursor(step, start, i) == Cursor(step, next, i - 1);
          assert step(Cursor(step, next, i - 1)).Err?;
        }
      } else {
        assert step(Cursor(step, start, 0)).Err?;
      }
    }
  }

  /** A walk reports the error of the first step that fails. */
  lemma {:induction false} WalkFirstError<T>(step: nat -> Result<(T, nat)>, start: nat, count: nat, i: nat)
    requires i < count
    requires forall j | 0 <= j < i :: step(Cursor(step, start, j)).Ok?
    requires step(Cursor(step, start, i)).Err?
    ensures Walk(step, start, count) == Err(step(Cursor(step, start, i)).error)
    decreases i
  {
    if i > 0 {
      assert Cursor(step, start, 0) == start;
      var next := step(start).value.1;
      forall j | 0 <= j < i - 1
        ensures step(Cursor(step, next, j)).Ok?
      {
        assert Cursor(step, start, j + 1) == Cursor(step, next, j);
      }
      WalkFirstError(step, next, count - 1, i - 1);
    }
  }

  /** One step of a walk. */
  lemma WalkStep<T>(step: nat -> Result<(T, nat)>, start: nat, count: nat)
    requires count > 0
    ensures step(start).Err? ==> Walk(step, start, count) == Err(step(start).error)
    ensures step(start).Ok? ==>
      Walk(step, start, count) == Prepend([step(start).value.0], Walk(step, step(start).value.1, count - 1))
  {
  }

  /** Conversely, a walk in which step k, at cursor k, decodes item k and
      gives cursor k + 1 decodes to those items. */
  lemma {:induction false} WalkOfSteps<T>(step: nat -> Result<(T, nat)>, items: seq<T>, cursors: seq<nat>)
    requires |cursors| == |items| + 1
    requires forall k | 0 <= k < |items| :: step(cursors[k]) == Ok((items[k], cursors[k + 1]))
    ensures Walk(step, cursors[0], |items|) == Ok(items)
    decreases items
  {
    if items != [] {
      forall k | 0 <= k < |items| - 1
        ensures step(cursors[1..][k]) == Ok((items[1..][k], cursors[1..][k + 1]))
      {
        assert step(cursors[k + 1]) == Ok((items[k + 1], cursors[k + 2]));
      }
      WalkOfSteps(step, items[1..], cursors[1..]);
      assert step(cursors[0]) == Ok((items[0], cursors[1]));
      assert [items[0]] + items[1..] == items;
    }
  }

  /** The record decoder of a package, as a step of the directory walk. */
  function RecordStep(wxapkg: seq<u8>): nat -> Result<(MiniappFile, nat)>
  {
    p => ConvertToMiniappFile(wxapkg, p)
  }

  // -------------------------------------------------------------- the whole

  /** What `decode_wxapkg` returns for a package buffer. */
  function ParseWxapkg(wxapkg: seq<u8>): (r: Result<seq<MiniappFile>>)
    ensures |wxapkg| < HeaderSize ==> r == Err(OutOfBounds)
    ensures r.Ok? ==>
      |wxapkg| >= FirstRecord && ParseHeader(wxapkg[..HeaderSize]).Ok?
      && |r.value| == BeU32(wxapkg[HeaderSize..FirstRecord])
  {
    if |wxapkg| < HeaderSize then Err(OutOfBounds)
    else match ParseHeader(wxapkg[..HeaderSize])
      case Err(e) => Err(e)
      case Ok(_) =>
        if |wxapkg| < FirstRecord then Err(OutOfBounds)
        else Walk(RecordStep(wxapkg), FirstRecord, BeU32(wxapkg[HeaderSize..FirstRecord]))
  }

  /** The declared number of files, at bytes 14..18. */
  function NumFiles(wxapkg: seq<u8>): u32
    requires |wxapkg| >= FirstRecord
  {
    BeU32(wxapkg[HeaderSize..FirstRecord])
  }

  /** The cursor of directory record number `i` (the first is at byte 18). */
  function RecordCursor(wxapkg: seq<u8>, i: nat): nat
  {
    Cursor(RecordStep(wxapkg), FirstRecord, i)
  }

  /** A package shorter than its header, or whose header fails, is refused
      with the header's error; a wrong marker wins over wrong padding. */
  lemma DecodeHeaderErrors(wxapkg: seq<u8>)
    ensures |wxapkg| < HeaderSize ==> ParseWxapkg(wxapkg) == Err(OutOfBounds)
    ensures |wxapkg| >= HeaderSize && (wxapkg[0] != StartMarker || wxapkg[13] != EndMarker)
      ==> ParseWxapkg(wxapkg) == Err(BadMagic)
    ensures |wxapkg| >= HeaderSize && wxapkg[0] == StartMarker && wxapkg[13] == EndMarker
      && (exists i | 1 <= i < 5 :: wxapkg[i] != 0)
      ==> ParseWxapkg(wxapkg) == Err(BadPadding)
    ensures HeaderSize <= |wxapkg| < FirstRecord && ParseHeader(wxapkg[..HeaderSize]).Ok?
      ==> ParseWxapkg(wxapkg) == Err(OutOfBounds)
  {
    if |wxapkg| >= HeaderSize {
      var header := wxapkg[..HeaderSize];
      assert header[0] == wxapkg[0] && header[13] == wxapkg[13];
      assert forall i | 1 <= i < 5 :: header[i] == wxapkg[i];
    }
  }

  /** A decoded package holds exactly the declared number of files, and file
      i is what directory record i decodes to: the files come in directory
      order, and each record starts where the one before it ends. */
  lemma DecodeInDirectoryOrder(wxapkg: seq<u8>, i: nat)
    requires ParseWxapkg(wxapkg).Ok?
    ensures |ParseWxapkg(wxapkg).value| == NumFiles(wxapkg)
    ensures i < NumFiles(wxapkg) ==>
      ConvertToMiniappFile(wxapkg, RecordCursor(wxapkg, i))
        == Ok((ParseWxapkg(wxapkg).value[i], RecordCursor(wxapkg, i + 1)))
  {
    if i < NumFiles(wxapkg) {
      WalkInOrder(RecordStep(wxapkg), FirstRecord, NumFiles(wxapkg), i);
      assert RecordStep(wxapkg)(RecordCursor(wxapkg, i)) == ConvertToMiniappFile(wxapkg, RecordCursor(wxapkg, i));
    }
  }

  /** Once the header and the file count are in the buffer, the package is
      refused exactly when one of its declared records fails: there is no
      partial result. */
  lemma DecodeAllOrNothing(wxapkg: seq<u8>)
    requires |wxapkg| >= FirstRecord && ParseHeader(wxapkg[..HeaderSize]).Ok?
    ensures ParseWxapkg(wxapkg).Err? ==>
      exists i | 0 <= i < NumFiles(wxapkg) :: ConvertToMiniappFile(wxapkg, RecordCursor(wxapkg, i)).Err?
    ensures (exists i | 0 <= i < NumFiles(wxapkg) :: ConvertToMiniappFile(wxapkg, RecordCursor(wxapkg, i)).Err?)
      ==> ParseWxapkg(wxapkg).Err?
  {
    var step := RecordStep(wxapkg);
    WalkAllOrNothing(step, FirstRecord, NumFiles(wxapkg));
    forall i | 0 <= i < NumFiles(wxapkg)
      ensures step(Cursor(step, FirstRecord, i)) == ConvertToMiniappFile(wxapkg, RecordCursor(wxapkg, i))
    {
    }
  }

  /** The package is refused with the error of its first failing record,
      wherever in the directory that record is. */
  lemma DecodeFirstError(wxapkg: seq<u8>, i: nat)
    requires |wxapkg| >= FirstRecord && ParseHeader(wxapkg[..HeaderSize]).Ok?
    requires i < NumFiles(wxapkg)
    requires forall j | 0 <= j < i :: ConvertToMiniappFile(wxapkg, RecordCursor(wxapkg, j)).Ok?
    requires ConvertToMiniappFile(wxapkg, RecordCursor(wxapkg, i)).Err?
    ensures ParseWxapkg(wxapkg) == Err(ConvertToMiniappFile(wxapkg, RecordCursor(wxapkg, i)).error)
  {
    var step := RecordStep(wxapkg);
    forall j | 0 <= j <= i
      ensures step(Cursor(step, FirstRecord, j)) == ConvertToMiniappFile(wxapkg, RecordCursor(wxapkg, j))
    {
    }
    WalkFirstError(step, FirstRecord, NumFiles(wxapkg), i);
  }

  /** A record whose content slice runs past the end of the buffer makes the
      whole package fail with OutOfBounds, wherever it is in the directory,
      as long as the records before it decode (and its own filename passes
      the UTF-8 check, which comes first). */
  lemma DecodeContentPastEnd(wxapkg: seq<u8>, i: nat)
    requires |wxapkg| >= FirstRecord && ParseHeader(wxapkg[..HeaderSize]).Ok?
    requires i < NumFiles(wxapkg)
    requires forall j | 0 <= j < i :: ConvertToMiniappFile(wxapkg, RecordCursor(wxapkg, j)).Ok?
    requires FieldsInBounds(wxapkg, RecordCursor(wxapkg, i))
    requires Utf8.IsValid(wxapkg[RecordCursor(wxapkg, i) + 4..NameEnd(wxapkg, RecordCursor(wxapkg, i))])
    requires ContentOffset(wxapkg, RecordCursor(wxapkg, i)) + ContentSize(wxapkg, RecordCursor(wxapkg, i)) > |wxapkg|
    ensures ParseWxapkg(wxapkg) == Err(OutOfBounds)
  {
    ConvertToMiniappFileOutcome(wxapkg, RecordCursor(wxapkg, i));
    DecodeFirstError(wxapkg, i);
  }

  /** A record whose filename is not well-formed UTF-8 makes the whole
      package fail with BadUtf8, as long as the records before it decode. */
  lemma DecodeBadFilename(wxapkg: seq<u8>, i: nat)
    requires |wxapkg| >= FirstRecord && ParseHeader(wxapkg[..HeaderSize]).Ok?
    requires i < NumFiles(wxapkg)
    requires forall j | 0 <= j < i :: ConvertToMiniappFile(wxapkg, RecordCursor(wxapkg, j)).Ok?
    requires RecordCursor(wxapkg, i) + 4 <= |wxapkg| && NameEnd(wxapkg, RecordCursor(wxapkg, i)) <= |wxapkg|
    requires !Utf8.IsValid(wxapkg[RecordCursor(wxapkg, i) + 4..NameEnd(wxapkg, RecordCursor(wxapkg, i))])
    ensures ParseWxapkg(wxapkg) == Err(BadUtf8)
  {
    ConvertToMiniappFileOutcome(wxapkg, RecordCursor(wxapkg, i));
    DecodeFirstError(wxapkg, i);
  }

  /** A record with an empty filename is decoded like any other: the name is
      the empty text and the content is still sliced out. */
  lemma EmptyFilename(wxapkg: seq<u8>, startIndex: nat)
    requires FieldsInBounds(wxapkg, startIndex) && BeU32(wxapkg[startIndex..startIndex + 4]) == 0
    requires ContentOffset(wxapkg, startIndex) + ContentSize(wxapkg, startIndex) <= |wxapkg|
    ensures ConvertToMiniappFile(wxapkg, startIndex) == Ok((
      MiniappFile("", wxapkg[ContentOffset(wxapkg, startIndex)..ContentOffset(wxapkg, startIndex) + ContentSize(wxapkg, startIndex)]),
      startIndex + 12))
  {
  }

  /** The files decoded so far, in front of what the rest of the walk gives. */
  ghost function Prepend<T>(files: seq<T>, rest: Result<seq<T>>): Result<seq<T>>
  {
    match rest
    case Err(e) => Err(e)
    case Ok(more) => Ok(files + more)
  }

  /** `decode_wxapkg`: validates the header, reads the file count and walks
      that many records from byte 18, threading the cursor and appending each
      file; the first failing record ends the walk with its error. */
  method DecodeWxapkg(wxapkg: seq<u8>) returns (r: Result<seq<MiniappFile>>)
    ensures r == ParseWxapkg(wxapkg)
  {
    if |wxapkg| < HeaderSize {
      return Err(OutOfBounds);
    }
    var header := ConvertToHeader(wxapkg[..HeaderSize]);
    if header.Err? {
      return Err(header.error);
    }
    if |wxapkg| < FirstRecord {
      return Err(OutOfBounds);
    }
    var numFiles := ConvertToU32(wxapkg[HeaderSize..FirstRecord]);
    var files: seq<MiniappFile> := [];
    var startIndex := FirstRecord;
    assert ParseWxapkg(wxapkg) == Walk(RecordStep(wxapkg), startIndex, numFiles);
    assert forall more: seq<MiniappFile> :: [] + more == more;
    for i := 0 to numFiles
      invariant ParseWxapkg(wxapkg) == Prepend(files, Walk(RecordStep(wxapkg), startIndex, numFiles - i))
    {
      var step := ConvertToMiniappFile(wxapkg, startIndex);
      WalkStep(RecordStep(wxapkg), startIndex, numFiles - i);
      assert RecordStep(wxapkg)(startIndex) == step;
      if step.Err? {
        return Err(step.error);
      }
      var (file, nextIndex) := step.value;
      assert forall more: seq<MiniappFile> :: files + ([file] + more) == (files + [file]) + more;
      startIndex := nextIndex;
      files := files + [file];
    }
    assert files + [] == files;
    r := Ok(files);
  }
}
