/** The validator: decides whether one file is the byte reversal of another,
    compares their sizes and reports the nine permission bits of each file
    and of a directory. */
module Validator {
  import opened Seqs
  import Io

  /** Bytes compared per chunk. */
  const BufferSize: nat := 8192

  /** Column at which the ": Yes" / ": No" answer of a permission line starts. */
  const TextWidth: nat := 45

  /** The label of each permission line, before the kind of entry is appended. */
  const PermissionLabels: seq<string> := [
    "User has read permissions on ",
    "User has write permission on ",
    "User has execute permission on ",
    "Group has read permissions on ",
    "Group has write permission on ",
    "Group has execute permission on ",
    "Others has read permissions on ",
    "Others has write permission on ",
    "Others has execute permission on "
  ]

  // ---------------------------------------------------------------------------
  // Permission decoding

  /** The nine permission flags of a mode word, in report order: the masks
      S_IRUSR, S_IWUSR, S_IXUSR, S_IRGRP, S_IWGRP, S_IXGRP, S_IROTH, S_IWOTH
      and S_IXOTH, octal 0400 down to 01. */
  function PermissionFlags(mode: bv32): (flags: seq<bool>)
    ensures |flags| == 9
  {
    [mode & 0x100 != 0, mode & 0x080 != 0, mode & 0x040 != 0,
     mode & 0x020 != 0, mode & 0x010 != 0, mode & 0x008 != 0,
     mode & 0x004 != 0, mode & 0x002 != 0, mode & 0x001 != 0]
  }

  /** Only the nine permission bits matter, and two modes report the same flags
      exactly when those bits agree. */
  lemma PermissionFlagsIff(m1: bv32, m2: bv32)
    ensures PermissionFlags(m1) == PermissionFlags(m2) <==> m1 & 0x1FF == m2 & 0x1FF
  {
    if m1 & 0x1FF == m2 & 0x1FF {
      LowBitsDecideSingle(m1, m2);
    }
    if PermissionFlags(m1) == PermissionFlags(m2) {
      SameFlagsSameLowBits(m1, m2);
    }
  }

  lemma SameFlagsSameLowBits(m1: bv32, m2: bv32)
    requires PermissionFlags(m1) == PermissionFlags(m2)
    ensures m1 & 0x1FF == m2 & 0x1FF
  {
    var f1, f2 := PermissionFlags(m1), PermissionFlags(m2);
    assert f1[0] == f2[0] && f1[1] == f2[1] && f1[2] == f2[2];
    assert f1[3] == f2[3] && f1[4] == f2[4] && f1[5] == f2[5];
    assert f1[6] == f2[6] && f1[7] == f2[7] && f1[8] == f2[8];
    SingleBitsDecide(m1, m2);
  }

  /** Bit-vector fact: agreeing low nine bits agree under each single-bit mask. */
  lemma LowBitsDecideSingle(m1: bv32, m2: bv32)
    requires m1 & 0x1FF == m2 & 0x1FF
    ensures m1 & 0x100 == m2 & 0x100 && m1 & 0x080 == m2 & 0x080 && m1 & 0x040 == m2 & 0x040
    ensures m1 & 0x020 == m2 & 0x020 && m1 & 0x010 == m2 & 0x010 && m1 & 0x008 == m2 & 0x008
    ensures m1 & 0x004 == m2 & 0x004 && m1 & 0x002 == m2 & 0x002 && m1 & 0x001 == m2 & 0x001
  {
  }

  /** Bit-vector fact: the low nine bits are fixed by whether each of them is set. */
  lemma SingleBitsDecide(m1: bv32, m2: bv32)
    requires m1 & 0x100 == 0 <==> m2 & 0x100 == 0
    requires m1 & 0x080 == 0 <==> m2 & 0x080 == 0
    requires m1 & 0x040 == 0 <==> m2 & 0x040 == 0
    requires m1 & 0x020 == 0 <==> m2 & 0x020 == 0
    requires m1 & 0x010 == 0 <==> m2 & 0x010 == 0
    requires m1 & 0x008 == 0 <==> m2 & 0x008 == 0
    requires m1 & 0x004 == 0 <==> m2 & 0x004 == 0
    requires m1 & 0x002 == 0 <==> m2 & 0x002 == 0
    requires m1 & 0x001 == 0 <==> m2 & 0x001 == 0
    ensures m1 & 0x1FF == m2 & 0x1FF
  {
  }

  /** A file created with mode 0600 is readable and writable by its owner and nothing else. */
  lemma PermissionFlagsOwnerReadWrite()
    ensures PermissionFlags(0x180) == [true, true, false, false, false, false, false, false, false]
  {
  }

  // ---------------------------------------------------------------------------
  // Report lines

  /** n space characters, none when n is not positive. */
  function Spaces(n: int): (s: string)
    ensures |s| == Max(n, 0)
    ensures forall i :: 0 <= i < |s| ==> s[i] == ' '
  {
    if n <= 0 then [] else Spaces(n - 1) + [' ']
  }

  function Answer(b: bool): (answer: string)
  {
    if b then "Yes" else "No"
  }

  /** A report line: the text, padded with spaces to TextWidth columns (a longer
      text is kept whole), then ": " and the answer. */
  function AlignedLine(text: string, hasPermission: bool): (line: string)
    ensures |line| == Max(|text|, TextWidth) + 2 + |Answer(hasPermission)|
    ensures line[..|text|] == text
    ensures forall i :: |text| <= i < TextWidth ==> line[i] == ' '
    ensures line[Max(|text|, TextWidth)..] == ": " + Answer(hasPermission)
  {
    var line := text + Spaces(TextWidth - |text|) + ": " + Answer(hasPermission);
    assert line[..|text|] == text;
    line
  }

  predicate EndsWithYes(line: string)
  {
    |line| >= 3 && line[|line| - 3..] == "Yes"
  }

  /** An aligned line answers "Yes" exactly when the permission is held. */
  lemma AlignedLineAnswer(text: string, hasPermission: bool)
    ensures EndsWithYes(AlignedLine(text, hasPermission)) <==> hasPermission
  {
    var line := AlignedLine(text, hasPermission);
    var col := Max(|text|, TextWidth);
    var suffix := ": " + Answer(hasPermission);
    assert line[col..] == suffix;
    assert line[|line| - 3..] == suffix[|suffix| - 3..];
    if !hasPermission {
      assert suffix[|suffix| - 3..][0] == ' ';
    }
  }

  /** The permission section for one entry: nine aligned lines when its mode
      could be read, one apology line when stat failed. */
  function PermissionReport(kind: string, mode: Option<bv32>): (lines: seq<string>)
    ensures mode.None? ==> lines == ["Could not get permissions for " + kind]
    ensures mode.Some? ==> |lines| == 9
  {
    match mode
    case None => ["Could not get permissions for " + kind]
    case Some(m) =>
      var flags := PermissionFlags(m);
      seq(9, i requires 0 <= i < 9 => AlignedLine(PermissionLabels[i] + kind, flags[i]))
  }

  /** Line i of a permission section is label i and the kind of entry aligned
      with flag i of the mode: it starts with that text and answers "Yes"
      exactly when the flag is set. */
  lemma PermissionReportLine(kind: string, mode: bv32, i: nat)
    requires i < 9
    ensures var line, text := PermissionReport(kind, Some(mode))[i], PermissionLabels[i] + kind;
      && line == AlignedLine(text, PermissionFlags(mode)[i])
      && |line| >= |text| && line[..|text|] == text
      && (EndsWithYes(line) <==> PermissionFlags(mode)[i])
  {
    var text := PermissionLabels[i] + kind;
    var flag := PermissionFlags(mode)[i];
    var line := PermissionReport(kind, Some(mode))[i];
    assert line == AlignedLine(text, flag);
    assert EndsWithYes(line) <==> flag by {
      AlignedLineAnswer(text, flag);
    }
  }

  // ---------------------------------------------------------------------------
  // Reversal check

  /** The chunk of the scan starting at pos: A's bytes from pos and the
      mirrored bytes of B, reversed, are equal. */
  ghost predicate ChunkMatches(a: seq<bv8>, b: seq<bv8>, pos: nat)
    requires |a| == |b| && pos < |a|
  {
    var n := Min(BufferSize, |a| - pos);
    a[pos..pos + n] == Reverse(b[|a| - pos - n..|a| - pos])
  }

  /** A chunk matches exactly when every byte in it mirrors its counterpart in B. */
  lemma ChunkMatchesAt(a: seq<bv8>, b: seq<bv8>, pos: nat)
    requires |a| == |b| && pos < |a|
    ensures ChunkMatches(a, b, pos) <==>
      forall i :: pos <= i < pos + Min(BufferSize, |a| - pos) ==> a[i] == b[|a| - 1 - i]
  {
    if forall i :: pos <= i < pos + Min(BufferSize, |a| - pos) ==> a[i] == b[|a| - 1 - i] {
      ChunkMirrored(a, b, pos);
    } else {
      var i :| pos <= i < pos + Min(BufferSize, |a| - pos) && a[i] != b[|a| - 1 - i];
      ChunkDiffers(a, b, pos, i);
    }
  }

  /** A chunk whose bytes all mirror B matches. */
  lemma ChunkMirrored(a: seq<bv8>, b: seq<bv8>, pos: nat)
    requires |a| == |b| && pos < |a|
    requires forall i :: pos <= i < pos + Min(BufferSize, |a| - pos) ==> a[i] == b[|a| - 1 - i]
    ensures ChunkMatches(a, b, pos)
  {
    var n := Min(BufferSize, |a| - pos);
    var hi := |a| - pos;
    var chunkA, chunkB := a[pos..pos + n], Reverse(b[hi - n..hi]);
    forall j | 0 <= j < n
      ensures chunkA[j] == chunkB[j]
    {
      assert chunkB[j] == b[hi - 1 - j];
      assert a[pos + j] == b[|a| - 1 - (pos + j)];
    }
    assert chunkA == chunkB;
  }

  /** One byte that does not mirror B spoils its chunk. */
  lemma ChunkDiffers(a: seq<bv8>, b: seq<bv8>, pos: nat, i: nat)
    requires |a| == |b| && pos <= i < pos + Min(BufferSize, |a| - pos) <= |a|
    requires a[i] != b[|a| - 1 - i]
    ensures !ChunkMatches(a, b, pos)
  {
    var n := Min(BufferSize, |a| - pos);
    var hi := |a| - pos;
    var chunkA, chunkB := a[pos..pos + n], Reverse(b[hi - n..hi]);
    assert chunkA[i - pos] == a[i];
    assert chunkB[i - pos] == b[hi - 1 - (i - pos)];
  }

  /** Reverses the first size bytes of buffer in place by swapping from both
      ends towards the middle; the rest of the buffer is untouched. */
  method ReverseChunk(buffer: array<bv8>, size: nat)
    requires size <= buffer.Length
    modifies buffer
    ensures buffer[..size] == Reverse(old(buffer[..size]))
    ensures buffer[size..] == old(buffer[size..])
  {
    ghost var chunk := buffer[..size];
    var i := 0;
    while i < size / 2
      invariant 0 <= i <= size / 2
      invariant forall k :: 0 <= k < i ==> buffer[k] == chunk[size - 1 - k]
      invariant forall k :: size - i <= k < size ==> buffer[k] == chunk[size - 1 - k]
      invariant forall k :: i <= k < size - i ==> buffer[k] == chunk[k]
      invariant buffer[size..] == old(buffer[size..])
    {
      buffer[i], buffer[size - 1 - i] := buffer[size - 1 - i], buffer[i];
      i := i + 1;
    }
    assert buffer[..size] == Reverse(chunk);
  }

  /** Whether the file read as reversed holds the byte reversal of the file
      read as original. A file that cannot be opened, or a size difference,
      gives false at once, before any content is compared; otherwise the
      chunk scan decides. mismatch is the offset of the chunk that differed,
      None when the scan found no difference or never started. */
  method IsReversed(original: Option<seq<bv8>>, reversed: Option<seq<bv8>>) returns (result: bool, ghost mismatch: Option<nat>)
    ensures result <==> original.Some? && reversed.Some? && reversed.value == Reverse(original.value)
    ensures mismatch.Some? <==> original.Some? && reversed.Some? && |original.value| == |reversed.value| && !result
    ensures mismatch.Some? ==>
      var a, b, p := original.value, reversed.value, mismatch.value;
      && p < |a| && p % BufferSize == 0
      && !ChunkMatches(a, b, p)
      && forall i :: 0 <= i < p ==> a[i] == b[|a| - 1 - i]
  {
    if original.None? || reversed.None? {
      return false, None;
    }
    if |original.value| != |reversed.value| {
      return false, None;
    }
    ghost var stoppedAt: nat;
    result, stoppedAt := CompareChunks(original.value, reversed.value);
    mismatch := if result then None else Some(stoppedAt);
  }

  /** The scan of two files of equal size: A forward and B backward in
      lock-step chunks; each B chunk is reversed in place and compared with
      the A chunk, and the first difference ends the scan. stoppedAt is the
      offset of that chunk, and every byte before it mirrors B. */
  method CompareChunks(a: seq<bv8>, b: seq<bv8>) returns (same: bool, ghost stoppedAt: nat)
    requires |a| == |b|
    ensures same <==> b == Reverse(a)
    ensures !same ==>
      && stoppedAt < |a| && stoppedAt % BufferSize == 0
      && !ChunkMatches(a, b, stoppedAt)
      && forall i :: 0 <= i < stoppedAt ==> a[i] == b[|a| - 1 - i]
  {
    var buffer1 := new bv8[BufferSize];
    var buffer2 := new bv8[BufferSize];
    var fileSize := |a|;
    var pos := 0;
    while pos < fileSize
      invariant pos % BufferSize == 0
      invariant forall i :: 0 <= i < pos && i < fileSize ==> a[i] == b[fileSize - 1 - i]
    {
      var readSize := if pos + BufferSize > fileSize then fileSize - pos else BufferSize;
      var _ := Io.Pread(a, pos, readSize, buffer1);
      var _ := Io.Pread(b, fileSize - pos - readSize, readSize, buffer2);
      ReverseChunk(buffer2, readSize);
      ChunkStep(a, b, pos, readSize, buffer1[..readSize], buffer2[..readSize]);
      if buffer1[..readSize] != buffer2[..readSize] {
        return false, pos;
      }
      pos := pos + BufferSize;
    }
    MirroredIsReverse(a, b);
    return true, 0;
  }

  /** Two equal-length sequences that mirror each other byte by byte are reversals. */
  lemma MirroredIsReverse(a: seq<bv8>, b: seq<bv8>)
    requires |a| == |b|
    requires forall i :: 0 <= i < |a| ==> a[i] == b[|a| - 1 - i]
    ensures b == Reverse(a)
  {
    forall j | 0 <= j < |b|
      ensures b[j] == Reverse(a)[j]
    {
      assert a[|a| - 1 - j] == b[|a| - 1 - (|a| - 1 - j)];
    }
  }

  /** One round of the scan: the reversed B chunk equals the A chunk exactly
      when the chunk matches; a mismatch refutes the reversal, a match extends
      the mirrored prefix by the chunk. */
  lemma ChunkStep(a: seq<bv8>, b: seq<bv8>, pos: nat, readSize: nat, chunk1: seq<bv8>, chunk2: seq<bv8>)
    requires |a| == |b| && pos < |a| && readSize == Min(BufferSize, |a| - pos)
    requires chunk1 == a[pos..pos + readSize]
    requires chunk2 == Reverse(b[|a| - pos - readSize..|a| - pos])
    requires forall i :: 0 <= i < pos ==> a[i] == b[|a| - 1 - i]
    ensures chunk1 == chunk2 <==> ChunkMatches(a, b, pos)
    ensures chunk1 != chunk2 ==> b != Reverse(a)
    ensures chunk1 == chunk2 ==> forall i :: 0 <= i < pos + BufferSize && i < |a| ==> a[i] == b[|a| - 1 - i]
  {
    ChunkMatchesAt(a, b, pos);
    if chunk1 != chunk2 {
      var k :| pos <= k < pos + readSize && a[k] != b[|a| - 1 - k];
      assert Reverse(a)[|a| - 1 - k] == a[k];
    }
  }


  // ---------------------------------------------------------------------------
  // The whole validation

  /** What stat and open see at a path that exists: its mode word, its bytes
      (whose count is the size stat reports) and whether `open` for reading
      succeeds, which it need not for an entry stat can still see. */
  datatype Entry = Entry(mode: bv32, contents: seq<bv8>, readable: bool)

  /** The validator's findings, in the order it prints them. */
  datatype Report = Report(
    directoryExists: bool,
    filesReversed: bool,
    sameSize: bool,
    newFilePermissions: seq<string>,
    oldFilePermissions: seq<string>,
    directoryPermissions: seq<string>)

  /** The mode stat reports, or None when stat fails. */
  function ModeOf(e: Option<Entry>): (mode: Option<bv32>)
  {
    if e.Some? then Some(e.value.mode) else None
  }

  /** The bytes a read through `open(O_RDONLY)` sees, or None when the open fails. */
  function ContentsOf(e: Option<Entry>): (contents: Option<seq<bv8>>)
  {
    if e.Some? && e.value.readable then Some(e.value.contents) else None
  }

  /** The size comparison: true when both stats succeed and report equal sizes. */
  function SameSize(oldFile: Option<Entry>, newFile: Option<Entry>): (same: bool)
  {
    match (oldFile, newFile)
    case (Some(o), Some(n)) => |o.contents| == |n.contents|
    case _ => false
  }

  /** A file and its reversal always pass the size comparison, readable or not. */
  lemma ReversalHasSameSize(o: Entry, n: Entry)
    requires n.contents == Reverse(o.contents)
    ensures SameSize(Some(o), Some(n)) && SameSize(Some(n), Some(o))
  {
  }

  /** Runs every check of the validator on the new file, the old file and the
      directory (None where the path does not exist). The reversal check takes
      the old file as original and the new file as its reversal. */
  method ValidateFiles(newFile: Option<Entry>, oldFile: Option<Entry>, directory: Option<bv32>) returns (report: Report)
    ensures report.directoryExists <==> directory.Some?
    ensures report.filesReversed <==>
      newFile.Some? && oldFile.Some? && newFile.value.readable && oldFile.value.readable &&
      newFile.value.contents == Reverse(oldFile.value.contents)
    ensures report.sameSize <==>
      newFile.Some? && oldFile.Some? && |newFile.value.contents| == |oldFile.value.contents|
    ensures report.filesReversed ==> report.sameSize
    ensures report.newFilePermissions == PermissionReport("newfile", ModeOf(newFile))
    ensures report.oldFilePermissions == PermissionReport("oldfile", ModeOf(oldFile))
    ensures report.directoryPermissions == PermissionReport("directory", directory)
  {
    var dirExists := directory.Some?;
    var filesReversed, _ := IsReversed(ContentsOf(oldFile), ContentsOf(newFile));
    var sameSize := SameSize(oldFile, newFile);
    report := Report(dirExists, filesReversed, sameSize,
      PermissionReport("newfile", ModeOf(newFile)),
      PermissionReport("oldfile", ModeOf(oldFile)),
      PermissionReport("directory", directory));
  }
}
