/** The file reverser: whole-file reversal, partial reversal around a preserved
    middle range, and the naming of the output file. */
module Reverser {
  import opened Seqs
  import Io

  /** Bytes moved per read/write cycle. */
  const BufferSize: nat := 8192

  /** Directory the output file is placed in, with its separator. */
  const OutputDirectory: string := "Assignment1/"

  /** Size of the character array the output path is formatted into, terminator included. */
  const PathBufferSize: nat := 256

  // ---------------------------------------------------------------------------
  // Output path

  /** The text after the last '/' of path, or all of path when it has none. */
  function Basename(path: string): (name: string)
    ensures '/' !in name
    ensures |name| <= |path| && name == path[|path| - |name|..]
    ensures |name| < |path| ==> path[|path| - |name| - 1] == '/'
    ensures '/' !in path ==> name == path
  {
    if path == [] || path[|path| - 1] == '/' then []
    else
      var name := Basename(path[..|path| - 1]);
      assert path[|path| - 1 - |name|..] == path[..|path| - 1][|path| - 1 - |name|..] + [path[|path| - 1]];
      name + [path[|path| - 1]]
  }

  function DigitChar(d: nat): (c: char)
    requires d < 10
  {
    "0123456789"[d]
  }

  predicate IsDigits(s: string)
  {
    forall i :: 0 <= i < |s| ==> '0' <= s[i] <= '9'
  }

  /** The decimal numeral of n, without leading zeros. */
  function DecimalDigits(n: nat): (s: string)
    ensures |s| > 0 && IsDigits(s)
    ensures s[0] == '0' ==> n == 0
  {
    if n < 10 then [DigitChar(n)] else DecimalDigits(n / 10) + [DigitChar(n % 10)]
  }

  /** The number a decimal numeral denotes. */
  function DigitsValue(s: string): (value: nat)
    requires IsDigits(s)
  {
    if s == [] then 0
    else 10 * DigitsValue(s[..|s| - 1]) + ((s[|s| - 1] as int) - ('0' as int))
  }

  /** Reading back the numeral of n gives n. */
  lemma {:induction false} DecimalDigitsRoundTrip(n: nat)
    ensures DigitsValue(DecimalDigits(n)) == n
  {
    if n >= 10 {
      DecimalDigitsRoundTrip(n / 10);
      var s := DecimalDigits(n);
      assert s[..|s| - 1] == DecimalDigits(n / 10);
    }
  }

  /** `%d` formatting of an int. */
  function FormatInt(n: int): (numeral: string)
  {
    if n < 0 then "-" + DecimalDigits(-n) else DecimalDigits(n)
  }

  /** The output path `Assignment1/<flag>_<basename>`, formatted into a
      256-byte array, so cut to the 255 bytes that fit before the terminator.
      Each `char` of a path here stands for one byte of the C string. */
  function OutputPath(inputPath: string, flag: int): (path: string)
    ensures |path| < PathBufferSize
    ensures |path| >= |OutputDirectory| && path[..|OutputDirectory|] == OutputDirectory
    ensures var full := OutputDirectory + FormatInt(flag) + "_" + Basename(inputPath);
            |full| < PathBufferSize ==> path == full
  {
    var full := OutputDirectory + FormatInt(flag) + "_" + Basename(inputPath);
    PrefixOfConcat(OutputDirectory, FormatInt(flag), "_", Basename(inputPath));
    TakeKeepsPrefix(full, OutputDirectory, PathBufferSize - 1);
    TakePrefix(full, PathBufferSize - 1);
    Take(full, PathBufferSize - 1)
  }

  /** A path "dir/name" names the file name. */
  lemma {:induction false} BasenameAfterSlash(dir: string, name: string)
    requires '/' !in name
    ensures Basename(dir + "/" + name) == name
  {
    var p := dir + "/" + name;
    if name != [] {
      var last := |name| - 1;
      assert p[..|p| - 1] == dir + "/" + name[..last];
      assert name[last] in name;
      BasenameAfterSlash(dir, name[..last]);
      assert name[..last] + [name[last]] == name;
    }
  }

  /** For an input "dir/name" or "name" whose output path fits, the output is
      Assignment1/<flag>_name. */
  lemma OutputPathJoin(dir: string, name: string, flag: int)
    requires '/' !in name
    requires |OutputDirectory + FormatInt(flag) + "_" + name| < PathBufferSize
    ensures OutputPath(dir + "/" + name, flag) == OutputDirectory + FormatInt(flag) + "_" + name
    ensures OutputPath(name, flag) == OutputDirectory + FormatInt(flag) + "_" + name
  {
    BasenameAfterSlash(dir, name);
  }

  /** The two modes the reverser accepts are formatted as "0" and "1". */
  lemma FormatFlags()
    ensures FormatInt(0) == "0" && FormatInt(1) == "1"
  {
  }

  /** n copies of the two characters d and '_'. */
  function Pairs(d: char, n: nat): (s: string)
    ensures |s| == 2 * n
    ensures d != '/' ==> '/' !in s
  {
    if n == 0 then [] else Pairs(d, n - 1) + [d, '_']
  }

  /** One more pair can go on either end. */
  lemma {:induction false} PairsShift(d: char, n: nat)
    ensures [d, '_'] + Pairs(d, n) == Pairs(d, n) + [d, '_']
  {
    if n > 0 {
      PairsShift(d, n - 1);
      assert [d, '_'] + Pairs(d, n) == ([d, '_'] + Pairs(d, n - 1)) + [d, '_'];
    }
  }

  /** The basename of "Assignment1/" + pairs + "d" is everything after the directory. */
  lemma PairsPathBasename(d: char, n: nat)
    requires d != '/'
    ensures Basename(OutputDirectory + Pairs(d, n) + [d]) == Pairs(d, n) + [d]
  {
    var name := Pairs(d, n) + [d];
    assert OutputDirectory + Pairs(d, n) + [d] == "Assignment1" + "/" + name;
    BasenameAfterSlash("Assignment1", name);
  }

  /** Mode digit d with n = 121 pairs: the full path is the input path with
      "_d" appended, so the 255-byte cut gives the input path back. */
  lemma OutputPathFixedPoint(flag: int, d: char, n: nat)
    requires FormatInt(flag) == [d] && d != '/'
    requires |OutputDirectory| + 2 * n + 1 == PathBufferSize - 1
    ensures var p := OutputDirectory + Pairs(d, n) + [d];
      |p| == PathBufferSize - 1 && OutputPath(p, flag) == p
  {
    var pairs := Pairs(d, n);
    var p := OutputDirectory + pairs + [d];
    PairsPathBasename(d, n);
    PairsShift(d, n);
    var full := OutputDirectory + FormatInt(flag) + "_" + Basename(p);
    var tail := [d, '_'] + (pairs + [d]);
    assert full == OutputDirectory + tail;
    assert tail == pairs + [d] + ['_', d] by {
      assert tail == ([d, '_'] + pairs) + [d];
    }
    assert full == p + ['_', d];
    assert full[..PathBufferSize - 1] == p;
  }

  /** An input path whose output path is the input path itself: in mode 0 or 1,
      "Assignment1/" then n = 121 pairs "<flag>_" then "<flag>" is 255 characters,
      and prefixing its basename with "<flag>_" and cutting at 255 gives it back.
      Opening the output with truncation then empties the input before it is read. */
  lemma OutputPathCanBeInput(flag: int, n: nat)
    requires flag == 0 || flag == 1
    requires |OutputDirectory| + 2 * n + 1 == PathBufferSize - 1
    ensures var d := FormatInt(flag)[0];
      var p := OutputDirectory + Pairs(d, n) + [d];
      |p| == PathBufferSize - 1 && OutputPath(p, flag) == p
  {
    FormatFlags();
    OutputPathFixedPoint(flag, FormatInt(flag)[0], n);
  }



  // ---------------------------------------------------------------------------
  // What the two reversal modes produce

  /** The partial-reversal image: the prefix before start reversed, the middle
      kept, the suffix from end reversed. */
  function PartialImage(input: seq<bv8>, start: nat, end: nat): (image: seq<bv8>)
    requires start <= end <= |input|
  {
    Reverse(input[..start]) + input[start..end] + Reverse(input[end..])
  }

  /** Position by position: mirrored inside each edge range, unchanged in the middle. */
  lemma PartialImageAt(input: seq<bv8>, start: nat, end: nat, i: nat)
    requires start <= end <= |input| && i < |input|
    ensures |PartialImage(input, start, end)| == |input|
    ensures PartialImage(input, start, end)[i] ==
      if i < start then input[start - 1 - i]
      else if i < end then input[i]
      else input[|input| - 1 - (i - end)]
  {
    if i < start {
      ReverseAt(input[..start], i);
    } else if end <= i {
      ReverseAt(input[end..], i - end);
    }
  }

  /** With an empty middle at either end of the file the partial image is the whole reversal. */
  lemma PartialImageDegenerate(input: seq<bv8>, k: nat)
    requires k == 0 || k == |input|
    ensures PartialImage(input, k, k) == Reverse(input)
  {
    if k == 0 {
      assert input[..0] == [] && input[0..0] == [] && input[0..] == input;
    } else {
      assert input[..k] == input && input[k..k] == [] && input[k..] == [];
    }
  }

  /** An empty middle inside the file reverses the two halves separately, which
      is not the whole reversal in general: on "AB" cut at 1 the image is "AB". */
  lemma PartialImageSplitCounterexample()
    ensures PartialImage([0x41, 0x42], 1, 1) == [0x41, 0x42] != Reverse([0x41, 0x42])
  {
    var input: seq<bv8> := [0x41, 0x42];
    assert input[..1] == [0x41] && input[1..1] == [] && input[1..] == [0x42];
    assert Reverse(input)[0] == 0x42;
  }

  /** With an empty middle at k the image is the whole reversal exactly when
      swapping the two halves around k leaves the input as it was. */
  lemma PartialImageSplitIff(input: seq<bv8>, k: nat)
    requires k <= |input|
    ensures PartialImage(input, k, k) == Reverse(input) <==> input[k..] + input[..k] == input
  {
    assert input[k..k] == [];
    assert input == input[..k] + input[k..];
    ReverseAppend(input[..k], input[k..]);
    ReverseAppend(input[k..], input[..k]);
    assert PartialImage(input, k, k) == Reverse(input[k..] + input[..k]);
    if PartialImage(input, k, k) == Reverse(input) {
      ReverseInvolution(input);
      ReverseInvolution(input[k..] + input[..k]);
    }
  }

  /** An inner cut can still give the whole reversal: "ABAB" cut at 2. */
  lemma PartialImageInnerCutExample()
    ensures PartialImage([0x41, 0x42, 0x41, 0x42], 2, 2) == Reverse([0x41, 0x42, 0x41, 0x42])
  {
    var input: seq<bv8> := [0x41, 0x42, 0x41, 0x42];
    PartialImageSplitIff(input, 2);
    assert input[2..] + input[..2] == input;
  }

  /** "ABCDEFGH" with start 2 and end 5 becomes "BACDEHGF". */
  lemma PartialImageExample()
    ensures PartialImage([0x41, 0x42, 0x43, 0x44, 0x45, 0x46, 0x47, 0x48], 2, 5)
         == [0x42, 0x41, 0x43, 0x44, 0x45, 0x48, 0x47, 0x46]
  {
    var input: seq<bv8> := [0x41, 0x42, 0x43, 0x44, 0x45, 0x46, 0x47, 0x48];
    assert input[..2] == [0x41, 0x42];
    assert input[2..5] == [0x43, 0x44, 0x45];
    assert input[5..] == [0x46, 0x47, 0x48];
  }

  /** Reading the range [lo, top) backwards, one chunk [lo, hi) further down. */
  lemma ReverseSliceStep(s: seq<bv8>, lo: nat, hi: nat, top: nat)
    requires lo <= hi <= top <= |s|
    ensures Reverse(s[lo..top]) == Reverse(s[hi..top]) + Reverse(s[lo..hi])
  {
    assert s[lo..top] == s[lo..hi] + s[hi..top];
    ReverseAppend(s[lo..hi], s[hi..top]);
  }

  /** One chunk [lo, mid) of a reversed range read down from top: appending
      its reversal to the reversal of [mid, top) gives the reversal of [lo, top). */
  lemma RangeStep(s: seq<bv8>, lo: nat, mid: nat, top: nat, head: seq<bv8>, target: seq<bv8>)
    requires lo <= mid <= top <= |s|
    requires target == head + Reverse(s[mid..top])
    ensures target + Reverse(s[lo..mid]) == head + Reverse(s[lo..top])
  {
    ReverseSliceStep(s, lo, mid, top);
  }

  /** One chunk [mid, hi) of a range copied forward from lo: appending it to
      the copy of [lo, mid) gives the copy of [lo, hi). */
  lemma CopyStep(s: seq<bv8>, lo: nat, mid: nat, hi: nat, head: seq<bv8>, target: seq<bv8>)
    requires lo <= mid <= hi <= |s|
    requires target == head + s[lo..mid]
    ensures target + s[mid..hi] == head + s[lo..hi]
  {
    assert s[lo..hi] == s[lo..mid] + s[mid..hi];
  }

  /** One chunk [lo, hi) of the whole-file loop: the output so far is the
      reversal of the tail from hi. A full write extends it to the tail from
      lo; a short write fills the device with a prefix of the reversal. */
  lemma EntireStep(input: seq<bv8>, lo: nat, hi: nat, capacity: nat,
                   before: seq<bv8>, after: seq<bv8>, written: nat)
    requires lo <= hi <= |input|
    requires before == Reverse(input[hi..]) && |before| <= capacity
    requires written == Min(hi - lo, capacity - |before|)
    requires after == before + Reverse(input[lo..hi])[..written]
    ensures written == hi - lo ==> after == Reverse(input[lo..])
    ensures written < hi - lo ==> |after| == capacity && after == Take(Reverse(input), capacity)
    ensures written < hi - lo ==> capacity < |input|
  {
    var chunk := Reverse(input[lo..hi]);
    assert Reverse(input[lo..]) == before + chunk by {
      ReverseSliceStep(input, lo, hi, |input|);
      assert input[lo..|input|] == input[lo..] && input[hi..|input|] == input[hi..];
    }
    if written == hi - lo {
      assert chunk[..written] == chunk;
    } else {
      assert Reverse(input) == Reverse(input[lo..]) + Reverse(input[..lo]) by {
        ReverseSliceStep(input, 0, lo, |input|);
        assert input[0..|input|] == input && input[lo..|input|] == input[lo..] && input[0..lo] == input[..lo];
      }
      assert Take(Reverse(input[lo..]), capacity) == after by {
        assert (before + chunk)[..capacity] == before + chunk[..written];
      }
      TakeAppend(Reverse(input[lo..]), Reverse(input[..lo]), capacity);
    }
  }

  /** The whole-file loop has consumed the input: the output is its reversal,
      which fits the device, so it is also the device-cut of the reversal. */
  lemma EntireDone(input: seq<bv8>, capacity: nat, output: seq<bv8>)
    requires output == Reverse(input[0..]) && |output| <= capacity
    ensures output == Take(Reverse(input), capacity) && |output| == |input|
    ensures forall i :: 0 <= i < |input| ==> output[i] == input[|input| - 1 - i]
  {
    assert input[0..] == input;
    TakePrefix(Reverse(input), capacity);
  }

  /** One more chunk of between 1 and BufferSize bytes keeps the processed
      count between the number of chunks and that many full buffers. */
  lemma ChunkBound(chunks: nat, processed: nat, n: nat)
    requires chunks <= processed <= chunks * BufferSize
    requires 1 <= n <= BufferSize
    ensures chunks + 1 <= processed + n <= (chunks + 1) * BufferSize
  {
  }

  // ---------------------------------------------------------------------------
  // The reverser

  class FileReverser {
    /** The scratch buffer every chunk passes through. */
    const buffer: array<bv8>
    /** Contents of the output file, which is created empty and only appended to. */
    var output: seq<bv8>
    /** How many bytes the output file's device accepts; a write beyond it is short. */
    const capacity: nat

    ghost predicate Valid()
      reads this
    {
      buffer.Length == BufferSize && |output| <= capacity
    }

    constructor (capacity: nat)
      ensures Valid() && fresh(buffer)
      ensures this.capacity == capacity && output == []
    {
      buffer := new bv8[BufferSize];
      this.capacity := capacity;
      output := [];
    }

    /** Reverses buffer[..size] in place by swapping mirrored bytes. */
    method ReverseBuffer(size: nat)
      requires Valid() && size <= buffer.Length
      modifies buffer
      ensures buffer[..size] == Reverse(old(buffer[..size]))
      ensures buffer[size..] == old(buffer[size..])
    {
      ghost var chunk := buffer[..size];
      var i := 0;
      while i < size / 2
        invariant 0 <= i <= size / 2
        invariant forall k :: 0 <= k < i ==> buffer[k] == chunk[size - 1 - k]
        invariant forall k :: size - i <= k < size ==> buffer[k] == chunk[size - 1 - k]
        invariant forall k :: i <= k < size - i ==> buffer[k] == chunk[k]
        invariant buffer[size..] == old(buffer[size..])
      {
        buffer[i], buffer[size - 1 - i] := buffer[size - 1 - i], buffer[i];
        i := i + 1;
      }
      assert buffer[..size] == Reverse(chunk);
    }

    /** `write(fd, buffer, count)`: appends as much of buffer[..count] as the
        device still takes and returns how much that was. */
    method Write(count: nat) returns (written: nat)
      requires Valid() && count <= buffer.Length
      modifies this`output
      ensures Valid()
      ensures written == Min(count, capacity - |old(output)|)
      ensures output == old(output) + buffer[..written]
    {
      written := Min(count, capacity - |output|);
      output := output + buffer[..written];
    }

    /** Appends the first count bytes of the buffer, which hold chunk, while
        the output is the capacity-cut of target; afterwards it is the
        capacity-cut of target + chunk. */
    method AppendChunk(count: nat, ghost target: seq<bv8>, ghost chunk: seq<bv8>) returns (written: nat)
      requires Valid() && count <= buffer.Length
      requires buffer[..count] == chunk
      requires output == Take(target, capacity)
      modifies this`output
      ensures Valid()
      ensures output == Take(target + chunk, capacity)
      ensures written == Min(count, capacity - |old(output)|)
    {
      written := Write(count);
      TakeAppend(target, chunk, capacity);
      assert buffer[..written] == chunk[..written];
    }

    /** Reverses the first count bytes of the buffer, which hold data, and
        writes them; returns how many bytes the device took. */
    method ReverseAndWrite(count: nat, ghost data: seq<bv8>) returns (written: nat)
      requires Valid() && count <= buffer.Length
      requires buffer[..count] == data
      modifies this`output, buffer
      ensures Valid()
      ensures written == Min(count, capacity - |old(output)|)
      ensures output == old(output) + Reverse(data)[..written]
    {
      ReverseBuffer(count);
      written := Write(count);
    }

    /** Reverses the first count bytes of the buffer, which hold data, and
        appends them unchecked, while the output is the capacity-cut of target. */
    method ReverseAndAppend(count: nat, ghost target: seq<bv8>, ghost data: seq<bv8>)
      requires Valid() && count <= buffer.Length
      requires buffer[..count] == data
      requires output == Take(target, capacity)
      modifies this`output, buffer
      ensures Valid()
      ensures output == Take(target + Reverse(data), capacity)
    {
      ReverseBuffer(count);
      var _ := AppendChunk(count, target, Reverse(data));
    }

    /** Whole-file reversal: reads the input from its tail in chunks of at most
        BufferSize bytes, reverses each chunk and appends it. A short write
        stops the loop, so the output is the part of the reversal that fit.
        processed and chunks are the last values handed to the progress display
        and the number of times it was called. */
    method ReverseEntireFile(input: seq<bv8>) returns (ghost processed: nat, ghost chunks: nat)
      requires Valid()
      modifies this`output, buffer
      ensures Valid()
      ensures output == Take(Reverse(input), capacity)
      ensures processed <= |input| && |output| >= processed
      ensures |input| <= capacity ==> |output| == |input| == processed
      ensures |input| <= capacity ==> forall i :: 0 <= i < |input| ==> output[i] == input[|input| - 1 - i]
      ensures chunks <= processed <= chunks * BufferSize
      ensures |input| == 0 ==> chunks == 0 && output == []
    {
      output := [];
      var fileSize := |input|;
      var totalProcessed := 0;
      chunks := 0;
      while totalProcessed < fileSize
        invariant Valid()
        invariant 0 <= totalProcessed <= fileSize
        invariant output == Reverse(input[fileSize - totalProcessed..])
        invariant chunks <= totalProcessed <= chunks * BufferSize
      {
        var currentPos := fileSize - totalProcessed;
        var readSize := if currentPos >= BufferSize then BufferSize else currentPos;
        var bytesRead := Io.Pread(input, currentPos - readSize, readSize, buffer);
        if bytesRead == 0 {
          break;
        }
        ghost var before := output;
        var bytesWritten := ReverseAndWrite(bytesRead, input[currentPos - readSize..currentPos]);
        EntireStep(input, currentPos - readSize, currentPos, capacity, before, output, bytesWritten);
        if bytesWritten != bytesRead {
          assert |output| == capacity < |input| && totalProcessed <= |output|;
          break;
        }
        ChunkBound(chunks, totalProcessed, bytesRead);
        totalProcessed := totalProcessed + bytesRead;
        chunks := chunks + 1;
      }
      processed := totalProcessed;
      if totalProcessed == fileSize {
        EntireDone(input, capacity, output);
      }
    }

    /** One reversed edge range [lo, hi) of the partial mode: read from hi down
        to lo in chunks of at most BufferSize bytes, each reversed and
        appended. The loop also stops once processed reaches total, which
        under the precondition never cuts the range short. */
    method ReverseRange(input: seq<bv8>, lo: nat, hi: nat, ghost head: seq<bv8>, processed: nat, total: nat)
      returns (processedAfter: nat)
      requires Valid() && lo <= hi <= |input|
      requires output == Take(head, capacity)
      requires processed + (hi - lo) <= total
      modifies this`output, buffer
      ensures Valid()
      ensures output == Take(head + Reverse(input[lo..hi]), capacity)
      ensures processedAfter == processed + (hi - lo)
    {
      var totalProcessed := processed;
      var pos := hi;
      ghost var target := head;
      assert input[hi..hi] == [] && head + Reverse(input[hi..hi]) == head;
      while pos > lo && totalProcessed < total
        invariant Valid()
        invariant lo <= pos <= hi
        invariant totalProcessed == processed + (hi - pos)
        invariant target == head + Reverse(input[pos..hi])
        invariant output == Take(target, capacity)
      {
        var readSize := if pos - lo >= BufferSize then BufferSize else pos - lo;
        var bytesRead := Io.Pread(input, pos - readSize, readSize, buffer);
        if bytesRead == 0 {
          break;
        }
        ReverseAndAppend(bytesRead, target, input[pos - readSize..pos]);
        RangeStep(input, pos - readSize, pos, hi, head, target);
        target := target + Reverse(input[pos - readSize..pos]);
        pos := pos - bytesRead;
        totalProcessed := totalProcessed + bytesRead;
      }
      processedAfter := totalProcessed;
    }

    /** The middle range [lo, hi) of the partial mode, copied forward in chunks
        of at most BufferSize bytes from a single seek to lo. */
    method CopyRange(input: seq<bv8>, lo: nat, hi: nat, ghost head: seq<bv8>)
      requires Valid() && lo <= hi <= |input|
      requires output == Take(head, capacity)
      modifies this`output, buffer
      ensures Valid()
      ensures output == Take(head + input[lo..hi], capacity)
    {
      var offset := lo;
      var middleSize: int := hi - lo;
      ghost var target := head;
      assert input[lo..lo] == [] && head + input[lo..lo] == head;
      while middleSize > 0
        invariant Valid()
        invariant lo <= offset <= hi && middleSize == hi - offset
        invariant target == head + input[lo..offset]
        invariant output == Take(target, capacity)
      {
        var readSize := if middleSize >= BufferSize then BufferSize else middleSize;
        var bytesRead := Io.Pread(input, offset, readSize, buffer);
        if bytesRead == 0 {
          break;
        }
        var _ := AppendChunk(bytesRead, target, input[offset..offset + bytesRead]);
        CopyStep(input, lo, offset, offset + bytesRead, head, target);
        target := target + input[offset..offset + bytesRead];
        offset := offset + bytesRead;
        middleSize := middleSize - bytesRead;
      }
    }

    /** Partial reversal: the prefix [0, startIdx) reversed, the middle
        [startIdx, endIdx) copied as it is, and the suffix [endIdx, size)
        reversed. Write results are not checked, so a full device simply
        swallows the rest. processed is the last count handed to the progress
        display: both edge ranges in full. */
    method ReversePartialFile(input: seq<bv8>, startIdx: nat, endIdx: nat) returns (ghost processed: nat)
      requires Valid()
      requires startIdx <= endIdx <= |input|
      modifies this`output, buffer
      ensures Valid()
      ensures output == Take(PartialImage(input, startIdx, endIdx), capacity)
      ensures |input| <= capacity ==> output == PartialImage(input, startIdx, endIdx) && |output| == |input|
      ensures processed == startIdx + (|input| - endIdx)
    {
      output := [];
      var fileSize := |input|;
      var totalToProcess := startIdx + (fileSize - endIdx);
      var totalProcessed := ReverseRange(input, 0, startIdx, [], 0, totalToProcess);
      assert input[0..startIdx] == input[..startIdx];
      ghost var head := Reverse(input[..startIdx]);
      CopyRange(input, startIdx, endIdx, head);
      totalProcessed := ReverseRange(input, endIdx, fileSize, head + input[startIdx..endIdx], totalProcessed, totalToProcess);
      processed := totalProcessed;
      assert input[endIdx..fileSize] == input[endIdx..];
      TakePrefix(PartialImage(input, startIdx, endIdx), capacity);
    }
  }
}
