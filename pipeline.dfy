/** The two programs used together, as in the assignment's workflow: the
    reverser writes its output and the validator then inspects it. */
module Pipeline {
  import opened Seqs
  import Reverser
  import Validator

  /** A whole-file reversal onto a device with room for the result always
      passes the validator's reversal and size checks. */
  method ReverseThenValidate(input: seq<bv8>, mode: bv32) returns (report: Validator.Report)
    ensures report.filesReversed && report.sameSize
  {
    var reverser := new Reverser.FileReverser(|input|);
    ghost var processed: nat, chunks: nat;
    processed, chunks := reverser.ReverseEntireFile(input);
    var newFile := Validator.Entry(mode, reverser.output, true);
    var oldFile := Validator.Entry(mode, input, true);
    report := Validator.ValidateFiles(Some(newFile), Some(oldFile), Some(0x1C0));
  }

  /** A correct reversal that the validator may stat but not open (mode 0200
      for a user other than root, say) is reported as not reversed, yet of the
      same size and with all nine of its permission lines. */
  method ValidateUnreadableReversal(input: seq<bv8>) returns (report: Validator.Report)
    ensures !report.filesReversed && report.sameSize
    ensures |report.newFilePermissions| == 9
    ensures report.newFilePermissions == Validator.PermissionReport("newfile", Some(0x80))
  {
    var newFile := Validator.Entry(0x80, Reverse(input), false);
    var oldFile := Validator.Entry(0x1A4, input, true);
    report := Validator.ValidateFiles(Some(newFile), Some(oldFile), Some(0x1C0));
  }

  /** Running the whole-file reverser on its own output restores the original. */
  method ReverseTwice(input: seq<bv8>) returns (restored: seq<bv8>)
    ensures restored == input
  {
    var first := new Reverser.FileReverser(|input|);
    ghost var processed: nat, chunks: nat;
    processed, chunks := first.ReverseEntireFile(input);
    var second := new Reverser.FileReverser(|first.output|);
    processed, chunks := second.ReverseEntireFile(first.output);
    restored := second.output;
    ReverseInvolution(input);
  }

  /** A partial reversal passes the validator's reversal check exactly when its
      image is the whole reversal. With an empty middle that holds at either end
      of the file, and at a cut k inside it exactly when swapping the halves
      around k gives back the input. */
  method PartialThenValidate(input: seq<bv8>, startIdx: nat, endIdx: nat) returns (reversed: bool)
    requires startIdx <= endIdx <= |input|
    ensures startIdx == endIdx && (startIdx == 0 || startIdx == |input|) ==> reversed
    ensures reversed <==> Reverser.PartialImage(input, startIdx, endIdx) == Reverse(input)
    ensures startIdx == endIdx ==> (reversed <==> input[startIdx..] + input[..startIdx] == input)
  {
    var reverser := new Reverser.FileReverser(|input|);
    ghost var processed: nat;
    processed := reverser.ReversePartialFile(input, startIdx, endIdx);
    if startIdx == endIdx && (startIdx == 0 || startIdx == |input|) {
      Reverser.PartialImageDegenerate(input, startIdx);
    }
    if startIdx == endIdx {
      Reverser.PartialImageSplitIff(input, startIdx);
    }
    ghost var mismatch: Option<nat>;
    reversed, mismatch := Validator.IsReversed(Some(input), Some(reverser.output));
  }

  /** Two empty files are reported as reversals of each other. */
  method EmptyFilesAreReversed() returns (reversed: bool)
    ensures reversed
  {
    ghost var mismatch: Option<nat>;
    reversed, mismatch := Validator.IsReversed(Some([]), Some([]));
  }

  /** Reversing the same buffer prefix twice restores the buffer. */
  method ReverseBufferTwice(reverser: Reverser.FileReverser, size: nat)
    requires reverser.Valid() && size <= reverser.buffer.Length
    modifies reverser.buffer
    ensures reverser.buffer[..] == old(reverser.buffer[..])
  {
    ghost var original := reverser.buffer[..];
    reverser.ReverseBuffer(size);
    reverser.ReverseBuffer(size);
    ReverseInvolution(original[..size]);
    assert reverser.buffer[..] == reverser.buffer[..size] + reverser.buffer[size..];
    assert original == original[..size] + original[size..];
  }
}
