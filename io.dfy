/** The file-descriptor calls the two tools make, over files held in memory. */
module Io {
  import opened Seqs

  /** A positioned read: `lseek` to offset, then `read` up to count bytes into buf.
      A read at or past end of file transfers nothing. */
  method Pread(file: seq<bv8>, offset: nat, count: nat, buf: array<bv8>) returns (n: nat)
    requires count <= buf.Length
    modifies buf
    ensures n == if offset >= |file| then 0 else Min(count, |file| - offset)
    ensures 0 < n ==> buf[..n] == file[offset..offset + n]
    ensures buf[n..] == old(buf[n..])
  {
    n := if offset >= |file| then 0 else Min(count, |file| - offset);
    forall i | 0 <= i < n {
      buf[i] := file[offset + i];
    }
  }
}
