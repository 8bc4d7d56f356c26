/** Reading a NUL-terminated string out of another process, page by page. */
module ReadString {
  import opened Options

  /** The chunk boundary (CHAOS_INIT_PAGE); larger pages are multiples of it. */
  const PAGE: nat := 4096

  /** Another process's memory: which pages are mapped, and what they hold. */
  datatype Memory = Memory(mapped: nat -> bool, byte: nat -> char)

  /** Byte `i` behind an address, and whether its page is mapped. */
  function ByteAt(memory: Memory, address: nat, i: nat): char {
    memory.byte(address + i)
  }

  predicate Readable(memory: Memory, address: nat, i: nat) {
    memory.mapped((address + i) / PAGE)
  }

  /** The string at `address` is `length` bytes long, and readable with its NUL. */
  ghost predicate StringAt(memory: Memory, address: nat, length: nat) {
    && ByteAt(memory, address, length) == '\0'
    && (forall i | 0 <= i < length :: ByteAt(memory, address, i) != '\0')
    && (forall i | 0 <= i <= length :: Readable(memory, address, i))
  }

  /** There is at most one string at an address. */
  lemma OneString(memory: Memory, address: nat, m: nat, n: nat)
    requires StringAt(memory, address, m) && StringAt(memory, address, n)
    ensures m == n
  {
    assert m < n ==> ByteAt(memory, address, m) != '\0';
    assert n < m ==> ByteAt(memory, address, n) != '\0';
  }

  /** Reads a chunk that lies in one page; fails when the page is not mapped. */
  method ReadChunk(memory: Memory, address: nat, out: array<char>, from: nat, chunk: nat) returns (ok: bool)
    requires 0 < chunk && from + chunk <= out.Length
    requires (address + from) / PAGE == (address + from + chunk - 1) / PAGE
    modifies out
    ensures ok <==> Readable(memory, address, from)
    ensures forall i | 0 <= i < out.Length && !(from <= i < from + chunk) :: out[i] == old(out[i])
    ensures ok ==> forall i | from <= i < from + chunk :: out[i] == ByteAt(memory, address, i)
  {
    if !memory.mapped((address + from) / PAGE) {
      return false;
    }
    for i := from to from + chunk
      invariant forall k | 0 <= k < out.Length && !(from <= k < i) :: out[k] == old(out[k])
      invariant forall k | from <= k < i :: out[k] == ByteAt(memory, address, k)
    {
      out[i] := memory.byte(address + i);
    }
    return true;
  }

  /** A chunk that ends at a page boundary, or before, is in the page it starts in. */
  lemma SamePage(memory: Memory, address: nat, from: nat, chunk: nat)
    requires 0 < chunk <= PAGE - (address + from) % PAGE
    ensures (address + from) / PAGE == (address + from + chunk - 1) / PAGE
    ensures forall i | from <= i < from + chunk :: Readable(memory, address, i) == Readable(memory, address, from)
  {
    var start := address + from;
    forall i | from <= i < from + chunk
      ensures (address + i) / PAGE == start / PAGE && Readable(memory, address, i) == Readable(memory, address, from)
    {
      assert address + i == PAGE * (start / PAGE) + (start % PAGE + (i - from));
    }
    assert start + chunk - 1 == address + (from + chunk - 1);
  }

  /** The first NUL of a stretch; its end when there is none. */
  method FindNul(out: array<char>, from: nat, end: nat) returns (nul: nat)
    requires from <= end <= out.Length
    ensures from <= nul <= end && (nul < end ==> out[nul] == '\0')
    ensures forall i | from <= i < nul :: out[i] != '\0'
  {
    nul := from;
    while nul < end && out[nul] != '\0'
      invariant from <= nul <= end && forall i | from <= i < nul :: out[i] != '\0'
    {
      nul := nul + 1;
    }
  }

  /** A stretch that was read and holds no NUL. */
  ghost predicate NoNulBefore(memory: Memory, address: nat, end: nat) {
    forall i | 0 <= i < end :: ByteAt(memory, address, i) != '\0' && Readable(memory, address, i)
  }

  /**
   * Reads a string of fewer than `size` bytes. It succeeds exactly when there is one whose pages up
   * to its NUL are mapped, whatever follows, and then has read precisely its bytes. No chunk
   * crosses a page.
   */
  method Read(memory: Memory, address: nat, out: array<char>, size: nat) returns (length: Option<nat>)
    requires size <= out.Length
    modifies out
    ensures length.Some? <==> exists n: nat :: n < size && StringAt(memory, address, n)
    ensures length.Some? ==>
              && length.value < size && StringAt(memory, address, length.value)
              && forall i | 0 <= i <= length.value :: out[i] == ByteAt(memory, address, i)
    ensures forall i | size <= i < out.Length :: out[i] == old(out[i])
  {
    var read := 0;
    while read < size
      invariant read <= size && NoNulBefore(memory, address, read)
      invariant forall i | 0 <= i < read :: out[i] == ByteAt(memory, address, i)
      invariant forall i | size <= i < out.Length :: out[i] == old(out[i])
    {
      var toPage := PAGE - (address + read) % PAGE;
      var chunk := if toPage < size - read then toPage else size - read;
      SamePage(memory, address, read, chunk);
      var ok := ReadChunk(memory, address, out, read, chunk);
      if !ok {
        NoString(memory, address, read);
        return None;
      }
      var end := FindNul(out, read, read + chunk);
      if end < read + chunk {
        assert StringAt(memory, address, end);
        return Some(end);
      }
      read := read + chunk;
    }
    LongString(memory, address, size);
    return None;
  }

  lemma NoString(memory: Memory, address: nat, end: nat)
    requires NoNulBefore(memory, address, end) && !Readable(memory, address, end)
    ensures forall n: nat :: !StringAt(memory, address, n)
  {
  }

  lemma LongString(memory: Memory, address: nat, end: nat)
    requires NoNulBefore(memory, address, end)
    ensures forall n: nat | StringAt(memory, address, n) :: n >= end
  {
  }
}
