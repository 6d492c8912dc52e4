/** The byte loops under a staged file: short writes, chunked copies, faults in the middle. */
module FileWrites {

  type Bytes = seq<bv8>

  /** An open temporary: bytes are only ever appended. `faults` counts what went wrong on the way. */
  class Descriptor {
    var contents: Bytes
    ghost var faults: nat

    constructor ()
      ensures contents == [] && faults == 0
    {
      contents, faults := [], 0;
    }

    /** The fault hook or a system call that writes nothing: it may raise at any call. */
    method Invoke(operation: string) returns (raised: bool)
      modifies this`faults
      ensures faults == old(faults) + if raised then 1 else 0
    {
      raised := *;
      if raised { faults := faults + 1; }
    }

    /** `os.write`: takes any prefix of what it is given, or reports an error; taking nothing is a fault. */
    method Write(payload: Bytes) returns (written: int)
      requires payload != []
      modifies this
      ensures written <= |payload|
      ensures contents == old(contents) + if written > 0 then payload[..written] else []
      ensures faults == old(faults) + if written > 0 then 0 else 1
    {
      written := *;
      if written > |payload| { written := |payload|; }
      if written > 0 { contents := contents + payload[..written]; } else { faults := faults + 1; }
    }
  }

  /** `_write_all`: all of the payload, however short each write is, or after a fault a prefix of it. */
  method WriteAll(fd: Descriptor, payload: Bytes) returns (raised: bool)
    modifies fd
    ensures !raised ==> fd.contents == old(fd.contents) + payload
    ensures raised ==> exists k | 0 <= k < |payload| :: fd.contents == old(fd.contents) + payload[..k]
    ensures fd.faults == old(fd.faults) + if raised then 1 else 0
  {
    var offset := 0;
    while offset < |payload|
      invariant 0 <= offset <= |payload|
      invariant fd.contents == old(fd.contents) + payload[..offset] && fd.faults == old(fd.faults)
      decreases |payload| - offset
    {
      raised := fd.Invoke("write");
      if raised { return; }
      var written := fd.Write(payload[offset..]);
      if written <= 0 { return true; }
      assert payload[..offset] + payload[offset..][..written] == payload[..offset + written];
      offset := offset + written;
    }
    return false;
  }

  /** The copy loop of `_atomic_file` for a source file: chunk by chunk until the read comes back empty. */
  method CopySource(fd: Descriptor, source: Bytes, chunkBytes: nat) returns (raised: bool)
    requires chunkBytes > 0
    modifies fd
    ensures !raised ==> fd.contents == old(fd.contents) + source
    ensures raised ==> exists k | 0 <= k <= |source| :: fd.contents == old(fd.contents) + source[..k]
    ensures fd.faults == old(fd.faults) + if raised then 1 else 0
  {
    var read := 0;
    while true
      invariant 0 <= read <= |source|
      invariant fd.contents == old(fd.contents) + source[..read] && fd.faults == old(fd.faults)
      decreases |source| - read
    {
      raised := fd.Invoke("read");
      if raised { return; }
      var end := if read + chunkBytes < |source| then read + chunkBytes else |source|;
      var chunk := source[read..end];
      if chunk == [] { return false; }
      raised := WriteAll(fd, chunk);
      if raised {
        ghost var k :| 0 <= k < |chunk| && fd.contents == old(fd.contents) + source[..read] + chunk[..k];
        assert source[..read] + chunk[..k] == source[..read + k];
        return;
      }
      assert source[..read] + chunk == source[..end];
      read := end;
    }
  }
}
