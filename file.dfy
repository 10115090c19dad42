/** The `File` handle of src/filesystem.rs: a fully buffered, read-only file
    with a read cursor (`io::Cursor<Vec<u8>>`). */
module FileCursor {
  import opened FsTypes

  function Min(a: nat, b: nat): nat { if a < b then a else b }

  class File {
    /** The buffered contents; never changed once the handle exists. */
    const bytes: seq<byte>
    /** The cursor position. */
    var pos: nat

    ghost predicate Valid()
      reads this
    {
      pos <= |bytes|
    }

    /** What a sequence of reads from here on can still deliver. */
    ghost function Remaining(): seq<byte>
      reads this
      requires Valid()
    {
      bytes[pos..]
    }

    /** `io::Cursor::new(buf)`: a handle over `data`, positioned at offset zero. */
    constructor (data: seq<byte>)
      ensures Valid()
      ensures bytes == data && pos == 0
      ensures Remaining() == data
    {
      bytes := data;
      pos := 0;
    }

    /** `Read::read`: copies as many of the remaining bytes as fit into `buf`,
        advances the cursor by that many and reports the count. Bytes of `buf`
        beyond the count are left alone. */
    method Read(buf: array<byte>) returns (n: nat)
      requires Valid()
      modifies this, buf
      ensures Valid()
      ensures n == Min(buf.Length, |old(Remaining())|)
      ensures pos == old(pos) + n
      ensures buf[..n] + Remaining() == old(Remaining())
      ensures buf[n..] == old(buf[n..])
      ensures n == 0 <==> buf.Length == 0 || old(pos) == |bytes|
    {
      n := Min(buf.Length, |bytes| - pos);
      forall k | 0 <= k < n {
        buf[k] := bytes[pos + k];
      }
      assert buf[..n] == bytes[pos..pos + n];
      pos := pos + n;
    }
  }
}
