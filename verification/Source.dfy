/** A seekable in-memory source and the checked exact read built on it. */
module Sources {
  import opened Bytes

  class Source {
    const data: bytes
    var pos: nat

    constructor (data: bytes)
      ensures this.data == data && pos == 0
    {
      this.data := data;
      pos := 0;
    }

    method Seek(p: nat)
      modifies this
      ensures pos == p
    {
      pos := p;
    }

    /** Up to `n` bytes at the position, which advances past them. */
    method Read(n: nat) returns (s: bytes)
      modifies this
      ensures s == if old(pos) + n <= |data| then data[old(pos)..old(pos) + n]
                   else if old(pos) <= |data| then data[old(pos)..] else []
      ensures pos == old(pos) + |s|
    {
      var end := if pos + n <= |data| then pos + n else |data|;
      s := if pos <= end then data[pos..end] else [];
      pos := pos + |s|;
    }

    /** Reads into the front of `buf`; the rest of the buffer keeps its bytes. */
    method ReadInto(buf: array<byte>) returns (n: nat)
      modifies this, buf
      ensures old(pos) <= |data| ==> n == if buf.Length <= |data| - old(pos) then buf.Length else |data| - old(pos)
      ensures old(pos) > |data| ==> n == 0
      ensures n <= buf.Length && pos == old(pos) + n
      ensures n > 0 ==> pos <= |data|
      ensures buf[..n] == (if n == 0 then [] else data[old(pos)..pos]) && buf[n..] == old(buf[n..])
    {
      var s := Read(buf.Length);
      n := |s|;
      for i := 0 to n
        invariant buf[..i] == s[..i] && buf[n..] == old(buf[n..])
        invariant pos == old(pos) + n
      {
        buf[i] := s[i];
        assert s[..i + 1] == s[..i] + [s[i]];
      }
      assert s[..n] == s;
    }

    /** Exactly `n` bytes, or `Eof`. */
    method ReadExact(n: nat) returns (r: Result<bytes>)
      modifies this
      ensures old(pos) + n <= |data| ==> r == Ok(data[old(pos)..old(pos) + n]) && pos == old(pos) + n
      ensures n > 0 && old(pos) + n > |data| ==> r == Err(Eof)
      ensures n == 0 ==> r == Ok([]) && pos == old(pos)
    {
      var s := Read(n);
      r := if |s| == n then Ok(s) else Err(Eof);
    }

    method Read16() returns (v: u16)
      requires pos + 2 <= |data|
      modifies this
      ensures v == U16(data, old(pos)) && pos == old(pos) + 2
    {
      v := U16(data, pos);
      pos := pos + 2;
    }

    method Read32() returns (v: u32)
      requires pos + 4 <= |data|
      modifies this
      ensures v == U32(data, old(pos)) && pos == old(pos) + 4
    {
      v := U32(data, pos);
      pos := pos + 4;
    }
  }
}
