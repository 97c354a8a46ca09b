/** Image files, read through a cursor. */
module Files {
  import opened Bytes

  datatype FileKind = Posix | ZipMember

  /** The bytes of `content` at `off`, at most `len` of them. */
  function Available(content: bytes, off: nat, len: nat): (r: bytes)
    ensures |r| <= len
  {
    content[Min(off, |content|)..Min(off + len, |content|)]
  }

  /** The same, made up to `len` bytes with zeros. */
  function Padded(content: bytes, off: nat, len: nat): (r: bytes)
    ensures |r| == len
  {
    var a := Available(content, off, len);
    a + Zeros(len - |a|)
  }

  lemma PaddedAt(content: bytes, off: nat, len: nat, i: nat)
    requires i < len
    ensures Padded(content, off, len)[i] == if off + i < |content| then content[off + i] else 0
  {
  }

  lemma PaddedSplits(content: bytes, off: nat, a: nat, b: nat)
    ensures Padded(content, off, a + b) == Padded(content, off, a) + Padded(content, off + a, b)
  {
    var whole, parts := Padded(content, off, a + b), Padded(content, off, a) + Padded(content, off + a, b);
    hide Padded;
    forall i | 0 <= i < a + b
      ensures whole[i] == parts[i]
    {
      PaddedAt(content, off, a + b, i);
      if i < a { PaddedAt(content, off, a, i); } else { PaddedAt(content, off + a, b, i - a); }
    }
    assert whole == parts;
  }

  /** struct qdl_file; one read returns at most `burst` bytes. */
  class QdlFile {
    const content: bytes
    const kind: FileKind
    const burst: nat
    var pos: nat

    constructor (content: bytes, kind: FileKind, burst: nat)
      requires burst > 0
      ensures this.content == content && this.kind == kind && this.burst == burst && pos == 0
    {
      this.content, this.kind, this.burst, pos := content, kind, burst, 0;
    }

    /** qdl_file_seek(file, off, SEEK_SET); zip members never move, and say so unless `off` is 0. */
    method Seek(off: nat) returns (ok: bool)
      modifies this
      ensures ok == (kind == Posix || off == 0)
      ensures pos == if kind == Posix then off else old(pos)
    {
      if kind == Posix {
        pos := off;
        return true;
      }
      return off == 0;
    }

    /** qdl_file_seek(file, n, SEEK_CUR); it fails on zip members, whatever `n`. */
    method Skip(n: nat) returns (ok: bool)
      modifies this
      ensures ok == (kind == Posix)
      ensures pos == if kind == Posix then old(pos) + n else old(pos)
    {
      if kind == Posix {
        pos := pos + n;
        return true;
      }
      return false;
    }

    method Read(len: nat) returns (buf: bytes)
      modifies this
      ensures buf == Available(content, old(pos), Min(len, burst))
      ensures pos == old(pos) + |buf|
    {
      buf := Available(content, pos, Min(len, burst));
      pos := pos + |buf|;
    }

    /** Read until `len` bytes or the end of the file. */
    method ReadExact(len: nat) returns (buf: bytes)
      requires burst > 0
      modifies this
      ensures buf == Available(content, old(pos), len)
      ensures pos == old(pos) + |buf|
    {
      buf := [];
      while |buf| < len
        invariant |buf| <= len && pos == old(pos) + |buf|
        invariant buf == Available(content, old(pos), |buf|)
      {
        var more := Read(len - |buf|);
        if |more| == 0 {
          break;
        }
        buf := buf + more;
      }
    }

    /** The next `len` bytes, the residue past the end of the file zeroed. */
    method ReadPadded(len: nat) returns (buf: bytes)
      requires burst > 0
      modifies this
      ensures buf == Padded(content, old(pos), len)
      ensures pos == old(pos) + |Available(content, old(pos), len)|
    {
      buf := ReadExact(len);
      if |buf| < len {
        buf := buf + Zeros(len - |buf|);
      }
    }
  }

  /** Reading on after a padded read continues the padded contents. */
  lemma PaddedContinues(content: bytes, pos: nat, a: nat, b: nat)
    ensures Padded(content, pos, a + b)
         == Padded(content, pos, a) + Padded(content, pos + |Available(content, pos, a)|, b)
  {
    PaddedSplits(content, pos, a, b);
    if |Available(content, pos, a)| < a {
      assert Padded(content, pos + a, b) == Padded(content, pos + |Available(content, pos, a)|, b);
    }
  }
}
