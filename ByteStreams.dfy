/** The object streams the axiom set is read from and written to, as byte
    sequences. The input keeps a read cursor; a read that runs past the end
    of the stream fails (Java's EOFException, an IOException) and leaves the
    cursor at the end. */
module ByteStreams {
  import opened ByteKeys
  import opened Errors
  import opened Collaborators

  /** A read from the remaining bytes of a stream: the value read and the
      bytes left after it, or `Eof` when the stream ends first. */
  datatype Read<T> = Got(value: T, rest: Bytes) | Eof

  /** The big-endian bytes DataOutput.writeLong writes. */
  function EncodeLong(x: Long): (b: Bytes)
    ensures |b| == 8
  {
    [ (x >> 56) as bv8, ((x >> 48) & 0xFF) as bv8, ((x >> 40) & 0xFF) as bv8, ((x >> 32) & 0xFF) as bv8,
      ((x >> 24) & 0xFF) as bv8, ((x >> 16) & 0xFF) as bv8, ((x >> 8) & 0xFF) as bv8, (x & 0xFF) as bv8 ]
  }

  /** One more byte below the bits read so far. */
  function Shift(acc: Long, y: bv8): Long {
    (acc << 8) | (y as Long)
  }

  /** The `long` DataInput.readLong makes of big-endian bytes: each byte
      shifts the bytes before it up by eight bits. */
  function DecodeLong(b: Bytes): Long
    requires |b| <= 8
    decreases |b|
  {
    if b == [] then 0 else Shift(DecodeLong(b[..|b| - 1]), b[|b| - 1])
  }

  /** Decoding one more byte of a prefix shifts the value decoded so far up
      by eight bits. */
  lemma DecodePrefix(b: Bytes, k: nat)
    requires k < |b| <= 8
    ensures DecodeLong(b[..k + 1]) == Shift(DecodeLong(b[..k]), b[k])
  {
    assert b[..k + 1][..k] == b[..k];
  }

  /** Eight bytes decode to the bytes shifted in one after another. */
  lemma DecodeUnrolled(b: Bytes)
    requires |b| == 8
    ensures DecodeLong(b) == Shift(Shift(Shift(Shift(Shift(Shift(Shift(Shift(0, b[0]), b[1]), b[2]), b[3]), b[4]), b[5]), b[6]), b[7])
  {
    assert b[..0] == [];
    DecodePrefix(b, 0);
    DecodePrefix(b, 1);
    DecodePrefix(b, 2);
    DecodePrefix(b, 3);
    DecodePrefix(b, 4);
    DecodePrefix(b, 5);
    DecodePrefix(b, 6);
    DecodePrefix(b, 7);
    assert b[..8] == b;
  }

  lemma DecodeEncodeLong(x: Long)
    ensures DecodeLong(EncodeLong(x)) == x
  {
    DecodeUnrolled(EncodeLong(x));
  }

  function ReadByteFrom(s: Bytes): Read<bv8> {
    if |s| >= 1 then Got(s[0], s[1..]) else Eof
  }

  function ReadLongFrom(s: Bytes): Read<Long> {
    if |s| >= 8 then Got(DecodeLong(s[..8]), s[8..]) else Eof
  }

  /** DataInput.readFully into a buffer of `n` bytes. */
  function ReadFullyFrom(s: Bytes, n: nat): Read<Bytes> {
    if |s| >= n then Got(s[..n], s[n..]) else Eof
  }

  /** LongPacker.unpackLong. */
  function UnpackFrom<IV(!new)>(c: Codecs<IV>, s: Bytes): Read<int> {
    match c.unpack(s)
    case Some((v, k)) => if k <= |s| then Got(v, s[k..]) else Eof
    case None => Eof
  }

  /** How a read method reports `read`: the value it returns and what it
      leaves of the stream. */
  ghost predicate Delivers<T>(read: Read<T>, r: Option<T>, rest: Bytes) {
    match read
    case Got(v, left) => r == Some(v) && rest == left
    case Eof => r == None && rest == []
  }

  /** An ObjectInput over a fixed byte sequence. */
  class ByteInput {
    const data: Bytes
    var pos: nat

    ghost predicate Valid()
      reads this
    {
      pos <= |data|
    }

    /** The bytes not yet read. */
    function Rest(): Bytes
      reads this
      requires Valid()
    {
      data[pos..]
    }

    constructor (data: Bytes)
      ensures Valid() && this.data == data && pos == 0
    {
      this.data := data;
      pos := 0;
    }

    method ReadByte() returns (r: Option<bv8>)
      requires Valid()
      modifies this
      ensures Valid() && Delivers(ReadByteFrom(old(Rest())), r, Rest())
    {
      if pos < |data| {
        r := Some(data[pos]);
        pos := pos + 1;
      } else {
        r := None;
      }
    }

    method ReadLong() returns (r: Option<Long>)
      requires Valid()
      modifies this
      ensures Valid() && Delivers(ReadLongFrom(old(Rest())), r, Rest())
    {
      if pos + 8 <= |data| {
        r := Some(DecodeLong(data[pos..pos + 8]));
        assert data[pos..pos + 8] == Rest()[..8];
        pos := pos + 8;
      } else {
        r := None;
        pos := |data|;
      }
    }

    method ReadFully(n: nat) returns (r: Option<Bytes>)
      requires Valid()
      modifies this
      ensures Valid() && Delivers(ReadFullyFrom(old(Rest()), n), r, Rest())
    {
      if pos + n <= |data| {
        r := Some(data[pos..pos + n]);
        assert data[pos..pos + n] == Rest()[..n];
        pos := pos + n;
      } else {
        r := None;
        pos := |data|;
      }
    }

    method UnpackLong<IV(!new)>(c: Codecs<IV>) returns (r: Option<int>)
      requires Valid()
      modifies this
      ensures Valid() && Delivers(UnpackFrom(c, old(Rest())), r, Rest())
    {
      match c.unpack(data[pos..])
      case Some((v, k)) =>
        if k <= |data| - pos {
          r := Some(v);
          pos := pos + k;
        } else {
          r := None;
          pos := |data|;
        }
      case None =>
        r := None;
        pos := |data|;
    }
  }

  /** An ObjectOutput that collects what is written on it. */
  class ByteOutput {
    var written: Bytes

    constructor ()
      ensures written == []
    {
      written := [];
    }

    method WriteByte(b: bv8)
      modifies this
      ensures written == old(written) + [b]
    {
      written := written + [b];
    }

    method Write(bytes: Bytes)
      modifies this
      ensures written == old(written) + bytes
    {
      written := written + bytes;
    }

    /** LongPacker.packLong, which rejects negative values. */
    method PackLong<IV(!new)>(c: Codecs<IV>, v: int)
      requires 0 <= v
      modifies this
      ensures written == old(written) + c.pack(v)
    {
      written := written + c.pack(v);
    }
  }
}
