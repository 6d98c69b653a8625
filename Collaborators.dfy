/** The code the axiom set calls but does not own, reduced to the properties
    the axiom set relies on. The internal value type `IV` stays abstract: a
    type parameter. */
module Collaborators {
  import opened ByteKeys
  import opened Errors

  /** A Java `long`, as its 64 bits. */
  type Long = bv64

  /** The collaborators:
      - `serializeKey(s, p, o)`: the SPO key of a triple (SPOTupleSerializer
        with the SPO key order, no statement identifiers);
      - `decodeAll(key)`: the values a key decodes to (IVUtility.decodeAll);
      - `termId(x)`: the URI term identifier with the given `long` (TermId);
      - `pack(v)`: the bytes LongPacker.packLong writes for `v >= 0`;
      - `unpack(bytes)`: what LongPacker.unpackLong reads from a stream whose
        remaining bytes are `bytes`: the value and the number of bytes it
        consumed, or `None` when the stream ends first. */
  datatype Codecs<!IV(!new)> = Codecs(
    serializeKey: (IV, IV, IV) -> Bytes,
    decodeAll: Bytes -> seq<IV>,
    termId: Long -> IV,
    pack: int -> Bytes,
    unpack: Bytes -> Option<(int, nat)>)
  {
    /** What the axiom set assumes of its collaborators: a key decodes to
        the three values it was made from, and unpacking reads back exactly
        what packing wrote, whatever follows it in the stream. */
    ghost predicate Valid() {
      && (forall s, p, o :: decodeAll(serializeKey(s, p, o)) == [s, p, o])
      && (forall v, rest :: 0 <= v ==> unpack(pack(v) + rest) == Some((v, |pack(v)|)))
    }

    /** The key of a triple determines the triple. */
    lemma KeyInjective(s: IV, p: IV, o: IV, s': IV, p': IV, o': IV)
      requires Valid()
      ensures serializeKey(s, p, o) == serializeKey(s', p', o') ==> s == s' && p == p' && o == o'
    {
      if serializeKey(s, p, o) == serializeKey(s', p', o') {
        assert [s, p, o] == decodeAll(serializeKey(s', p', o')) == [s', p', o'];
        assert [s, p, o][0] == s' && [s, p, o][1] == p' && [s, p, o][2] == o';
      }
    }
  }
}
