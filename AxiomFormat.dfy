/** The versioned binary form of the axiom set: what `readExternal` makes of
    a stream and what `writeExternal` writes, as functions of the bytes. */
module AxiomFormat {
  import opened ByteKeys
  import opened Errors
  import opened Collaborators
  import opened ByteStreams
  import opened AxiomIndex

  /** Each axiom as three `long` term identifiers. */
  const Version0: bv8 := 0
  /** Each axiom as its length-prefixed SPO key. */
  const Version1: bv8 := 1
  /** The only version ever written. */
  const CurrentVersion: bv8 := Version1

  /** Integer.MAX_VALUE: the largest axiom count a reader accepts. */
  const MaxInt: int := 0x7fff_ffff
  /** The largest key length a reader accepts. */
  const MaxKeyLength: int := 1024

  /** What an entry loop leaves: the tree as filled so far, whether all
      entries were read, and the bytes left in the stream. */
  datatype Loaded = Loaded(tree: Tree, ok: bool, rest: Bytes)

  /** One version-1 entry: the key to insert and the bytes after it, or an
      IOException and the bytes left when it was thrown. */
  datatype EntryRead = Entry(key: Bytes, rest: Bytes) | Rejected(rest: Bytes)

  /** What `readExternal` leaves: the tree (absent when none was built), how
      it returned, and the bytes left in the stream. */
  datatype Decoded = Decoded(tree: Option<Tree>, outcome: Outcome, rest: Bytes)

  /** One version-0 entry: three `long`s, read as URI term identifiers, and
      the key of that triple. */
  function ReadEntryV0<IV(!new)>(c: Codecs<IV>, s: Bytes): Read<Bytes> {
    match ReadLongFrom(s)
    case Eof => Eof
    case Got(sv, s1) =>
      match ReadLongFrom(s1)
      case Eof => Eof
      case Got(pv, s2) =>
        match ReadLongFrom(s2)
        case Eof => Eof
        case Got(ov, s3) => Got(Key(c, SPO(c.termId(sv), c.termId(pv), c.termId(ov), Axiom)), s3)
  }

  /** The entry loop of `readVersion0`: `n` entries, each inserted with the
      Axiom type. */
  function ReadEntriesV0<IV(!new)>(c: Codecs<IV>, s: Bytes, n: nat, t: Tree): Loaded
    decreases n
  {
    if n == 0 then Loaded(t, true, s)
    else
      match ReadEntryV0(c, s)
      case Eof => Loaded(t, false, [])
      case Got(key, rest) => ReadEntriesV0(c, rest, n - 1, t[key := Axiom])
  }

  /** One version-1 entry: a packed length, refused outside 0..1024 before
      any key byte is read; that many key bytes; and the key is refused
      unless it decodes to exactly three values, which are re-keyed. */
  function ReadEntryV1<IV(!new)>(c: Codecs<IV>, s: Bytes): EntryRead {
    match UnpackFrom(c, s)
    case Eof => Rejected([])
    case Got(len, s1) =>
      if len < 0 || len > MaxKeyLength then Rejected(s1)
      else
        match ReadFullyFrom(s1, len)
        case Eof => Rejected([])
        case Got(key, s2) =>
          var ivs := c.decodeAll(key);
          if |ivs| != 3 then Rejected(s2)
          else Entry(Key(c, SPO(ivs[0], ivs[1], ivs[2], Axiom)), s2)
  }

  /** The entry loop of `readVersion1`. */
  function ReadEntriesV1<IV(!new)>(c: Codecs<IV>, s: Bytes, n: nat, t: Tree): Loaded
    decreases n
  {
    if n == 0 then Loaded(t, true, s)
    else
      match ReadEntryV1(c, s)
      case Rejected(rest) => Loaded(t, false, rest)
      case Entry(key, rest) => ReadEntriesV1(c, rest, n - 1, t[key := Axiom])
  }

  /** `readVersion0` or `readVersion1` on the bytes after the version byte:
      the packed count, refused if negative or above Integer.MAX_VALUE; then
      `createBTree`, refused if a tree exists; then the entries. An entry
      that fails leaves the tree as filled so far. */
  function ReadVersionSpec<IV(!new)>(c: Codecs<IV>, version: bv8, btree: Option<Tree>, s: Bytes): Decoded {
    match UnpackFrom(c, s)
    case Eof => Decoded(btree, Fail(IOError), [])
    case Got(n, s1) =>
      if n < 0 || n > MaxInt then Decoded(btree, Fail(IOError), s1)
      else if btree.Some? then Decoded(btree, Fail(IllegalState), s1)
      else
        var l := if version == Version0 then ReadEntriesV0(c, s1, n, map[]) else ReadEntriesV1(c, s1, n, map[]);
        Decoded(Some(l.tree), if l.ok then Pass else Fail(IOError), l.rest)
  }

  /** `readExternal`: one version byte, then the reader for that version. */
  function ReadExternalSpec<IV(!new)>(c: Codecs<IV>, btree: Option<Tree>, s: Bytes): Decoded {
    match ReadByteFrom(s)
    case Eof => Decoded(btree, Fail(IOError), [])
    case Got(v, s1) =>
      if v == Version0 || v == Version1 then ReadVersionSpec(c, v, btree, s1)
      else Decoded(btree, Fail(UnsupportedVersion(v)), s1)
  }

  /** The entries `writeVersion1` writes: each key's packed length, then the
      key. */
  function EncodeEntries<IV(!new)>(c: Codecs<IV>, ks: seq<Bytes>): Bytes
    decreases |ks|
  {
    if ks == [] then [] else c.pack(|ks[0]|) + ks[0] + EncodeEntries(c, ks[1..])
  }

  /** What `writeExternal` writes for a built tree: the current version, the
      packed entry count, then the entries in ascending key order. */
  function WriteExternalSpec<IV(!new)>(c: Codecs<IV>, t: Tree): Bytes {
    [CurrentVersion] + c.pack(|t|) + EncodeEntries(c, SortedKeys(t.Keys))
  }

  /** The entries of a version-0 stream (what the retired `writeVersion0`
      wrote): three big-endian `long`s per triple of term identifiers. */
  function EncodeLegacyEntries(triples: seq<(Long, Long, Long)>): Bytes
    decreases |triples|
  {
    if triples == [] then []
    else EncodeLong(triples[0].0) + EncodeLong(triples[0].1) + EncodeLong(triples[0].2)
         + EncodeLegacyEntries(triples[1..])
  }

  /** The axioms a version-0 stream stands for: URI term identifiers. */
  function LegacySpos<IV(!new)>(c: Codecs<IV>, triples: seq<(Long, Long, Long)>): seq<SPO<IV>>
    decreases |triples|
  {
    if triples == [] then []
    else [SPO(c.termId(triples[0].0), c.termId(triples[0].1), c.termId(triples[0].2), Axiom)]
         + LegacySpos(c, triples[1..])
  }

  lemma ReadEntriesV0Step<IV(!new)>(c: Codecs<IV>, s: Bytes, n: nat, t: Tree, key: Bytes, rest: Bytes)
    requires n > 0 && ReadEntryV0(c, s) == Got(key, rest)
    ensures ReadEntriesV0(c, s, n, t) == ReadEntriesV0(c, rest, n - 1, t[key := Axiom])
  {
  }

  lemma ReadEntriesV1Step<IV(!new)>(c: Codecs<IV>, s: Bytes, n: nat, t: Tree, key: Bytes, rest: Bytes)
    requires n > 0 && ReadEntryV1(c, s) == Entry(key, rest)
    ensures ReadEntriesV1(c, s, n, t) == ReadEntriesV1(c, rest, n - 1, t[key := Axiom])
  {
  }

  /** Three `long`s read in turn make one version-0 entry. */
  lemma ReadEntryV0Of<IV(!new)>(c: Codecs<IV>, s: Bytes, sv: Long, s1: Bytes, pv: Long, s2: Bytes, ov: Long, s3: Bytes)
    requires ReadLongFrom(s) == Got(sv, s1) && ReadLongFrom(s1) == Got(pv, s2) && ReadLongFrom(s2) == Got(ov, s3)
    ensures ReadEntryV0(c, s) == Got(Key(c, SPO(c.termId(sv), c.termId(pv), c.termId(ov), Axiom)), s3)
  {
  }

  /** An entry loop whose next entry fails stops there, with the tree as it
      was. */
  lemma ReadEntriesV0Stops<IV(!new)>(c: Codecs<IV>, s: Bytes, n: nat, t: Tree)
    requires n > 0 && ReadEntryV0(c, s) == Eof
    ensures ReadEntriesV0(c, s, n, t) == Loaded(t, false, [])
  {
  }

  lemma ReadEntriesV1Stops<IV(!new)>(c: Codecs<IV>, s: Bytes, n: nat, t: Tree)
    requires n > 0 && ReadEntryV1(c, s).Rejected?
    ensures ReadEntriesV1(c, s, n, t) == Loaded(t, false, ReadEntryV1(c, s).rest)
  {
  }

  /** The bytes of the entries of some keys, one entry at a time. */
  lemma EncodeEntriesStep<IV(!new)>(c: Codecs<IV>, ks: seq<Bytes>, i: nat)
    requires i < |ks|
    ensures EncodeEntries(c, ks[i..]) == c.pack(|ks[i]|) + ks[i] + EncodeEntries(c, ks[i + 1..])
  {
    assert ks[i..][1..] == ks[i + 1..];
  }

  /** The layout of what `writeExternal` writes, grouped as it is written. */
  lemma WrittenForm<IV(!new)>(c: Codecs<IV>, t: Tree)
    ensures WriteExternalSpec(c, t) == [CurrentVersion] + (c.pack(|t|) + EncodeEntries(c, SortedKeys(t.Keys)))
  {
  }

  /** A key a reader accepts and re-keys to itself: at most 1024 bytes and
      the key of the three values it decodes to. */
  ghost predicate Canonical<IV(!new)>(c: Codecs<IV>, k: Bytes) {
    |k| <= MaxKeyLength && KeyOfTriple(c, k)
  }

  /** Inserting keys with the Axiom type, in order. */
  function InsertKeys(t: Tree, ks: seq<Bytes>): Tree
    decreases |ks|
  {
    if ks == [] then t else InsertKeys(t[ks[0] := Axiom], ks[1..])
  }

  lemma {:induction false} InsertKeysContents(t: Tree, ks: seq<Bytes>)
    ensures InsertKeys(t, ks).Keys == t.Keys + set k | k in ks
    ensures AllAxiom(t) ==> AllAxiom(InsertKeys(t, ks))
    decreases |ks|
  {
    if ks != [] {
      InsertKeysContents(t[ks[0] := Axiom], ks[1..]);
      assert (set k | k in ks) == {ks[0]} + set k | k in ks[1..] by {
        assert ks == [ks[0]] + ks[1..];
      }
    }
  }

  /** The version-1 entry loop reads back the entries written for canonical
      keys, and stops exactly where they end. */
  lemma {:induction false} ReadEntriesV1Inverts<IV(!new)>(c: Codecs<IV>, ks: seq<Bytes>, rest: Bytes, t: Tree)
    requires c.Valid()
    requires forall i :: 0 <= i < |ks| ==> Canonical(c, ks[i])
    ensures ReadEntriesV1(c, EncodeEntries(c, ks) + rest, |ks|, t) == Loaded(InsertKeys(t, ks), true, rest)
    decreases |ks|
  {
    if ks != [] {
      var k := ks[0];
      var tail := EncodeEntries(c, ks[1..]) + rest;
      ReadEntryV1Encoded(c, k, tail);
      assert EncodeEntries(c, ks) + rest == c.pack(|k|) + k + tail;
      ReadEntriesV1Step(c, EncodeEntries(c, ks) + rest, |ks|, t, k, tail);
      ReadEntriesV1Inverts(c, ks[1..], rest, t[k := Axiom]);
    }
  }

  /** One version-1 entry of a canonical key reads back that key. */
  lemma ReadEntryV1Encoded<IV(!new)>(c: Codecs<IV>, k: Bytes, tail: Bytes)
    requires c.Valid() && Canonical(c, k)
    ensures ReadEntryV1(c, c.pack(|k|) + k + tail) == Entry(k, tail)
  {
    var s := c.pack(|k|) + k + tail;
    assert s == c.pack(|k|) + (k + tail);
    assert c.unpack(c.pack(|k|) + (k + tail)) == Some((|k|, |c.pack(|k|)|));
    assert UnpackFrom(c, s) == Got(|k|, k + tail);
    assert (k + tail)[..|k|] == k && (k + tail)[|k|..] == tail;
  }

  /** DataInput.readLong reads back what DataOutput.writeLong wrote. */
  lemma ReadLongEncoded(x: Long, tail: Bytes)
    ensures ReadLongFrom(EncodeLong(x) + tail) == Got(x, tail)
  {
    var s := EncodeLong(x) + tail;
    assert s[..8] == EncodeLong(x) && s[8..] == tail;
    DecodeEncodeLong(x);
  }

  /** One version-0 entry reads back the key of its triple of term
      identifiers. */
  lemma ReadEntryV0Encoded<IV(!new)>(c: Codecs<IV>, sv: Long, pv: Long, ov: Long, tail: Bytes)
    ensures ReadEntryV0(c, EncodeLong(sv) + EncodeLong(pv) + EncodeLong(ov) + tail)
            == Got(Key(c, SPO(c.termId(sv), c.termId(pv), c.termId(ov), Axiom)), tail)
  {
    assert EncodeLong(sv) + EncodeLong(pv) + EncodeLong(ov) + tail
           == EncodeLong(sv) + (EncodeLong(pv) + (EncodeLong(ov) + tail));
    ReadLongEncoded(sv, EncodeLong(pv) + (EncodeLong(ov) + tail));
    ReadLongEncoded(pv, EncodeLong(ov) + tail);
    ReadLongEncoded(ov, tail);
  }

  /** The version-0 entry loop inserts the key of each triple of term
      identifiers, exactly as if those axioms had been inserted directly. */
  lemma {:induction false} ReadEntriesV0Decodes<IV(!new)>(c: Codecs<IV>, triples: seq<(Long, Long, Long)>, rest: Bytes, t: Tree)
    ensures ReadEntriesV0(c, EncodeLegacyEntries(triples) + rest, |triples|, t)
            == Loaded(InsertSpos(c, t, LegacySpos(c, triples)), true, rest)
    decreases |triples|
  {
    if triples != [] {
      var (sv, pv, ov) := triples[0];
      var tail := EncodeLegacyEntries(triples[1..]) + rest;
      assert EncodeLegacyEntries(triples) + rest == EncodeLong(sv) + EncodeLong(pv) + EncodeLong(ov) + tail;
      ReadEntryV0Encoded(c, sv, pv, ov, tail);
      var spos := LegacySpos(c, triples);
      assert spos[0] == SPO(c.termId(sv), c.termId(pv), c.termId(ov), Axiom);
      assert spos[1..] == LegacySpos(c, triples[1..]);
      ReadEntriesV0Step(c, EncodeLegacyEntries(triples) + rest, |triples|, t, Key(c, spos[0]), tail);
      ReadEntriesV0Decodes(c, triples[1..], rest, t[Key(c, spos[0]) := Axiom]);
    }
  }

  /** `readExternal` hands the bytes after a known version byte to that
      version's reader. */
  lemma ReadExternalDispatch<IV(!new)>(c: Codecs<IV>, btree: Option<Tree>, s: Bytes)
    requires |s| >= 1 && (s[0] == Version0 || s[0] == Version1)
    ensures ReadExternalSpec(c, btree, s) == ReadVersionSpec(c, s[0], btree, s[1..])
  {
  }

  /** A count in range, read with no tree built yet, starts that version's
      entry loop on a fresh tree. */
  lemma ReadVersionCount<IV(!new)>(c: Codecs<IV>, version: bv8, s: Bytes, n: nat, s1: Bytes)
    requires UnpackFrom(c, s) == Got(n, s1) && n <= MaxInt
    ensures var l := if version == Version0 then ReadEntriesV0(c, s1, n, map[]) else ReadEntriesV1(c, s1, n, map[]);
            ReadVersionSpec(c, version, None, s) == Decoded(Some(l.tree), if l.ok then Pass else Fail(IOError), l.rest)
  {
  }

  /** LongPacker reads back a packed count, whatever follows it. */
  lemma UnpackPacked<IV(!new)>(c: Codecs<IV>, n: nat, body: Bytes)
    requires c.Valid()
    ensures UnpackFrom(c, c.pack(n) + body) == Got(n, body)
  {
    assert c.unpack(c.pack(n) + body) == Some((n, |c.pack(n)|));
    assert (c.pack(n) + body)[|c.pack(n)|..] == body;
  }

  /** A stream that starts with a known version and a count in range is read
      by that version's entry loop, into a fresh tree. */
  lemma ReadExternalHeader<IV(!new)>(c: Codecs<IV>, version: bv8, n: nat, body: Bytes, s: Bytes)
    requires c.Valid()
    requires version == Version0 || version == Version1
    requires n <= MaxInt
    requires s == [version] + c.pack(n) + body
    ensures var l := if version == Version0 then ReadEntriesV0(c, body, n, map[]) else ReadEntriesV1(c, body, n, map[]);
            ReadExternalSpec(c, None, s) == Decoded(Some(l.tree), if l.ok then Pass else Fail(IOError), l.rest)
  {
    assert s[0] == version && s[1..] == c.pack(n) + body;
    ReadExternalDispatch(c, None, s);
    UnpackPacked(c, n, body);
    ReadVersionCount(c, version, s[1..], n, body);
  }

  /** Writing a built tree and reading the bytes back into a fresh object
      gives a tree with the same keys, all of the Axiom type, and leaves the
      stream just past them; a tree of axioms comes back unchanged. Assumes
      every key is canonical (at most 1024 bytes) and the count fits an int. */
  lemma RoundTrip<IV(!new)>(c: Codecs<IV>, t: Tree, rest: Bytes)
    requires c.Valid() && WellKeyed(c, t)
    requires forall k :: k in t ==> |k| <= MaxKeyLength
    requires |t| <= MaxInt
    ensures var d := ReadExternalSpec(c, None, WriteExternalSpec(c, t) + rest);
            && d.outcome == Pass && d.rest == rest && d.tree.Some?
            && d.tree.value.Keys == t.Keys && AllAxiom(d.tree.value)
            && (AllAxiom(t) ==> d.tree == Some(t))
  {
    var t' := InsertKeys(map[], SortedKeys(t.Keys));
    ReadSortedEntries(c, t, rest);
    ReadWrittenHeader(c, t, rest, t');
    RebuiltTree(t);
  }

  /** The tree read back answers `size` and `isAxiom` as the tree written
      did. */
  lemma RoundTripQueries<IV(!new)>(c: Codecs<IV>, t: Tree, rest: Bytes)
    requires c.Valid() && WellKeyed(c, t)
    requires forall k :: k in t ==> |k| <= MaxKeyLength
    requires |t| <= MaxInt
    ensures var d := ReadExternalSpec(c, None, WriteExternalSpec(c, t) + rest);
            && d.tree.Some? && |d.tree.value| == |t|
            && (forall s, p, o :: IsAxiomIn(c, d.tree.value, s, p, o) == IsAxiomIn(c, t, s, p, o))
  {
    RoundTrip(c, t, rest);
    var read := ReadExternalSpec(c, None, WriteExternalSpec(c, t) + rest).tree.value;
    assert |read| == |read.Keys| && |t| == |t.Keys|;
  }

  /** Inserting a tree's keys, in key order, with the Axiom type into an
      empty tree gives the same keys; a tree of axioms is rebuilt exactly. */
  lemma RebuiltTree(t: Tree)
    ensures var t' := InsertKeys(map[], SortedKeys(t.Keys));
            t'.Keys == t.Keys && AllAxiom(t') && (AllAxiom(t) ==> t' == t)
  {
    var ks := SortedKeys(t.Keys);
    InsertKeysContents(map[], ks);
    var t' := InsertKeys(map[], ks);
    assert t'.Keys == t.Keys;
    if AllAxiom(t) {
      assert t' == t;
    }
  }

  /** The reader takes the header the writer writes, and returns normally
      with what the version-1 entry loop reads from the entries. */
  lemma ReadWrittenHeader<IV(!new)>(c: Codecs<IV>, t: Tree, rest: Bytes, read: Tree)
    requires c.Valid()
    requires |t| <= MaxInt
    requires ReadEntriesV1(c, EncodeEntries(c, SortedKeys(t.Keys)) + rest, |t|, map[]) == Loaded(read, true, rest)
    ensures ReadExternalSpec(c, None, WriteExternalSpec(c, t) + rest) == Decoded(Some(read), Pass, rest)
  {
    var body := EncodeEntries(c, SortedKeys(t.Keys)) + rest;
    var s := WriteExternalSpec(c, t) + rest;
    WrittenLayout(c, t, rest);
    ReadExternalHeader(c, Version1, |t|, body, s);
  }

  /** The layout of what `writeExternal` writes. */
  lemma WrittenLayout<IV(!new)>(c: Codecs<IV>, t: Tree, rest: Bytes)
    ensures WriteExternalSpec(c, t) + rest == [Version1] + c.pack(|t|) + (EncodeEntries(c, SortedKeys(t.Keys)) + rest)
  {
  }

  /** The entry loop reads back the entries of a tree, written in key order. */
  lemma ReadSortedEntries<IV(!new)>(c: Codecs<IV>, t: Tree, rest: Bytes)
    requires c.Valid() && WellKeyed(c, t)
    requires forall k :: k in t ==> |k| <= MaxKeyLength
    ensures var ks := SortedKeys(t.Keys);
            ReadEntriesV1(c, EncodeEntries(c, ks) + rest, |t|, map[]) == Loaded(InsertKeys(map[], ks), true, rest)
  {
    var ks := SortedKeys(t.Keys);
    assert |ks| == |t| by {
      assert |t| == |t.Keys|;
    }
    forall i | 0 <= i < |ks|
      ensures Canonical(c, ks[i])
    {
      assert ks[i] in ks;
    }
    ReadEntriesV1Inverts(c, ks, rest, map[]);
  }

  /** A version-0 stream of `n` triples of term identifiers reads as the
      index filled directly with those axioms. */
  lemma LegacyDecode<IV(!new)>(c: Codecs<IV>, triples: seq<(Long, Long, Long)>, rest: Bytes)
    requires c.Valid()
    requires |triples| <= MaxInt
    ensures ReadExternalSpec(c, None, [Version0] + c.pack(|triples|) + EncodeLegacyEntries(triples) + rest)
            == Decoded(Some(InsertSpos(c, map[], LegacySpos(c, triples))), Pass, rest)
  {
    var body := EncodeLegacyEntries(triples) + rest;
    var s := [Version0] + c.pack(|triples|) + EncodeLegacyEntries(triples) + rest;
    assert s == [Version0] + c.pack(|triples|) + body;
    ReadExternalHeader(c, Version0, |triples|, body, s);
    ReadEntriesV0Decodes(c, triples, rest, map[]);
  }

  /** A version-0 entry yields the key of a triple. */
  lemma EntryKeyV0<IV(!new)>(c: Codecs<IV>, s: Bytes)
    requires c.Valid()
    ensures ReadEntryV0(c, s).Got? ==> KeyOfTriple(c, ReadEntryV0(c, s).value)
  {
    if ReadEntryV0(c, s).Got? {
      var sv := DecodeLong(s[..8]);
      var pv := DecodeLong(s[8..][..8]);
      var ov := DecodeLong(s[8..][8..][..8]);
      SerializedKeyOfTriple(c, c.termId(sv), c.termId(pv), c.termId(ov));
    }
  }

  /** A version-1 entry yields the key of a triple. */
  lemma EntryKeyV1<IV(!new)>(c: Codecs<IV>, s: Bytes)
    requires c.Valid()
    ensures ReadEntryV1(c, s).Entry? ==> KeyOfTriple(c, ReadEntryV1(c, s).key)
  {
    if ReadEntryV1(c, s).Entry? {
      var key := ReadEntryV1(c, s).key;
      var x, y, z :| key == c.serializeKey(x, y, z);
      SerializedKeyOfTriple(c, x, y, z);
    }
  }

  /** One insert adds at most one entry. */
  lemma InsertOneSize(t: Tree, key: Bytes)
    ensures |t[key := Axiom]| <= |t| + 1
  {
    assert t[key := Axiom].Keys == t.Keys + {key};
  }

  /** The version-0 entry loop inserts only keys of triples, and at most one
      per entry. */
  lemma {:induction false} ReadEntriesV0Bounded<IV(!new)>(c: Codecs<IV>, s: Bytes, n: nat, t: Tree)
    requires c.Valid() && WellKeyed(c, t)
    ensures var l := ReadEntriesV0(c, s, n, t); WellKeyed(c, l.tree) && |l.tree| <= |t| + n
    decreases n
  {
    if n > 0 && ReadEntryV0(c, s).Got? {
      var key, rest := ReadEntryV0(c, s).value, ReadEntryV0(c, s).rest;
      EntryKeyV0(c, s);
      InsertOneSize(t, key);
      ReadEntriesV0Step(c, s, n, t, key, rest);
      ReadEntriesV0Bounded(c, rest, n - 1, t[key := Axiom]);
    }
  }

  /** The version-1 entry loop inserts only keys of triples, and at most one
      per entry. */
  lemma {:induction false} ReadEntriesV1Bounded<IV(!new)>(c: Codecs<IV>, s: Bytes, n: nat, t: Tree)
    requires c.Valid() && WellKeyed(c, t)
    ensures var l := ReadEntriesV1(c, s, n, t); WellKeyed(c, l.tree) && |l.tree| <= |t| + n
    decreases n
  {
    if n > 0 && ReadEntryV1(c, s).Entry? {
      var key, rest := ReadEntryV1(c, s).key, ReadEntryV1(c, s).rest;
      EntryKeyV1(c, s);
      InsertOneSize(t, key);
      ReadEntriesV1Step(c, s, n, t, key, rest);
      ReadEntriesV1Bounded(c, rest, n - 1, t[key := Axiom]);
    }
  }

  /** A tree read into a fresh object holds only keys of triples, and no more
      entries than Integer.MAX_VALUE, so `size()` reports it exactly. */
  lemma ReadTreeBounded<IV(!new)>(c: Codecs<IV>, s: Bytes)
    requires c.Valid()
    ensures var d := ReadExternalSpec(c, None, s);
            d.tree.Some? ==> WellKeyed(c, d.tree.value) && |d.tree.value| <= MaxInt
  {
    if |s| >= 1 && (s[0] == Version0 || s[0] == Version1) {
      ReadExternalDispatch(c, None, s);
      match UnpackFrom(c, s[1..])
      case Eof =>
      case Got(n, s1) =>
        if 0 <= n <= MaxInt {
          ReadVersionCount(c, s[0], s[1..], n, s1);
          ReadEntriesV0Bounded(c, s1, n, map[]);
          ReadEntriesV1Bounded(c, s1, n, map[]);
        }
    }
  }

  /** An unknown version byte is refused with UnsupportedOperationException
      before anything else is read, and nothing is built. */
  lemma UnknownVersionRejected<IV(!new)>(c: Codecs<IV>, btree: Option<Tree>, s: Bytes)
    requires |s| > 0 && s[0] != Version0 && s[0] != Version1
    ensures ReadExternalSpec(c, btree, s) == Decoded(btree, Fail(UnsupportedVersion(s[0])), s[1..])
  {
  }

  /** A second build is a state error, never a silent rebuild: reading into
      an object that already has a tree fails and leaves the tree as it was. */
  lemma NoRebuild<IV(!new)>(c: Codecs<IV>, t: Tree, s: Bytes)
    ensures ReadExternalSpec(c, Some(t), s).tree == Some(t)
    ensures ReadExternalSpec(c, Some(t), s).outcome.Fail?
  {
  }

  /** With a known version and a count in range, a read into an object that
      already has a tree reaches `createBTree` and fails there with
      IllegalStateException, before any entry is read. */
  lemma RebuildIsStateError<IV(!new)>(c: Codecs<IV>, v: bv8, n: nat, t: Tree, body: Bytes)
    requires c.Valid() && (v == Version0 || v == Version1) && n <= MaxInt
    ensures ReadExternalSpec(c, Some(t), [v] + c.pack(n) + body) == Decoded(Some(t), Fail(IllegalState), body)
  {
    var s := [v] + c.pack(n) + body;
    assert s[0] == v && s[1..] == c.pack(n) + body;
    UnpackPacked(c, n, body);
  }

  /** The entry loop stops with an IOException at the first entry written
      for a key longer than 1024 bytes, when it gets that far: the entries
      before it are keys of triples, and each either reads back or is
      itself too long. */
  lemma LongKeyStopsEntries<IV(!new)>(c: Codecs<IV>, ks: seq<Bytes>, i: nat, rest: Bytes, t: Tree)
    requires c.Valid()
    requires forall j :: 0 <= j < |ks| ==> KeyOfTriple(c, ks[j])
    requires i < |ks| && |ks[i]| > MaxKeyLength
    ensures !ReadEntriesV1(c, EncodeEntries(c, ks) + rest, |ks|, t).ok
    decreases i
  {
    var k := ks[0];
    var tail := EncodeEntries(c, ks[1..]) + rest;
    assert EncodeEntries(c, ks) + rest == c.pack(|k|) + k + tail;
    if |k| > MaxKeyLength {
      assert c.pack(|k|) + k + tail == c.pack(|k|) + (k + tail);
      UnpackPacked(c, |k|, k + tail);
    } else {
      assert Canonical(c, k);
      ReadEntryV1Encoded(c, k, tail);
      assert i > 0;
      LongKeyStopsEntries(c, ks[1..], i - 1, rest, t[k := Axiom]);
    }
  }

  /** The writer writes keys of any length, but the reader refuses a key
      longer than 1024 bytes: a tree holding one is written, and reading it
      back fails with an IOException. */
  lemma LongKeyNotReadBack<IV(!new)>(c: Codecs<IV>, t: Tree, k: Bytes, rest: Bytes)
    requires c.Valid() && WellKeyed(c, t) && |t| <= MaxInt
    requires k in t && |k| > MaxKeyLength
    ensures ReadExternalSpec(c, None, WriteExternalSpec(c, t) + rest).outcome == Fail(IOError)
  {
    var ks := SortedKeys(t.Keys);
    assert |ks| == |t| by {
      assert |t| == |t.Keys|;
    }
    assert k in ks;
    var i :| 0 <= i < |ks| && ks[i] == k;
    forall j | 0 <= j < |ks|
      ensures KeyOfTriple(c, ks[j])
    {
      assert ks[j] in ks;
    }
    LongKeyStopsEntries(c, ks, i, rest, map[]);
    WrittenLayout(c, t, rest);
    ReadExternalHeader(c, Version1, |t|, EncodeEntries(c, ks) + rest, WriteExternalSpec(c, t) + rest);
  }

  /** Both readers refuse a negative count or one above Integer.MAX_VALUE
      with an IOException, before any tree is built. */
  lemma CountOutOfRangeRejected<IV(!new)>(c: Codecs<IV>, version: bv8, btree: Option<Tree>, s: Bytes, n: int, s1: Bytes)
    requires UnpackFrom(c, s) == Got(n, s1)
    requires n < 0 || n > MaxInt
    ensures ReadVersionSpec(c, version, btree, s) == Decoded(btree, Fail(IOError), s1)
  {
  }

  /** A version-1 key length outside 0..1024 is refused with an IOException
      before any key byte is read. */
  lemma KeyLengthRejected<IV(!new)>(c: Codecs<IV>, s: Bytes, len: int, s1: Bytes, n: nat, t: Tree)
    requires UnpackFrom(c, s) == Got(len, s1)
    requires len < 0 || len > MaxKeyLength
    requires n > 0
    ensures ReadEntriesV1(c, s, n, t) == Loaded(t, false, s1)
  {
  }

  /** A version-1 key that does not decode to exactly three values is refused
      with an IOException after its bytes are read, and is not inserted. */
  lemma KeyArityRejected<IV(!new)>(c: Codecs<IV>, s: Bytes, key: Bytes, rest: Bytes, n: nat, t: Tree)
    requires UnpackFrom(c, s) == Got(|key|, key + rest)
    requires |key| <= MaxKeyLength
    requires |c.decodeAll(key)| != 3
    requires n > 0
    ensures ReadEntriesV1(c, s, n, t) == Loaded(t, false, rest)
  {
    assert (key + rest)[..|key|] == key && (key + rest)[|key|..] == rest;
  }
}
