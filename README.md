# The axiom set of a triple store

A model of `BaseAxioms`, the in-memory axiom set of a triple store, and its
statement-buffer hook `MyStatementBuffer`. The object holds one ordered index
(a B+Tree from SPO key bytes to a statement type). The index is absent until
it is built, and it is built at most once. There are two ways to build it:

- **A new store** (`init` → `writeAxioms`). The declared axioms are written
  on the store through a statement buffer. The buffer copies and sorts the
  first batch it writes, and the index is filled from that copy.
- **Reopening a store** (`readExternal`). The index is read back from its
  versioned binary form.

Once built, the index is only read: by `isAxiom`, `size` and `axioms`, and
by `writeExternal`, which writes the current binary form (version 1).

Modules, one file each:

- `ByteKeys`: key bytes and their unsigned lexicographic order. `SortedKeys`
  is the order a B+Tree range iterator visits keys in.
- `Errors`: an `Option` standing for Java `null`, the exceptions the axiom
  set throws, and the `Result`/`Outcome` of a method that may throw.
- `Collaborators`: the code the axiom set calls but does not own. It is
  modelled as function values with the inverse properties the axiom set
  relies on. `SPOTupleSerializer.serializeKey` is undone by
  `IVUtility.decodeAll`, and `LongPacker.packLong` is undone by
  `LongPacker.unpackLong`.
- `ByteStreams`: the object input stream, with a read cursor, and the
  object output stream. A read past the end is an `IOException`.
  `readLong` and `writeLong` are modelled concretely as eight big-endian
  bytes.
- `AxiomIndex`: the index as a `map`, filling it from statements, the
  membership and size answers, the iteration order, the SPO sort, and the
  working set the capture hook keeps.
- `AxiomFormat`: the binary form as functions of the bytes. It covers the
  two readers, the writer, the round trip and every rejection.
- `Axioms` (`BaseAxioms.dfy`): the two classes. Their methods change the
  index, the cursor and the output in place, and are proved against the
  functions of `AxiomFormat` and `AxiomIndex`.

A read that fails partway throws after `createBTree` (BaseAxioms.java:357
and 383), so the entries read before the failure stay in the tree.
`ReadEntriesV0`/`ReadEntriesV1` return the tree as filled so far.

## Model

| member | source | states |
|---|---|---|
| Axioms.MyStatementBuffer.WriteSPOs | bigdata-rdf/src/java/com/bigdata/rdf/axioms/BaseAxioms.java:562-576 | The first call keeps a copy of exactly the first `numStmts` statements, sorted by SPO key. Every later call leaves the kept copy as it was. Every batch, the first included, is passed on to the store. |
| AxiomIndex.CapturedOnce | bigdata-rdf/src/java/com/bigdata/rdf/axioms/BaseAxioms.java:564-572 | After any nonempty run of batches a working set is held. A batch after the first leaves it unchanged, and the first batch is held sorted. |
| AxiomIndex.SortBySpo | bigdata-rdf/src/java/com/bigdata/rdf/axioms/BaseAxioms.java:566-570 | The sorted copy is a permutation of the batch (same multiset) in non-decreasing SPO key order. |
| AxiomIndex.InsertSorted | bigdata-rdf/src/java/com/bigdata/rdf/axioms/BaseAxioms.java:570 | Inserting one statement into a sorted sequence adds exactly that statement and keeps it sorted. |
| ByteKeys.BelowIsStrictTotalOrder | bigdata-rdf/src/java/com/bigdata/rdf/axioms/BaseAxioms.java:570 | The unsigned key order the SPO comparator agrees with is irreflexive, asymmetric, transitive and total. |
| ByteKeys.SortedKeys | bigdata-rdf/src/java/com/bigdata/rdf/axioms/BaseAxioms.java:463 | The range iterator visits every key of the index exactly once, in strictly ascending unsigned order. |
| Axioms.BaseAxioms.ForStore | bigdata-rdf/src/java/com/bigdata/rdf/axioms/BaseAxioms.java:129-133 | The object a store makes has a store and no index yet. |
| Axioms.BaseAxioms.ForDeserialization | bigdata-rdf/src/java/com/bigdata/rdf/axioms/BaseAxioms.java:113-117 | The object made for deserialization has no store and no index yet. |
| Axioms.BaseAxioms.CreateBTree | bigdata-rdf/src/java/com/bigdata/rdf/axioms/BaseAxioms.java:275-300 | When an index exists: IllegalStateException, and nothing changes. Otherwise: an empty index whose branching factor is `max(MIN_BRANCHING_FACTOR, naxioms)`. |
| Axioms.Max | bigdata-rdf/src/java/com/bigdata/rdf/axioms/BaseAxioms.java:281 | `Math.max`: the larger of its two arguments. |
| Axioms.BaseAxioms.Init | bigdata-rdf/src/java/com/bigdata/rdf/axioms/BaseAxioms.java:143-158 | Without a store: IllegalStateException, nothing written, and the index and branching factor unchanged. Otherwise it is `writeAxioms` of the declared axioms. |
| Axioms.BaseAxioms.WriteAxioms | bigdata-rdf/src/java/com/bigdata/rdf/axioms/BaseAxioms.java:192-264 | Without a store: IllegalStateException. A failing `flush` propagates before `createBTree`, leaving the index and branching factor as they were. The batches reach the store whenever an axiom is declared, even when the index already exists. A second build is an IllegalStateException that leaves the index and branching factor as they were. A first build fills the index from the working set, with one entry per distinct triple of the first batch. It answers membership for exactly those triples, so with no axioms the index is created empty. |
| Axioms.BaseAxioms.WriteThroughBuffer | bigdata-rdf/src/java/com/bigdata/rdf/axioms/BaseAxioms.java:205-233 | With at least one axiom: every batch is written through a new capturing buffer, and the buffer holds what the hook captured. With none: nothing is written and nothing is captured (`stmts = null`). |
| Axioms.BaseAxioms.InsertAll | bigdata-rdf/src/java/com/bigdata/rdf/axioms/BaseAxioms.java:251-260 | Inserting each statement's key and type in turn gives the index `InsertSpos` describes, keeps every key the key of a triple, and leaves the branching factor alone. |
| AxiomIndex.WorkingSet | bigdata-rdf/src/java/com/bigdata/rdf/axioms/BaseAxioms.java:203-233 | The working set is a sorted permutation of the first reported batch. It is empty with no axioms or no batch. |
| AxiomIndex.WorkingSetIndex | bigdata-rdf/src/java/com/bigdata/rdf/axioms/BaseAxioms.java:200-262 | The index filled from the working set has as many entries as the first batch has distinct triples, and a triple is an axiom of it exactly when it occurs in that batch. |
| AxiomIndex.BuiltMembership | bigdata-rdf/src/java/com/bigdata/rdf/axioms/BaseAxioms.java:253-258 | After filling from statements, a triple is an axiom exactly when all three values are present and it is one of those statements' triples. |
| AxiomIndex.BuiltSize | bigdata-rdf/src/java/com/bigdata/rdf/axioms/BaseAxioms.java:253-258 | After filling from statements, the number of entries is the number of distinct triples among them. |
| AxiomIndex.InsertSposKeys | bigdata-rdf/src/java/com/bigdata/rdf/axioms/BaseAxioms.java:253-258 | Filling adds exactly the statements' keys to the keys already present. |
| AxiomIndex.InsertSposAxiom | bigdata-rdf/src/java/com/bigdata/rdf/axioms/BaseAxioms.java:253-258 | Filling from statements that are all of the Axiom type keeps every stored type Axiom. |
| AxiomIndex.WorkingSetAxioms | bigdata-rdf/src/java/com/bigdata/rdf/axioms/BaseAxioms.java:216-218 | When the first batch holds only Axiom-typed statements, as the declared axioms are asserted to be, every entry of the index filled from the working set is of the Axiom type. |
| AxiomIndex.InsertSposWellKeyed | bigdata-rdf/src/java/com/bigdata/rdf/axioms/BaseAxioms.java:255 | Filling inserts only keys that decode to three values and re-key to themselves. |
| AxiomIndex.TripleKeysSize | bigdata-rdf/src/java/com/bigdata/rdf/axioms/BaseAxioms.java:255 | Distinct triples have distinct keys, so a set of triples has as many keys as members. |
| Collaborators.Codecs.KeyInjective | bigdata-rdf/src/java/com/bigdata/rdf/axioms/BaseAxioms.java:491 | Two triples with the same SPO key are the same triple. |
| Axioms.BaseAxioms.ReadExternal | bigdata-rdf/src/java/com/bigdata/rdf/axioms/BaseAxioms.java:330-347 | Reads the version byte and leaves exactly the index, the outcome and the stream the version-byte dispatch describes. An index it creates has branching factor `max(MIN_BRANCHING_FACTOR, naxioms)` for the count after the version byte; when no index is built, the branching factor is unchanged. |
| AxiomFormat.ReadExternalDispatch | bigdata-rdf/src/java/com/bigdata/rdf/axioms/BaseAxioms.java:333-341 | Version 0 and version 1 hand the bytes after the version byte to that version's reader. |
| AxiomFormat.UnknownVersionRejected | bigdata-rdf/src/java/com/bigdata/rdf/axioms/BaseAxioms.java:342-344 | Any other version byte is refused with UnsupportedOperationException carrying that byte. Nothing more is read and nothing is built. |
| Axioms.BaseAxioms.ReadVersion0 | bigdata-rdf/src/java/com/bigdata/rdf/axioms/BaseAxioms.java:350-373 | Leaves exactly the index, the outcome and the stream that version 0's reader describes for the bytes it was given. An index it creates has branching factor `max(MIN_BRANCHING_FACTOR, naxioms)` for the count it unpacked; when no index is built, the branching factor is unchanged. |
| Axioms.BaseAxioms.ReadEntries0 | bigdata-rdf/src/java/com/bigdata/rdf/axioms/BaseAxioms.java:359-372 | The entry loop inserts each entry's key with the Axiom type. It stops with an IOException at the first entry the stream ends inside, keeping what was inserted so far, as `ReadEntriesV0` describes. The branching factor is unchanged. |
| Axioms.BaseAxioms.ReadEntry0 | bigdata-rdf/src/java/com/bigdata/rdf/axioms/BaseAxioms.java:361-370 | Three `readLong`s taken as URI term identifiers give the key of that axiom. A short stream gives none and leaves the stream at its end. |
| AxiomFormat.ReadEntryV0Encoded | bigdata-rdf/src/java/com/bigdata/rdf/axioms/BaseAxioms.java:361-367 | An entry of three written `long`s reads back the key of the triple of their term identifiers, and leaves the bytes after it. |
| AxiomFormat.ReadEntriesV0Decodes | bigdata-rdf/src/java/com/bigdata/rdf/axioms/BaseAxioms.java:359-372 | Reading n version-0 entries fills the index exactly as inserting those n axioms directly would, and stops just past them. |
| AxiomFormat.LegacyDecode | bigdata-rdf/src/java/com/bigdata/rdf/axioms/BaseAxioms.java:433-454 | A stream in the layout the retired `writeVersion0` wrote reads, on a fresh object, as the index filled directly with its axioms, and returns normally. |
| AxiomFormat.EntryKeyV0 | bigdata-rdf/src/java/com/bigdata/rdf/axioms/BaseAxioms.java:367-370 | A version-0 entry yields the key of a triple. |
| Axioms.BaseAxioms.ReadVersion1 | bigdata-rdf/src/java/com/bigdata/rdf/axioms/BaseAxioms.java:376-416 | Leaves exactly the index, the outcome and the stream that version 1's reader describes for the bytes it was given. An index it creates has branching factor `max(MIN_BRANCHING_FACTOR, naxioms)` for the count it unpacked; when no index is built, the branching factor is unchanged. |
| Axioms.BaseAxioms.ReadEntries1 | bigdata-rdf/src/java/com/bigdata/rdf/axioms/BaseAxioms.java:385-414 | The entry loop inserts each entry's key with the Axiom type. It stops with an IOException at the first rejected entry, keeping what was inserted so far, as `ReadEntriesV1` describes. The branching factor is unchanged. |
| Axioms.BaseAxioms.ReadEntry1 | bigdata-rdf/src/java/com/bigdata/rdf/axioms/BaseAxioms.java:387-412 | Refuses a key length outside 0..1024 before reading key bytes. Then refuses a short stream, and a key that does not decode to three values. Otherwise it gives the key those values make. |
| AxiomFormat.ReadEntryV1Encoded | bigdata-rdf/src/java/com/bigdata/rdf/axioms/BaseAxioms.java:387-412 | A packed length followed by a canonical key reads back that key, and leaves the bytes after it. |
| AxiomFormat.ReadEntriesV1Inverts | bigdata-rdf/src/java/com/bigdata/rdf/axioms/BaseAxioms.java:385-414 | Reading the entries written for canonical keys inserts exactly those keys, in order, with the Axiom type, and stops just past them. |
| AxiomFormat.EntryKeyV1 | bigdata-rdf/src/java/com/bigdata/rdf/axioms/BaseAxioms.java:409-412 | A version-1 entry yields the key of a triple. |
| AxiomFormat.ReadVersionCount | bigdata-rdf/src/java/com/bigdata/rdf/axioms/BaseAxioms.java:352-359 | A count in range, read with no index yet, fills a new empty index with that many entries and returns normally exactly when they all read. |
| AxiomFormat.CountOutOfRangeRejected | bigdata-rdf/src/java/com/bigdata/rdf/axioms/BaseAxioms.java:352-355 | A negative count, or one above Integer.MAX_VALUE, is an IOException before any index is built. |
| AxiomFormat.NoRebuild | bigdata-rdf/src/java/com/bigdata/rdf/axioms/BaseAxioms.java:275-278 | Reading into an object that already has an index fails and leaves the index as it was. |
| AxiomFormat.RebuildIsStateError | bigdata-rdf/src/java/com/bigdata/rdf/axioms/BaseAxioms.java:275-278 | A known version and a count in range, read into an object that already has an index, fail with IllegalStateException at `createBTree`, with the index as it was and the stream just past the count. |
| AxiomFormat.KeyLengthRejected | bigdata-rdf/src/java/com/bigdata/rdf/axioms/BaseAxioms.java:387-390 | A key length below 0 or above 1024 is an IOException before any key byte is read. The index keeps what was inserted before it. |
| AxiomFormat.KeyArityRejected | bigdata-rdf/src/java/com/bigdata/rdf/axioms/BaseAxioms.java:398-401 | A key that does not decode to exactly three values is an IOException after its bytes are read, and is not inserted. |
| AxiomFormat.ReadEntriesV0Bounded | bigdata-rdf/src/java/com/bigdata/rdf/axioms/BaseAxioms.java:359-372 | The version-0 loop inserts only keys of triples, at most one per entry. |
| AxiomFormat.ReadEntriesV1Bounded | bigdata-rdf/src/java/com/bigdata/rdf/axioms/BaseAxioms.java:385-414 | The version-1 loop inserts only keys of triples, at most one per entry. |
| AxiomFormat.ReadTreeBounded | bigdata-rdf/src/java/com/bigdata/rdf/axioms/BaseAxioms.java:354-357 | Any index read into a fresh object holds only keys of triples, and at most Integer.MAX_VALUE of them, so `size()` reports it exactly. |
| Axioms.BaseAxioms.WriteExternal | bigdata-rdf/src/java/com/bigdata/rdf/axioms/BaseAxioms.java:418-431 | With no index: IllegalStateException, and nothing is written. Otherwise: the version byte 1 followed by version 1, which is exactly `WriteExternalSpec`. |
| Axioms.BaseAxioms.WriteVersion1 | bigdata-rdf/src/java/com/bigdata/rdf/axioms/BaseAxioms.java:456-477 | Appends the packed entry count, then each key in ascending order as its packed length and its bytes. |
| AxiomFormat.WrittenForm | bigdata-rdf/src/java/com/bigdata/rdf/axioms/BaseAxioms.java:423-427 | The written form is the version byte followed by what `writeVersion1` writes. |
| AxiomFormat.RoundTrip | bigdata-rdf/src/java/com/bigdata/rdf/axioms/BaseAxioms.java:418-477 | Writing an index and reading the bytes back into a fresh object returns normally and leaves the stream just past them. The index read back has the same keys, all of the Axiom type, and an index of axioms comes back unchanged. This assumes every key is at most 1024 bytes and the index has at most Integer.MAX_VALUE entries. |
| AxiomFormat.RoundTripQueries | bigdata-rdf/src/java/com/bigdata/rdf/axioms/BaseAxioms.java:376-416 | The index read back answers `size` and `isAxiom` exactly as the index written did, under the same two bounds as `RoundTrip`. |
| AxiomFormat.LongKeyNotReadBack | bigdata-rdf/src/java/com/bigdata/rdf/axioms/BaseAxioms.java:389-390 | The writer writes keys of any length (lines 469-473), but an index holding a key longer than 1024 bytes, written and read back, fails with an IOException. |
| AxiomFormat.LongKeyStopsEntries | bigdata-rdf/src/java/com/bigdata/rdf/axioms/BaseAxioms.java:385-390 | The version-1 entry loop over written keys of triples does not complete when one of the keys is longer than 1024 bytes. |
| AxiomFormat.RebuiltTree | bigdata-rdf/src/java/com/bigdata/rdf/axioms/BaseAxioms.java:411-412 | Inserting an index's keys in order with the Axiom type gives the same keys, and an index of axioms exactly. |
| AxiomFormat.UnpackPacked | bigdata-rdf/src/java/com/bigdata/rdf/axioms/BaseAxioms.java:378 | The reader unpacks the count the writer packed, whatever follows it. |
| ByteStreams.DecodeEncodeLong | bigdata-rdf/src/java/com/bigdata/rdf/axioms/BaseAxioms.java:361 | `readLong` reads back the `long` that `writeLong` wrote. |
| ByteStreams.ByteInput.ReadByte | bigdata-rdf/src/java/com/bigdata/rdf/axioms/BaseAxioms.java:333 | Reads one byte, or fails at the end of the stream. |
| ByteStreams.ByteInput.ReadLong | bigdata-rdf/src/java/com/bigdata/rdf/axioms/BaseAxioms.java:361 | Reads eight big-endian bytes as a `long`, or fails on a short stream. |
| ByteStreams.ByteInput.ReadFully | bigdata-rdf/src/java/com/bigdata/rdf/axioms/BaseAxioms.java:396 | Reads exactly the requested number of bytes, or fails on a short stream. |
| ByteStreams.ByteInput.UnpackLong | bigdata-rdf/src/java/com/bigdata/rdf/axioms/BaseAxioms.java:387 | Reads what LongPacker unpacks from the remaining bytes, or fails when they end first. |
| ByteStreams.ByteOutput.WriteByte | bigdata-rdf/src/java/com/bigdata/rdf/axioms/BaseAxioms.java:423 | Appends one byte. |
| ByteStreams.ByteOutput.Write | bigdata-rdf/src/java/com/bigdata/rdf/axioms/BaseAxioms.java:473 | Appends the key bytes. |
| ByteStreams.ByteOutput.PackLong | bigdata-rdf/src/java/com/bigdata/rdf/axioms/BaseAxioms.java:471 | Appends the packed form of a non-negative value. |
| Axioms.BaseAxioms.IsAxiom | bigdata-rdf/src/java/com/bigdata/rdf/axioms/BaseAxioms.java:479-501 | With no index: IllegalStateException. A missing value: false. Otherwise: true exactly when the SPO key of the triple is in the index. |
| Axioms.BaseAxioms.Size | bigdata-rdf/src/java/com/bigdata/rdf/axioms/BaseAxioms.java:503-510 | With no index: IllegalStateException. Otherwise the count cast to `int`: the one value in the `int` range that agrees with the number of entries modulo 2^32, which is that number while it fits. |
| Axioms.LongToInt | bigdata-rdf/src/java/com/bigdata/rdf/axioms/BaseAxioms.java:508 | The `(int)` cast keeps the low 32 bits as a two's complement value, and is the identity on the `int` range. |
| Axioms.BaseAxioms.Axioms | bigdata-rdf/src/java/com/bigdata/rdf/axioms/BaseAxioms.java:513-531 | With no index: IllegalStateException. Otherwise one statement per entry, in strictly ascending key order, each with the type stored under its key. Its triples are exactly those `isAxiom` accepts. |
| AxiomIndex.StatementsEnumerate | bigdata-rdf/src/java/com/bigdata/rdf/axioms/BaseAxioms.java:518-529 | The resolved range iteration has one statement per entry, in strictly ascending key order, each with its stored type. |
| AxiomIndex.StatementsMembership | bigdata-rdf/src/java/com/bigdata/rdf/axioms/BaseAxioms.java:491-499 | A triple is an axiom of the index exactly when the range iteration yields it. |

## Left out

- The triple store (`db`), its value factory, and the store write path behind
  the statement buffer (`add`, `flush`, `super.writeSPOs`). These are
  external persistence. The batches the buffer writes on flushing are an
  input (`reported`), and forwarding a batch is recorded in `forwarded`.
  Whether `flush` throws is an input (`flushFails`), and its exception is
  abstracted as `StoreFailure`.
- Axioms.BaseAxioms.WriteAxioms: on a failing `flush` it does not state which
  batches reached the store before the failure, because that depends on the
  store's write path.
- `addAxioms` and the axiom catalogs of subclasses, which are not part of
  this model. The declared axioms are an input set, of which only the size
  matters here.
- The `IllegalArgumentException` null guards of `addAxioms` and
  `writeAxioms`: a Dafny collection cannot be null.
- The Java `assert` on the statement type of each declared axiom is not
  checked at run time; `WorkingSetAxioms` takes it as its hypothesis.
- B+Tree internals: `IndexMetadata`, UUIDs and `createTransient`. The index
  is an ordered map, and the branching factor is only recorded.
  `MIN_BRANCHING_FACTOR` is a constructor parameter (`minBranchingFactor`).
- The byte layouts of `SPOTupleSerializer`, `IVUtility.decodeAll`, `TermId`
  and `LongPacker`, which are not part of this model. They are function
  values, and `Codecs.Valid` states the inverse properties assumed of them.
  Exceptions thrown inside `decodeAll` are not modelled.
- The one-byte serialized form of `StatementEnum`: the index stores the enum
  value itself.
- `Arrays.sort` is modelled on values, as an insertion sort of the copied
  batch. The model keeps the copy, not the array, and does not state
  stability. The SPO comparator is taken to agree with the unsigned order of
  the SPO keys.
- The `long` that `writeSPOs` returns from `super.writeSPOs`.
- `writeVersion0` is unreachable, because the current version is fixed to 1.
  Its layout survives only as `EncodeLegacyEntries`, which produces legacy
  streams for `LegacyDecode`. The dead `VERSION0` and `default` branches of
  `writeExternal`'s switch are not modelled.
- The Striterator/Resolver wrapping in `axioms()`: the iterator is the
  sequence it yields.
- Stream failures other than reading past the end, and
  `ClassNotFoundException`.
- AxiomFormat.RoundTrip: holds only for indexes whose keys are at most 1024 bytes,
  because the reader refuses longer keys that the writer would write
  (`LongKeyNotReadBack`), and only for indexes of at most Integer.MAX_VALUE
  entries, because the reader refuses larger counts (BaseAxioms.java:380).
  It also needs every key to be the key of a triple, which every insert of
  the axiom set keeps.
- AxiomFormat.RoundTripQueries: holds only under the same two bounds as
  `RoundTrip`, for the same reasons.
