/** The axiom set of a triple store: built once, either from the axioms
    declared for the store or from its serialized form, and then queried. */
module Axioms {
  import opened ByteKeys
  import opened Errors
  import opened Collaborators
  import opened ByteStreams
  import opened AxiomIndex
  import opened AxiomFormat

  /** Regrouping appended bytes, for the output the writers build up. */
  lemma AppendAssoc(a: Bytes, b: Bytes, c: Bytes)
    ensures (a + b) + c == a + (b + c)
  {
  }

  function Max(a: int, b: int): (m: int)
    ensures m >= a && m >= b && (m == a || m == b)
  {
    if a >= b then a else b
  }

  /** Java's `(int)` cast of a `long`: the low 32 bits, as a two's
      complement value. */
  function LongToInt(x: int): (r: int)
    ensures -0x8000_0000 <= r <= MaxInt
    ensures (x - r) % 0x1_0000_0000 == 0
    ensures -0x8000_0000 <= x <= MaxInt ==> r == x
  {
    var m := x % 0x1_0000_0000;
    if m > MaxInt then m - 0x1_0000_0000 else m
  }

  /** The StatementBuffer that `writeAxioms` writes the axioms through. The
      first batch it writes is copied and sorted into SPO key order, and
      kept; every batch, that one included, goes on to the database. */
  class MyStatementBuffer<IV(!new)> {
    const codec: Codecs<IV>
    const capacity: int
    /** The captured working set; `None` until the first batch. */
    var stmts: Option<seq<SPO<IV>>>
    /** The batches passed on to the database, in order. */
    var forwarded: seq<seq<SPO<IV>>>

    constructor (codec: Codecs<IV>, capacity: int)
      ensures this.codec == codec && this.capacity == capacity
      ensures stmts == None && forwarded == []
    {
      this.codec := codec;
      this.capacity := capacity;
      stmts := None;
      forwarded := [];
    }

    /** The first `numStmts` statements of `batch` are one batch. */
    method WriteSPOs(batch: array<SPO<IV>>, numStmts: int)
      requires 0 <= numStmts <= batch.Length
      modifies this
      ensures stmts == if old(stmts).None? then Some(SortBySpo(codec, batch[..numStmts])) else old(stmts)
      ensures forwarded == old(forwarded) + [batch[..numStmts]]
    {
      if stmts.None? {
        var copy := batch[..numStmts];
        stmts := Some(SortBySpo(codec, copy));
      }
      forwarded := forwarded + [batch[..numStmts]];
    }
  }

  /** The axioms of one triple store, held in an ordered index from SPO keys
      to statement types. */
  class BaseAxioms<IV(!new)> {
    const codec: Codecs<IV>
    /** Whether the object belongs to a triple store (`db != null`); one made
        for deserialization has none. */
    const hasDb: bool
    /** The smallest branching factor an index may have. */
    const minBranchingFactor: int
    /** The index; `None` until it is built. */
    var btree: Option<Tree>
    /** The branching factor the index was created with. */
    var branchingFactor: int

    /** The collaborators behave, and every key of the index is the key of
        a triple. */
    ghost predicate Valid()
      reads this
    {
      codec.Valid() && (btree.Some? ==> WellKeyed(codec, btree.value))
    }

    /** The object a triple store makes for its axioms. */
    constructor ForStore(codec: Codecs<IV>, minBranchingFactor: int)
      requires codec.Valid()
      ensures Valid() && this.codec == codec && this.minBranchingFactor == minBranchingFactor
      ensures hasDb && btree == None
    {
      this.codec := codec;
      this.hasDb := true;
      this.minBranchingFactor := minBranchingFactor;
      btree := None;
      branchingFactor := 0;
    }

    /** The object deserialization makes, with no triple store. */
    constructor ForDeserialization(codec: Codecs<IV>, minBranchingFactor: int)
      requires codec.Valid()
      ensures Valid() && this.codec == codec && this.minBranchingFactor == minBranchingFactor
      ensures !hasDb && btree == None
    {
      this.codec := codec;
      this.hasDb := false;
      this.minBranchingFactor := minBranchingFactor;
      btree := None;
      branchingFactor := 0;
    }

    /** Creates the empty index, sized so that `naxioms` entries fill one
        leaf; an index is created at most once. */
    method CreateBTree(naxioms: int) returns (r: Outcome)
      requires Valid()
      modifies this
      ensures Valid()
      ensures old(btree).Some? ==> r == Fail(IllegalState) && btree == old(btree) && branchingFactor == old(branchingFactor)
      ensures old(btree).None? ==> r == Pass && btree == Some(map[]) && branchingFactor == Max(minBranchingFactor, naxioms)
    {
      if btree.Some? {
        return Fail(IllegalState);
      }
      branchingFactor := Max(minBranchingFactor, naxioms);
      btree := Some(map[]);
      r := Pass;
    }

    /** Builds the axiom set of the store: `declared` is what `addAxioms`
        collects, `reported` the batches the statement buffer writes when
        it is flushed, and `flushFails` whether writing them on the store
        throws. Refused without a store. */
    method Init<Stmt(==)>(declared: set<Stmt>, reported: seq<seq<SPO<IV>>>, flushFails: bool) returns (r: Outcome, written: seq<seq<SPO<IV>>>)
      requires Valid()
      modifies this
      ensures Valid()
      ensures !hasDb ==> r == Fail(IllegalState) && written == [] && btree == old(btree) && branchingFactor == old(branchingFactor)
      ensures hasDb && |declared| > 0 && flushFails ==>
                r == Fail(StoreFailure) && btree == old(btree) && branchingFactor == old(branchingFactor)
      ensures hasDb && !(|declared| > 0 && flushFails) ==> written == (if |declared| > 0 then reported else [])
      ensures hasDb && !(|declared| > 0 && flushFails) && old(btree).Some? ==>
                r == Fail(IllegalState) && btree == old(btree) && branchingFactor == old(branchingFactor)
      ensures hasDb && !(|declared| > 0 && flushFails) && old(btree).None? ==>
                && r == Pass
                && btree == Some(InsertSpos(codec, map[], WorkingSet(codec, |declared|, reported)))
                && branchingFactor == Max(minBranchingFactor, |declared|)
    {
      if !hasDb {
        return Fail(IllegalState), [];
      }
      r, written := WriteAxioms(declared, reported, flushFails);
    }

    /** Writes the axioms on the store through a capturing statement buffer,
        then fills a new index from the captured working set. The statements
        reach the store even when the index already exists; when writing
        them throws, no index is created. */
    method WriteAxioms<Stmt(==)>(declared: set<Stmt>, reported: seq<seq<SPO<IV>>>, flushFails: bool) returns (r: Outcome, written: seq<seq<SPO<IV>>>)
      requires Valid()
      modifies this
      ensures Valid()
      ensures !hasDb ==> r == Fail(IllegalState) && written == [] && btree == old(btree) && branchingFactor == old(branchingFactor)
      ensures hasDb && |declared| > 0 && flushFails ==>
                r == Fail(StoreFailure) && btree == old(btree) && branchingFactor == old(branchingFactor)
      ensures hasDb && !(|declared| > 0 && flushFails) ==> written == (if |declared| > 0 then reported else [])
      ensures hasDb && !(|declared| > 0 && flushFails) && old(btree).Some? ==>
                r == Fail(IllegalState) && btree == old(btree) && branchingFactor == old(branchingFactor)
      ensures hasDb && !(|declared| > 0 && flushFails) && old(btree).None? ==>
                && r == Pass
                && btree == Some(InsertSpos(codec, map[], WorkingSet(codec, |declared|, reported)))
                && branchingFactor == Max(minBranchingFactor, |declared|)
                && |btree.value| == |TriplesOf(FirstBatch(|declared|, reported))|
                && (forall s, p, o :: IsAxiomIn(codec, btree.value, s, p, o)
                      <==> s.Some? && p.Some? && o.Some? && (s.value, p.value, o.value) in TriplesOf(FirstBatch(|declared|, reported)))
    {
      if !hasDb {
        return Fail(IllegalState), [];
      }
      var naxioms := |declared|;
      var stmts;
      stmts, written := WriteThroughBuffer(naxioms, reported);
      if naxioms > 0 && flushFails {
        return Fail(StoreFailure), written;
      }
      r := CreateBTree(naxioms);
      if r.Fail? {
        return;
      }
      var xs := if stmts.Some? then stmts.value else [];
      assert xs == WorkingSet(codec, naxioms, reported);
      InsertAll(xs);
      WorkingSetIndex(codec, naxioms, reported);
    }

    /** Writes the reported batches through a new capturing buffer, when any
        axiom was declared: the working set it captured and the batches that
        went on to the store. */
    method WriteThroughBuffer(naxioms: int, reported: seq<seq<SPO<IV>>>) returns (stmts: Option<seq<SPO<IV>>>, written: seq<seq<SPO<IV>>>)
      ensures naxioms > 0 ==> stmts == Captured(codec, reported) && written == reported
      ensures naxioms <= 0 ==> stmts == None && written == []
    {
      stmts := None;
      written := [];
      if naxioms > 0 {
        var buffer := new MyStatementBuffer(codec, Max(1, naxioms));
        var i := 0;
        while i < |reported|
          invariant 0 <= i <= |reported|
          invariant buffer.codec == codec
          invariant buffer.stmts == Captured(codec, reported[..i])
          invariant buffer.forwarded == reported[..i]
        {
          var b := reported[i];
          var batch := new SPO<IV>[|b|](j requires 0 <= j < |b| => b[j]);
          assert batch[..|b|] == b;
          CapturedOnce(codec, reported[..i], b);
          assert reported[..i + 1] == reported[..i] + [b];
          buffer.WriteSPOs(batch, |b|);
          i := i + 1;
        }
        assert reported[..i] == reported;
        stmts := buffer.stmts;
        written := buffer.forwarded;
      }
    }

    /** Inserts each statement's key and type into the index, in order. */
    method InsertAll(xs: seq<SPO<IV>>)
      requires Valid() && btree.Some?
      modifies this
      ensures Valid() && branchingFactor == old(branchingFactor)
      ensures btree == Some(InsertSpos(codec, old(btree.value), xs))
    {
      ghost var t0 := btree.value;
      var k := 0;
      while k < |xs|
        invariant 0 <= k <= |xs|
        invariant btree.Some? && WellKeyed(codec, btree.value)
        invariant InsertSpos(codec, btree.value, xs[k..]) == InsertSpos(codec, t0, xs)
        invariant branchingFactor == old(branchingFactor)
      {
        var spo := xs[k];
        InsertSposStep(codec, btree.value, xs, k);
        SerializedKeyOfTriple(codec, spo.s, spo.p, spo.o);
        btree := Some(btree.value[Key(codec, spo) := spo.stmtType]);
        k := k + 1;
      }
      assert xs[k..] == [];
    }

    /** Reads the serialized form: the version byte, then that version. */
    method ReadExternal(input: ByteInput) returns (r: Outcome)
      requires Valid() && input.Valid()
      modifies this, input
      ensures Valid() && input.Valid()
      ensures var d := ReadExternalSpec(codec, old(btree), old(input.Rest()));
              btree == d.tree && r == d.outcome && input.Rest() == d.rest
      ensures btree == old(btree) ==> branchingFactor == old(branchingFactor)
      ensures old(btree).None? && btree.Some? ==>
                |old(input.Rest())| > 0 && UnpackFrom(codec, old(input.Rest())[1..]).Got? &&
                branchingFactor == Max(minBranchingFactor, UnpackFrom(codec, old(input.Rest())[1..]).value)
    {
      ghost var s := input.Rest();
      var version := input.ReadByte();
      if version.None? {
        return Fail(IOError);
      }
      if version.value == Version0 {
        ReadExternalDispatch(codec, btree, s);
        r := ReadVersion0(input);
      } else if version.value == Version1 {
        ReadExternalDispatch(codec, btree, s);
        r := ReadVersion1(input);
      } else {
        r := Fail(UnsupportedVersion(version.value));
      }
    }

    /** Reads version 0: the packed count, then three `long` term
        identifiers per axiom. */
    method ReadVersion0(input: ByteInput) returns (r: Outcome)
      requires Valid() && input.Valid()
      modifies this, input
      ensures Valid() && input.Valid()
      ensures var d := ReadVersionSpec(codec, Version0, old(btree), old(input.Rest()));
              btree == d.tree && r == d.outcome && input.Rest() == d.rest
      ensures btree == old(btree) ==> branchingFactor == old(branchingFactor)
      ensures old(btree).None? && btree.Some? ==>
                UnpackFrom(codec, old(input.Rest())).Got? &&
                branchingFactor == Max(minBranchingFactor, UnpackFrom(codec, old(input.Rest())).value)
    {
      ghost var s := input.Rest();
      var count := input.UnpackLong(codec);
      if count.None? {
        return Fail(IOError);
      }
      var naxioms := count.value;
      if naxioms < 0 || naxioms > MaxInt {
        return Fail(IOError);
      }
      r := CreateBTree(naxioms);
      if r.Fail? {
        return;
      }
      ghost var start := input.Rest();
      ReadVersionCount(codec, Version0, s, naxioms, start);
      var ok := ReadEntries0(input, naxioms);
      r := if ok then Pass else Fail(IOError);
    }

    /** The entry loop of `readVersion0`: `n` entries into the index, which
        keeps what was inserted before an entry fails. */
    method ReadEntries0(input: ByteInput, n: nat) returns (ok: bool)
      requires Valid() && input.Valid() && btree.Some?
      modifies this, input
      ensures Valid() && input.Valid()
      ensures var l := ReadEntriesV0(codec, old(input.Rest()), n, old(btree.value));
              btree == Some(l.tree) && ok == l.ok && input.Rest() == l.rest
      ensures branchingFactor == old(branchingFactor)
    {
      ghost var start := input.Rest();
      ghost var t0 := btree.value;
      var i := 0;
      while i < n
        invariant 0 <= i <= n
        invariant input.Valid() && btree.Some? && WellKeyed(codec, btree.value)
        invariant ReadEntriesV0(codec, input.Rest(), n - i, btree.value) == ReadEntriesV0(codec, start, n, t0)
        invariant branchingFactor == old(branchingFactor)
      {
        ghost var entry := input.Rest();
        var key := ReadEntry0(input);
        if key.None? {
          ReadEntriesV0Stops(codec, entry, n - i, btree.value);
          return false;
        }
        ReadEntriesV0Step(codec, entry, n - i, btree.value, key.value, input.Rest());
        EntryKeyV0(codec, entry);
        btree := Some(btree.value[key.value := Axiom]);
        i := i + 1;
      }
      ok := true;
    }

    /** One version-0 entry: three `long`s, taken as URI term identifiers,
        and the key of that axiom. */
    method ReadEntry0(input: ByteInput) returns (key: Option<Bytes>)
      requires input.Valid()
      modifies input
      ensures input.Valid() && Delivers(ReadEntryV0(codec, old(input.Rest())), key, input.Rest())
    {
      ghost var s := input.Rest();
      var sv := input.ReadLong();
      if sv.None? {
        return None;
      }
      ghost var s1 := input.Rest();
      var pv := input.ReadLong();
      if pv.None? {
        return None;
      }
      ghost var s2 := input.Rest();
      var ov := input.ReadLong();
      if ov.None? {
        return None;
      }
      var spo := SPO(codec.termId(sv.value), codec.termId(pv.value), codec.termId(ov.value), Axiom);
      ReadEntryV0Of(codec, s, sv.value, s1, pv.value, s2, ov.value, input.Rest());
      key := Some(Key(codec, spo));
    }

    /** Reads version 1: the packed count, then one length-prefixed key per
        axiom. */
    method ReadVersion1(input: ByteInput) returns (r: Outcome)
      requires Valid() && input.Valid()
      modifies this, input
      ensures Valid() && input.Valid()
      ensures var d := ReadVersionSpec(codec, Version1, old(btree), old(input.Rest()));
              btree == d.tree && r == d.outcome && input.Rest() == d.rest
      ensures btree == old(btree) ==> branchingFactor == old(branchingFactor)
      ensures old(btree).None? && btree.Some? ==>
                UnpackFrom(codec, old(input.Rest())).Got? &&
                branchingFactor == Max(minBranchingFactor, UnpackFrom(codec, old(input.Rest())).value)
    {
      ghost var s := input.Rest();
      var count := input.UnpackLong(codec);
      if count.None? {
        return Fail(IOError);
      }
      var naxioms := count.value;
      if naxioms < 0 || naxioms > MaxInt {
        return Fail(IOError);
      }
      r := CreateBTree(naxioms);
      if r.Fail? {
        return;
      }
      ghost var start := input.Rest();
      ReadVersionCount(codec, Version1, s, naxioms, start);
      var ok := ReadEntries1(input, naxioms);
      r := if ok then Pass else Fail(IOError);
    }

    /** The entry loop of `readVersion1`: `n` entries into the index, which
        keeps what was inserted before an entry fails. */
    method ReadEntries1(input: ByteInput, n: nat) returns (ok: bool)
      requires Valid() && input.Valid() && btree.Some?
      modifies this, input
      ensures Valid() && input.Valid()
      ensures var l := ReadEntriesV1(codec, old(input.Rest()), n, old(btree.value));
              btree == Some(l.tree) && ok == l.ok && input.Rest() == l.rest
      ensures branchingFactor == old(branchingFactor)
    {
      ghost var start := input.Rest();
      ghost var t0 := btree.value;
      var i := 0;
      while i < n
        invariant 0 <= i <= n
        invariant input.Valid() && btree.Some? && WellKeyed(codec, btree.value)
        invariant ReadEntriesV1(codec, input.Rest(), n - i, btree.value) == ReadEntriesV1(codec, start, n, t0)
        invariant branchingFactor == old(branchingFactor)
      {
        ghost var entry := input.Rest();
        var key := ReadEntry1(input);
        if key.None? {
          ReadEntriesV1Stops(codec, entry, n - i, btree.value);
          return false;
        }
        ReadEntriesV1Step(codec, entry, n - i, btree.value, key.value, input.Rest());
        EntryKeyV1(codec, entry);
        btree := Some(btree.value[key.value := Axiom]);
        i := i + 1;
      }
      ok := true;
    }

    /** One version-1 entry: the packed key length, refused outside 0..1024;
        the key bytes; refused unless they decode to three values; and the
        key of that axiom. */
    method ReadEntry1(input: ByteInput) returns (key: Option<Bytes>)
      requires input.Valid()
      modifies input
      ensures input.Valid()
      ensures match ReadEntryV1(codec, old(input.Rest()))
              case Entry(k, rest) => key == Some(k) && input.Rest() == rest
              case Rejected(rest) => key == None && input.Rest() == rest
    {
      var n := input.UnpackLong(codec);
      if n.None? {
        return None;
      }
      if n.value < 0 || n.value > MaxKeyLength {
        return None;
      }
      var bytes := input.ReadFully(n.value);
      if bytes.None? {
        return None;
      }
      var ivs := codec.decodeAll(bytes.value);
      if |ivs| != 3 {
        return None;
      }
      var spo := SPO(ivs[0], ivs[1], ivs[2], Axiom);
      key := Some(Key(codec, spo));
    }

    /** Writes the serialized form: refused before the index is built;
        otherwise the current version byte and that version. */
    method WriteExternal(out: ByteOutput) returns (r: Outcome)
      modifies out
      ensures btree.None? ==> r == Fail(IllegalState) && out.written == old(out.written)
      ensures btree.Some? ==> r == Pass && out.written == old(out.written) + WriteExternalSpec(codec, btree.value)
    {
      if btree.None? {
        return Fail(IllegalState);
      }
      ghost var w := out.written;
      out.WriteByte(CurrentVersion);
      WriteVersion1(out);
      var t := btree.value;
      WrittenForm(codec, t);
      AppendAssoc(w, [CurrentVersion], codec.pack(|t|) + EncodeEntries(codec, SortedKeys(t.Keys)));
      r := Pass;
    }

    /** Writes version 1: the packed entry count, then each key in key order
        as its packed length and its bytes. */
    method WriteVersion1(out: ByteOutput)
      requires btree.Some?
      modifies out
      ensures out.written == old(out.written) + (codec.pack(|btree.value|) + EncodeEntries(codec, SortedKeys(btree.value.Keys)))
    {
      var t := btree.value;
      out.PackLong(codec, |t|);
      var itr := SortedKeys(t.Keys);
      ghost var whole := old(out.written) + (codec.pack(|t|) + EncodeEntries(codec, itr));
      AppendAssoc(old(out.written), codec.pack(|t|), EncodeEntries(codec, itr));
      var i := 0;
      while i < |itr|
        invariant 0 <= i <= |itr|
        invariant out.written + EncodeEntries(codec, itr[i..]) == whole
      {
        var key := itr[i];
        ghost var w := out.written;
        EncodeEntriesStep(codec, itr, i);
        out.PackLong(codec, |key|);
        out.Write(key);
        AppendAssoc(w, codec.pack(|key|), key);
        AppendAssoc(w, codec.pack(|key|) + key, EncodeEntries(codec, itr[i + 1..]));
        i := i + 1;
      }
      assert itr[i..] == [];
    }

    /** Whether a triple is an axiom: refused before the index is built; a
        missing value is never one; otherwise, whether the triple's key is
        in the index. */
    function IsAxiom(s: Option<IV>, p: Option<IV>, o: Option<IV>): (r: Result<bool>)
      reads this
      ensures r.Failure? <==> btree.None?
      ensures r.Failure? ==> r.error == IllegalState
      ensures r.Success? ==> (r.value <==> s.Some? && p.Some? && o.Some? && codec.serializeKey(s.value, p.value, o.value) in btree.value)
    {
      if btree.None? then Failure(IllegalState) else Success(IsAxiomIn(codec, btree.value, s, p, o))
    }

    /** The number of axioms, cast to an int: refused before the index is
        built; exact while it fits an int. */
    function Size(): (r: Result<int>)
      reads this
      ensures r.Failure? <==> btree.None?
      ensures r.Failure? ==> r.error == IllegalState
      ensures r.Success? ==> -0x8000_0000 <= r.value <= MaxInt && (|btree.value| - r.value) % 0x1_0000_0000 == 0
      ensures r.Success? && |btree.value| <= MaxInt ==> r.value == |btree.value|
    {
      if btree.None? then Failure(IllegalState) else Success(LongToInt(|btree.value|))
    }

    /** The axioms in key order: refused before the index is built; one
        statement per entry, in strictly ascending key order, each with its
        stored type, and exactly the triples `isAxiom` accepts. */
    function Axioms(): (r: Result<seq<SPO<IV>>>)
      reads this
      requires Valid()
      ensures r.Failure? <==> btree.None?
      ensures r.Failure? ==> r.error == IllegalState
      ensures r.Success? ==>
                && |r.value| == |btree.value|
                && (forall i, j :: 0 <= i < j < |r.value| ==> Below(Key(codec, r.value[i]), Key(codec, r.value[j])))
                && (forall i :: 0 <= i < |r.value| ==>
                      Key(codec, r.value[i]) in btree.value && r.value[i].stmtType == btree.value[Key(codec, r.value[i])])
                && (forall s, p, o :: IsAxiom(Some(s), Some(p), Some(o)) == Success((s, p, o) in TriplesOf(r.value)))
    {
      if btree.None? then Failure(IllegalState)
      else
        StatementsEnumerate(codec, btree.value);
        StatementsMembership(codec, btree.value);
        Success(Statements(codec, btree.value))
    }
  }
}
