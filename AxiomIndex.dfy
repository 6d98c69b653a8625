/** The axiom index: an ordered map from SPO keys to a statement type, how it
    is filled, and what membership and size mean for it. */
module AxiomIndex {
  import opened ByteKeys
  import opened Errors
  import opened Collaborators

  /** The statement types (StatementEnum); the index stores one per key. */
  datatype StatementEnum = Explicit | Axiom | Inferred | History

  /** A resolved statement: three values and its statement type. */
  datatype SPO<IV> = SPO(s: IV, p: IV, o: IV, stmtType: StatementEnum)

  /** The B+Tree: SPO key bytes to the statement type stored under them. */
  type Tree = map<Bytes, StatementEnum>

  /** The SPO key of a statement, whatever the store's key arity: axiom
      membership ignores the context position. */
  function Key<IV(!new)>(c: Codecs<IV>, spo: SPO<IV>): Bytes {
    c.serializeKey(spo.s, spo.p, spo.o)
  }

  function Triple<IV>(spo: SPO<IV>): (IV, IV, IV) {
    (spo.s, spo.p, spo.o)
  }

  /** The distinct (s, p, o) triples among some statements. */
  ghost function TriplesOf<IV>(spos: seq<SPO<IV>>): set<(IV, IV, IV)> {
    set i | 0 <= i < |spos| :: Triple(spos[i])
  }

  /** The keys of some statements. */
  ghost function KeysOf<IV(!new)>(c: Codecs<IV>, spos: seq<SPO<IV>>): set<Bytes> {
    set i | 0 <= i < |spos| :: Key(c, spos[i])
  }

  /** `btree.insert(key, type)` for each statement in turn; a later insert
      under the same key replaces the earlier value. */
  function InsertSpos<IV(!new)>(c: Codecs<IV>, t: Tree, spos: seq<SPO<IV>>): Tree
    decreases |spos|
  {
    if spos == [] then t
    else InsertSpos(c, t[Key(c, spos[0]) := spos[0].stmtType], spos[1..])
  }

  /** Filling from a suffix of the statements, one insert at a time. */
  lemma InsertSposStep<IV(!new)>(c: Codecs<IV>, t: Tree, xs: seq<SPO<IV>>, k: nat)
    requires k < |xs|
    ensures InsertSpos(c, t, xs[k..]) == InsertSpos(c, t[Key(c, xs[k]) := xs[k].stmtType], xs[k + 1..])
  {
    assert xs[k..][1..] == xs[k + 1..];
  }

  /** Every value stored is the Axiom type. */
  ghost predicate AllAxiom(t: Tree) {
    forall k :: k in t ==> t[k] == Axiom
  }

  /** The membership answer of `isAxiom` on a built tree: a missing (null)
      value is never an axiom and needs no key; otherwise the triple is an
      axiom when its key is in the tree. */
  function IsAxiomIn<IV(!new)>(c: Codecs<IV>, t: Tree, s: Option<IV>, p: Option<IV>, o: Option<IV>): bool {
    if s.None? || p.None? || o.None? then false
    else c.serializeKey(s.value, p.value, o.value) in t
  }

  lemma {:induction false} InsertSposKeys<IV(!new)>(c: Codecs<IV>, t: Tree, spos: seq<SPO<IV>>)
    ensures InsertSpos(c, t, spos).Keys == t.Keys + KeysOf(c, spos)
    decreases |spos|
  {
    if spos != [] {
      InsertSposKeys(c, t[Key(c, spos[0]) := spos[0].stmtType], spos[1..]);
      assert KeysOf(c, spos) == {Key(c, spos[0])} + KeysOf(c, spos[1..]) by {
        forall k | k in KeysOf(c, spos) ensures k in {Key(c, spos[0])} + KeysOf(c, spos[1..]) {
          var i :| 0 <= i < |spos| && Key(c, spos[i]) == k;
          if i > 0 {
            assert Key(c, spos[1..][i - 1]) == k;
          }
        }
        forall k | k in KeysOf(c, spos[1..]) ensures k in KeysOf(c, spos) {
          var i :| 0 <= i < |spos[1..]| && Key(c, spos[1..][i]) == k;
          assert Key(c, spos[i + 1]) == k;
        }
      }
    }
  }

  lemma {:induction false} InsertSposAxiom<IV(!new)>(c: Codecs<IV>, t: Tree, spos: seq<SPO<IV>>)
    requires AllAxiom(t)
    requires forall i :: 0 <= i < |spos| ==> spos[i].stmtType == Axiom
    ensures AllAxiom(InsertSpos(c, t, spos))
    decreases |spos|
  {
    if spos != [] {
      InsertSposAxiom(c, t[Key(c, spos[0]) := spos[0].stmtType], spos[1..]);
    }
  }

  /** After the index is filled from statements, exactly their triples are
      axioms: every triple inserted answers true and every other triple,
      including one with a missing value, answers false. */
  lemma BuiltMembership<IV(!new)>(c: Codecs<IV>, spos: seq<SPO<IV>>, s: Option<IV>, p: Option<IV>, o: Option<IV>)
    requires c.Valid()
    ensures IsAxiomIn(c, InsertSpos(c, map[], spos), s, p, o)
            <==> s.Some? && p.Some? && o.Some? && (s.value, p.value, o.value) in TriplesOf(spos)
  {
    InsertSposKeys(c, map[], spos);
    if s.Some? && p.Some? && o.Some? {
      var k := c.serializeKey(s.value, p.value, o.value);
      if k in KeysOf(c, spos) {
        var i :| 0 <= i < |spos| && Key(c, spos[i]) == k;
        c.KeyInjective(s.value, p.value, o.value, spos[i].s, spos[i].p, spos[i].o);
        assert Triple(spos[i]) == (s.value, p.value, o.value);
      }
      if (s.value, p.value, o.value) in TriplesOf(spos) {
        var i :| 0 <= i < |spos| && Triple(spos[i]) == (s.value, p.value, o.value);
        assert Key(c, spos[i]) == k;
      }
    }
  }

  /** The key of a triple. */
  function TripleKey<IV(!new)>(c: Codecs<IV>, t: (IV, IV, IV)): Bytes {
    c.serializeKey(t.0, t.1, t.2)
  }

  /** Distinct triples have distinct keys, so a set of triples has as many
      keys as members. */
  lemma {:induction false} TripleKeysSize<IV(!new)>(c: Codecs<IV>, ts: set<(IV, IV, IV)>)
    requires c.Valid()
    ensures |set t | t in ts :: TripleKey(c, t)| == |ts|
    decreases |ts|
  {
    if ts != {} {
      var x :| x in ts;
      TripleKeysSize(c, ts - {x});
      assert (set t | t in ts :: TripleKey(c, t)) == (set t | t in ts - {x} :: TripleKey(c, t)) + {TripleKey(c, x)};
      forall y | y in ts - {x} ensures TripleKey(c, y) != TripleKey(c, x) {
        c.KeyInjective(x.0, x.1, x.2, y.0, y.1, y.2);
      }
    }
  }

  /** The index holds one entry per distinct triple among the statements it
      was filled from: duplicates collapse. */
  lemma BuiltSize<IV(!new)>(c: Codecs<IV>, spos: seq<SPO<IV>>)
    requires c.Valid()
    ensures |InsertSpos(c, map[], spos)| == |TriplesOf(spos)|
  {
    InsertSposKeys(c, map[], spos);
    TripleKeysSize(c, TriplesOf(spos));
    assert KeysOf(c, spos) == (set t | t in TriplesOf(spos) :: TripleKey(c, t)) by {
      forall k | k in KeysOf(c, spos) ensures k in (set t | t in TriplesOf(spos) :: TripleKey(c, t)) {
        var i :| 0 <= i < |spos| && Key(c, spos[i]) == k;
        assert Triple(spos[i]) in TriplesOf(spos);
      }
    }
    var t := InsertSpos(c, map[], spos);
    assert |t| == |t.Keys|;
  }

  /** A key that is the key of the three values it decodes to. */
  ghost predicate KeyOfTriple<IV(!new)>(c: Codecs<IV>, k: Bytes) {
    var ivs := c.decodeAll(k);
    |ivs| == 3 && c.serializeKey(ivs[0], ivs[1], ivs[2]) == k
  }

  /** Every key of the tree is the key of a triple: what every insert of the
      axiom set maintains. */
  ghost predicate WellKeyed<IV(!new)>(c: Codecs<IV>, t: Tree) {
    forall k :: k in t ==> KeyOfTriple(c, k)
  }

  lemma SerializedKeyOfTriple<IV(!new)>(c: Codecs<IV>, s: IV, p: IV, o: IV)
    requires c.Valid()
    ensures KeyOfTriple(c, c.serializeKey(s, p, o))
  {
    var ivs := c.decodeAll(c.serializeKey(s, p, o));
    assert ivs == [s, p, o];
    assert ivs[0] == s && ivs[1] == p && ivs[2] == o;
  }

  lemma {:induction false} InsertSposWellKeyed<IV(!new)>(c: Codecs<IV>, t: Tree, spos: seq<SPO<IV>>)
    requires c.Valid() && WellKeyed(c, t)
    ensures WellKeyed(c, InsertSpos(c, t, spos))
    decreases |spos|
  {
    if spos != [] {
      SerializedKeyOfTriple(c, spos[0].s, spos[0].p, spos[0].o);
      InsertSposWellKeyed(c, t[Key(c, spos[0]) := spos[0].stmtType], spos[1..]);
    }
  }

  /** The statement a tuple of the tree stands for: the three values its key
      decodes to, with the statement type stored under it. */
  function TupleStatement<IV(!new)>(c: Codecs<IV>, t: Tree, k: Bytes): SPO<IV>
    requires k in t && |c.decodeAll(k)| == 3
  {
    var ivs := c.decodeAll(k);
    SPO(ivs[0], ivs[1], ivs[2], t[k])
  }

  /** The statements of some tuples, in the order given. */
  function Resolve<IV(!new)>(c: Codecs<IV>, t: Tree, ks: seq<Bytes>): seq<SPO<IV>>
    requires forall i :: 0 <= i < |ks| ==> ks[i] in t && |c.decodeAll(ks[i])| == 3
  {
    seq(|ks|, i requires 0 <= i < |ks| => TupleStatement(c, t, ks[i]))
  }

  /** The statements of a tree in ascending key order: what its range
      iterator resolves to. */
  function Statements<IV(!new)>(c: Codecs<IV>, t: Tree): seq<SPO<IV>>
    requires WellKeyed(c, t)
  {
    var ks := SortedKeys(t.Keys);
    assert forall i :: 0 <= i < |ks| ==> ks[i] in t by {
      forall i | 0 <= i < |ks| ensures ks[i] in t {
        assert ks[i] in ks;
      }
    }
    Resolve(c, t, ks)
  }

  /** The statement resolved from each key has that key. */
  lemma StatementKeys<IV(!new)>(c: Codecs<IV>, t: Tree)
    requires WellKeyed(c, t)
    ensures var ks := SortedKeys(t.Keys);
            var r := Statements(c, t);
            |r| == |ks| && forall i :: 0 <= i < |r| ==> Key(c, r[i]) == ks[i]
  {
    var ks := SortedKeys(t.Keys);
    var r := Statements(c, t);
    forall i | 0 <= i < |r| ensures Key(c, r[i]) == ks[i] {
      assert ks[i] in ks;
      assert KeyOfTriple(c, ks[i]);
    }
  }

  /** Iterating a tree gives one statement per entry, in strictly ascending
      key order, each with the type stored under its key. */
  lemma StatementsEnumerate<IV(!new)>(c: Codecs<IV>, t: Tree)
    requires c.Valid() && WellKeyed(c, t)
    ensures var r := Statements(c, t);
            && |r| == |t|
            && (forall i, j :: 0 <= i < j < |r| ==> Below(Key(c, r[i]), Key(c, r[j])))
            && (forall i :: 0 <= i < |r| ==> Key(c, r[i]) in t && r[i].stmtType == t[Key(c, r[i])])
  {
    var ks := SortedKeys(t.Keys);
    var r := Statements(c, t);
    assert |t| == |t.Keys|;
    StatementKeys(c, t);
  }

  /** A triple is an axiom of the tree exactly when iterating the tree
      yields it. */
  lemma StatementsMembership<IV(!new)>(c: Codecs<IV>, t: Tree)
    requires c.Valid() && WellKeyed(c, t)
    ensures forall s, p, o :: IsAxiomIn(c, t, Some(s), Some(p), Some(o)) <==> (s, p, o) in TriplesOf(Statements(c, t))
  {
    var ks := SortedKeys(t.Keys);
    var r := Statements(c, t);
    StatementKeys(c, t);
    forall s, p, o | IsAxiomIn(c, t, Some(s), Some(p), Some(o))
      ensures (s, p, o) in TriplesOf(r)
    {
      var k := c.serializeKey(s, p, o);
      assert k in ks;
      var i :| 0 <= i < |ks| && ks[i] == k;
      assert c.decodeAll(k) == [s, p, o];
      assert Triple(r[i]) == (s, p, o);
    }
    forall s, p, o | (s, p, o) in TriplesOf(r)
      ensures IsAxiomIn(c, t, Some(s), Some(p), Some(o))
    {
      var i :| 0 <= i < |r| && Triple(r[i]) == (s, p, o);
      assert c.serializeKey(s, p, o) == Key(c, r[i]);
    }
  }

  /** Non-decreasing in key order: the order SPOKeyOrder.SPO's comparator
      gives, which agrees with the unsigned order of the SPO keys. */
  ghost predicate SortedBySpo<IV(!new)>(c: Codecs<IV>, xs: seq<SPO<IV>>) {
    forall i, j :: 0 <= i < j < |xs| ==> !Below(Key(c, xs[j]), Key(c, xs[i]))
  }

  /** No statement of `xs` sorts strictly before `y`. */
  ghost predicate NoneBelow<IV(!new)>(c: Codecs<IV>, xs: seq<SPO<IV>>, y: SPO<IV>) {
    forall j :: 0 <= j < |xs| ==> !Below(Key(c, xs[j]), Key(c, y))
  }

  lemma PrependSorted<IV(!new)>(c: Codecs<IV>, y: SPO<IV>, ys: seq<SPO<IV>>)
    requires SortedBySpo(c, ys) && NoneBelow(c, ys, y)
    ensures SortedBySpo(c, [y] + ys)
  {
    var r := [y] + ys;
    forall i, j | 0 <= i < j < |r| ensures !Below(Key(c, r[j]), Key(c, r[i])) {
      if i > 0 {
        assert r[i] == ys[i - 1] && r[j] == ys[j - 1];
      } else {
        assert r[j] == ys[j - 1];
      }
    }
  }

  /** A statement that does not sort after the head of a sorted sequence
      sorts after none of it. */
  lemma {:induction false} HeadNotBelow<IV(!new)>(c: Codecs<IV>, x: SPO<IV>, xs: seq<SPO<IV>>)
    requires SortedBySpo(c, xs) && xs != [] && !Below(Key(c, xs[0]), Key(c, x))
    ensures NoneBelow(c, xs, x)
  {
    forall j | 0 <= j < |xs| ensures !Below(Key(c, xs[j]), Key(c, x)) {
      if j > 0 && Below(Key(c, xs[j]), Key(c, x)) {
        assert !Below(Key(c, xs[j]), Key(c, xs[0]));
        BelowTotal(Key(c, xs[0]), Key(c, xs[j]));
        if Below(Key(c, xs[0]), Key(c, xs[j])) {
          BelowTransitive(Key(c, xs[0]), Key(c, xs[j]), Key(c, x));
        }
      }
    }
  }

  /** Inserting into the tail of a sorted sequence a statement that sorts
      after its head keeps every element from sorting before the head. */
  lemma {:induction false} TailNotBelow<IV(!new)>(c: Codecs<IV>, x: SPO<IV>, xs: seq<SPO<IV>>, tail: seq<SPO<IV>>)
    requires SortedBySpo(c, xs) && xs != [] && Below(Key(c, xs[0]), Key(c, x))
    requires multiset(tail) == multiset(xs[1..]) + multiset{x}
    ensures NoneBelow(c, tail, xs[0])
  {
    forall j | 0 <= j < |tail| ensures !Below(Key(c, tail[j]), Key(c, xs[0])) {
      assert tail[j] in multiset(tail);
      if tail[j] == x {
        BelowAsymmetric(Key(c, xs[0]), Key(c, x));
      } else {
        assert tail[j] in multiset(xs[1..]);
        var m :| 0 <= m < |xs[1..]| && xs[1..][m] == tail[j];
        assert xs[m + 1] == tail[j];
      }
    }
  }

  function InsertSorted<IV(!new)>(c: Codecs<IV>, x: SPO<IV>, xs: seq<SPO<IV>>): (r: seq<SPO<IV>>)
    requires SortedBySpo(c, xs)
    ensures multiset(r) == multiset(xs) + multiset{x}
    ensures SortedBySpo(c, r)
    decreases |xs|
  {
    if xs == [] then [x]
    else if !Below(Key(c, xs[0]), Key(c, x)) then
      HeadNotBelow(c, x, xs);
      PrependSorted(c, x, xs);
      [x] + xs
    else
      assert SortedBySpo(c, xs[1..]);
      var tail := InsertSorted(c, x, xs[1..]);
      TailNotBelow(c, x, xs, tail);
      PrependSorted(c, xs[0], tail);
      assert xs == [xs[0]] + xs[1..];
      [xs[0]] + tail
  }

  /** Arrays.sort with the SPO comparator: a sorted permutation. */
  function SortBySpo<IV(!new)>(c: Codecs<IV>, xs: seq<SPO<IV>>): (r: seq<SPO<IV>>)
    ensures multiset(r) == multiset(xs)
    ensures SortedBySpo(c, r)
    decreases |xs|
  {
    if xs == [] then []
    else
      assert xs == [xs[0]] + xs[1..];
      InsertSorted(c, xs[0], SortBySpo(c, xs[1..]))
  }

  /** What the capture hook holds after the statement buffer has written
      some batches: a sorted copy of the first one, if there was one. */
  function Captured<IV(!new)>(c: Codecs<IV>, batches: seq<seq<SPO<IV>>>): Option<seq<SPO<IV>>> {
    if batches == [] then None else Some(SortBySpo(c, batches[0]))
  }

  /** The hook captures at most once: a later batch leaves a captured working
      set as it was, and the first batch is captured sorted. */
  lemma CapturedOnce<IV(!new)>(c: Codecs<IV>, batches: seq<seq<SPO<IV>>>, b: seq<SPO<IV>>)
    ensures Captured(c, batches + [b]).Some?
    ensures batches != [] ==> Captured(c, batches + [b]) == Captured(c, batches)
    ensures batches == [] ==> Captured(c, batches + [b]) == Some(SortBySpo(c, b))
  {
    if batches != [] {
      assert (batches + [b])[0] == batches[0];
    }
  }

  /** The batch the working set comes from: none when no axiom was declared
      or the buffer wrote nothing, otherwise the first batch written. */
  function FirstBatch<IV>(naxioms: int, reported: seq<seq<SPO<IV>>>): seq<SPO<IV>> {
    if naxioms > 0 && reported != [] then reported[0] else []
  }

  /** The working set `writeAxioms` fills the index from, after the buffer
      wrote `reported`: nothing when no axiom was declared or nothing was
      captured, otherwise the captured batch. */
  function WorkingSet<IV(!new)>(c: Codecs<IV>, naxioms: int, reported: seq<seq<SPO<IV>>>): (ws: seq<SPO<IV>>)
    ensures multiset(ws) == multiset(FirstBatch(naxioms, reported))
    ensures SortedBySpo(c, ws)
  {
    if naxioms > 0 then
      match Captured(c, reported)
      case None => []
      case Some(stmts) => stmts
    else []
  }

  /** The index built from the working set has one entry per distinct triple
      of the first reported batch, and answers membership for exactly
      those triples. */
  lemma WorkingSetIndex<IV(!new)>(c: Codecs<IV>, naxioms: int, reported: seq<seq<SPO<IV>>>)
    requires c.Valid()
    ensures var t := InsertSpos(c, map[], WorkingSet(c, naxioms, reported));
            var first := FirstBatch(naxioms, reported);
            && |t| == |TriplesOf(first)|
            && (forall s, p, o :: IsAxiomIn(c, t, s, p, o) <==> s.Some? && p.Some? && o.Some? && (s.value, p.value, o.value) in TriplesOf(first))
  {
    var ws := WorkingSet(c, naxioms, reported);
    var first := FirstBatch(naxioms, reported);
    assert TriplesOf(ws) == TriplesOf(first) by {
      forall t | t in TriplesOf(ws) ensures t in TriplesOf(first) {
        var i :| 0 <= i < |ws| && Triple(ws[i]) == t;
        assert ws[i] in multiset(first);
        var j :| 0 <= j < |first| && first[j] == ws[i];
      }
      forall t | t in TriplesOf(first) ensures t in TriplesOf(ws) {
        var i :| 0 <= i < |first| && Triple(first[i]) == t;
        assert first[i] in multiset(ws);
        var j :| 0 <= j < |ws| && ws[j] == first[i];
      }
    }
    BuiltSize(c, ws);
    forall s, p, o
      ensures IsAxiomIn(c, InsertSpos(c, map[], ws), s, p, o) <==> s.Some? && p.Some? && o.Some? && (s.value, p.value, o.value) in TriplesOf(first)
    {
      BuiltMembership(c, ws, s, p, o);
    }
  }

  /** When every statement of the first batch has the Axiom type, as each
      declared axiom does, every entry of the index filled from the working
      set has the Axiom type. */
  lemma WorkingSetAxioms<IV(!new)>(c: Codecs<IV>, naxioms: int, reported: seq<seq<SPO<IV>>>)
    requires forall i :: 0 <= i < |FirstBatch(naxioms, reported)| ==> FirstBatch(naxioms, reported)[i].stmtType == Axiom
    ensures AllAxiom(InsertSpos(c, map[], WorkingSet(c, naxioms, reported)))
  {
    var ws := WorkingSet(c, naxioms, reported);
    var first := FirstBatch(naxioms, reported);
    forall i | 0 <= i < |ws| ensures ws[i].stmtType == Axiom {
      assert ws[i] in multiset(first);
      var j :| 0 <= j < |first| && first[j] == ws[i];
    }
    InsertSposAxiom(c, map[], ws);
  }
}
