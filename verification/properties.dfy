/** Properties of saving and loading, proved about the functions of module
    `Snapshot` that the methods of `Persistence.SavingLoading` implement.

    The central result is `RoundTrip`: loading the image of a table into an
    empty table yields an isomorphic table, related to the saved one by a
    renumbering of handles, with every index and every registered repository
    carried over through the same renumbering. */
module Properties {
  import opened Outcomes
  import opened Atoms
  import opened Codec
  import opened HandleMaps
  import opened Snapshot

  // ---------------------------------------------------------------------
  // The first pass

  /** The saved handles of `recs` are pairwise distinct and none of them is
      mapped yet. */
  ghost predicate FreshHandles(recs: seq<Record>, m: map<Handle, Handle>) {
    && (forall i, j :: 0 <= i < j < |recs| ==> recs[i].handle != recs[j].handle)
    && (forall j :: 0 <= j < |recs| ==> recs[j].handle !in m)
  }

  /** `a` is what reading `recs` into the arena `atoms` with map `m` must
      give: each record's atom appended, at the next position, and its saved
      handle mapped to that position; earlier entries kept, no other entry. */
  ghost predicate Allocated(a: Arena, atoms: seq<Atom>, m: map<Handle, Handle>, recs: seq<Record>) {
    && |a.atoms| == |atoms| + |recs|
    && a.atoms[..|atoms|] == atoms
    && (forall j :: 0 <= j < |recs| ==> a.atoms[|atoms| + j] == recs[j].atom)
    && (forall k :: k in m ==> k in a.handles && a.handles[k] == m[k])
    && (forall j :: 0 <= j < |recs| ==> recs[j].handle in a.handles && a.handles[recs[j].handle] == |atoms| + j)
    && a.handles.Keys == m.Keys + HandlesOf(recs)
  }

  /** The saved handles of a run of records. */
  function HandlesOf(recs: seq<Record>): set<Handle> {
    set j | 0 <= j < |recs| :: recs[j].handle
  }

  lemma HandlesOfCons(x: Record, tail: seq<Record>)
    ensures HandlesOf([x] + tail) == {x.handle} + HandlesOf(tail)
  {
    var recs := [x] + tail;
    assert recs[0] == x;
    forall k | k in HandlesOf(tail) ensures k in HandlesOf(recs) {
      var j :| 0 <= j < |tail| && tail[j].handle == k;
      assert recs[j + 1] == tail[j];
    }
    forall k | k in HandlesOf(recs) ensures k in {x.handle} + HandlesOf(tail) {
      var j :| 0 <= j < |recs| && recs[j].handle == k;
      if j > 0 {
        assert recs[j] == tail[j - 1];
      }
    }
  }

  lemma FreshCons(x: Record, tail: seq<Record>, m: map<Handle, Handle>, c: Handle)
    ensures FreshHandles([x] + tail, m) <==> x.handle !in m && FreshHandles(tail, m[x.handle := c])
  {
    var recs := [x] + tail;
    var m' := m[x.handle := c];
    assert recs[0] == x;
    assert forall j :: 1 <= j < |recs| ==> recs[j] == tail[j - 1];
    if FreshHandles(recs, m) {
      forall j | 0 <= j < |tail| ensures tail[j].handle !in m' {
        assert recs[0].handle != recs[j + 1].handle;
      }
      forall i, j | 0 <= i < j < |tail| ensures tail[i].handle != tail[j].handle {
        assert recs[i + 1].handle != recs[j + 1].handle;
      }
    }
    if x.handle !in m && FreshHandles(tail, m') {
      forall i, j | 0 <= i < j < |recs| ensures recs[i].handle != recs[j].handle {
        if i > 0 {
          assert recs[i].handle == tail[i - 1].handle;
        } else {
          assert tail[j - 1].handle !in m';
        }
      }
    }
  }

  lemma AllocatedCons(a: Arena, atoms: seq<Atom>, m: map<Handle, Handle>, x: Record, tail: seq<Record>)
    requires x.handle !in m
    requires Allocated(a, atoms + [x.atom], m[x.handle := |atoms|], tail)
    ensures Allocated(a, atoms, m, [x] + tail)
  {
    assert |atoms + [x.atom]| == |atoms| + 1;
    ArenaAtomsCons(a.atoms, atoms, x, tail);
    ArenaHandlesCons(a.handles, |atoms|, m, x, tail);
  }

  /** The arena's atoms, seen from one record earlier. */
  lemma ArenaAtomsCons(s: seq<Atom>, atoms: seq<Atom>, x: Record, tail: seq<Record>)
    requires |s| == |atoms| + 1 + |tail|
    requires s[..|atoms| + 1] == atoms + [x.atom]
    requires forall j :: 0 <= j < |tail| ==> s[|atoms| + 1 + j] == tail[j].atom
    ensures s[..|atoms|] == atoms
    ensures forall j :: 0 <= j < |[x] + tail| ==> s[|atoms| + j] == ([x] + tail)[j].atom
  {
    var recs := [x] + tail;
    assert s[..|atoms|] == s[..|atoms| + 1][..|atoms|];
    assert s[|atoms|] == s[..|atoms| + 1][|atoms|];
    forall j | 0 <= j < |recs| ensures s[|atoms| + j] == recs[j].atom {
      if j > 0 {
        assert recs[j] == tail[j - 1];
        assert s[|atoms| + 1 + (j - 1)] == tail[j - 1].atom;
      }
    }
  }

  /** The arena's handle map, seen from one record earlier. */
  lemma ArenaHandlesCons(h: map<Handle, Handle>, n: nat, m: map<Handle, Handle>, x: Record, tail: seq<Record>)
    requires x.handle !in m
    requires forall k :: k in m[x.handle := n] ==> k in h && h[k] == m[x.handle := n][k]
    requires forall j :: 0 <= j < |tail| ==> tail[j].handle in h && h[tail[j].handle] == n + 1 + j
    requires h.Keys == m[x.handle := n].Keys + HandlesOf(tail)
    ensures forall k :: k in m ==> k in h && h[k] == m[k]
    ensures forall j :: 0 <= j < |[x] + tail| ==> ([x] + tail)[j].handle in h && h[([x] + tail)[j].handle] == n + j
    ensures h.Keys == m.Keys + HandlesOf([x] + tail)
  {
    var recs := [x] + tail;
    var m' := m[x.handle := n];
    forall k | k in m ensures k in h && h[k] == m[k] {
      assert k in m' && m'[k] == m[k];
    }
    forall j | 0 <= j < |recs| ensures recs[j].handle in h && h[recs[j].handle] == n + j {
      if j == 0 {
        assert recs[0] == x && x.handle in m';
      } else {
        assert recs[j] == tail[j - 1];
        assert h[tail[j - 1].handle] == n + 1 + (j - 1);
      }
    }
    HandlesOfCons(x, tail);
  }

  /** The records that can be read, one after the other, before the first
      that cannot, stopping after `n`. */
  function ReadBefore(ts: seq<Token>, n: nat, read: seq<Token> -> Option<Decoded<Record>>): seq<Record>
    decreases n
  {
    if n == 0 then []
    else
      match read(ts)
      case None => []
      case Some(x) => [x.value] + ReadBefore(x.rest, n - 1, read)
  }

  /** The records of a section that can be read before the first that
      cannot: none when the count itself cannot be read. */
  function SectionBefore(ts: seq<Token>, links: bool): seq<Record> {
    match ReadNat(ts)
    case None => []
    case Some(count) => ReadBefore(count.rest, count.value, ReadRecord(links))
  }

  /** What `AllocateFacts` states about the arena `r` left after reading
      `recs` into `atoms` with map `m`, the fields `rest` remaining. */
  ghost predicate AllocateOutcome(r: Result<Arena>, atoms: seq<Atom>, m: map<Handle, Handle>, recs: seq<Record>, rest: seq<Token>) {
    && (r.Ok? <==> FreshHandles(recs, m))
    && (r.Ok? ==> Allocated(r.value, atoms, m, recs) && r.value.rest == rest)
    && (r.Fail? ==> r.kind == IO || r.kind == Inconsistency)
    && (!FreshHandles(recs, m) ==> r == Fail(Inconsistency))
  }

  lemma AllocateOutcomeCons(r: Result<Arena>, atoms: seq<Atom>, m: map<Handle, Handle>, x: Record, tail: seq<Record>, rest: seq<Token>)
    requires x.handle !in m
    requires AllocateOutcome(r, atoms + [x.atom], m[x.handle := |atoms|], tail, rest)
    ensures AllocateOutcome(r, atoms, m, [x] + tail, rest)
  {
    FreshCons(x, tail, m, |atoms|);
    if r.Ok? {
      AllocatedCons(r.value, atoms, m, x, tail);
    }
  }

  /** Reading `n` records into the arena succeeds exactly when the `n`
      records can be read and their saved handles are fresh; each record
      then lands at the next position of the arena and its saved handle is
      mapped there. Records that can all be read but repeat a handle are an
      inconsistency. Records that cannot all be read are an I/O failure when
      the ones read before the failing one have fresh handles, and an
      inconsistency when a repeated handle comes first. */
  lemma {:induction false} AllocateFacts(ts: seq<Token>, n: nat, read: seq<Token> -> Option<Decoded<Record>>,
                                         atoms: seq<Atom>, m: map<Handle, Handle>)
    ensures var rd := ReadN(ts, n, read);
            var r := Allocate(ts, n, read, atoms, m);
            && (rd.Some? ==> AllocateOutcome(r, atoms, m, rd.value.value, rd.value.rest))
            && (rd.None? ==> r == if FreshHandles(ReadBefore(ts, n, read), m) then Fail(IO) else Fail(Inconsistency))
    decreases n
  {
    if n == 0 {
      assert atoms[..|atoms|] == atoms;
      assert HandlesOf([]) == {};
    } else if read(ts).Some? {
      var x := read(ts).value;
      var rd' := ReadN(x.rest, n - 1, read);
      var r := Allocate(ts, n, read, atoms, m);
      FreshCons(x.value, ReadBefore(x.rest, n - 1, read), m, |atoms|);
      if x.value.handle in m {
        assert r == Fail(Inconsistency);
        if rd'.Some? {
          assert ReadN(ts, n, read).value.value[0] == x.value;
        }
      } else {
        var atoms' := atoms + [x.value.atom];
        var m' := m[x.value.handle := |atoms|];
        assert r == Allocate(x.rest, n - 1, read, atoms', m');
        AllocateFacts(x.rest, n - 1, read, atoms', m');
        if rd'.Some? {
          var tail := rd'.value.value;
          assert ReadN(ts, n, read) == Some(Decoded([x.value] + tail, rd'.value.rest));
          AllocateOutcomeCons(r, atoms, m, x.value, tail, rd'.value.rest);
        }
      }
    }
  }

  /** A whole section: the count, then `AllocateFacts` for that many
      records; a count that cannot be read is an I/O failure. */
  lemma AllocateSectionFacts(ts: seq<Token>, links: bool, atoms: seq<Atom>, m: map<Handle, Handle>)
    ensures var rd := ReadList(ts, ReadRecord(links));
            var r := AllocateSection(ts, links, atoms, m);
            && (rd.Some? ==> AllocateOutcome(r, atoms, m, rd.value.value, rd.value.rest))
            && (rd.None? ==> r == if FreshHandles(SectionBefore(ts, links), m) then Fail(IO) else Fail(Inconsistency))
            && (ReadNat(ts).None? ==> r == Fail(IO))
  {
    if ReadNat(ts).Some? {
      AllocateFacts(ReadNat(ts).value.rest, ReadNat(ts).value.value, ReadRecord(links), atoms, m);
    }
  }

  // ---------------------------------------------------------------------
  // Saving

  /** Every atom is saved in exactly one of the two sections, so the running
      count that `saveNodes` and `saveLinks` advance ends at the table size. */
  lemma {:induction false} SavedCountUpTo(atoms: seq<Atom>, k: nat)
    requires k <= |atoms|
    ensures |SavedUpTo(atoms, k, false)| + |SavedUpTo(atoms, k, true)| == k
  {
    if k > 0 {
      SavedCountUpTo(atoms, k - 1);
      SavedStep(atoms, k - 1, false);
      SavedStep(atoms, k - 1, true);
      assert IsKind(atoms[k - 1], false) != IsKind(atoms[k - 1], true);
    }
  }

  lemma SavedCount(atoms: seq<Atom>)
    ensures |Saved(atoms, false)| + |Saved(atoms, true)| == |atoms|
  {
    SavedCountUpTo(atoms, |atoms|);
  }

  // ---------------------------------------------------------------------
  // Round trip

  /** Every handle a link of the table holds refers to an atom of the table. */
  ghost predicate Closed(atoms: seq<Atom>) {
    forall h :: 0 <= h < |atoms| && atoms[h].Link? ==>
      forall i :: 0 <= i < |atoms[h].outgoing| ==> atoms[h].outgoing[i] < |atoms|
  }

  /** `m` is a bijection from the handles `0 .. n - 1` onto themselves. */
  ghost predicate Renumbering(m: map<Handle, Handle>, n: nat) {
    && (forall h: Handle :: h in m <==> h < n)
    && (forall h :: h in m ==> m[h] < n)
    && (forall h1, h2 :: h1 in m && h2 in m && h1 != h2 ==> m[h1] != m[h2])
    && (forall k :: 0 <= k < n ==> k in m.Values)
  }

  /** The atom saved under handle `h` sits at the new handle `m[h]`. */
  ghost predicate Placed(now: seq<Atom>, was: seq<Atom>, m: map<Handle, Handle>) {
    && |now| == |was|
    && forall h :: 0 <= h < |was| ==> h in m && m[h] < |now| && now[m[h]] == was[h]
  }

  /** Reading a section back with its own record reader gives the saved records. */
  lemma SectionReadsBack(atoms: seq<Atom>, links: bool, rest: seq<Token>)
    ensures ReadList(AtomSection(atoms, links) + rest, ReadRecord(links)) == Some(Decoded(Saved(atoms, links), rest))
  {
    var recs := Saved(atoms, links);
    forall i, r | 0 <= i < |recs| ensures ReadRecord(links)(WriteRecord(recs[i]) + r) == Some(Decoded(recs[i], r)) {
      RecordRoundTrip(recs[i], r);
    }
    ReadListWriteList(recs, rest, ReadRecord(links), WriteRecord);
  }

  lemma SavedFresh(atoms: seq<Atom>, links: bool, m: map<Handle, Handle>)
    requires forall h :: h in m ==> h < |atoms| && !IsKind(atoms[h], links)
    ensures FreshHandles(Saved(atoms, links), m)
  {
  }

  /** The state after the first pass over both atom sections, as positions in
      the two saved sections: nodes first, then links. */
  ghost predicate Sections(now: seq<Atom>, m: map<Handle, Handle>, nodes: seq<Record>, links: seq<Record>) {
    && |now| == |nodes| + |links|
    && (forall j :: 0 <= j < |nodes| ==> nodes[j].handle in m && m[nodes[j].handle] == j && now[j] == nodes[j].atom)
    && (forall j :: 0 <= j < |links| ==> links[j].handle in m && m[links[j].handle] == |nodes| + j && now[|nodes| + j] == links[j].atom)
    && m.Keys == HandlesOf(nodes) + HandlesOf(links)
  }

  /** The node section of an image reads back into an empty arena. */
  lemma NodePass(atoms: seq<Atom>, rest: seq<Token>)
    ensures var r := AllocateSection(AtomSection(atoms, false) + rest, false, [], map[]);
            r.Ok? && r.value.rest == rest && Allocated(r.value, [], map[], Saved(atoms, false))
  {
    SectionReadsBack(atoms, false, rest);
    AllocateSectionFacts(AtomSection(atoms, false) + rest, false, [], map[]);
    SavedFresh(atoms, false, map[]);
  }

  /** The link section reads back after the nodes: no link was saved under
      the handle of a node. */
  lemma LinkPass(atoms: seq<Atom>, a: Arena, rest: seq<Token>)
    requires forall h :: h in a.handles ==> h < |atoms| && !IsKind(atoms[h], true)
    ensures var r := AllocateSection(AtomSection(atoms, true) + rest, true, a.atoms, a.handles);
            r.Ok? && r.value.rest == rest && Allocated(r.value, a.atoms, a.handles, Saved(atoms, true))
  {
    SectionReadsBack(atoms, true, rest);
    AllocateSectionFacts(AtomSection(atoms, true) + rest, true, a.atoms, a.handles);
    SavedFresh(atoms, true, a.handles);
  }

  /** After the node pass only node handles are mapped. */
  lemma NodeKeys(atoms: seq<Atom>, a: Arena)
    requires Allocated(a, [], map[], Saved(atoms, false))
    ensures forall h :: h in a.handles ==> h < |atoms| && !IsKind(atoms[h], true)
  {
    var sn := Saved(atoms, false);
    forall h | h in a.handles ensures h < |atoms| && !IsKind(atoms[h], true) {
      assert h in HandlesOf(sn);
      var j :| 0 <= j < |sn| && sn[j].handle == h;
    }
  }

  lemma NodesKept(sn: seq<Record>, sl: seq<Record>, a1: Arena, a2: Arena)
    requires Allocated(a1, [], map[], sn)
    requires Allocated(a2, a1.atoms, a1.handles, sl)
    ensures forall j :: 0 <= j < |sn| ==> sn[j].handle in a2.handles && a2.handles[sn[j].handle] == j && a2.atoms[j] == sn[j].atom
  {
    forall j | 0 <= j < |sn| ensures sn[j].handle in a2.handles && a2.handles[sn[j].handle] == j && a2.atoms[j] == sn[j].atom {
      assert a1.handles[sn[j].handle] == j;
      assert a2.atoms[j] == a2.atoms[..|a1.atoms|][j];
    }
  }

  lemma SectionsFromPasses(sn: seq<Record>, sl: seq<Record>, a1: Arena, a2: Arena)
    requires Allocated(a1, [], map[], sn)
    requires Allocated(a2, a1.atoms, a1.handles, sl)
    ensures Sections(a2.atoms, a2.handles, sn, sl)
  {
    NodesKept(sn, sl, a1, a2);
    assert |a1.atoms| == |sn|;
    assert a2.handles.Keys == HandlesOf(sn) + HandlesOf(sl);
  }

  /** Loading the two atom sections of an image of `atoms` succeeds and
      leaves the two sections one after the other in the arena. */
  lemma FirstPassSections(atoms: seq<Atom>, rest: seq<Token>)
    ensures var nodes := AllocateSection(AtomSection(atoms, false) + (AtomSection(atoms, true) + rest), false, [], map[]);
            && nodes.Ok?
            && var links := AllocateSection(nodes.value.rest, true, nodes.value.atoms, nodes.value.handles);
            && links.Ok? && links.value.rest == rest
            && Sections(links.value.atoms, links.value.handles, Saved(atoms, false), Saved(atoms, true))
  {
    NodePass(atoms, AtomSection(atoms, true) + rest);
    var a1 := AllocateSection(AtomSection(atoms, false) + (AtomSection(atoms, true) + rest), false, [], map[]).value;
    NodeKeys(atoms, a1);
    LinkPass(atoms, a1, rest);
    var a2 := AllocateSection(AtomSection(atoms, true) + rest, true, a1.atoms, a1.handles).value;
    SectionsFromPasses(Saved(atoms, false), Saved(atoms, true), a1, a2);
  }

  lemma SectionsKeys(atoms: seq<Atom>, now: seq<Atom>, m: map<Handle, Handle>)
    requires Sections(now, m, Saved(atoms, false), Saved(atoms, true))
    ensures forall h: Handle :: h in m <==> h < |atoms|
  {
    var sn := Saved(atoms, false);
    var sl := Saved(atoms, true);
    forall h | h in m ensures h < |atoms| {
      if h in HandlesOf(sn) {
        var j :| 0 <= j < |sn| && sn[j].handle == h;
      } else {
        var j :| 0 <= j < |sl| && sl[j].handle == h;
      }
    }
    forall h: Handle | h < |atoms| ensures h in m {
      if IsKind(atoms[h], false) {
        SavedComplete(atoms, |atoms|, false, h);
      } else {
        SavedComplete(atoms, |atoms|, true, h);
      }
    }
  }

  lemma SectionsPlaced(atoms: seq<Atom>, now: seq<Atom>, m: map<Handle, Handle>)
    requires Sections(now, m, Saved(atoms, false), Saved(atoms, true))
    ensures Placed(now, atoms, m)
  {
    SavedCount(atoms);
    forall h: Handle | h < |atoms| ensures h in m && m[h] < |now| && now[m[h]] == atoms[h] {
      PlacedAt(atoms, now, m, h);
    }
  }

  /** Where the saved atom `h` lands. */
  lemma PlacedAt(atoms: seq<Atom>, now: seq<Atom>, m: map<Handle, Handle>, h: Handle)
    requires Sections(now, m, Saved(atoms, false), Saved(atoms, true))
    requires h < |atoms|
    ensures h in m && m[h] < |now| && now[m[h]] == atoms[h]
  {
    var sn := Saved(atoms, false);
    var sl := Saved(atoms, true);
    var links := !IsKind(atoms[h], false);
    SavedComplete(atoms, |atoms|, links, h);
    var recs := if links then sl else sn;
    var j :| 0 <= j < |recs| && recs[j].handle == h;
    assert recs[j].atom == atoms[h];
    SlotOf(now, m, sn, sl, links, j);
  }

  /** Where the `j`th record of a section lands. */
  lemma SlotOf(now: seq<Atom>, m: map<Handle, Handle>, nodes: seq<Record>, links: seq<Record>, inLinks: bool, j: nat)
    requires Sections(now, m, nodes, links)
    requires j < if inLinks then |links| else |nodes|
    ensures var r := if inLinks then links[j] else nodes[j];
            r.handle in m && m[r.handle] < |now| && now[m[r.handle]] == r.atom
  {
  }

  lemma SectionsInjective(atoms: seq<Atom>, now: seq<Atom>, m: map<Handle, Handle>)
    requires Sections(now, m, Saved(atoms, false), Saved(atoms, true))
    ensures forall h1, h2 :: h1 in m && h2 in m && h1 != h2 ==> m[h1] != m[h2]
  {
    forall h1, h2 | h1 in m && h2 in m && h1 != h2 ensures m[h1] != m[h2] {
      if m[h1] == m[h2] {
        SlotUnique(atoms, m, h1, m[h1]);
        SlotUnique(atoms, m, h2, m[h1]);
      }
    }
  }

  lemma SectionsOnto(atoms: seq<Atom>, now: seq<Atom>, m: map<Handle, Handle>)
    requires Sections(now, m, Saved(atoms, false), Saved(atoms, true))
    ensures forall k :: 0 <= k < |atoms| ==> k in m.Values
  {
    var sn := Saved(atoms, false);
    var sl := Saved(atoms, true);
    SavedCount(atoms);
    forall k | 0 <= k < |atoms| ensures k in m.Values {
      if k < |sn| {
        assert m[sn[k].handle] == k;
      } else {
        assert m[sl[k - |sn|].handle] == k;
      }
    }
  }

  /** The first pass renumbers the saved handles bijectively and puts every
      saved atom at its new handle. */
  lemma SectionsRenumber(atoms: seq<Atom>, now: seq<Atom>, m: map<Handle, Handle>)
    requires Sections(now, m, Saved(atoms, false), Saved(atoms, true))
    ensures Renumbering(m, |atoms|) && Placed(now, atoms, m)
  {
    SectionsKeys(atoms, now, m);
    SectionsPlaced(atoms, now, m);
    SectionsInjective(atoms, now, m);
    SectionsOnto(atoms, now, m);
  }

  /** The new handle of a saved handle determines it: it is the handle of the
      record at that position of the node section or the link section. */
  lemma SlotUnique(atoms: seq<Atom>, m: map<Handle, Handle>, h: Handle, p: nat)
    requires var sn := Saved(atoms, false); var sl := Saved(atoms, true);
             && m.Keys == HandlesOf(sn) + HandlesOf(sl)
             && (forall j :: 0 <= j < |sn| ==> sn[j].handle in m && m[sn[j].handle] == j)
             && (forall j :: 0 <= j < |sl| ==> sl[j].handle in m && m[sl[j].handle] == |sn| + j)
    requires h in m && m[h] == p
    ensures var sn := Saved(atoms, false); var sl := Saved(atoms, true);
            && (p < |sn| ==> sn[p].handle == h)
            && (p >= |sn| ==> p - |sn| < |sl| && sl[p - |sn|].handle == h)
  {
    var sn := Saved(atoms, false);
    var sl := Saved(atoms, true);
    if h in HandlesOf(sn) {
      var j :| 0 <= j < |sn| && sn[j].handle == h;
    } else {
      var j :| 0 <= j < |sl| && sl[j].handle == h;
    }
  }

  // ---------------------------------------------------------------------
  // The second pass

  /** After a first pass that renumbered the saved handles, translating every
      atom succeeds exactly when the saved table was closed, and then each
      atom is the counterpart of the atom saved under the old handle. */
  lemma SecondPass(now: seq<Atom>, atoms: seq<Atom>, m: map<Handle, Handle>)
    requires Renumbering(m, |atoms|) && Placed(now, atoms, m)
    ensures var u := UpdateAll(now, m);
            && (u.Ok? <==> Closed(atoms))
            && (u.Ok? ==> |u.value| == |atoms| &&
                          forall h: Handle :: h < |atoms| ==> Corresponds(u.value[m[h]], atoms[h], m))
  {
    var u := UpdateAll(now, m);
    if Closed(atoms) {
      forall k | 0 <= k < |now| ensures Resolvable(now[k], m) {
        assert k in m.Values;
        var h :| h in m && m[h] == k;
        assert now[k] == atoms[h];
      }
    }
    if u.Ok? {
      forall h, i | 0 <= h < |atoms| && atoms[h].Link? && 0 <= i < |atoms[h].outgoing|
        ensures atoms[h].outgoing[i] < |atoms|
      {
        assert Resolvable(now[m[h]], m);
      }
      forall h: Handle | h < |atoms| ensures Corresponds(u.value[m[h]], atoms[h], m) {
        assert UpdateAtom(now[m[h]], m) == Ok(u.value[m[h]]);
      }
    }
  }

  // ---------------------------------------------------------------------
  // Repositories

  /** Reading one written entry: its name must be registered; then the
      repository takes the saved state, its handles translated. */
  lemma RestoreEntryFirst(e: Repository, after: seq<Token>, n: nat, repos: map<string, RepoState>, m: map<Handle, Handle>)
    requires forall k :: 0 <= k < |e.state.held| ==> e.state.held[k] in m
    ensures e.id !in repos ==> RestoreRepositories(WriteRepoEntry(e) + after, n + 1, repos, m) == Fail(Runtime)
    ensures e.id in repos ==>
              RemapRepo(e.state, m).Ok? &&
              RestoreRepositories(WriteRepoEntry(e) + after, n + 1, repos, m) ==
              RestoreRepositories(after, n, repos[e.id := RemapRepo(e.state, m).value], m)
  {
    assert ReadText(WriteRepoEntry(e) + after) == Some(Decoded(e.id, WriteRepoState(e.state) + after));
    assert ReadRepoState(WriteRepoState(e.state) + after) == Some(Decoded(e.state, after));
  }

  /** The same step, for the first of the written entries `es`. */
  lemma RestoreEntryStep(es: seq<Repository>, rest: seq<Token>, repos: map<string, RepoState>, m: map<Handle, Handle>)
    requires es != []
    requires forall k :: 0 <= k < |es[0].state.held| ==> es[0].state.held[k] in m
    ensures es[0].id !in repos ==> RestoreRepositories(WriteN(es, WriteRepoEntry) + rest, |es|, repos, m) == Fail(Runtime)
    ensures es[0].id in repos ==>
              RemapRepo(es[0].state, m).Ok? &&
              RestoreRepositories(WriteN(es, WriteRepoEntry) + rest, |es|, repos, m) ==
              RestoreRepositories(WriteN(es[1..], WriteRepoEntry) + rest, |es[1..]|, repos[es[0].id := RemapRepo(es[0].state, m).value], m)
  {
    WriteNCons(es, WriteRepoEntry, rest);
    RestoreEntryFirst(es[0], WriteN(es[1..], WriteRepoEntry) + rest, |es[1..]|, repos, m);
  }

  /** The encoding of a non-empty sequence, followed by more tokens, starts
      with the encoding of its first value. */
  lemma WriteNCons<T>(xs: seq<T>, write: T -> seq<Token>, rest: seq<Token>)
    requires xs != []
    ensures WriteN(xs, write) + rest == write(xs[0]) + (WriteN(xs[1..], write) + rest)
  {
    assert WriteN(xs, write) == write(xs[0]) + WriteN(xs[1..], write);
  }

  /** What `RestoreEntries` states about the outcome `o` of reading back the
      entries `es` into the registry `repos`. */
  ghost predicate EntriesOutcome(o: Result<Decoded<map<string, RepoState>>>, es: seq<Repository>, rest: seq<Token>,
                                 repos: map<string, RepoState>, m: map<Handle, Handle>) {
    && ((forall i :: 0 <= i < |es| ==> es[i].id in repos) ==>
          && o.Ok? && o.value.rest == rest && o.value.value.Keys == repos.Keys
          && (forall i :: 0 <= i < |es| ==> RepoCorresponds(o.value.value[es[i].id], es[i].state, m))
          && (forall n :: n in repos && (forall i :: 0 <= i < |es| ==> es[i].id != n) ==> o.value.value[n] == repos[n]))
    && ((exists i :: 0 <= i < |es| && es[i].id !in repos) ==> o == Fail(Runtime))
  }

  lemma EntriesOutcomeCons(o: Result<Decoded<map<string, RepoState>>>, es: seq<Repository>, e: Repository, tail: seq<Repository>,
                           rest: seq<Token>, repos: map<string, RepoState>, m: map<Handle, Handle>)
    requires es != [] && e == es[0] && tail == es[1..]
    requires forall i :: 0 <= i < |tail| ==> tail[i].id != e.id
    requires e.id in repos && RemapRepo(e.state, m).Ok?
    requires EntriesOutcome(o, tail, rest, repos[e.id := RemapRepo(e.state, m).value], m)
    ensures EntriesOutcome(o, es, rest, repos, m)
  {
    assert es == [e] + tail;
    var repos' := repos[e.id := RemapRepo(e.state, m).value];
    assert es[0] == e;
    assert forall i :: 1 <= i < |es| ==> es[i] == tail[i - 1];
    assert repos'.Keys == repos.Keys;
    if exists i :: 0 <= i < |es| && es[i].id !in repos {
      var i :| 0 <= i < |es| && es[i].id !in repos;
      assert tail[i - 1].id !in repos';
    } else {
      assert forall i :: 0 <= i < |tail| ==> tail[i] == es[i + 1];
      assert forall i :: 0 <= i < |tail| ==> tail[i].id in repos';
      assert o.Ok?;
      assert o.value.value[e.id] == repos'[e.id];
      forall n | n in repos && (forall i :: 0 <= i < |es| ==> es[i].id != n) ensures o.value.value[n] == repos[n] {
        assert n != e.id;
        assert forall i :: 0 <= i < |tail| ==> tail[i].id != n;
      }
    }
  }

  lemma EntriesOutcomeFirstMissing(es: seq<Repository>, rest: seq<Token>, repos: map<string, RepoState>, m: map<Handle, Handle>)
    requires es != [] && es[0].id !in repos
    ensures EntriesOutcome(Fail(Runtime), es, rest, repos, m)
  {
  }

  /** Reading back written repository entries: when every name is registered
      each repository ends up with its saved state, its handles translated,
      and the others keep theirs; the first unregistered name is a runtime
      error. */
  lemma {:induction false} RestoreEntries(es: seq<Repository>, rest: seq<Token>, repos: map<string, RepoState>, m: map<Handle, Handle>)
    requires DistinctIds(es) && HeldMapped(es, m)
    ensures EntriesOutcome(RestoreRepositories(WriteN(es, WriteRepoEntry) + rest, |es|, repos, m), es, rest, repos, m)
  {
    if es == [] {
      assert WriteN(es, WriteRepoEntry) + rest == rest;
    } else {
      var e := es[0];
      var tail := es[1..];
      EntriesTail(es, m);
      RestoreEntryStep(es, rest, repos, m);
      if e.id in repos {
        var repos' := repos[e.id := RemapRepo(e.state, m).value];
        var o := RestoreRepositories(WriteN(tail, WriteRepoEntry) + rest, |tail|, repos', m);
        assert RestoreRepositories(WriteN(es, WriteRepoEntry) + rest, |es|, repos, m) == o;
        RestoreEntries(tail, rest, repos', m);
        EntriesOutcomeCons(o, es, e, tail, rest, repos, m);
      } else {
        EntriesOutcomeFirstMissing(es, rest, repos, m);
      }
    }
  }

  ghost predicate DistinctIds(es: seq<Repository>) {
    forall i, j :: 0 <= i < j < |es| ==> es[i].id != es[j].id
  }

  ghost predicate HeldMapped(es: seq<Repository>, m: map<Handle, Handle>) {
    forall i, k :: 0 <= i < |es| && 0 <= k < |es[i].state.held| ==> es[i].state.held[k] in m
  }

  lemma EntriesTail(es: seq<Repository>, m: map<Handle, Handle>)
    requires es != [] && DistinctIds(es) && HeldMapped(es, m)
    ensures DistinctIds(es[1..]) && HeldMapped(es[1..], m)
    ensures forall i :: 0 <= i < |es[1..]| ==> es[1..][i].id != es[0].id
    ensures forall k :: 0 <= k < |es[0].state.held| ==> es[0].state.held[k] in m
  {
    assert forall i :: 0 <= i < |es[1..]| ==> es[1..][i] == es[i + 1];
  }

  /** The repository section is a count followed by the entries, in `order`. */
  lemma RepositorySectionEntries(repos: map<string, RepoState>, order: seq<string>, c: map<string, RepoState>, m: map<Handle, Handle>)
    requires forall i :: 0 <= i < |order| ==> order[i] in repos
    ensures RestoreRepositorySection(RepositorySection(repos, order), c, m) ==
            RestoreRepositories(WriteN(RepoEntries(repos, order), WriteRepoEntry) + [], |order|, c, m)
  {
    var es := RepoEntries(repos, order);
    NothingAfter(WriteN(es, WriteRepoEntry));
    assert ReadNat(RepositorySection(repos, order)) == Some(Decoded(|order|, WriteN(es, WriteRepoEntry) + []));
  }

  lemma NothingAfter(ts: seq<Token>)
    ensures ts + [] == ts
  {
  }

  /** The registry after the entries of `repos`, in `order`, were read back
      into the cleared registry `registered`. */
  lemma EntriesRestoreRegistry(o: Result<Decoded<map<string, RepoState>>>, repos: map<string, RepoState>, order: seq<string>,
                               registered: map<string, RepoState>, m: map<Handle, Handle>)
    requires forall i :: 0 <= i < |order| ==> order[i] in repos
    requires IsEnumeration(order, repos.Keys)
    requires EntriesOutcome(o, RepoEntries(repos, order), [], Cleared(registered), m)
    ensures repos.Keys <= registered.Keys ==>
              && o.Ok? && o.value.value.Keys == registered.Keys
              && (forall n :: n in repos ==> RepoCorresponds(o.value.value[n], repos[n], m))
              && (forall n :: n in registered && n !in repos ==> o.value.value[n] == EmptyRepo)
    ensures !(repos.Keys <= registered.Keys) ==> o == Fail(Runtime)
  {
    var es := RepoEntries(repos, order);
    var cleared := Cleared(registered);
    assert forall i :: 0 <= i < |es| ==> es[i] == Repository(order[i], repos[order[i]]);
    if repos.Keys <= registered.Keys {
      assert forall i :: 0 <= i < |es| ==> es[i].id in cleared;
      forall n | n in repos ensures RepoCorresponds(o.value.value[n], repos[n], m) {
        var i :| 0 <= i < |order| && order[i] == n;
        assert es[i].id == n;
      }
      forall n | n in registered && n !in repos ensures o.value.value[n] == EmptyRepo {
        assert forall i :: 0 <= i < |es| ==> es[i].id != n;
      }
    } else {
      var n :| n in repos && n !in registered;
      var i :| 0 <= i < |order| && order[i] == n;
      assert es[i].id !in cleared;
    }
  }

  /** The repository section of an image, read back into the registry
      `registered` as a load leaves it: every registered repository cleared,
      then the saved ones restored. A saved repository that is not
      registered is a runtime error. */
  lemma RepositoryRoundTrip(repos: map<string, RepoState>, order: seq<string>, registered: map<string, RepoState>, m: map<Handle, Handle>)
    requires forall i :: 0 <= i < |order| ==> order[i] in repos
    requires IsEnumeration(order, repos.Keys)
    requires forall n, k :: n in repos && 0 <= k < |repos[n].held| ==> repos[n].held[k] in m
    ensures var o := RestoreRepositorySection(RepositorySection(repos, order), Cleared(registered), m);
            && (repos.Keys <= registered.Keys ==>
                  && o.Ok? && o.value.value.Keys == registered.Keys
                  && (forall n :: n in repos ==> RepoCorresponds(o.value.value[n], repos[n], m))
                  && (forall n :: n in registered && n !in repos ==> o.value.value[n] == EmptyRepo))
            && (!(repos.Keys <= registered.Keys) ==> o == Fail(Runtime))
  {
    var es := RepoEntries(repos, order);
    RepositorySectionEntries(repos, order, Cleared(registered), m);
    EntriesWellFormed(repos, order, m);
    RestoreEntries(es, [], Cleared(registered), m);
    EntriesRestoreRegistry(RestoreRepositories(WriteN(es, WriteRepoEntry) + [], |es|, Cleared(registered), m),
                           repos, order, registered, m);
  }

  /** The entries a save writes name distinct repositories and hold only
      handles of `m` when the repositories do. */
  lemma EntriesWellFormed(repos: map<string, RepoState>, order: seq<string>, m: map<Handle, Handle>)
    requires forall i :: 0 <= i < |order| ==> order[i] in repos
    requires IsEnumeration(order, repos.Keys)
    requires forall n, k :: n in repos && 0 <= k < |repos[n].held| ==> repos[n].held[k] in m
    ensures DistinctIds(RepoEntries(repos, order)) && HeldMapped(RepoEntries(repos, order), m)
  {
    var es := RepoEntries(repos, order);
    assert forall i :: 0 <= i < |es| ==> es[i] == Repository(order[i], repos[order[i]]);
  }
  // ---------------------------------------------------------------------
  // Indices

  /** Every saved index names a type the loading class server knows and
      holds only handles of the table. */
  ghost predicate IndicesInTable(indices: seq<IndexList>, types: map<TypeId, TypeId>, n: nat) {
    forall i :: 0 <= i < |indices| ==>
      indices[i].atomType in types && forall k :: 0 <= k < |indices[i].handles| ==> indices[i].handles[k] < n
  }

  /** The index section reads back and every index is translated: its type
      by name, its handles by the renumbering. */
  lemma IndicesRoundTrip(indices: seq<IndexList>, rest: seq<Token>, types: map<TypeId, TypeId>, m: map<Handle, Handle>, n: nat)
    requires IndicesInTable(indices, types, n)
    requires forall h: Handle :: h in m <==> h < n
    ensures var r := RestoreIndices(WriteIndices(indices) + rest, types, m);
            && r.Ok? && r.value.rest == rest && |r.value.value| == |indices|
            && forall i :: 0 <= i < |indices| ==> IndexCorresponds(r.value.value[i], indices[i], types, m)
  {
    assert ReadIndices(WriteIndices(indices) + rest) == Some(Decoded(indices, rest));
    assert forall i :: 0 <= i < |indices| ==> IndexResolvable(indices[i], types, m);
    var ls := TranslateIndices(indices, types, m).value;
    forall i | 0 <= i < |indices| ensures IndexCorresponds(ls[i], indices[i], types, m) {
      assert TranslateIndex(indices[i], types, m) == Ok(ls[i]);
    }
  }

  // ---------------------------------------------------------------------
  // The whole image

  /** Every repository holds only handles of the table. */
  ghost predicate HeldInTable(repos: map<string, RepoState>, n: nat) {
    forall name, k :: name in repos && 0 <= k < |repos[name].held| ==> repos[name].held[k] < n
  }

  /** `res` is the saved table `atoms`, its indices and its repositories,
      renumbered: the handle map is a bijection on the table's handles, each
      atom sits at its new handle with its handles translated, each index is
      translated, each saved repository has its saved state translated and
      every other registered repository is empty. */
  ghost predicate Isomorphic(res: Restored, atoms: seq<Atom>, indices: seq<IndexList>, repos: map<string, RepoState>,
                             registered: map<string, RepoState>, types: map<TypeId, TypeId>) {
    && Renumbering(res.handles, |atoms|)
    && |res.atoms| == |atoms|
    && (forall h: Handle :: h < |atoms| ==> Corresponds(res.atoms[res.handles[h]], atoms[h], res.handles))
    && |res.indices| == |indices|
    && (forall i :: 0 <= i < |indices| ==> IndexCorresponds(res.indices[i], indices[i], types, res.handles))
    && res.repos.Keys == registered.Keys
    && (forall n :: n in repos ==> n in res.repos && RepoCorresponds(res.repos[n], repos[n], res.handles))
    && (forall n :: n in registered && n !in repos ==> res.repos[n] == EmptyRepo)
  }

  /** The image starts with the class-server information, which reads back. */
  lemma DumpHeader(registry: seq<TypeEntry>, atoms: seq<Atom>, indices: seq<IndexList>,
                   repos: map<string, RepoState>, order: seq<string>)
    requires forall i :: 0 <= i < |order| ==> order[i] in repos
    ensures ReadClassServerInfo(Dump(registry, atoms, indices, repos, order))
            == Some(Decoded(registry, AtomSection(atoms, false) + (AtomSection(atoms, true) +
                                      (WriteIndices(indices) + RepositorySection(repos, order)))))
  {
  }

  /** How a load into an empty table ends, once its first pass has read the
      class-server information and both atom sections: with the index
      section's failure, the second pass's inconsistency, or the repository
      section's outcome. */
  lemma RestoreStages(ts: seq<Token>, loader: seq<TypeEntry>, registered: map<string, RepoState>,
                      info: Decoded<seq<TypeEntry>>, a1: Arena, a2: Arena)
    requires ReadClassServerInfo(ts) == Some(info)
    requires AllocateSection(info.rest, false, [], map[]) == Ok(a1)
    requires AllocateSection(a1.rest, true, a1.atoms, a1.handles) == Ok(a2)
    ensures var r := Restore(ts, loader, [], registered);
            var u := UpdateAll(a2.atoms, a2.handles);
            var ix := RestoreIndices(a2.rest, TypeTable(info.value, loader), a2.handles);
            && (ix.Fail? ==> r == Fail(ix.kind))
            && (ix.Ok? && u.Fail? ==> r == Fail(Inconsistency))
            && (ix.Ok? && u.Ok? ==>
                  var o := RestoreRepositorySection(ix.value.rest, Cleared(registered), a2.handles);
                  && (o.Fail? ==> r == Fail(o.kind))
                  && (o.Ok? ==> r == Ok(Restored(u.value, ix.value.value, o.value.value, a2.handles))))
  {
  }

  /** The first pass over an image: the atom sections read back into an
      arena whose handle map renumbers the saved table, and what the load
      then comes to. */
  lemma FirstPassOfDump(registry: seq<TypeEntry>, loader: seq<TypeEntry>, atoms: seq<Atom>, indices: seq<IndexList>,
                        repos: map<string, RepoState>, order: seq<string>, registered: map<string, RepoState>)
    returns (a: Arena)
    requires forall i :: 0 <= i < |order| ==> order[i] in repos
    ensures Renumbering(a.handles, |atoms|) && Placed(a.atoms, atoms, a.handles)
    ensures var r := Restore(Dump(registry, atoms, indices, repos, order), loader, [], registered);
            var u := UpdateAll(a.atoms, a.handles);
            var ix := RestoreIndices(WriteIndices(indices) + RepositorySection(repos, order), TypeTable(registry, loader), a.handles);
            && (ix.Fail? ==> r == Fail(ix.kind))
            && (ix.Ok? && u.Fail? ==> r == Fail(Inconsistency))
            && (ix.Ok? && u.Ok? ==>
                  var o := RestoreRepositorySection(ix.value.rest, Cleared(registered), a.handles);
                  && (o.Fail? ==> r == Fail(o.kind))
                  && (o.Ok? ==> r == Ok(Restored(u.value, ix.value.value, o.value.value, a.handles))))
  {
    var rest := WriteIndices(indices) + RepositorySection(repos, order);
    var rest1 := AtomSection(atoms, false) + (AtomSection(atoms, true) + rest);
    DumpHeader(registry, atoms, indices, repos, order);
    FirstPassSections(atoms, rest);
    var a1 := AllocateSection(rest1, false, [], map[]).value;
    a := AllocateSection(a1.rest, true, a1.atoms, a1.handles).value;
    RestoreStages(Dump(registry, atoms, indices, repos, order), loader, registered, Decoded(registry, rest1), a1, a);
    SectionsRenumber(atoms, a.atoms, a.handles);
  }

  /** Saving then loading. The image of a table, loaded into an empty table
      by a process whose class server is `loader` and whose registry is
      `registered`, gives back an isomorphic table, up to the renumbering of
      handles, when the saved table was closed and every saved repository is
      registered. A link holding a handle of no saved atom makes the load an
      inconsistency; a saved repository that is not registered makes it a
      runtime error. */
  lemma RoundTrip(registry: seq<TypeEntry>, loader: seq<TypeEntry>, atoms: seq<Atom>, indices: seq<IndexList>,
                  repos: map<string, RepoState>, order: seq<string>, registered: map<string, RepoState>)
    requires forall i :: 0 <= i < |order| ==> order[i] in repos
    requires IsEnumeration(order, repos.Keys)
    requires IndicesInTable(indices, TypeTable(registry, loader), |atoms|)
    requires HeldInTable(repos, |atoms|)
    ensures var r := Restore(Dump(registry, atoms, indices, repos, order), loader, [], registered);
            && (!Closed(atoms) ==> r == Fail(Inconsistency))
            && (Closed(atoms) && !(repos.Keys <= registered.Keys) ==> r == Fail(Runtime))
            && (Closed(atoms) && repos.Keys <= registered.Keys ==>
                  r.Ok? && Isomorphic(r.value, atoms, indices, repos, registered, TypeTable(registry, loader)))
  {
    var types := TypeTable(registry, loader);
    var a := FirstPassOfDump(registry, loader, atoms, indices, repos, order, registered);
    var m := a.handles;
    SecondPass(a.atoms, atoms, m);
    IndicesRoundTrip(indices, RepositorySection(repos, order), types, m, |atoms|);
    if Closed(atoms) {
      HeldInRenumbering(repos, m, |atoms|);
      RepositoryRoundTrip(repos, order, registered, m);
    }
  }

  lemma HeldInRenumbering(repos: map<string, RepoState>, m: map<Handle, Handle>, n: nat)
    requires HeldInTable(repos, n)
    requires Renumbering(m, n)
    ensures forall name, k :: name in repos && 0 <= k < |repos[name].held| ==> repos[name].held[k] in m
  {
  }



  // ---------------------------------------------------------------------
  // Type translation and repository clearing

  /** No two saved types share an identifier. */
  ghost predicate DistinctTypeIds(saved: seq<TypeEntry>) {
    forall i, j :: 0 <= i < j < |saved| ==> saved[i].id != saved[j].id
  }

  /** Types are matched by name: a saved type is translated exactly when the
      running class server knows its name, and then to the identifier the
      running class server gives that name. */
  lemma TypeTableByName(saved: seq<TypeEntry>, registry: seq<TypeEntry>, i: nat)
    requires DistinctTypeIds(saved) && DistinctNames(registry)
    requires i < |saved|
    ensures saved[i].id in TypeTable(saved, registry) <==>
            exists j :: 0 <= j < |registry| && registry[j].name == saved[i].name
    ensures forall j :: 0 <= j < |registry| && registry[j].name == saved[i].name ==>
              TypeTable(saved, registry)[saved[i].id] == registry[j].id
  {
    var table := TypeTable(saved, registry);
    TypeTableSound(saved, registry);
    var name := saved[i].name;
    if j :| 0 <= j < |registry| && registry[j].name == name {
      assert IdOf(registry, name).Some?;
      assert saved[i].id in table;
      var i' :| 0 <= i' < |saved| && saved[i'].id == saved[i].id && IdOf(registry, saved[i'].name) == Some(table[saved[i].id]);
      assert i' == i;
      var j' :| 0 <= j' < |registry| && registry[j'] == TypeEntry(name, table[saved[i].id]);
      assert j' == j;
    } else {
      assert IdOf(registry, name).None?;
    }
  }

  /** When a process loads the image it saved, with no type renamed in
      between, every saved type keeps its identifier. */
  lemma TypeTableIdentity(registry: seq<TypeEntry>, i: nat)
    requires DistinctTypeIds(registry) && DistinctNames(registry)
    requires i < |registry|
    ensures registry[i].id in TypeTable(registry, registry)
    ensures TypeTable(registry, registry)[registry[i].id] == registry[i].id
  {
    TypeTableByName(registry, registry, i);
  }

  /** A load clears every registered repository first: its outcome depends on
      which repositories are registered, never on what they held before. */
  lemma LoadForgetsRepositoryState(ts: seq<Token>, registry: seq<TypeEntry>, atoms0: seq<Atom>,
                                   repos0: map<string, RepoState>, repos1: map<string, RepoState>)
    requires repos0.Keys == repos1.Keys
    ensures Restore(ts, registry, atoms0, repos0) == Restore(ts, registry, atoms0, repos1)
  {
    assert Cleared(repos0) == Cleared(repos1);
  }

  // ---------------------------------------------------------------------
  // Any image a load accepts

  /** Every handle `m` maps to is below `n`. */
  ghost predicate Bounded(m: map<Handle, Handle>, n: nat) {
    forall k :: k in m ==> m[k] < n
  }

  /** Every handle an index holds is below `n`. */
  ghost predicate IndexHandlesBelow(indices: seq<IndexList>, n: nat) {
    forall i, k :: 0 <= i < |indices| && 0 <= k < |indices[i].handles| ==> indices[i].handles[k] < n
  }

  /** A section read into the arena maps every saved handle, old and new,
      to a position of the arena. */
  lemma AllocateBounded(ts: seq<Token>, links: bool, atoms: seq<Atom>, m: map<Handle, Handle>)
    requires Bounded(m, |atoms|)
    ensures var r := AllocateSection(ts, links, atoms, m);
            r.Ok? ==> |atoms| <= |r.value.atoms| && Bounded(r.value.handles, |r.value.atoms|)
  {
    var r := AllocateSection(ts, links, atoms, m);
    AllocateSectionFacts(ts, links, atoms, m);
    if r.Ok? {
      var recs := ReadList(ts, ReadRecord(links)).value.value;
      var a := r.value;
      forall k | k in a.handles ensures a.handles[k] < |a.atoms| {
        if k !in m {
          var j :| 0 <= j < |recs| && recs[j].handle == k;
        }
      }
    }
  }

  /** A second pass with such a map leaves no link referring outside the table. */
  lemma UpdateAllClosed(atoms: seq<Atom>, m: map<Handle, Handle>)
    requires Bounded(m, |atoms|)
    ensures UpdateAll(atoms, m).Ok? ==> Closed(UpdateAll(atoms, m).value)
  {
    var u := UpdateAll(atoms, m);
    if u.Ok? {
      forall h, i | 0 <= h < |u.value| && u.value[h].Link? && 0 <= i < |u.value[h].outgoing|
        ensures u.value[h].outgoing[i] < |u.value|
      {
        assert Corresponds(u.value[h], atoms[h], m);
      }
    }
  }

  /** Translated indices hold only handles the map produces. */
  lemma RestoreIndicesBelow(ts: seq<Token>, types: map<TypeId, TypeId>, m: map<Handle, Handle>, n: nat)
    requires Bounded(m, n)
    ensures RestoreIndices(ts, types, m).Ok? ==> IndexHandlesBelow(RestoreIndices(ts, types, m).value.value, n)
  {
    var r := RestoreIndices(ts, types, m);
    if r.Ok? {
      var saved := ReadIndices(ts).value.value;
      forall i, k | 0 <= i < |r.value.value| && 0 <= k < |r.value.value[i].handles|
        ensures r.value.value[i].handles[k] < n
      {
        assert TranslateIndex(saved[i], types, m) == Ok(r.value.value[i]);
      }
    }
  }

  /** Repositories that read their state with such a map hold only handles
      it produces. */
  lemma {:induction false} RestoreRepositoriesBelow(ts: seq<Token>, count: nat, repos: map<string, RepoState>,
                                                    m: map<Handle, Handle>, n: nat)
    requires Bounded(m, n) && HeldInTable(repos, n)
    ensures var r := RestoreRepositories(ts, count, repos, m);
            r.Ok? ==> HeldInTable(r.value.value, n)
    decreases count
  {
    var r := RestoreRepositories(ts, count, repos, m);
    if count > 0 && r.Ok? {
      var name := ReadText(ts).value;
      var blob := ReadRepoState(name.rest).value;
      var state := RemapRepo(blob.value, m).value;
      var next := repos[name.value := state];
      assert RepoCorresponds(state, blob.value, m);
      assert HeldInTable(next, n);
      RestoreRepositoriesBelow(blob.rest, count - 1, next, m, n);
    }
  }

  /** No dangling handles: whatever image a load into an empty table
      accepts, every link of the loaded table, every index and every
      repository refers only to atoms of the loaded table. */
  lemma LoadedNoDangling(ts: seq<Token>, registry: seq<TypeEntry>, repos0: map<string, RepoState>)
    ensures var r := Restore(ts, registry, [], repos0);
            r.Ok? ==>
              && Closed(r.value.atoms)
              && IndexHandlesBelow(r.value.indices, |r.value.atoms|)
              && HeldInTable(r.value.repos, |r.value.atoms|)
  {
    var r := Restore(ts, registry, [], repos0);
    if r.Ok? {
      var info := ReadClassServerInfo(ts).value;
      var nodes := AllocateSection(info.rest, false, [], map[]);
      AllocateBounded(info.rest, false, [], map[]);
      var links := AllocateSection(nodes.value.rest, true, nodes.value.atoms, nodes.value.handles);
      AllocateBounded(nodes.value.rest, true, nodes.value.atoms, nodes.value.handles);
      var m := links.value.handles;
      var n := |links.value.atoms|;
      var ix := RestoreIndices(links.value.rest, TypeTable(info.value, registry), m);
      var u := UpdateAll(links.value.atoms, m);
      var count := ReadNat(ix.value.rest).value;
      var o := RestoreRepositories(count.rest, count.value, Cleared(repos0), m);
      assert r.value == Restored(u.value, ix.value.value, o.value.value, m);
      RestoreIndicesBelow(links.value.rest, TypeTable(info.value, registry), m, n);
      UpdateAllClosed(links.value.atoms, m);
      RestoreRepositoriesBelow(count.rest, count.value, Cleared(repos0), m, n);
    }
  }
}
