/** Translation of saved handles and saved type identifiers.

    During a load every handle read from the image is an old handle: the one
    the atom had in the saving process. The old-to-new handle map built by
    the first pass translates them; an old handle with no entry means the
    image is corrupt or foreign and is an inconsistency. Type identifiers
    of the index section are translated through the table built from the
    saved class-server information, matching types by name. */
module HandleMaps {
  import opened Outcomes
  import opened Atoms

  /** `now` is `was` with every handle replaced by its image under `m`. */
  ghost predicate RemappedSeq(now: seq<Handle>, was: seq<Handle>, m: map<Handle, Handle>) {
    |now| == |was| && forall i :: 0 <= i < |was| ==> was[i] in m && now[i] == m[was[i]]
  }

  /** Every handle the atom holds has an entry in `m`. */
  ghost predicate Resolvable(a: Atom, m: map<Handle, Handle>) {
    a.Link? ==> forall i :: 0 <= i < |a.outgoing| ==> a.outgoing[i] in m
  }

  /** `now` is the loaded counterpart of the saved atom `was`: same type,
      truth value and attention value; the same name for a node; for a link
      the outgoing set in the same order, each handle translated by `m`. */
  ghost predicate Corresponds(now: Atom, was: Atom, m: map<Handle, Handle>) {
    && now.atomType == was.atomType && now.tv == was.tv && now.av == was.av
    && (was.Node? ==> now == was)
    && (was.Link? ==> now.Link? && RemappedSeq(now.outgoing, was.outgoing, m))
  }

  /** Translates a sequence of saved handles; a handle missing from the map
      is an inconsistency. */
  function RemapHandles(hs: seq<Handle>, m: map<Handle, Handle>): (r: Result<seq<Handle>>)
    ensures r.Ok? <==> forall i :: 0 <= i < |hs| ==> hs[i] in m
    ensures r.Ok? ==> RemappedSeq(r.value, hs, m)
    ensures r.Fail? ==> r.kind == Inconsistency
  {
    if hs == [] then Ok([])
    else if hs[0] !in m then Fail(Inconsistency)
    else
      var tail :- RemapHandles(hs[1..], m);
      assert forall i :: 1 <= i < |hs| ==> hs[i] == hs[1..][i - 1];
      Ok([m[hs[0]]] + tail)
  }

  /** Translates every handle an atom holds. Nodes hold none. */
  function UpdateAtom(a: Atom, m: map<Handle, Handle>): (r: Result<Atom>)
    ensures r.Ok? <==> Resolvable(a, m)
    ensures r.Ok? ==> Corresponds(r.value, a, m)
    ensures r.Fail? ==> r.kind == Inconsistency
  {
    match a
    case Node(_, _, _, _) => Ok(a)
    case Link(t, tv, av, out) =>
      var now :- RemapHandles(out, m);
      Ok(Link(t, tv, av, now))
  }

  /** The second pass over a whole arena: every atom translated, or an
      inconsistency if any handle is unmapped. */
  function UpdateAll(atoms: seq<Atom>, m: map<Handle, Handle>): (r: Result<seq<Atom>>)
    ensures r.Ok? <==> forall i :: 0 <= i < |atoms| ==> Resolvable(atoms[i], m)
    ensures r.Ok? ==> |r.value| == |atoms| && forall i :: 0 <= i < |atoms| ==> UpdateAtom(atoms[i], m) == Ok(r.value[i])
    ensures r.Fail? ==> r.kind == Inconsistency
  {
    if atoms == [] then Ok([])
    else
      var head :- UpdateAtom(atoms[0], m);
      var tail :- UpdateAll(atoms[1..], m);
      assert forall i :: 1 <= i < |atoms| ==> atoms[i] == atoms[1..][i - 1];
      Ok([head] + tail)
  }

  // ---------------------------------------------------------------------
  // Type identifiers

  /** The class server's lookup by name: the identifier of the first entry
      with that name. */
  function IdOf(registry: seq<TypeEntry>, name: string): (r: Option<TypeId>)
    ensures r.Some? ==> exists i :: 0 <= i < |registry| && registry[i] == TypeEntry(name, r.value)
    ensures r.None? ==> forall i :: 0 <= i < |registry| ==> registry[i].name != name
  {
    if registry == [] then None
    else if registry[0].name == name then Some(registry[0].id)
    else
      var r := IdOf(registry[1..], name);
      assert forall i :: 1 <= i < |registry| ==> registry[i] == registry[1..][i - 1];
      r
  }

  /** The lookup returns the identifier of the first entry with the name. */
  lemma {:induction false} IdOfFirst(registry: seq<TypeEntry>, name: string, i: nat)
    requires i < |registry| && registry[i].name == name
    requires forall k :: 0 <= k < i ==> registry[k].name != name
    ensures IdOf(registry, name) == Some(registry[i].id)
  {
    if i > 0 {
      assert registry[1..][i - 1] == registry[i];
      IdOfFirst(registry[1..], name, i - 1);
    }
  }

  /** Type names are unique in a class server. */
  ghost predicate DistinctNames(registry: seq<TypeEntry>) {
    forall i, j :: 0 <= i < j < |registry| ==> registry[i].name != registry[j].name
  }

  /** The translation table from saved type identifiers to the identifiers the
      running class server uses for the same names. A saved type whose name is
      not known any more gets no entry. */
  function TypeTable(saved: seq<TypeEntry>, registry: seq<TypeEntry>): map<TypeId, TypeId> {
    if saved == [] then map[]
    else
      var m := TypeTable(saved[..|saved| - 1], registry);
      match IdOf(registry, saved[|saved| - 1].name)
      case None => m
      case Some(id) => m[saved[|saved| - 1].id := id]
  }

  /** Every translation goes from a saved identifier to the running
      identifier of the same name, and every saved type whose name is known
      is translated. */
  lemma {:induction false} TypeTableSound(saved: seq<TypeEntry>, registry: seq<TypeEntry>)
    ensures var r := TypeTable(saved, registry);
            && (forall t :: t in r ==> exists i :: 0 <= i < |saved| && saved[i].id == t && IdOf(registry, saved[i].name) == Some(r[t]))
            && (forall i :: 0 <= i < |saved| && IdOf(registry, saved[i].name).Some? ==> saved[i].id in r)
  {
    if saved != [] {
      var init := saved[..|saved| - 1];
      TypeTableSound(init, registry);
      assert forall i :: 0 <= i < |init| ==> init[i] == saved[i];
    }
  }

  /** One more saved entry adds at most one translation. */
  lemma TypeTableStep(saved: seq<TypeEntry>, e: TypeEntry, registry: seq<TypeEntry>)
    ensures IdOf(registry, e.name).None? ==> TypeTable(saved + [e], registry) == TypeTable(saved, registry)
    ensures IdOf(registry, e.name).Some? ==>
              TypeTable(saved + [e], registry) == TypeTable(saved, registry)[e.id := IdOf(registry, e.name).value]
  {
    assert (saved + [e])[..|saved|] == saved;
  }

  // ---------------------------------------------------------------------
  // Indices

  /** The loaded counterpart of a saved index: the same type, translated by
      `types`, and the same handles in the same order, translated by `m`. */
  ghost predicate IndexCorresponds(now: IndexList, was: IndexList, types: map<TypeId, TypeId>, m: map<Handle, Handle>) {
    was.atomType in types && now.atomType == types[was.atomType] && RemappedSeq(now.handles, was.handles, m)
  }

  ghost predicate IndexResolvable(l: IndexList, types: map<TypeId, TypeId>, m: map<Handle, Handle>) {
    l.atomType in types && forall i :: 0 <= i < |l.handles| ==> l.handles[i] in m
  }

  function TranslateIndex(l: IndexList, types: map<TypeId, TypeId>, m: map<Handle, Handle>): (r: Result<IndexList>)
    ensures r.Ok? <==> IndexResolvable(l, types, m)
    ensures r.Ok? ==> IndexCorresponds(r.value, l, types, m)
    ensures r.Fail? ==> r.kind == Inconsistency
  {
    if l.atomType !in types then Fail(Inconsistency)
    else
      var hs :- RemapHandles(l.handles, m);
      Ok(IndexList(types[l.atomType], hs))
  }

  function TranslateIndices(ls: seq<IndexList>, types: map<TypeId, TypeId>, m: map<Handle, Handle>): (r: Result<seq<IndexList>>)
    ensures r.Ok? <==> forall i :: 0 <= i < |ls| ==> IndexResolvable(ls[i], types, m)
    ensures r.Ok? ==> |r.value| == |ls| && forall i :: 0 <= i < |ls| ==> TranslateIndex(ls[i], types, m) == Ok(r.value[i])
    ensures r.Fail? ==> r.kind == Inconsistency
  {
    if ls == [] then Ok([])
    else
      var head :- TranslateIndex(ls[0], types, m);
      var tail :- TranslateIndices(ls[1..], types, m);
      assert forall i :: 1 <= i < |ls| ==> ls[i] == ls[1..][i - 1];
      Ok([head] + tail)
  }

  // ---------------------------------------------------------------------
  // Repositories

  /** A repository's loaded state: the same data, its held handles translated. */
  ghost predicate RepoCorresponds(now: RepoState, was: RepoState, m: map<Handle, Handle>) {
    now.data == was.data && RemappedSeq(now.held, was.held, m)
  }

  /** Translates the handles a repository holds. */
  function RemapRepo(s: RepoState, m: map<Handle, Handle>): (r: Result<RepoState>)
    ensures r.Ok? <==> forall i :: 0 <= i < |s.held| ==> s.held[i] in m
    ensures r.Ok? ==> RepoCorresponds(r.value, s, m)
    ensures r.Fail? ==> r.kind == Inconsistency
  {
    var held :- RemapHandles(s.held, m);
    Ok(RepoState(s.data, held))
  }
}
