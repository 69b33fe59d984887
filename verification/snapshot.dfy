/** What a save writes and what a load computes, as functions of values.

    The save and load methods of `Persistence.SavingLoading` are proved to
    produce exactly these; their per-atom, type-table and codec steps are
    proved against the functions of `HandleMaps` and `Codec`. The
    properties of saving and loading (round trip, fresh handles, complete
    translation, error outcomes) are proved about these functions in module
    `Properties`. */
module Snapshot {
  import opened Outcomes
  import opened Atoms
  import opened Codec
  import opened HandleMaps

  // ---------------------------------------------------------------------
  // Saving

  /** Whether an atom belongs to the link section (`true`) or the node section. */
  predicate IsKind(a: Atom, links: bool) {
    a.Link? == links
  }

  /** The records of one section for the first `k` atoms of the table: the
      atoms of that kind, in handle order, each tagged with its handle. */
  function SavedUpTo(atoms: seq<Atom>, k: nat, links: bool): (r: seq<Record>)
    requires k <= |atoms|
    ensures forall j :: 0 <= j < |r| ==> r[j].handle < k && r[j].atom == atoms[r[j].handle] && IsKind(r[j].atom, links)
    ensures forall i, j :: 0 <= i < j < |r| ==> r[i].handle < r[j].handle
  {
    if k == 0 then []
    else
      var init := SavedUpTo(atoms, k - 1, links);
      if IsKind(atoms[k - 1], links) then
        var r := init + [Record(k - 1, atoms[k - 1])];
        assert forall j :: 0 <= j < |init| ==> r[j] == init[j];
        r
      else init
  }

  /** No atom of the section's kind is left out. */
  lemma {:induction false} SavedComplete(atoms: seq<Atom>, k: nat, links: bool, h: nat)
    requires h < k <= |atoms|
    requires IsKind(atoms[h], links)
    ensures exists j :: 0 <= j < |SavedUpTo(atoms, k, links)| && SavedUpTo(atoms, k, links)[j].handle == h
  {
    var init := SavedUpTo(atoms, k - 1, links);
    var r := SavedUpTo(atoms, k, links);
    if h == k - 1 {
      assert r[|init|].handle == h by {
        SavedStep(atoms, h, links);
      }
    } else {
      SavedComplete(atoms, k - 1, links, h);
      var j :| 0 <= j < |init| && init[j].handle == h;
      assert j < |r| && r[j].handle == h by {
        SavedStep(atoms, k - 1, links);
      }
    }
  }

  function Saved(atoms: seq<Atom>, links: bool): seq<Record> {
    SavedUpTo(atoms, |atoms|, links)
  }

  /** Looking at one more atom adds its record when it is of the section's kind. */
  lemma SavedStep(atoms: seq<Atom>, h: nat, links: bool)
    requires h < |atoms|
    ensures IsKind(atoms[h], links) ==>
              SavedUpTo(atoms, h + 1, links) == SavedUpTo(atoms, h, links) + [Record(h, atoms[h])]
    ensures !IsKind(atoms[h], links) ==> SavedUpTo(atoms, h + 1, links) == SavedUpTo(atoms, h, links)
  {
  }

  /** The node section (`links == false`) or the link section: a count, then
      one record per atom of that kind. */
  function AtomSection(atoms: seq<Atom>, links: bool): seq<Token> {
    WriteList(Saved(atoms, links), WriteRecord)
  }

  /** `order` lists every registered repository name exactly once. */
  ghost predicate IsEnumeration(order: seq<string>, names: set<string>) {
    && (forall i, j :: 0 <= i < j < |order| ==> order[i] != order[j])
    && (forall i :: 0 <= i < |order| ==> order[i] in names)
    && (forall n :: n in names ==> n in order)
  }

  /** Part way through enumerating `keys`: `order` lists, without
      repetition, exactly the keys that are no longer in `names`. */
  ghost predicate Enumerating(order: seq<string>, names: set<string>, keys: set<string>) {
    && names <= keys
    && (forall i :: 0 <= i < |order| ==> order[i] in keys && order[i] !in names)
    && (forall i, j :: 0 <= i < j < |order| ==> order[i] != order[j])
    && (forall n :: n in keys && n !in names ==> n in order)
  }

  lemma EnumeratingStep(order: seq<string>, names: set<string>, keys: set<string>, n: string)
    requires Enumerating(order, names, keys) && n in names
    ensures Enumerating(order + [n], names - {n}, keys)
  {
    var o := order + [n];
    assert forall i :: 0 <= i < |order| ==> o[i] == order[i];
  }

  lemma EnumeratingDone(order: seq<string>, keys: set<string>)
    requires Enumerating(order, {}, keys)
    ensures IsEnumeration(order, keys)
    ensures forall i :: 0 <= i < |order| ==> order[i] in keys
  {
  }

  function RepoEntries(repos: map<string, RepoState>, order: seq<string>): (r: seq<Repository>)
    requires forall i :: 0 <= i < |order| ==> order[i] in repos
    ensures |r| == |order|
  {
    seq(|order|, i requires 0 <= i < |order| => Repository(order[i], repos[order[i]]))
  }

  lemma RepoEntriesAppend(repos: map<string, RepoState>, order: seq<string>, n: string)
    requires forall i :: 0 <= i < |order| ==> order[i] in repos
    requires n in repos
    ensures RepoEntries(repos, order + [n]) == RepoEntries(repos, order) + [Repository(n, repos[n])]
  {
    var o := order + [n];
    assert forall i :: 0 <= i < |order| ==> o[i] == order[i];
  }

  /** The repository section: a count, then each repository's name tag and blob. */
  function RepositorySection(repos: map<string, RepoState>, order: seq<string>): seq<Token>
    requires forall i :: 0 <= i < |order| ==> order[i] in repos
  {
    WriteList(RepoEntries(repos, order), WriteRepoEntry)
  }

  /** The whole image, sections in the order save writes them. */
  function Dump(registry: seq<TypeEntry>, atoms: seq<Atom>, indices: seq<IndexList>,
                repos: map<string, RepoState>, order: seq<string>): seq<Token>
    requires forall i :: 0 <= i < |order| ==> order[i] in repos
  {
    WriteClassServerInfo(registry) +
    (AtomSection(atoms, false) +
    (AtomSection(atoms, true) +
    (WriteIndices(indices) +
    RepositorySection(repos, order))))
  }

  // ---------------------------------------------------------------------
  // Loading, first pass

  /** The atom table and the old-to-new handle map after part of the first
      pass, with the fields still to be read. */
  datatype Arena = Arena(atoms: seq<Atom>, handles: map<Handle, Handle>, rest: seq<Token>)

  /** Reads `n` records of one section with the section's record reader;
      each is appended to the arena, which assigns it the next handle, and
      its saved handle is mapped to that new handle. A saved handle that is
      already mapped is an inconsistency. */
  function Allocate(ts: seq<Token>, n: nat, read: seq<Token> -> Option<Decoded<Record>>,
                    atoms: seq<Atom>, m: map<Handle, Handle>): Result<Arena>
    decreases n
  {
    if n == 0 then Ok(Arena(atoms, m, ts))
    else
      var rec :- OrIO(read(ts));
      if rec.value.handle in m then Fail(Inconsistency)
      else Allocate(rec.rest, n - 1, read, atoms + [rec.value.atom], m[rec.value.handle := |atoms|])
  }

  /** A whole node or link section: the count, then the records. */
  function AllocateSection(ts: seq<Token>, links: bool, atoms: seq<Atom>, m: map<Handle, Handle>): Result<Arena> {
    var count :- OrIO(ReadNat(ts));
    Allocate(count.rest, count.value, ReadRecord(links), atoms, m)
  }

  /** The index section, read and then translated. */
  function RestoreIndices(ts: seq<Token>, types: map<TypeId, TypeId>, m: map<Handle, Handle>): Result<Decoded<seq<IndexList>>> {
    var d :- OrIO(ReadIndices(ts));
    var ls :- TranslateIndices(d.value, types, m);
    Ok(Decoded(ls, d.rest))
  }

  /** Reads `n` repository entries. A name tag that is not registered is a
      runtime error; otherwise the repository reads its blob and translates
      the handles it holds with the completed map. */
  function RestoreRepositories(ts: seq<Token>, n: nat, repos: map<string, RepoState>, m: map<Handle, Handle>): Result<Decoded<map<string, RepoState>>>
    decreases n
  {
    if n == 0 then Ok(Decoded(repos, ts))
    else
      var name :- OrIO(ReadText(ts));
      if name.value !in repos then Fail(Runtime)
      else
        var blob :- OrIO(ReadRepoState(name.rest));
        var state :- RemapRepo(blob.value, m);
        RestoreRepositories(blob.rest, n - 1, repos[name.value := state], m)
  }

  function RestoreRepositorySection(ts: seq<Token>, repos: map<string, RepoState>, m: map<Handle, Handle>): Result<Decoded<map<string, RepoState>>> {
    var count :- OrIO(ReadNat(ts));
    RestoreRepositories(count.rest, count.value, repos, m)
  }

  /** Every registered repository reset to the empty state. */
  function Cleared(repos: map<string, RepoState>): (r: map<string, RepoState>)
    ensures r.Keys == repos.Keys
    ensures forall n :: n in r ==> r[n] == EmptyRepo
  {
    map n | n in repos :: EmptyRepo
  }

  // ---------------------------------------------------------------------
  // Loading, whole

  datatype Restored = Restored(atoms: seq<Atom>, indices: seq<IndexList>, repos: map<string, RepoState>, handles: map<Handle, Handle>)

  /** A load of image `ts` into a table holding `atoms0`, with the repositories
      `repos0` registered, given the running class server `registry`. The
      first pass reads the class-server information, both atom sections and
      the index section; the second pass then rewrites the links' outgoing
      handles; last, the repositories read their state. */
  function Restore(ts: seq<Token>, registry: seq<TypeEntry>, atoms0: seq<Atom>, repos0: map<string, RepoState>): Result<Restored> {
    if |atoms0| > 0 then Fail(Inconsistency)
    else
      var info :- OrIO(ReadClassServerInfo(ts));
      var types := TypeTable(info.value, registry);
      var nodes :- AllocateSection(info.rest, false, [], map[]);
      var links :- AllocateSection(nodes.rest, true, nodes.atoms, nodes.handles);
      var indices :- RestoreIndices(links.rest, types, links.handles);
      var atoms :- UpdateAll(links.atoms, links.handles);
      var repos :- RestoreRepositorySection(indices.rest, Cleared(repos0), links.handles);
      Ok(Restored(atoms, indices.value, repos.value, links.handles))
  }
}
