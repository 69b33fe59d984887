/** The saving and loading service: the object that writes a binary image
    of the atom table and of the registered savable repositories, and reads
    one back.

    Each method is proved against a function of the model: the save and
    load methods against the functions of module `Snapshot`, `UpdateHandles`
    and `UpdateAllHandles` against `UpdateAtom` and `UpdateAll`,
    `LoadClassServerInfo` against `TypeTable`, and `SaveClassServerInfo` and
    `SaveIndices` against the writers of module `Codec`;
    `AddSavableRepository` states its new registry directly. */
module Persistence {
  import opened Outcomes
  import opened Atoms
  import opened Codec
  import opened HandleMaps
  import opened Snapshot

  /** The atom table a save reads and a load fills: an arena in which an
      atom's handle is its position, and the per-type indices. */
  class AtomTable {
    var atoms: seq<Atom>
    var indices: seq<IndexList>

    constructor ()
      ensures atoms == [] && indices == []
    {
      atoms := [];
      indices := [];
    }
  }

  /** What a pass of the loader hands on: the old-to-new handle map so far
      and the fields still to be read. */
  datatype Pass = Pass(handles: map<Handle, Handle>, rest: seq<Token>)

  class SavingLoading {
    /** The registered savable repositories, by name. */
    var repositories: map<string, RepoState>

    constructor ()
      ensures repositories == map[]
    {
      repositories := map[];
    }

    // -------------------------------------------------------------------
    // Saving

    /** Writes every type of the class server with its identifier. */
    method SaveClassServerInfo(registry: seq<TypeEntry>) returns (out: seq<Token>)
      ensures out == WriteClassServerInfo(registry)
    {
      var body := [];
      var i := 0;
      while i < |registry|
        invariant i <= |registry|
        invariant body == WriteN(registry[..i], WriteTypeEntry)
      {
        WriteNPrefix(registry, i, WriteTypeEntry);
        body := body + WriteTypeEntry(registry[i]);
        i := i + 1;
      }
      assert registry[..i] == registry;
      out := WriteNat(|registry|) + body;
    }

    /** Writes the node section and advances the running count of saved atoms. */
    method SaveNodes(table: AtomTable, processed: nat) returns (out: seq<Token>, count: nat)
      ensures out == AtomSection(table.atoms, false)
      ensures count == processed + |Saved(table.atoms, false)|
    {
      out, count := SaveAtoms(table, false, processed);
    }

    /** Writes the link section and advances the running count of saved atoms. */
    method SaveLinks(table: AtomTable, processed: nat) returns (out: seq<Token>, count: nat)
      ensures out == AtomSection(table.atoms, true)
      ensures count == processed + |Saved(table.atoms, true)|
    {
      out, count := SaveAtoms(table, true, processed);
    }

    /** One pass over the table writing a record (atom members, then node or
        link members) for every atom of the section's kind. */
    method SaveAtoms(table: AtomTable, links: bool, processed: nat) returns (out: seq<Token>, count: nat)
      ensures out == AtomSection(table.atoms, links)
      ensures count == processed + |Saved(table.atoms, links)|
    {
      var atoms := table.atoms;
      var body := [];
      var written := 0;
      var h := 0;
      while h < |atoms|
        invariant h <= |atoms|
        invariant body == WriteN(SavedUpTo(atoms, h, links), WriteRecord)
        invariant written == |SavedUpTo(atoms, h, links)|
      {
        var a := atoms[h];
        if IsKind(a, links) {
          // writeAtom, then writeNode or writeLink
          body := body + WriteRecord(Record(h, a));
          written := written + 1;
          assert body == WriteN(SavedUpTo(atoms, h + 1, links), WriteRecord) &&
                 written == |SavedUpTo(atoms, h + 1, links)| by {
            SavedStep(atoms, h, links);
            WriteNAppend(SavedUpTo(atoms, h, links), Record(h, a), WriteRecord);
          }
        } else {
          assert SavedUpTo(atoms, h + 1, links) == SavedUpTo(atoms, h, links) by {
            SavedStep(atoms, h, links);
          }
        }
        h := h + 1;
      }
      out := WriteNat(written) + body;
      count := processed + written;
    }

    /** Writes every index of the table. */
    method SaveIndices(table: AtomTable) returns (out: seq<Token>)
      ensures out == WriteIndices(table.indices)
    {
      var indices := table.indices;
      var body := [];
      var i := 0;
      while i < |indices|
        invariant i <= |indices|
        invariant body == WriteN(indices[..i], WriteIndexList)
      {
        WriteNPrefix(indices, i, WriteIndexList);
        body := body + WriteIndexList(indices[i]);
        i := i + 1;
      }
      assert indices[..i] == indices;
      out := WriteNat(|indices|) + body;
    }

    /** Writes every registered repository, tagged with its name, in the
        registry's iteration order (`order`). */
    method SaveRepositories() returns (out: seq<Token>, ghost order: seq<string>)
      ensures IsEnumeration(order, repositories.Keys)
      ensures forall i :: 0 <= i < |order| ==> order[i] in repositories
      ensures out == RepositorySection(repositories, order)
    {
      var names := repositories.Keys;
      var body := [];
      var written := 0;
      order := [];
      while names != {}
        invariant Enumerating(order, names, repositories.Keys)
        invariant body == WriteN(RepoEntries(repositories, order), WriteRepoEntry)
        invariant written == |order|
        decreases names
      {
        var n :| n in names;
        var entry := Repository(n, repositories[n]);
        WriteNAppend(RepoEntries(repositories, order), entry, WriteRepoEntry);
        RepoEntriesAppend(repositories, order, n);
        EnumeratingStep(order, names, repositories.Keys, n);
        body := body + WriteRepoEntry(entry);
        order := order + [n];
        names := names - {n};
        written := written + 1;
      }
      EnumeratingDone(order, repositories.Keys);
      out := WriteNat(written) + body;
    }

    /** Writes a complete image: class-server information, nodes, links,
        indices, repositories. */
    method Save(table: AtomTable, registry: seq<TypeEntry>) returns (out: seq<Token>, ghost order: seq<string>)
      ensures IsEnumeration(order, repositories.Keys)
      ensures forall i :: 0 <= i < |order| ==> order[i] in repositories
      ensures out == Dump(registry, table.atoms, table.indices, repositories, order)
    {
      var info := SaveClassServerInfo(registry);
      var processed := 0;
      var nodes, links;
      nodes, processed := SaveNodes(table, processed);
      links, processed := SaveLinks(table, processed);
      var indices := SaveIndices(table);
      var repos;
      repos, order := SaveRepositories();
      out := info + (nodes + (links + (indices + repos)));
    }

    // -------------------------------------------------------------------
    // Loading

    /** Reads the saved class-server information and builds the table that
        translates saved type identifiers to the running ones, by name. */
    method LoadClassServerInfo(ts: seq<Token>, registry: seq<TypeEntry>) returns (r: Result<Decoded<map<TypeId, TypeId>>>)
      ensures var info := ReadClassServerInfo(ts);
              && (r.Ok? <==> info.Some?)
              && (r.Ok? ==> r.value == Decoded(TypeTable(info.value.value, registry), info.value.rest))
              && (r.Fail? ==> r.kind == IO)
    {
      var count := ReadNat(ts);
      if count.None? {
        return Fail(IO);
      }
      var n := count.value.value;
      var cur := count.value.rest;
      var types: map<TypeId, TypeId> := map[];
      ghost var saved: seq<TypeEntry> := [];
      assert ReadClassServerInfo(ts) == Prefixed(saved, ReadN(cur, n, ReadTypeEntry)) by {
        PrefixedNothing(ReadN(cur, n, ReadTypeEntry));
      }
      var i := 0;
      while i < n
        invariant i <= n && |saved| == i
        invariant ReadClassServerInfo(ts) == Prefixed(saved, ReadN(cur, n - i, ReadTypeEntry))
        invariant types == TypeTable(saved, registry)
      {
        var e := ReadTypeEntry(cur);
        if e.None? {
          assert ReadClassServerInfo(ts) == None by {
            ReadNStep(saved, cur, n - i - 1, ReadTypeEntry);
          }
          return Fail(IO);
        }
        var entry := e.value.value;
        assert ReadClassServerInfo(ts) == Prefixed(saved + [entry], ReadN(e.value.rest, n - (i + 1), ReadTypeEntry)) by {
          ReadNStep(saved, cur, n - i - 1, ReadTypeEntry);
        }
        var id := IdOf(registry, entry.name);
        if id.Some? {
          types := types[entry.id := id.value];
        }
        assert types == TypeTable(saved + [entry], registry) by {
          TypeTableStep(saved, entry, registry);
        }
        saved := saved + [entry];
        cur := e.value.rest;
        i := i + 1;
      }
      assert saved + [] == saved;
      return Ok(Decoded(types, cur));
    }

    /** Reads the node section into the table; fills the old-to-new map. */
    method LoadNodes(ts: seq<Token>, table: AtomTable, m: map<Handle, Handle>) returns (r: Result<Pass>)
      modifies table
      ensures var spec := AllocateSection(ts, false, old(table.atoms), m);
              && (r.Ok? <==> spec.Ok?)
              && (r.Ok? ==> table.atoms == spec.value.atoms && r.value == Pass(spec.value.handles, spec.value.rest))
              && (r.Fail? ==> r.kind == spec.kind)
      ensures table.indices == old(table.indices)
    {
      r := LoadAtoms(ts, false, table, m);
    }

    /** Reads the link section into the table; outgoing sets keep their saved
        handles until the second pass. */
    method LoadLinks(ts: seq<Token>, table: AtomTable, m: map<Handle, Handle>) returns (r: Result<Pass>)
      modifies table
      ensures var spec := AllocateSection(ts, true, old(table.atoms), m);
              && (r.Ok? <==> spec.Ok?)
              && (r.Ok? ==> table.atoms == spec.value.atoms && r.value == Pass(spec.value.handles, spec.value.rest))
              && (r.Fail? ==> r.kind == spec.kind)
      ensures table.indices == old(table.indices)
    {
      r := LoadAtoms(ts, true, table, m);
    }

    method LoadAtoms(ts: seq<Token>, links: bool, table: AtomTable, m: map<Handle, Handle>) returns (r: Result<Pass>)
      modifies table
      ensures var spec := AllocateSection(ts, links, old(table.atoms), m);
              && (r.Ok? <==> spec.Ok?)
              && (r.Ok? ==> table.atoms == spec.value.atoms && r.value == Pass(spec.value.handles, spec.value.rest))
              && (r.Fail? ==> r.kind == spec.kind)
      ensures table.indices == old(table.indices)
    {
      var count := ReadNat(ts);
      if count.None? {
        return Fail(IO);
      }
      var n := count.value.value;
      var cur := count.value.rest;
      var handles: map<Handle, Handle> := m;
      var i := 0;
      while i < n
        invariant i <= n
        invariant table.indices == old(table.indices)
        invariant AllocateSection(ts, links, old(table.atoms), m) == Allocate(cur, n - i, ReadRecord(links), table.atoms, handles)
      {
        var rec := ReadRecord(links)(cur);
        if rec.None? {
          return Fail(IO);
        }
        var old_handle := rec.value.value.handle;
        if old_handle in handles {
          return Fail(Inconsistency);
        }
        handles := handles[old_handle := |table.atoms|];
        table.atoms := table.atoms + [rec.value.value.atom];
        cur := rec.value.rest;
        i := i + 1;
      }
      return Ok(Pass(handles, cur));
    }

    /** Translates, in place, every handle the atom at `h` holds. */
    method UpdateHandles(table: AtomTable, h: Handle, m: map<Handle, Handle>) returns (r: Result<()>)
      requires h < |table.atoms|
      modifies table
      ensures var u := UpdateAtom(old(table.atoms[h]), m);
              && (r.Ok? <==> u.Ok?)
              && (r.Ok? ==> table.atoms == old(table.atoms)[h := u.value])
              && (r.Fail? ==> r.kind == Inconsistency && table.atoms == old(table.atoms))
      ensures table.indices == old(table.indices)
    {
      var a := table.atoms[h];
      if a.Node? {
        return Ok(());
      }
      var out := a.outgoing;
      var i := 0;
      while i < |out|
        invariant i <= |out| == |a.outgoing|
        invariant forall j :: 0 <= j < i ==> a.outgoing[j] in m && out[j] == m[a.outgoing[j]]
        invariant forall j :: i <= j < |out| ==> out[j] == a.outgoing[j]
      {
        if out[i] !in m {
          return Fail(Inconsistency);
        }
        out := out[i := m[out[i]]];
        i := i + 1;
      }
      ghost var u := UpdateAtom(a, m);
      assert Resolvable(a, m);
      assert u.value.outgoing == out;
      table.atoms := table.atoms[h := a.(outgoing := out)];
      return Ok(());
    }

    /** The second pass: every atom of the table has its handles translated. */
    method UpdateAllHandles(table: AtomTable, m: map<Handle, Handle>) returns (r: Result<()>)
      modifies table
      ensures var spec := UpdateAll(old(table.atoms), m);
              && (r.Ok? <==> spec.Ok?)
              && (r.Ok? ==> table.atoms == spec.value)
              && (r.Fail? ==> r.kind == Inconsistency)
      ensures table.indices == old(table.indices)
    {
      ghost var was := table.atoms;
      var h := 0;
      while h < |table.atoms|
        invariant |table.atoms| == |was| && h <= |was|
        invariant forall j :: 0 <= j < h ==> UpdateAtom(was[j], m) == Ok(table.atoms[j])
        invariant forall j :: h <= j < |was| ==> table.atoms[j] == was[j]
        invariant table.indices == old(table.indices)
      {
        var u := UpdateHandles(table, h, m);
        if u.Fail? {
          return Fail(Inconsistency);
        }
        h := h + 1;
      }
      r := Ok(());
    }

    /** Reads the index section, translating each index's type through
        `types` and its handles through `m`, and installs the result. */
    method LoadIndices(ts: seq<Token>, table: AtomTable, types: map<TypeId, TypeId>, m: map<Handle, Handle>) returns (r: Result<seq<Token>>)
      modifies table
      ensures var spec := RestoreIndices(ts, types, m);
              && (r.Ok? <==> spec.Ok?)
              && (r.Ok? ==> table.indices == spec.value.value && r.value == spec.value.rest)
              && (r.Fail? ==> r.kind == spec.kind)
      ensures table.atoms == old(table.atoms)
    {
      var d := ReadIndices(ts);
      if d.None? {
        return Fail(IO);
      }
      var saved := d.value.value;
      var loaded := [];
      var i := 0;
      while i < |saved|
        invariant i <= |saved| && |loaded| == i
        invariant forall j :: 0 <= j < i ==> TranslateIndex(saved[j], types, m) == Ok(loaded[j])
      {
        var l := TranslateIndex(saved[i], types, m);
        if l.Fail? {
          return Fail(l.kind);
        }
        loaded := loaded + [l.value];
        i := i + 1;
      }
      table.indices := loaded;
      return Ok(d.value.rest);
    }

    /** Reads the repository section: each name tag must be registered, and
        that repository reads its blob and translates the handles it holds. */
    method LoadRepositories(ts: seq<Token>, m: map<Handle, Handle>) returns (r: Result<seq<Token>>)
      modifies this
      ensures var spec := RestoreRepositorySection(ts, old(repositories), m);
              && (r.Ok? <==> spec.Ok?)
              && (r.Ok? ==> repositories == spec.value.value && r.value == spec.value.rest)
              && (r.Fail? ==> r.kind == spec.kind)
    {
      var count := ReadNat(ts);
      if count.None? {
        return Fail(IO);
      }
      var n := count.value.value;
      var cur := count.value.rest;
      var i := 0;
      while i < n
        invariant i <= n
        invariant RestoreRepositorySection(ts, old(repositories), m) == RestoreRepositories(cur, n - i, repositories, m)
      {
        var name := ReadText(cur);
        if name.None? {
          return Fail(IO);
        }
        if name.value.value !in repositories {
          return Fail(Runtime);
        }
        var blob := ReadRepoState(name.value.rest);
        if blob.None? {
          return Fail(IO);
        }
        var state := RemapRepo(blob.value.value, m);
        if state.Fail? {
          return Fail(state.kind);
        }
        repositories := repositories[name.value.value := state.value];
        cur := blob.value.rest;
        i := i + 1;
      }
      return Ok(cur);
    }

    /** Resets every registered repository; the registrations stay. */
    method ClearRepositories()
      modifies this
      ensures repositories == Cleared(old(repositories))
    {
      var names := repositories.Keys;
      while names != {}
        invariant repositories.Keys == old(repositories).Keys
        invariant names <= repositories.Keys
        invariant forall n :: n in repositories ==> repositories[n] == if n in names then old(repositories)[n] else EmptyRepo
        decreases names
      {
        var n :| n in names;
        repositories := repositories[n := EmptyRepo];
        names := names - {n};
      }
    }

    /** Registers a repository under its name; a name already registered is
        a runtime error and leaves the registry as it was. */
    method AddSavableRepository(repository: Repository) returns (r: Result<()>)
      modifies this
      ensures repository.id in old(repositories) ==> r == Fail(Runtime) && repositories == old(repositories)
      ensures repository.id !in old(repositories) ==>
                r == Ok(()) && repositories == old(repositories)[repository.id := repository.state]
    {
      if repository.id in repositories {
        return Fail(Runtime);
      }
      repositories := repositories[repository.id := repository.state];
      return Ok(());
    }

    /** Loads an image into an empty table. A table that already holds atoms
        is rejected with an inconsistency before anything changes. */
    method Load(ts: seq<Token>, table: AtomTable, registry: seq<TypeEntry>) returns (r: Result<()>)
      modifies this, table
      ensures var spec := Restore(ts, registry, old(table.atoms), old(repositories));
              && (r.Ok? <==> spec.Ok?)
              && (r.Ok? ==> table.atoms == spec.value.atoms && table.indices == spec.value.indices && repositories == spec.value.repos)
              && (r.Fail? ==> r.kind == spec.kind)
      ensures |old(table.atoms)| > 0 ==>
                r == Fail(Inconsistency) && table.atoms == old(table.atoms) &&
                table.indices == old(table.indices) && repositories == old(repositories)
    {
      if |table.atoms| > 0 {
        return Fail(Inconsistency);
      }
      ClearRepositories();
      var info := LoadClassServerInfo(ts, registry);
      if info.Fail? {
        return Fail(info.kind);
      }
      var nodes := LoadNodes(info.value.rest, table, map[]);
      if nodes.Fail? {
        return Fail(nodes.kind);
      }
      var links := LoadLinks(nodes.value.rest, table, nodes.value.handles);
      if links.Fail? {
        return Fail(links.kind);
      }
      var rest := LoadIndices(links.value.rest, table, info.value.value, links.value.handles);
      if rest.Fail? {
        return Fail(rest.kind);
      }
      var updated := UpdateAllHandles(table, links.value.handles);
      if updated.Fail? {
        return Fail(updated.kind);
      }
      var done := LoadRepositories(rest.value, links.value.handles);
      if done.Fail? {
        return Fail(done.kind);
      }
      return Ok(());
    }
  }
}
