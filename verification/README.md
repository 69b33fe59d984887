# AtomSpace persistence, modelled in Dafny

This project models the persistence service of the OpenCog AtomSpace: the
`SavingLoading` class declared in `src/AtomSpace/SavingLoading.h`. The
service writes a binary image of the whole atom table and reads it back.
The image holds the class-server information, the nodes, the links, the
per-type indices and the blobs of the registered savable repositories. The
source file is a header, so the model follows its declarations and the
promises its doc comments make.

The model has seven modules:

- `Outcomes` (`outcomes.dfy`): the result type. The exceptions the class may
  throw become the error kinds `IO`, `Inconsistency` (InconsistenceException)
  and `Runtime` (RuntimeException).
- `Atoms` (`atoms.dfy`): nodes and links with their truth and attention
  values, type entries of the class server, index lists and repository
  states. A handle is a position in the atom table's arena.
- `Codec` (`codec.dfy`): the record codec. The image is a sequence of typed
  fields (`Token`): integers, reals and strings. The writers of single
  values and of fixed groups of fields (`WriteNat`, `WriteText`,
  `WriteTruthValue`, `WriteAttentionValue`, `WriteAtom`, `WriteTypeEntry`,
  `WriteClassServerInfo`, `WriteIndexList`, `WriteIndices`, `WriteRepoState`,
  `WriteRepoEntry`) state in their own `ensures` that the matching reader
  gives back exactly what was written, whatever follows it. The generic
  writers `WriteN` and `WriteList` and the record writers `WriteNode`,
  `WriteLink` and `WriteRecord` carry no `ensures`; their round trips are
  the lemmas `ReadNWriteN`, `ReadListWriteList` and `RecordRoundTrip`.
  The `Read…Exact` lemmas state the converse: whatever the reader accepts is
  the encoding of what it returned.
- `HandleMaps` (`handlemaps.dfy`): translation of old handles through the
  old-to-new map, which is the second pass. It also builds the table that
  translates saved type identifiers by name.
- `Snapshot` (`snapshot.dfy`): pure functions that define the image a save
  writes (`Dump`) and the outcome of a load (`Restore`). The first pass of a
  load reads the class-server information, the node and link sections and
  the index section; the second pass then rewrites the links' outgoing
  handles; last, the repositories read their blobs.
- `Persistence` (`persistence.dfy`): the class `SavingLoading`. It has the
  `repositories` registry as a field and one method for each save, load and
  registry operation of the header; the `write…`/`read…` record operations
  are the `Codec` functions. The methods that walk a table, a section or
  the registry (`SaveClassServerInfo`, `SaveAtoms`, `SaveIndices`,
  `SaveRepositories`, `LoadClassServerInfo`, `LoadAtoms`, `UpdateHandles`,
  `UpdateAllHandles`, `LoadIndices`, `LoadRepositories`, `ClearRepositories`)
  are loops; `SaveNodes`, `SaveLinks`, `Save`, `Load` and
  `AddSavableRepository` are straight-line. Each method is proved against a
  function of the model: the load and save methods against the `Snapshot`
  functions (`AtomSection`, `Dump`, `AllocateSection`, `RestoreIndices`,
  `RestoreRepositorySection`, `Cleared`, `Restore`), `UpdateHandles` and
  `UpdateAllHandles` against `UpdateAtom` and `UpdateAll`,
  `LoadClassServerInfo` against `TypeTable`, `SaveClassServerInfo` and
  `SaveIndices` against the `Codec` writers; `AddSavableRepository` states
  its new registry directly. `AtomTable` is a small class that stands in for
  the atom table: an arena of atoms plus the index lists.
- `Properties` (`properties.dfy`): what saving and loading guarantee. The
  first pass allocates fresh positions, and a duplicated handle is an
  inconsistency. The second pass succeeds exactly when every handle is
  mapped. Types are translated by name. Every load clears the repositories.
  Whatever image a load accepts leaves no dangling handle
  (`LoadedNoDangling`). Finally `RoundTrip`: loading the image of a table
  into an empty table gives an isomorphic table, up to a renumbering of
  handles.

## Model

| member | source | states |
|---|---|---|
| Outcomes.OrIO | src/AtomSpace/SavingLoading.h:258-268 | a field that cannot be read is an I/O failure, and a readable one is passed on unchanged |
| Codec.WriteTruthValue | src/AtomSpace/SavingLoading.h:152-158 | reading back a written truth value gives the same strength and confidence, and leaves what follows untouched |
| Codec.ReadTruthValueExact | src/AtomSpace/SavingLoading.h:199-205 | every truth value the reader accepts was encoded exactly as the writer would encode it |
| Codec.WriteAttentionValue | src/AtomSpace/SavingLoading.h:160-167 | reading back a written attention value gives the same value |
| Codec.ReadAttentionValueExact | src/AtomSpace/SavingLoading.h:207-213 | every attention value the reader accepts is the writer's encoding of it |
| Codec.WriteAtom | src/AtomSpace/SavingLoading.h:126-132 | the atom members (saved handle, type, truth value, attention value) read back as the same header |
| Codec.ReadAtomExact | src/AtomSpace/SavingLoading.h:170-177 | the atom members the reader accepts are the writer's encoding of what it returned |
| Codec.RecordRoundTrip | src/AtomSpace/SavingLoading.h:134-150 | a node record (atom members, then the name) and a link record (atom members, then arity and outgoing handles in order) read back as the same handle and atom with the node or link reader |
| Codec.ReadNodeExact | src/AtomSpace/SavingLoading.h:179-187 | readNode uses the atom reader and then reads the node members; what it accepts is a written node record, and it returns a node |
| Codec.ReadLinkExact | src/AtomSpace/SavingLoading.h:189-197 | readLink uses the atom reader and then reads the link members; what it accepts is a written link record, and it returns a link |
| Codec.WriteTypeEntry | src/AtomSpace/SavingLoading.h:46-52 | one class-server entry (type name and identifier) reads back unchanged |
| Codec.WriteClassServerInfo | src/AtomSpace/SavingLoading.h:46-52 | the saved class-server information reads back as the same list of names and identifiers |
| Codec.WriteIndexList | src/AtomSpace/SavingLoading.h:72-78 | one index (type and handle list) reads back unchanged |
| Codec.WriteIndices | src/AtomSpace/SavingLoading.h:72-78 | the index section reads back as the same indices |
| Codec.WriteRepoState | src/AtomSpace/SavingLoading.h:216-222 | a repository blob (data and held handles) reads back unchanged |
| Codec.WriteRepoEntry | src/AtomSpace/SavingLoading.h:216-222 | a repository entry starts with the repository's name tag, followed by its blob |
| HandleMaps.RemapHandles | src/AtomSpace/SavingLoading.h:117-124 | a handle list translates exactly when every handle is mapped, into the map's image position by position; otherwise the result is an inconsistency |
| HandleMaps.UpdateAtom | src/AtomSpace/SavingLoading.h:117-124 | an atom translates exactly when all its handles are mapped; a node is unchanged; a link keeps type, values and order with every handle translated; otherwise the result is an inconsistency |
| HandleMaps.UpdateAll | src/AtomSpace/SavingLoading.h:117-124 | the second pass succeeds exactly when every atom translates, and then it translates every atom in place |
| HandleMaps.IdOf | src/AtomSpace/SavingLoading.h:81-87 | looking up a type name in the running class server gives an identifier registered under that name, or nothing when no type has that name |
| HandleMaps.IdOfFirst | src/AtomSpace/SavingLoading.h:81-87 | the lookup by name returns the identifier of the first entry with that name |
| HandleMaps.TypeTableSound | src/AtomSpace/SavingLoading.h:81-87 | every translation goes from a saved identifier to the running identifier of the same name, and every saved type whose name is known is translated |
| HandleMaps.TranslateIndex | src/AtomSpace/SavingLoading.h:108-115 | an index translates exactly when its type is in the translation table and all its handles are mapped; its type then goes through the table and its handles through the map; otherwise the result is an inconsistency |
| HandleMaps.TranslateIndices | src/AtomSpace/SavingLoading.h:108-115 | all indices translate, or the result is an inconsistency |
| HandleMaps.RemapRepo | src/AtomSpace/SavingLoading.h:225-232 | a repository's held handles are translated through the completed map, and its data is kept |
| Snapshot.SavedUpTo | src/AtomSpace/SavingLoading.h:55-69 | a section holds only atoms of its kind, each tagged with its own handle, in increasing handle order |
| Snapshot.SavedComplete | src/AtomSpace/SavingLoading.h:55-69 | every atom of a section's kind is in that section |
| Snapshot.Cleared | src/AtomSpace/SavingLoading.h:235-239 | clearing keeps every registration and resets every repository to empty |
| Persistence.SavingLoading.constructor | src/AtomSpace/SavingLoading.h:246-249 | a new service has no registered repositories |
| Persistence.SavingLoading.SaveClassServerInfo | src/AtomSpace/SavingLoading.h:46-52 | the loop writes every type entry of the class server, in order |
| Persistence.SavingLoading.SaveNodes | src/AtomSpace/SavingLoading.h:55-61 | writes the node section, and advances the running counter by the number of nodes |
| Persistence.SavingLoading.SaveLinks | src/AtomSpace/SavingLoading.h:63-69 | writes the link section, and advances the running counter by the number of links |
| Persistence.SavingLoading.SaveAtoms | src/AtomSpace/SavingLoading.h:55-69 | the loop over the table writes a record for every atom of the section's kind, and counts them |
| Persistence.SavingLoading.SaveIndices | src/AtomSpace/SavingLoading.h:72-78 | the loop writes every index of the table |
| Persistence.SavingLoading.SaveRepositories | src/AtomSpace/SavingLoading.h:216-222 | every registered repository is written exactly once, tagged with its name, in some order |
| Persistence.SavingLoading.Save | src/AtomSpace/SavingLoading.h:251-258 | a save writes the class-server information, nodes, links, indices and repositories, in that order |
| Persistence.SavingLoading.LoadClassServerInfo | src/AtomSpace/SavingLoading.h:81-87 | the loop reads the saved class-server information and builds the by-name type translation table; a short read is an I/O failure |
| Persistence.SavingLoading.LoadNodes | src/AtomSpace/SavingLoading.h:90-97 | reads the node section into the table and fills the old-to-new map |
| Persistence.SavingLoading.LoadLinks | src/AtomSpace/SavingLoading.h:99-106 | reads the link section into the table with its handles untranslated, and extends the old-to-new map |
| Persistence.SavingLoading.LoadAtoms | src/AtomSpace/SavingLoading.h:90-106 | each record read is appended to the table, and its saved handle is mapped to its new position; a handle already mapped is an inconsistency |
| Persistence.SavingLoading.UpdateHandles | src/AtomSpace/SavingLoading.h:117-124 | the atom's handles are rewritten in place through the map and nothing else changes; an unmapped handle is an inconsistency that leaves the table unchanged |
| Persistence.SavingLoading.UpdateAllHandles | src/AtomSpace/SavingLoading.h:117-124 | the second pass over the table ends in the state the second-pass function gives, or in an inconsistency |
| Persistence.SavingLoading.LoadIndices | src/AtomSpace/SavingLoading.h:108-115 | installs the saved indices, each translated through the type table and the handle map |
| Persistence.SavingLoading.LoadRepositories | src/AtomSpace/SavingLoading.h:225-232 | every name tag read must be registered, or the load is a runtime error; that repository gets its blob with its held handles translated |
| Persistence.SavingLoading.ClearRepositories | src/AtomSpace/SavingLoading.h:235-239 | every registered repository is reset to empty, and the registrations stay |
| Persistence.SavingLoading.AddSavableRepository | src/AtomSpace/SavingLoading.h:271-275 | a name already registered is a runtime error and leaves the registry unchanged; otherwise the repository is added under its name |
| Persistence.SavingLoading.Load | src/AtomSpace/SavingLoading.h:260-268 | a load ends in the state the load function gives, or fails with its error; a non-empty table is rejected with an inconsistency, and the table and the registry are left unchanged |
| Properties.FreshCons | src/AtomSpace/SavingLoading.h:90-106 | a run of saved handles is fresh exactly when its first handle is unmapped and the rest are fresh once it is mapped |
| Properties.AllocateFacts | src/AtomSpace/SavingLoading.h:90-106 | reading records succeeds exactly when their saved handles are distinct and unmapped; each record then gets the next new position and one map entry, and earlier entries are kept; a repeated handle is an inconsistency; a short read is an I/O failure when the records read before it have fresh handles, and an inconsistency when a repeated handle comes first |
| Properties.AllocateSectionFacts | src/AtomSpace/SavingLoading.h:90-106 | the same for a whole node or link section; a count that cannot be read is an I/O failure |
| Properties.SavedCount | src/AtomSpace/SavingLoading.h:55-69 | every atom is saved in exactly one of the two sections, so the running count ends at the table size |
| Properties.SectionReadsBack | src/AtomSpace/SavingLoading.h:179-197 | a written node or link section reads back as the records that were saved |
| Properties.SavedFresh | src/AtomSpace/SavingLoading.h:90-106 | the handles of a saved section are distinct and none of them is mapped by the other section |
| Properties.FirstPassSections | src/AtomSpace/SavingLoading.h:90-106 | the node pass and then the link pass over a saved image both succeed; they place the nodes first and the links after them, and map every saved handle to its new position |
| Properties.SectionsRenumber | src/AtomSpace/SavingLoading.h:90-106 | after the first pass the map is a bijection from the saved handles to the new positions, and each saved atom sits at its new position |
| Properties.SecondPass | src/AtomSpace/SavingLoading.h:117-124 | after the first pass over a saved image, the second pass succeeds exactly when every link of the saved table refers to a saved atom; each translated atom then corresponds to its saved atom |
| Properties.RestoreEntries | src/AtomSpace/SavingLoading.h:225-232 | reading back written repository entries gives each named repository its saved state, translated, and leaves the others unchanged; an unregistered name is a runtime error |
| Properties.RepositoryRoundTrip | src/AtomSpace/SavingLoading.h:216-239 | the repository section reads back into the cleared registry: each saved repository gets its saved state, translated, and every other registered one stays empty; a saved repository that is not registered is a runtime error |
| Properties.IndicesRoundTrip | src/AtomSpace/SavingLoading.h:108-115 | the index section reads back, and every index is translated: its type by name, its handles by the map |
| Properties.FirstPassOfDump | src/AtomSpace/SavingLoading.h:260-268 | the first pass over an image gives a renumbering of the saved table, and the outcome of the load then depends only on the second pass, the indices and the repositories |
| Properties.RoundTrip | src/AtomSpace/SavingLoading.h:251-268 | save then load into an empty table gives an isomorphic table: a bijective renumbering, every atom with the same type, values and name or translated outgoing sequence, every index and every saved repository translated, other registered repositories empty; a dangling link handle is an inconsistency and an unregistered saved repository a runtime error |
| Properties.LoadedNoDangling | src/AtomSpace/SavingLoading.h:117-124 | for every image a load into an empty table accepts, every link's outgoing handle, every index handle and every handle a repository holds is a position of the loaded table |
| Properties.TypeTableByName | src/AtomSpace/SavingLoading.h:81-87 | a saved type is translated exactly when the running class server knows its name, and then to the identifier the running class server gives that name |
| Properties.TypeTableIdentity | src/AtomSpace/SavingLoading.h:46-52 | loading into the class server that saved the image translates every type to itself |
| Properties.LoadForgetsRepositoryState | src/AtomSpace/SavingLoading.h:235-239 | the outcome of a load depends on which repositories are registered, never on what they held before |

## Left out

- File handling is not part of this model. `save` and `load` take a file name and work on a `FILE*`. Here the image is an in-memory sequence of fields, so opening, closing, flushing and the I/O failures of the file system are absent. A field that cannot be read is still an `IO` failure.
- Counts, handles and type identifiers are unbounded naturals. The source uses C++ `int` for the running atom counters of `saveNodes` and `saveLinks` (src/AtomSpace/SavingLoading.h:61, 69) and its own `Type` for type identifiers, so overflow of those is not modelled.
- The repository section starts with a count of entries, like the other sections, rather than running to the end of the file or to a sentinel. A load ignores any fields that follow the last repository entry.
- The image is written as typed fields (integer, real, string), not bytes. Truth and attention values are compared exactly, with no floating-point encoding.
- `printProgress` (src/AtomSpace/SavingLoading.h:242) is not modelled. It is a progress report with no effect on the result.
- AtomTable, AtomSpace, ClassServer and HandleMap are not part of this model, and their internals are left out. The table is an arena: a new atom's handle is the next free position. The class server is a list of type names and identifiers. The handle map is a `map`.
- SavableRepository is not part of this model. The registry keeps each repository's state as a value (opaque data plus held handles), not a reference to an object the caller owns. The concrete repositories' blob formats are left out.
- The InterfaceListenerAgent in the embodiment directory is not modelled. It is an agent-loop stub with no persistence logic.
- The repository hash map's iteration order is not modelled. `SaveRepositories` picks the names in an unspecified order, which it returns as a ghost sequence.
- The header does not say what happens when the image holds the same saved handle twice. The model treats it as an inconsistency.
- The header does not say what happens when an index names a type the running class server does not know. The model treats it as an inconsistency.
- `readAtom` inserts into the handle map (src/AtomSpace/SavingLoading.h:177). Here the codec reads only values, and the map insertion happens in the loop of `LoadAtoms`.
- Only `loadIndices` receives the type translation table (src/AtomSpace/SavingLoading.h:115). Atom types are therefore stored as read, and only index types are translated.
- Index handles are translated as soon as the index section has been read, at the end of the first pass, rather than alongside the links in the second pass. Both kinds of failure are inconsistencies, so the outcome of a load is the same either way.
- `load` checks that the table is empty before it clears the repositories, so a rejected load changes nothing.
- After any other failure, the contents of the table and the registry are left unspecified, as the original leaves a half-finished load.
- Persistence.SavingLoading.UpdateAllHandles: on failure it states only the error kind, not which atoms were already translated.
- Persistence.SavingLoading.Load: on a failure other than a non-empty table it states only the error kind, not the partial state.
