/** The entities the persistence layer reads and writes. */
module Atoms {

  /** A handle is the position of an atom in the atom table's arena. Handles
      stored in an image are the ones the saving process used; they mean
      nothing to the loading process until they are translated. */
  type Handle = nat

  /** Numeric identifier of an atom type in the class server. */
  type TypeId = nat

  /** Truth and attention values are treated as opaque values compared by
      equality; the image stores their fields exactly. */
  datatype TruthValue = TruthValue(strength: real, confidence: real)

  datatype AttentionValue = AttentionValue(sti: int, lti: int)

  /** A node carries a name; a link carries its ordered outgoing set. */
  datatype Atom =
    | Node(atomType: TypeId, tv: TruthValue, av: AttentionValue, name: string)
    | Link(atomType: TypeId, tv: TruthValue, av: AttentionValue, outgoing: seq<Handle>)

  /** One class-server entry: a type name and its numeric identifier. */
  datatype TypeEntry = TypeEntry(name: string, id: TypeId)

  /** One index of the atom table: the handles of the atoms of one type. */
  datatype IndexList = IndexList(atomType: TypeId, handles: seq<Handle>)

  /** What a savable repository keeps: opaque data plus the handles it holds. */
  datatype RepoState = RepoState(data: seq<int>, held: seq<Handle>)

  /** The state a repository is reset to before every load. */
  const EmptyRepo: RepoState := RepoState([], [])

  /** A savable repository as it is registered: its identifier and its state. */
  datatype Repository = Repository(id: string, state: RepoState)

  /** An atom as it appears in the image, tagged with the handle it had when saved. */
  datatype Record = Record(handle: Handle, atom: Atom)
}
