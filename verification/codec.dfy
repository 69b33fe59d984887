/** The record codec: how atoms, truth values, attention values and the
    other sections of a binary image are written and read back.

    The image is modelled as a sequence of fields (tokens) rather than bytes.
    Every writer comes with a reader. The writers of single values and of
    fixed groups of fields promise in their own `ensures` that the reader
    returns exactly the written value followed by whatever came after it;
    for the generic writers `WriteN` and `WriteList` and for the record
    writers the same is proved by `ReadNWriteN`, `ReadListWriteList` and
    `RecordRoundTrip`. The `...Exact` lemmas prove the converse: a
    successful read consumed precisely the encoding of what it returned. */
module Codec {
  import opened Outcomes
  import opened Atoms

  /** One field of the image. */
  datatype Token = Int(i: int) | Real(x: real) | Text(s: string)

  /** A decoded value together with the fields that follow it. */
  datatype Decoded<+T> = Decoded(value: T, rest: seq<Token>)

  // ---------------------------------------------------------------------
  // Single fields

  function ReadNat(ts: seq<Token>): Option<Decoded<nat>> {
    if |ts| > 0 && ts[0].Int? && ts[0].i >= 0 then Some(Decoded(ts[0].i, ts[1..])) else None
  }

  function WriteNat(n: nat): (ts: seq<Token>)
    ensures forall rest :: ReadNat(ts + rest) == Some(Decoded(n, rest))
  {
    [Int(n)]
  }

  function ReadInt(ts: seq<Token>): Option<Decoded<int>> {
    if |ts| > 0 && ts[0].Int? then Some(Decoded(ts[0].i, ts[1..])) else None
  }

  function WriteInt(n: int): (ts: seq<Token>)
    ensures forall rest :: ReadInt(ts + rest) == Some(Decoded(n, rest))
  {
    [Int(n)]
  }

  function ReadReal(ts: seq<Token>): Option<Decoded<real>> {
    if |ts| > 0 && ts[0].Real? then Some(Decoded(ts[0].x, ts[1..])) else None
  }

  function WriteReal(x: real): (ts: seq<Token>)
    ensures forall rest :: ReadReal(ts + rest) == Some(Decoded(x, rest))
  {
    [Real(x)]
  }

  function ReadText(ts: seq<Token>): Option<Decoded<string>> {
    if |ts| > 0 && ts[0].Text? then Some(Decoded(ts[0].s, ts[1..])) else None
  }

  function WriteText(s: string): (ts: seq<Token>)
    ensures forall rest :: ReadText(ts + rest) == Some(Decoded(s, rest))
  {
    [Text(s)]
  }

  // ---------------------------------------------------------------------
  // Repeated fields: `n` values one after the other, and a count followed
  // by that many values

  function WriteN<T>(xs: seq<T>, write: T -> seq<Token>): seq<Token> {
    if xs == [] then [] else write(xs[0]) + WriteN(xs[1..], write)
  }

  function ReadN<T>(ts: seq<Token>, n: nat, read: seq<Token> -> Option<Decoded<T>>): Option<Decoded<seq<T>>>
    decreases n
  {
    if n == 0 then Some(Decoded([], ts))
    else
      var x :- read(ts);
      var xs :- ReadN(x.rest, n - 1, read);
      Some(Decoded([x.value] + xs.value, xs.rest))
  }

  /** `o` with `done` put in front of the values it read. */
  function Prefixed<T>(done: seq<T>, o: Option<Decoded<seq<T>>>): Option<Decoded<seq<T>>> {
    match o
    case None => None
    case Some(d) => Some(Decoded(done + d.value, d.rest))
  }

  lemma PrefixedNothing<T>(o: Option<Decoded<seq<T>>>)
    ensures Prefixed([], o) == o
  {
    if o.Some? {
      assert [] + o.value.value == o.value.value;
    }
  }

  /** Reading `k + 1` values is reading one, then `k`. */
  lemma ReadNStep<T>(done: seq<T>, ts: seq<Token>, k: nat, read: seq<Token> -> Option<Decoded<T>>)
    ensures read(ts).None? ==> Prefixed(done, ReadN(ts, k + 1, read)) == None
    ensures read(ts).Some? ==>
              Prefixed(done, ReadN(ts, k + 1, read)) ==
              Prefixed(done + [read(ts).value.value], ReadN(read(ts).value.rest, k, read))
  {
    if read(ts).Some? {
      var x := read(ts).value;
      match ReadN(x.rest, k, read)
      case None =>
      case Some(d) =>
        assert done + ([x.value] + d.value) == (done + [x.value]) + d.value;
    }
  }

  function WriteList<T>(xs: seq<T>, write: T -> seq<Token>): seq<Token> {
    WriteNat(|xs|) + WriteN(xs, write)
  }

  function ReadList<T>(ts: seq<Token>, read: seq<Token> -> Option<Decoded<T>>): Option<Decoded<seq<T>>> {
    var n :- ReadNat(ts);
    ReadN(n.rest, n.value, read)
  }

  /** Writing one more value appends its encoding. */
  lemma {:induction false} WriteNAppend<T>(xs: seq<T>, x: T, write: T -> seq<Token>)
    ensures WriteN(xs + [x], write) == WriteN(xs, write) + write(x)
  {
    if xs == [] {
      assert [x][1..] == [];
    } else {
      assert (xs + [x])[1..] == xs[1..] + [x];
      WriteNAppend(xs[1..], x, write);
    }
  }

  /** Writing the first `i + 1` values appends the encoding of the last one. */
  lemma WriteNPrefix<T>(xs: seq<T>, i: nat, write: T -> seq<Token>)
    requires i < |xs|
    ensures WriteN(xs[..i + 1], write) == WriteN(xs[..i], write) + write(xs[i])
  {
    assert xs[..i + 1] == xs[..i] + [xs[i]];
    WriteNAppend(xs[..i], xs[i], write);
  }

  /** Reading back `|xs|` values that were written one after the other gives `xs`,
      provided each value reads back on its own. */
  lemma {:induction false} ReadNWriteN<T>(xs: seq<T>, rest: seq<Token>, read: seq<Token> -> Option<Decoded<T>>, write: T -> seq<Token>)
    requires forall i, r :: 0 <= i < |xs| ==> read(write(xs[i]) + r) == Some(Decoded(xs[i], r))
    ensures ReadN(WriteN(xs, write) + rest, |xs|, read) == Some(Decoded(xs, rest))
  {
    if xs != [] {
      var tail := WriteN(xs[1..], write) + rest;
      assert WriteN(xs, write) + rest == write(xs[0]) + tail;
      assert read(write(xs[0]) + tail) == Some(Decoded(xs[0], tail));
      ReadNWriteN(xs[1..], rest, read, write);
      assert |xs[1..]| == |xs| - 1;
      assert ReadN(tail, |xs| - 1, read) == Some(Decoded(xs[1..], rest));
      assert [xs[0]] + xs[1..] == xs;
    } else {
      assert WriteN(xs, write) + rest == rest;
    }
  }

  lemma ReadListWriteList<T>(xs: seq<T>, rest: seq<Token>, read: seq<Token> -> Option<Decoded<T>>, write: T -> seq<Token>)
    requires forall i, r :: 0 <= i < |xs| ==> read(write(xs[i]) + r) == Some(Decoded(xs[i], r))
    ensures ReadList(WriteList(xs, write) + rest, read) == Some(Decoded(xs, rest))
  {
    assert WriteList(xs, write) + rest == WriteNat(|xs|) + (WriteN(xs, write) + rest);
    ReadNWriteN(xs, rest, read, write);
  }

  /** A successful read of `n` values consumed exactly their encoding,
      provided each single read does. */
  lemma {:induction false} ReadNExact<T>(ts: seq<Token>, n: nat, read: seq<Token> -> Option<Decoded<T>>, write: T -> seq<Token>)
    requires forall t :: read(t).Some? ==> t == write(read(t).value.value) + read(t).value.rest
    ensures ReadN(ts, n, read).Some? ==>
              |ReadN(ts, n, read).value.value| == n &&
              ts == WriteN(ReadN(ts, n, read).value.value, write) + ReadN(ts, n, read).value.rest
    decreases n
  {
    if n > 0 && read(ts).Some? {
      var x := read(ts).value;
      ReadNExact(x.rest, n - 1, read, write);
      if ReadN(x.rest, n - 1, read).Some? {
        var xs := ReadN(x.rest, n - 1, read).value;
        assert ([x.value] + xs.value)[1..] == xs.value;
      }
    }
  }

  lemma ReadListExact<T>(ts: seq<Token>, read: seq<Token> -> Option<Decoded<T>>, write: T -> seq<Token>)
    requires forall t :: read(t).Some? ==> t == write(read(t).value.value) + read(t).value.rest
    ensures ReadList(ts, read).Some? ==>
              ts == WriteList(ReadList(ts, read).value.value, write) + ReadList(ts, read).value.rest
  {
    if ReadNat(ts).Some? {
      ReadNExact(ReadNat(ts).value.rest, ReadNat(ts).value.value, read, write);
    }
  }

  lemma NatExact(ts: seq<Token>)
    ensures ReadNat(ts).Some? ==> ts == WriteNat(ReadNat(ts).value.value) + ReadNat(ts).value.rest
  {
  }

  // ---------------------------------------------------------------------
  // Truth values and attention values

  function ReadTruthValue(ts: seq<Token>): Option<Decoded<TruthValue>> {
    var s :- ReadReal(ts);
    var c :- ReadReal(s.rest);
    Some(Decoded(TruthValue(s.value, c.value), c.rest))
  }

  /** Every field of the truth value is written, so reading it back is exact. */
  function WriteTruthValue(tv: TruthValue): (ts: seq<Token>)
    ensures forall rest :: ReadTruthValue(ts + rest) == Some(Decoded(tv, rest))
  {
    var ts := WriteReal(tv.strength) + WriteReal(tv.confidence);
    assert forall rest :: ts + rest == WriteReal(tv.strength) + (WriteReal(tv.confidence) + rest);
    ts
  }

  lemma ReadTruthValueExact(ts: seq<Token>)
    ensures ReadTruthValue(ts).Some? ==>
              ts == WriteTruthValue(ReadTruthValue(ts).value.value) + ReadTruthValue(ts).value.rest
  {
  }

  function ReadAttentionValue(ts: seq<Token>): Option<Decoded<AttentionValue>> {
    var s :- ReadInt(ts);
    var l :- ReadInt(s.rest);
    Some(Decoded(AttentionValue(s.value, l.value), l.rest))
  }

  function WriteAttentionValue(av: AttentionValue): (ts: seq<Token>)
    ensures forall rest :: ReadAttentionValue(ts + rest) == Some(Decoded(av, rest))
  {
    var ts := WriteInt(av.sti) + WriteInt(av.lti);
    assert forall rest :: ts + rest == WriteInt(av.sti) + (WriteInt(av.lti) + rest);
    ts
  }

  lemma ReadAttentionValueExact(ts: seq<Token>)
    ensures ReadAttentionValue(ts).Some? ==>
              ts == WriteAttentionValue(ReadAttentionValue(ts).value.value) + ReadAttentionValue(ts).value.rest
  {
  }

  // ---------------------------------------------------------------------
  // Atom records: the fields every atom has, then the node or link fields

  /** The atom-level fields of a record: saved handle, type, truth value and
      attention value. */
  datatype AtomHeader = AtomHeader(handle: Handle, atomType: TypeId, tv: TruthValue, av: AttentionValue)

  function ReadAtom(ts: seq<Token>): Option<Decoded<AtomHeader>> {
    var h :- ReadNat(ts);
    var t :- ReadNat(h.rest);
    var tv :- ReadTruthValue(t.rest);
    var av :- ReadAttentionValue(tv.rest);
    Some(Decoded(AtomHeader(h.value, t.value, tv.value, av.value), av.rest))
  }

  /** The members every atom has: its saved handle, type, truth value and
      attention value. */
  function WriteAtom(hdr: AtomHeader): (ts: seq<Token>)
    ensures forall rest :: ReadAtom(ts + rest) == Some(Decoded(hdr, rest))
  {
    var ts := WriteNat(hdr.handle) + WriteNat(hdr.atomType) + WriteTruthValue(hdr.tv) + WriteAttentionValue(hdr.av);
    forall rest: seq<Token>
      ensures ts + rest == WriteNat(hdr.handle) + (WriteNat(hdr.atomType) + (WriteTruthValue(hdr.tv) + (WriteAttentionValue(hdr.av) + rest)))
    {
      HeaderRegroup(WriteNat(hdr.handle), WriteNat(hdr.atomType), WriteTruthValue(hdr.tv), WriteAttentionValue(hdr.av), rest);
    }
    ts
  }

  lemma ReadAtomExact(ts: seq<Token>)
    ensures ReadAtom(ts).Some? ==> ts == WriteAtom(ReadAtom(ts).value.value) + ReadAtom(ts).value.rest
  {
    if ReadAtom(ts).Some? {
      NatExact(ts);
      var h := ReadNat(ts).value;
      NatExact(h.rest);
      var t := ReadNat(h.rest).value;
      ReadTruthValueExact(t.rest);
      var tv := ReadTruthValue(t.rest).value;
      ReadAttentionValueExact(tv.rest);
      var av := ReadAttentionValue(tv.rest).value;
      HeaderRegroup(WriteNat(h.value), WriteNat(t.value), WriteTruthValue(tv.value), WriteAttentionValue(av.value), av.rest);
    }
  }

  /** The four members of an atom, followed by more tokens, regrouped. */
  lemma HeaderRegroup(a: seq<Token>, b: seq<Token>, c: seq<Token>, d: seq<Token>, rest: seq<Token>)
    ensures a + b + c + d + rest == a + (b + (c + (d + rest)))
  {
    Regroup(a + b + c, d, rest);
    Regroup(a + b, c, d + rest);
    Regroup(a, b, c + (d + rest));
  }

  /** The node-only member: its name. The atom-level members are not included. */
  function WriteNode(a: Atom): seq<Token>
    requires a.Node?
  {
    WriteText(a.name)
  }

  /** The link-only members: arity, then the outgoing handles as saved. */
  function WriteLink(a: Atom): seq<Token>
    requires a.Link?
  {
    WriteList(a.outgoing, WriteNat)
  }

  /** The atom members of a record. */
  function HeaderOf(r: Record): AtomHeader {
    AtomHeader(r.handle, r.atom.atomType, r.atom.tv, r.atom.av)
  }

  /** A whole record: the atom members followed by the node or link members. */
  function WriteRecord(r: Record): seq<Token> {
    WriteAtom(HeaderOf(r)) + if r.atom.Node? then WriteNode(r.atom) else WriteLink(r.atom)
  }

  /** Reading back a written record, with the reader of its section, gives the
      same saved handle and the same atom, field for field. */
  lemma RecordRoundTrip(r: Record, rest: seq<Token>)
    ensures r.atom.Node? ==> ReadNode(WriteRecord(r) + rest) == Some(Decoded(r, rest))
    ensures r.atom.Link? ==> ReadLink(WriteRecord(r) + rest) == Some(Decoded(r, rest))
  {
    var a := r.atom;
    var hdr := HeaderOf(r);
    if a.Node? {
      var tail := WriteNode(a);
      assert WriteRecord(r) == WriteAtom(hdr) + tail;
      Regroup(WriteAtom(hdr), tail, rest);
      assert ReadAtom(WriteAtom(hdr) + (tail + rest)) == Some(Decoded(hdr, tail + rest));
      assert ReadText(tail + rest) == Some(Decoded(a.name, rest));
    } else {
      var tail := WriteLink(a);
      assert WriteRecord(r) == WriteAtom(hdr) + tail;
      Regroup(WriteAtom(hdr), tail, rest);
      assert ReadAtom(WriteAtom(hdr) + (tail + rest)) == Some(Decoded(hdr, tail + rest));
      ReadListWriteList(a.outgoing, rest, ReadNat, WriteNat);
      assert ReadList(tail + rest, ReadNat) == Some(Decoded(a.outgoing, rest));
    }
  }

  /** Reads a node record: the atom members, then the name. */
  function ReadNode(ts: seq<Token>): Option<Decoded<Record>> {
    var hd :- ReadAtom(ts);
    var name :- ReadText(hd.rest);
    var h := hd.value;
    Some(Decoded(Record(h.handle, Node(h.atomType, h.tv, h.av, name.value)), name.rest))
  }

  /** Reads a link record: the atom members, then the arity and the saved
      outgoing handles, which are not translated here. */
  function ReadLink(ts: seq<Token>): Option<Decoded<Record>> {
    var hd :- ReadAtom(ts);
    var out :- ReadList(hd.rest, ReadNat);
    var h := hd.value;
    Some(Decoded(Record(h.handle, Link(h.atomType, h.tv, h.av, out.value)), out.rest))
  }

  /** The record reader of the node section (`false`) or the link section (`true`). */
  function ReadRecord(links: bool): seq<Token> -> Option<Decoded<Record>> {
    if links then ReadLink else ReadNode
  }

  lemma ReadNodeExact(ts: seq<Token>)
    ensures ReadNode(ts).Some? ==> ReadNode(ts).value.value.atom.Node?
    ensures ReadNode(ts).Some? ==> ts == WriteRecord(ReadNode(ts).value.value) + ReadNode(ts).value.rest
  {
    if ReadNode(ts).Some? {
      ReadAtomExact(ts);
      var hd := ReadAtom(ts).value;
      var name := ReadText(hd.rest).value;
      assert hd.rest == WriteText(name.value) + name.rest;
      var d := ReadNode(ts).value;
      assert d.value == Record(hd.value.handle, Node(hd.value.atomType, hd.value.tv, hd.value.av, name.value));
      assert HeaderOf(d.value) == hd.value;
      assert ts == WriteAtom(HeaderOf(d.value)) + (WriteNode(d.value.atom) + d.rest);
      Regroup(WriteAtom(HeaderOf(d.value)), WriteNode(d.value.atom), d.rest);
    }
  }

  lemma ReadLinkExact(ts: seq<Token>)
    ensures ReadLink(ts).Some? ==> ReadLink(ts).value.value.atom.Link?
    ensures ReadLink(ts).Some? ==> ts == WriteRecord(ReadLink(ts).value.value) + ReadLink(ts).value.rest
  {
    if ReadLink(ts).Some? {
      ReadAtomExact(ts);
      var hd := ReadAtom(ts).value;
      forall t | ReadNat(t).Some? ensures t == WriteNat(ReadNat(t).value.value) + ReadNat(t).value.rest {
        NatExact(t);
      }
      ReadListExact(hd.rest, ReadNat, WriteNat);
      var d := ReadLink(ts).value;
      assert HeaderOf(d.value) == hd.value;
      assert hd.rest == WriteLink(d.value.atom) + d.rest;
      Regroup(WriteAtom(HeaderOf(d.value)), WriteLink(d.value.atom), d.rest);
    }
  }

  // ---------------------------------------------------------------------
  // Class-server information, indices and repository blobs

  function ReadTypeEntry(ts: seq<Token>): Option<Decoded<TypeEntry>> {
    var name :- ReadText(ts);
    var id :- ReadNat(name.rest);
    Some(Decoded(TypeEntry(name.value, id.value), id.rest))
  }

  function WriteTypeEntry(e: TypeEntry): (ts: seq<Token>)
    ensures forall rest :: ReadTypeEntry(ts + rest) == Some(Decoded(e, rest))
  {
    var ts := WriteText(e.name) + WriteNat(e.id);
    assert forall rest :: ts + rest == WriteText(e.name) + (WriteNat(e.id) + rest);
    ts
  }

  /** The class-server section: every known type name with its identifier. */
  function ReadClassServerInfo(ts: seq<Token>): Option<Decoded<seq<TypeEntry>>> {
    ReadList(ts, ReadTypeEntry)
  }

  function WriteClassServerInfo(registry: seq<TypeEntry>): (ts: seq<Token>)
    ensures forall rest :: ReadClassServerInfo(ts + rest) == Some(Decoded(registry, rest))
  {
    var ts := WriteList(registry, WriteTypeEntry);
    assert forall rest :: ReadClassServerInfo(ts + rest) == Some(Decoded(registry, rest)) by {
      forall rest: seq<Token> ensures ReadClassServerInfo(ts + rest) == Some(Decoded(registry, rest)) {
        ReadListWriteList(registry, rest, ReadTypeEntry, WriteTypeEntry);
      }
    }
    ts
  }

  function ReadIndexList(ts: seq<Token>): Option<Decoded<IndexList>> {
    var t :- ReadNat(ts);
    var hs :- ReadList(t.rest, ReadNat);
    Some(Decoded(IndexList(t.value, hs.value), hs.rest))
  }

  function WriteIndexList(l: IndexList): (ts: seq<Token>)
    ensures forall rest :: ReadIndexList(ts + rest) == Some(Decoded(l, rest))
  {
    var ts := WriteNat(l.atomType) + WriteList(l.handles, WriteNat);
    assert forall rest :: ReadIndexList(ts + rest) == Some(Decoded(l, rest)) by {
      forall rest: seq<Token> ensures ReadIndexList(ts + rest) == Some(Decoded(l, rest)) {
        assert ts + rest == WriteNat(l.atomType) + (WriteList(l.handles, WriteNat) + rest);
        ReadListWriteList(l.handles, rest, ReadNat, WriteNat);
      }
    }
    ts
  }

  /** The index section: the atom table's per-type handle lists. */
  function ReadIndices(ts: seq<Token>): Option<Decoded<seq<IndexList>>> {
    ReadList(ts, ReadIndexList)
  }

  function WriteIndices(indices: seq<IndexList>): (ts: seq<Token>)
    ensures forall rest :: ReadIndices(ts + rest) == Some(Decoded(indices, rest))
  {
    var ts := WriteList(indices, WriteIndexList);
    assert forall rest :: ReadIndices(ts + rest) == Some(Decoded(indices, rest)) by {
      forall rest: seq<Token> ensures ReadIndices(ts + rest) == Some(Decoded(indices, rest)) {
        ReadListWriteList(indices, rest, ReadIndexList, WriteIndexList);
      }
    }
    ts
  }

  /** A repository's own blob: its opaque data, then the handles it holds. */
  function ReadRepoState(ts: seq<Token>): Option<Decoded<RepoState>> {
    var data :- ReadList(ts, ReadInt);
    var held :- ReadList(data.rest, ReadNat);
    Some(Decoded(RepoState(data.value, held.value), held.rest))
  }

  function WriteRepoState(s: RepoState): (ts: seq<Token>)
    ensures forall rest :: ReadRepoState(ts + rest) == Some(Decoded(s, rest))
  {
    var ts := WriteList(s.data, WriteInt) + WriteList(s.held, WriteNat);
    assert forall rest :: ReadRepoState(ts + rest) == Some(Decoded(s, rest)) by {
      forall rest: seq<Token> ensures ReadRepoState(ts + rest) == Some(Decoded(s, rest)) {
        assert ts + rest == WriteList(s.data, WriteInt) + (WriteList(s.held, WriteNat) + rest);
        ReadListWriteList(s.data, WriteList(s.held, WriteNat) + rest, ReadInt, WriteInt);
        ReadListWriteList(s.held, rest, ReadNat, WriteNat);
      }
    }
    ts
  }

  /** One entry of the repository section: the repository's name tag, then its blob. */
  function WriteRepoEntry(r: Repository): (ts: seq<Token>)
    ensures forall rest :: ReadText(ts + rest) == Some(Decoded(r.id, WriteRepoState(r.state) + rest))
  {
    var ts := WriteText(r.id) + WriteRepoState(r.state);
    assert forall rest :: ReadText(ts + rest) == Some(Decoded(r.id, WriteRepoState(r.state) + rest)) by {
      forall rest: seq<Token> ensures ReadText(ts + rest) == Some(Decoded(r.id, WriteRepoState(r.state) + rest)) {
        Regroup(WriteText(r.id), WriteRepoState(r.state), rest);
      }
    }
    ts
  }

  /** Concatenation of token sequences is associative. */
  lemma Regroup(a: seq<Token>, b: seq<Token>, c: seq<Token>)
    ensures (a + b) + c == a + (b + c)
  {
  }
}
