/** What a trace file says, read field by field: packets, track descriptors, events, interned names. */
module TraceReader {
  import opened Prelude
  import opened Protobuf

  datatype Arg = Arg(name: bytes, value: nat)

  /** One call of the trace API, as a reader recovers it. */
  datatype Call =
    | Track(uuid: nat, title: bytes, parent: nat, counter: bool)
    | Event(kind: nat, track: nat, ts: nat, name: Option<bytes>, args: seq<Arg>, extra: seq<Field>)

  /** Interned event names by id. */
  type Names = map<nat, bytes>

  // ----- messages: every field merges into what came before it -----

  datatype PacketParts = PacketParts(ts: nat, flags: nat, interned: seq<bytes>, event: Option<bytes>, track: Option<bytes>)

  const NO_PACKET := PacketParts(0, 0, [], None, None)

  ghost function AddToPacket(p: PacketParts, f: Field): PacketParts
  {
    match f
    case Varint(num, v) => if num == 8 then p.(ts := v) else if num == 13 then p.(flags := v) else p
    case Bytes(num, b) =>
      if num == 12 then p.(interned := p.interned + [b])
      else if num == 11 then p.(event := Some(b))
      else if num == 60 then p.(track := Some(b))
      else p
    case Fixed64(_, _) => p
  }

  ghost function Packet(fs: seq<Field>): PacketParts
  {
    if fs == [] then NO_PACKET else AddToPacket(Packet(fs[..|fs| - 1]), fs[|fs| - 1])
  }

  datatype EventParts = EventParts(kind: nat, track: nat, iid: Option<nat>, args: seq<bytes>, extra: seq<Field>)

  const NO_EVENT := EventParts(0, 0, None, [], [])

  ghost function AddToEvent(p: EventParts, f: Field): EventParts
  {
    match f
    case Varint(num, v) =>
      if num == 9 then p.(kind := v) else if num == 11 then p.(track := v) else if num == 10 then p.(iid := Some(v))
      else p.(extra := p.extra + [f])
    case Bytes(num, b) => if num == 4 then p.(args := p.args + [b]) else p.(extra := p.extra + [f])
    case Fixed64(_, _) => p.(extra := p.extra + [f])
  }

  ghost function EventOf(fs: seq<Field>): EventParts
  {
    if fs == [] then NO_EVENT else AddToEvent(EventOf(fs[..|fs| - 1]), fs[|fs| - 1])
  }

  ghost function AddToTrack(t: Call, f: Field): Call
    requires t.Track?
    ensures AddToTrack(t, f).Track?
  {
    match f
    case Varint(num, v) => if num == 1 then t.(uuid := v) else if num == 5 then t.(parent := v) else t
    case Bytes(num, b) => if num == 2 then t.(title := b) else if num == 8 then t.(counter := true) else t
    case Fixed64(_, _) => t
  }

  ghost function TrackOf(fs: seq<Field>): (t: Call)
    ensures t.Track?
  {
    if fs == [] then Track(0, [], 0, false) else AddToTrack(TrackOf(fs[..|fs| - 1]), fs[|fs| - 1])
  }

  /** A name and a number: interned entries use fields 2 and 1 for them, annotations 10 and 3. */
  ghost function PairOf(fs: seq<Field>, nameField: nat, numField: nat): (bytes, nat)
  {
    if fs == [] then ([], 0)
    else
      var p := PairOf(fs[..|fs| - 1], nameField, numField);
      match fs[|fs| - 1]
      case Varint(num, v) => if num == numField then (p.0, v) else p
      case Bytes(num, b) => if num == nameField then (b, p.1) else p
      case Fixed64(_, _) => p
  }

  ghost function BytesFields(fs: seq<Field>, num: nat): seq<bytes>
  {
    if fs == [] then []
    else
      var more := BytesFields(fs[..|fs| - 1], num);
      var f := fs[|fs| - 1];
      if f.Bytes? && f.num == num then more + [f.payload] else more
  }

  // ----- names -----

  /** Adds the entries of InternedData.event_names. */
  ghost function AddEntries(names: Names, entries: seq<bytes>): Option<Names>
  {
    if entries == [] then Some(names)
    else
      match (AddEntries(names, entries[..|entries| - 1]), ReadAll(entries[|entries| - 1]))
      case (Some(m), Some(fs)) => var (name, iid) := PairOf(fs, 2, 1); Some(m[iid := name])
      case _ => None
  }

  ghost function AddInterned(names: Names, interned: seq<bytes>): Option<Names>
  {
    if interned == [] then Some(names)
    else
      match (AddInterned(names, interned[..|interned| - 1]), ReadAll(interned[|interned| - 1]))
      case (Some(m), Some(fs)) => AddEntries(m, BytesFields(fs, 2))
      case _ => None
  }

  // ----- calls -----

  ghost function ReadArgs(args: seq<bytes>): Option<seq<Arg>>
  {
    if args == [] then Some([])
    else
      match (ReadArgs(args[..|args| - 1]), ReadAll(args[|args| - 1]))
      case (Some(more), Some(fs)) => var (name, v) := PairOf(fs, 10, 3); Some(more + [Arg(name, v)])
      case _ => None
  }

  ghost function ReadEvent(ts: nat, b: bytes, names: Names): Option<Call>
  {
    match ReadAll(b)
    case None => None
    case Some(fs) =>
      var p := EventOf(fs);
      match ReadArgs(p.args)
      case None => None
      case Some(args) =>
        if p.iid == None then Some(Event(p.kind, p.track, ts, None, args, p.extra))
        else if p.iid.value in names then Some(Event(p.kind, p.track, ts, Some(names[p.iid.value]), args, p.extra))
        else None
  }

  ghost function ReadTrack(b: bytes): Option<Call>
  {
    match ReadAll(b)
    case None => None
    case Some(fs) => Some(TrackOf(fs))
  }

  /** The calls of one packet and the names known after it; bit 0 of the flags forgets the names. */
  ghost function ReadPacket(p: PacketParts, names: Names): Option<(Names, seq<Call>)>
  {
    var known: Names := if p.flags % 2 == 1 then map[] else names;
    match AddInterned(known, p.interned)
    case None => None
    case Some(m) =>
      if p.track.Some? then
        match ReadTrack(p.track.value)
        case None => None
        case Some(c) => Some((m, [c]))
      else if p.event.Some? then
        match ReadEvent(p.ts, p.event.value, m)
        case None => None
        case Some(c) => Some((m, [c]))
      else Some((m, []))
  }

  /** The fields of a trace are packets. */
  ghost function ReadPackets(fs: seq<Field>): Option<(Names, seq<Call>)>
  {
    if fs == [] then Some((map[], []))
    else
      var f := fs[|fs| - 1];
      if !f.Bytes? || f.num != 1 then None
      else
        match (ReadPackets(fs[..|fs| - 1]), ReadAll(f.payload))
        case (Some((names, calls)), Some(p)) =>
          (match ReadPacket(Packet(p), names)
           case None => None
           case Some((names', more)) => Some((names', calls + more)))
        case _ => None
  }

  /** All calls of a trace file. */
  ghost function ReadTrace(b: bytes): Option<seq<Call>>
  {
    match ReadAll(b)
    case None => None
    case Some(fs) =>
      match ReadPackets(fs)
      case None => None
      case Some((_, calls)) => Some(calls)
  }

  // ----- what a call shows -----

  datatype Shown =
    | NewTrack(uuid: nat, title: bytes, parent: nat, counter: bool)
    | SliceBegins(track: nat, ts: nat, name: bytes, args: seq<Arg>)
    | SliceEnds(track: nat, ts: nat)
    | Happens(track: nat, ts: nat, name: bytes, args: seq<Arg>)
    | Counts(track: nat, ts: nat, bits: nat)
    | Pictured(track: nat, ts: nat, name: bytes, jpeg: bytes)
    | Unknown

  /** Event types are 1 for the begin of a slice, 2 for its end, 3 for an instant, 4 for a counter. */
  ghost function Meaning(c: Call): Shown
  {
    match c
    case Track(uuid, title, parent, counter) => NewTrack(uuid, title, parent, counter)
    case Event(kind, track, ts, name, args, extra) =>
      if kind == 1 && name.Some? && extra == [] then SliceBegins(track, ts, name.value, args)
      else if kind == 2 && extra == [] then SliceEnds(track, ts)
      else if kind == 3 && name.Some? && extra == [] then Happens(track, ts, name.value, args)
      else if kind == 3 && name.Some? && Picture(extra).Some? then Pictured(track, ts, name.value, Picture(extra).value)
      else if kind == 4 && |extra| == 1 && extra[0].Fixed64? && extra[0].num == 44 then Counts(track, ts, extra[0].bits)
      else Unknown
  }

  /** The image of an event of category "android_screenshot": field 1 of the message in its field 50. */
  ghost function Picture(extra: seq<Field>): Option<bytes>
  {
    if |extra| == 2 && extra[0] == Bytes(22, Ascii("android_screenshot")) && extra[1].Bytes? && extra[1].num == 50 then
      match ReadAll(extra[1].payload)
      case Some(fs) => if |fs| == 1 && fs[0].Bytes? && fs[0].num == 1 then Some(fs[0].payload) else None
      case None => None
    else None
  }

  ghost function Meanings(calls: seq<Call>): seq<Shown>
  {
    if calls == [] then [] else Meanings(calls[..|calls| - 1]) + [Meaning(calls[|calls| - 1])]
  }

  lemma MeaningsSnoc(calls: seq<Call>, c: Call)
    ensures Meanings(calls + [c]) == Meanings(calls) + [Meaning(c)]
  {
    assert (calls + [c])[..|calls|] == calls;
  }

  // ----- reading back messages of known shape -----

  lemma PacketSnoc(fs: seq<Field>, f: Field)
    ensures Packet(fs + [f]) == AddToPacket(Packet(fs), f)
  {
    assert (fs + [f])[..|fs|] == fs;
  }

  lemma EventSnoc(fs: seq<Field>, f: Field)
    ensures EventOf(fs + [f]) == AddToEvent(EventOf(fs), f)
  {
    assert (fs + [f])[..|fs|] == fs;
  }

  lemma TrackSnoc(fs: seq<Field>, f: Field)
    ensures TrackOf(fs + [f]) == AddToTrack(TrackOf(fs), f)
  {
    assert (fs + [f])[..|fs|] == fs;
  }

  lemma PairReadsBack(nameField: nat, numField: nat, name: bytes, v: nat)
    requires nameField != numField
    ensures PairOf([Bytes(nameField, name), Varint(numField, v)], nameField, numField) == (name, v)
    ensures PairOf([Varint(numField, v), Bytes(nameField, name)], nameField, numField) == (name, v)
  {
    assert [Bytes(nameField, name), Varint(numField, v)][..1] == [Bytes(nameField, name)];
    assert [Varint(numField, v), Bytes(nameField, name)][..1] == [Varint(numField, v)];
    assert [Bytes(nameField, name)][..0] == [] && [Varint(numField, v)][..0] == [];
  }
}
