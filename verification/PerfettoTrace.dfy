/** The Perfetto trace writer: packets appended to a buffer, flushed to a file, names interned. */
module PerfettoTrace {
  import opened Prelude
  import opened Protobuf
  import opened TraceReader

  const K_SLICE_BEGIN := 1
  const K_SLICE_END := 2
  const K_INSTANT := 3
  const K_COUNTER := 4
  const FLUSH_AT := 0x10_0000

  const SCREENSHOT_NAME: bytes := [0x53, 0x63, 0x72, 0x65, 0x65, 0x6E, 0x73, 0x68, 0x6F, 0x74]
  const SCREENSHOT_CATEGORY: bytes := [0x61, 0x6E, 0x64, 0x72, 0x6F, 0x69, 0x64, 0x5F, 0x73, 0x63, 0x72, 0x65, 0x65, 0x6E,
                                       0x73, 0x68, 0x6F, 0x74]

  // ----- the messages written -----

  ghost function ArgFields(args: seq<Arg>): seq<Field>
  {
    if args == [] then []
    else
      var a := args[|args| - 1];
      ArgFields(args[..|args| - 1]) + [Bytes(4, EncodeAll([Bytes(10, a.name), Varint(3, a.value)]))]
  }

  ghost function EventFields(kind: nat, track: nat, iid: Option<nat>, args: seq<Arg>, extra: seq<Field>): seq<Field>
  {
    [Varint(9, kind), Varint(11, track)] + (if iid.Some? then [Varint(10, iid.value)] else []) + ArgFields(args) + extra
  }

  ghost function InternField(iid: nat, name: bytes): Field
  {
    Bytes(12, EncodeAll([Bytes(2, EncodeAll([Varint(1, iid), Bytes(2, name)]))]))
  }

  ghost function EventPacket(ts: nat, intern: Option<(nat, bytes)>, event: seq<Field>): seq<Field>
  {
    [Varint(8, ts), Varint(10, 1), Varint(13, 2)]
    + (if intern.Some? then [InternField(intern.value.0, intern.value.1)] else [])
    + [Bytes(11, EncodeAll(event))]
  }

  ghost function TrackFields(uuid: nat, name: bytes, parent: nat, counter: bool): seq<Field>
  {
    [Varint(1, uuid), Bytes(2, name)]
    + (if parent != 0 then [Varint(5, parent)] else []) + (if counter then [Bytes(8, [])] else [])
  }

  // ----- reading them back -----

  /** Fields a caller may append to an event: none of those the event itself is made of. */
  ghost predicate Extra(fs: seq<Field>)
  {
    forall i :: 0 <= i < |fs| ==> fs[i].num != 4 && fs[i].num != 9 && fs[i].num != 10 && fs[i].num != 11
  }

  lemma {:induction false} ExtraReadsBack(fs: seq<Field>, extra: seq<Field>)
    requires Extra(extra)
    ensures EventOf(fs + extra) == EventOf(fs).(extra := EventOf(fs).extra + extra)
  {
    hide EventOf;
    if extra == [] {
      assert fs + extra == fs;
    } else {
      var n := |extra| - 1;
      ExtraReadsBack(fs, extra[..n]);
      assert fs + extra == (fs + extra[..n]) + [extra[n]];
      EventSnoc(fs + extra[..n], extra[n]);
    }
  }

  lemma {:induction false} ArgsReadBack(fs: seq<Field>, args: seq<Arg>)
    requires EventOf(fs).args == []
    ensures var p := EventOf(fs + ArgFields(args));
            p == EventOf(fs).(args := p.args) && ReadArgs(p.args) == Some(args)
  {
    hide EventOf, ReadArgs, EncodeAll;
    if args == [] {
      assert fs + ArgFields(args) == fs;
      NoArgs();
    } else {
      var n := |args| - 1;
      var ann := EncodeAll([Bytes(10, args[n].name), Varint(3, args[n].value)]);
      ArgsReadBack(fs, args[..n]);
      ConcatAssoc(fs, ArgFields(args[..n]), [Bytes(4, ann)]);
      EventSnoc(fs + ArgFields(args[..n]), Bytes(4, ann));
      var read := EventOf(fs + ArgFields(args[..n])).args;
      OneMoreArg(read, args[..n], args[n], ann);
      assert args[..n] + [args[n]] == args;
    }
  }

  lemma NoArgs()
    ensures ReadArgs([]) == Some([])
  {
  }

  lemma OneMoreArg(read: seq<bytes>, args: seq<Arg>, a: Arg, ann: bytes)
    requires ReadArgs(read) == Some(args) && ann == EncodeAll([Bytes(10, a.name), Varint(3, a.value)])
    ensures ReadArgs(read + [ann]) == Some(args + [a])
  {
    hide ReadAll, EncodeAll, PairOf;
    ReadMessage([Bytes(10, a.name), Varint(3, a.value)]);
    PairReadsBack(10, 3, a.name, a.value);
    assert (read + [ann])[..|read|] == read;
  }

  lemma EventHeader(kind: nat, track: nat)
    ensures EventOf([Varint(9, kind), Varint(11, track)]) == EventParts(kind, track, None, [], [])
  {
    assert [Varint(9, kind), Varint(11, track)] == [] + [Varint(9, kind)] + [Varint(11, track)];
    EventSnoc([], Varint(9, kind));
    EventSnoc([] + [Varint(9, kind)], Varint(11, track));
  }

  lemma EventFieldsReadBack(kind: nat, track: nat, iid: Option<nat>, args: seq<Arg>, extra: seq<Field>)
    requires Extra(extra)
    ensures var p := EventOf(EventFields(kind, track, iid, args, extra));
            p.kind == kind && p.track == track && p.iid == iid && ReadArgs(p.args) == Some(args) && p.extra == extra
  {
    hide EventOf, ReadArgs, EncodeAll, ArgFields;
    EventHeader(kind, track);
    var h := [Varint(9, kind), Varint(11, track)];
    var h' := h + if iid.Some? then [Varint(10, iid.value)] else [];
    if iid.Some? { EventSnoc(h, Varint(10, iid.value)); } else { assert h' == h; }
    ArgsReadBack(h', args);
    ExtraReadsBack(h' + ArgFields(args), extra);
  }

  lemma InternReadsBack(names: Names, iid: nat, name: bytes)
    ensures var f := InternField(iid, name); AddInterned(names, [f.payload]) == Some(names[iid := name])
  {
    var entry := [Varint(1, iid), Bytes(2, name)];
    var interned := [Bytes(2, EncodeAll(entry))];
    ReadMessage(interned);
    ReadMessage(entry);
    PairReadsBack(2, 1, name, iid);
    OneEntry(names, EncodeAll(entry), iid, name);
    OneInterned(names, interned, names[iid := name]);
  }

  lemma OneEntry(names: Names, entry: bytes, iid: nat, name: bytes)
    requires ReadAll(entry).Some? && PairOf(ReadAll(entry).value, 2, 1) == (name, iid)
    ensures BytesFields([Bytes(2, entry)], 2) == [entry] && AddEntries(names, [entry]) == Some(names[iid := name])
  {
    hide ReadAll, PairOf;
    assert [Bytes(2, entry)][..0] == [] && [entry][..0] == [];
  }

  lemma OneInterned(names: Names, fs: seq<Field>, names': Names)
    requires ReadAll(EncodeAll(fs)) == Some(fs) && AddEntries(names, BytesFields(fs, 2)) == Some(names')
    ensures AddInterned(names, [EncodeAll(fs)]) == Some(names')
  {
    hide ReadAll, EncodeAll, AddEntries, BytesFields;
    assert [EncodeAll(fs)][..0] == [];
  }

  /** An event packet's parts. */
  lemma EventPacketParts(ts: nat, intern: Option<(nat, bytes)>, event: seq<Field>)
    ensures Packet(EventPacket(ts, intern, event))
         == PacketParts(ts, 2, if intern.Some? then [InternField(intern.value.0, intern.value.1).payload] else [],
                        Some(EncodeAll(event)), None)
  {
    hide EncodeAll, InternField, Packet;
    PacketHeader(ts);
    var h := [Varint(8, ts), Varint(10, 1), Varint(13, 2)];
    var i := if intern.Some? then [InternField(intern.value.0, intern.value.1)] else [];
    if intern.Some? {
      InternIsBytes(intern.value.0, intern.value.1);
      PacketSnoc(h, i[0]);
    } else {
      assert h + i == h;
    }
    PacketSnoc(h + i, Bytes(11, EncodeAll(event)));
  }

  lemma InternIsBytes(iid: nat, name: bytes)
    ensures InternField(iid, name).Bytes? && InternField(iid, name).num == 12
  {
  }

  lemma NoPacket()
    ensures Packet([]) == NO_PACKET
  {
  }

  lemma PacketHeader(ts: nat)
    ensures Packet([Varint(8, ts), Varint(10, 1), Varint(13, 2)]) == PacketParts(ts, 2, [], None, None)
  {
    hide Packet;
    PacketSnoc([], Varint(8, ts));
    PacketSnoc([] + [Varint(8, ts)], Varint(10, 1));
    PacketSnoc([] + [Varint(8, ts)] + [Varint(10, 1)], Varint(13, 2));
    NoPacket();
    assert [Varint(8, ts), Varint(10, 1), Varint(13, 2)] == [] + [Varint(8, ts)] + [Varint(10, 1)] + [Varint(13, 2)];
  }

  lemma TrackHeader(uuid: nat, name: bytes)
    ensures TrackOf([Varint(1, uuid), Bytes(2, name)]) == Track(uuid, name, 0, false)
  {
    assert [Varint(1, uuid), Bytes(2, name)] == [] + [Varint(1, uuid)] + [Bytes(2, name)];
    TrackSnoc([], Varint(1, uuid));
    TrackSnoc([] + [Varint(1, uuid)], Bytes(2, name));
  }

  /** A track packet reads as the declaration. */
  lemma TrackReadsBack(uuid: nat, name: bytes, parent: nat, counter: bool)
    ensures TrackOf(TrackFields(uuid, name, parent, counter)) == Track(uuid, name, parent, counter)
  {
    hide TrackOf;
    TrackHeader(uuid, name);
    var h := [Varint(1, uuid), Bytes(2, name)];
    var p := if parent != 0 then [Varint(5, parent)] else [];
    if parent != 0 { TrackSnoc(h, p[0]); } else { assert h + p == h; }
    var c := if counter then [Bytes(8, [])] else [];
    if counter { TrackSnoc(h + p, c[0]); } else { assert h + p + c == h + p; }
  }

  lemma TrackPacketParts(d: bytes)
    ensures Packet([Bytes(60, d)]) == NO_PACKET.(track := Some(d))
  {
    assert [Bytes(60, d)][..0] == [];
  }

  /** The packet that opens a trace: no call, and no names known. */
  lemma FirstPacketReads(names: Names)
    ensures ReadPacket(Packet([Varint(10, 1), Varint(13, 1)]), names) == Some((map[], []))
  {
    assert [Varint(10, 1), Varint(13, 1)][..1] == [Varint(10, 1)] && [Varint(10, 1)][..0] == [];
  }

  /** A track declaration reads back and leaves the names alone. */
  lemma TrackPacketReads(uuid: nat, name: bytes, parent: nat, counter: bool, names: Names)
    ensures ReadPacket(Packet([Bytes(60, EncodeAll(TrackFields(uuid, name, parent, counter)))]), names)
         == Some((names, [Track(uuid, name, parent, counter)]))
  {
    hide EncodeAll, ReadAll, TrackFields, TrackOf, Packet;
    var d := EncodeAll(TrackFields(uuid, name, parent, counter));
    TrackPacketParts(d);
    ReadMessage(TrackFields(uuid, name, parent, counter));
    TrackReadsBack(uuid, name, parent, counter);
  }

  /** An event reads back with its name, whether the name is known or comes in the same packet. */
  lemma EventPacketReads(kind: nat, track: nat, ts: nat, iid: Option<nat>, intern: bool, name: bytes, args: seq<Arg>,
                         extra: seq<Field>, names: Names)
    requires Extra(extra) && (intern ==> iid.Some?)
    requires iid.Some? && !intern ==> iid.value in names && names[iid.value] == name
    ensures ReadPacket(Packet(EventPacket(ts, if intern then Some((iid.value, name)) else None,
                                          EventFields(kind, track, iid, args, extra))), names)
         == Some((if intern then names[iid.value := name] else names,
                  [Event(kind, track, ts, if iid.Some? then Some(name) else None, args, extra)]))
  {
    hide EncodeAll, ReadAll, EventFields, EventOf, EventPacket, Packet, ReadArgs, InternField, AddInterned;
    var event := EventFields(kind, track, iid, args, extra);
    var pair := if intern then Some((iid.value, name)) else None;
    EventPacketParts(ts, pair, event);
    ReadMessage(event);
    EventFieldsReadBack(kind, track, iid, args, extra);
    if intern { InternReadsBack(names, iid.value, name); } else { NothingInterned(names); }
  }

  lemma NothingInterned(names: Names)
    ensures AddInterned(names, []) == Some(names)
  {
  }

  /** Appending a packet to a trace appends its calls. */
  lemma ReadPacketsSnoc(fs: seq<Field>, packet: seq<Field>, names: Names, calls: seq<Call>, names': Names, more: seq<Call>)
    requires ReadPackets(fs) == Some((names, calls)) && ReadPacket(Packet(packet), names) == Some((names', more))
    ensures ReadPackets(fs + [Bytes(1, EncodeAll(packet))]) == Some((names', calls + more))
  {
    hide EncodeAll, ReadAll, ReadPacket, Packet;
    ReadMessage(packet);
    assert (fs + [Bytes(1, EncodeAll(packet))])[..|fs|] == fs;
  }

  // ----- building the messages -----

  method PutUint(out: bytes, num: u32, v: nat, ghost fs: seq<Field>) returns (r: bytes)
    requires out == EncodeAll(fs)
    ensures r == EncodeAll(fs + [Varint(num, v)])
  {
    hide Encode, EncodeAll;
    r := AppendUint(out, num, v);
    EncodeSnoc(fs, Varint(num, v));
  }

  method PutBytes(out: bytes, num: u32, v: bytes, ghost fs: seq<Field>) returns (r: bytes)
    requires out == EncodeAll(fs)
    ensures r == EncodeAll(fs + [Bytes(num, v)])
  {
    hide Encode, EncodeAll;
    r := AppendBytes(out, num, v);
    EncodeSnoc(fs, Bytes(num, v));
  }

  method PutDouble(out: bytes, num: u32, bits: u64, ghost fs: seq<Field>) returns (r: bytes)
    requires out == EncodeAll(fs)
    ensures r == EncodeAll(fs + [Fixed64(num, bits)])
  {
    hide Encode, EncodeAll;
    r := AppendDouble(out, num, bits);
    EncodeSnoc(fs, Fixed64(num, bits));
  }

  method TrackDescriptor(uuid: nat, name: bytes, parent: nat, counter: bool) returns (desc: bytes)
    ensures desc == EncodeAll(TrackFields(uuid, name, parent, counter))
  {
    hide Encode, EncodeAll;
    EncodeNone();
    ghost var fs: seq<Field> := [];
    desc := PutUint([], 1, uuid, fs);
    fs := fs + [Varint(1, uuid)];
    desc := PutBytes(desc, 2, name, fs);
    fs := fs + [Bytes(2, name)];
    if parent != 0 {
      desc := PutUint(desc, 5, parent, fs);
      fs := fs + [Varint(5, parent)];
    }
    if counter {
      desc := PutBytes(desc, 8, [], fs);
      fs := fs + [Bytes(8, [])];
    }
    assert fs == TrackFields(uuid, name, parent, counter);
  }

  lemma EncodeNone()
    ensures EncodeAll([]) == []
  {
  }

  method InternedData(iid: nat, name: bytes) returns (interned: bytes)
    ensures Bytes(12, interned) == InternField(iid, name)
  {
    hide Encode, EncodeAll;
    EncodeNone();
    var entry := PutUint([], 1, iid, []);
    entry := PutBytes(entry, 2, name, [] + [Varint(1, iid)]);
    assert [] + [Varint(1, iid)] + [Bytes(2, name)] == [Varint(1, iid), Bytes(2, name)];
    interned := PutBytes([], 2, entry, []);
    assert [] + [Bytes(2, entry)] == [Bytes(2, entry)];
  }

  method Annotation(a: Arg) returns (ann: bytes)
    ensures ann == EncodeAll([Bytes(10, a.name), Varint(3, a.value)])
  {
    hide Encode, EncodeAll;
    EncodeNone();
    ann := PutBytes([], 10, a.name, []);
    ann := PutUint(ann, 3, a.value, [] + [Bytes(10, a.name)]);
    assert [] + [Bytes(10, a.name)] + [Varint(3, a.value)] == [Bytes(10, a.name), Varint(3, a.value)];
  }

  method TrackEvent(kind: nat, track: nat, iid: Option<nat>, args: seq<Arg>, extra: bytes, ghost extras: seq<Field>)
    returns (ev: bytes)
    requires extra == EncodeAll(extras)
    ensures ev == EncodeAll(EventFields(kind, track, iid, args, extras))
  {
    hide Encode, EncodeAll;
    EncodeNone();
    ghost var fs: seq<Field> := [];
    ev := PutUint([], 9, kind, fs);
    fs := fs + [Varint(9, kind)];
    ev := PutUint(ev, 11, track, fs);
    fs := fs + [Varint(11, track)];
    if iid.Some? {
      ev := PutUint(ev, 10, iid.value, fs);
      fs := fs + [Varint(10, iid.value)];
    }
    ghost var header := fs;
    var i := 0;
    while i < |args|
      invariant 0 <= i <= |args|
      invariant ev == EncodeAll(fs) && fs == header + ArgFields(args[..i])
    {
      var ann := Annotation(args[i]);
      ev := PutBytes(ev, 4, ann, fs);
      fs := fs + [Bytes(4, ann)];
      assert args[..i + 1][..i] == args[..i];
      i := i + 1;
    }
    assert args[..i] == args;
    EncodeConcat(fs, extras);
    ev := ev + extra;
    assert header == [Varint(9, kind), Varint(11, track)] + if iid.Some? then [Varint(10, iid.value)] else [];
    assert fs + extras == EventFields(kind, track, iid, args, extras);
  }

  method EventBody(ts: nat, intern: Option<(nat, bytes)>, ev: bytes, ghost event: seq<Field>) returns (body: bytes)
    requires ev == EncodeAll(event)
    ensures body == EncodeAll(EventPacket(ts, intern, event))
  {
    hide Encode, EncodeAll, InternField;
    EncodeNone();
    ghost var fs: seq<Field> := [];
    body := PutUint([], 8, ts, fs);
    fs := fs + [Varint(8, ts)];
    body := PutUint(body, 10, 1, fs);
    fs := fs + [Varint(10, 1)];
    body := PutUint(body, 13, 2, fs);
    fs := fs + [Varint(13, 2)];
    if intern.Some? {
      var interned := InternedData(intern.value.0, intern.value.1);
      body := PutBytes(body, 12, interned, fs);
      fs := fs + [Bytes(12, interned)];
    }
    body := PutBytes(body, 11, ev, fs);
    fs := fs + [Bytes(11, ev)];
    assert fs == EventPacket(ts, intern, event);
  }

  // ----- the writer -----

  /** Every interned name is known to the reader under its id, and ids are handed out from 1 up. */
  ghost predicate Interned(names: map<bytes, nat>, table: Names)
  {
    forall n :: n in names ==> 1 <= names[n] <= |names| && names[n] in table && table[names[n]] == n
  }

  lemma InternOne(names: map<bytes, nat>, table: Names, name: bytes)
    requires Interned(names, table) && name !in names
    ensures var iid := |names| + 1; Interned(names[name := iid], table[iid := name])
  {
    assert |names[name := |names| + 1]| == |names| + 1;
  }

  class Writer {
    /** What the open file holds so far, when one is open. */
    var file: Option<bytes>
    var buf: bytes
    var written: nat
    var nextUuid: nat
    var names: map<bytes, nat>
    /** The packets in file and buffer, and what a reader makes of them. */
    ghost var packets: seq<Field>
    ghost var table: Names
    ghost var log: seq<Call>

    ghost function Contents(): bytes
      reads `file, `buf
    {
      (if file.Some? then file.value else []) + buf
    }

    ghost predicate Valid()
      reads this
    {
      && Contents() == EncodeAll(packets)
      && ReadPackets(packets) == Some((table, log))
      && (file.Some? ==> written == |file.value| && Interned(names, table))
    }

    constructor ()
      ensures Valid() && file == None && nextUuid == 1 && log == []
    {
      file, buf, written, nextUuid, names := None, [], 0, 1, map[];
      packets, table, log := [], map[], [];
    }

    /** The size reported while a file is open. */
    function Size(): (n: nat)
      requires Valid() && file.Some?
      reads this
      ensures n == |EncodeAll(packets)|
    {
      written + |buf|
    }

    method Flush()
      requires Valid()
      modifies `file, `buf, `written
      ensures Valid() && file.Some? == old(file.Some?)
      ensures buf == if file.Some? then [] else old(buf)
    {
      hide EncodeAll, ReadPackets, Interned;
      if file == None || buf == [] { return; }
      file := Some(file.value + buf);
      written := written + |buf|;
      buf := [];
      assert Contents() == old(Contents());
    }

    /** packet: `calls` is what the packet says, `known` the names known after it. */
    method Packet(body: bytes, ghost fields: seq<Field>, ghost known: Names, ghost calls: seq<Call>)
      requires Contents() == EncodeAll(packets) && ReadPackets(packets) == Some((table, log))
      requires file.Some? ==> written == |file.value| && Interned(names, known)
      requires body == EncodeAll(fields) && ReadPacket(TraceReader.Packet(fields), table) == Some((known, calls))
      modifies `file, `buf, `written, `packets, `table, `log
      ensures Valid() && file.Some? == old(file.Some?)
      ensures log == old(log) + calls
      ensures var longer := old(buf) + Encode(Bytes(1, body));
              buf == if file.Some? && |longer| >= FLUSH_AT then [] else longer
    {
      hide Encode, EncodeAll, ReadPackets, ReadPacket, TraceReader.Packet, Interned;
      var was := buf;
      buf := AppendBytes(buf, 1, body);
      ConcatAssoc(if file.Some? then file.value else [], was, Encode(Bytes(1, body)));
      EncodeSnoc(packets, Bytes(1, body));
      ReadPacketsSnoc(packets, fields, table, log, known, calls);
      packets, table, log := packets + [Bytes(1, body)], known, log + calls;
      if |buf| >= FLUSH_AT { Flush(); }
    }

    /** Closes the open file, which then says exactly what was logged. */
    method Close() returns (closed: Option<bytes>)
      requires Valid()
      modifies this
      ensures Valid() && file == None && nextUuid == old(nextUuid)
      ensures closed.Some? == old(file.Some?)
      ensures closed.Some? ==> ReadTrace(closed.value) == Some(old(log)) && log == []
      ensures closed == None ==> log == old(log)
    {
      hide Encode, EncodeAll, ReadPackets, Interned;
      closed := None;
      if file == None { return; }
      Flush();
      closed := file;
      assert file.value + buf == file.value;
      ReadMessage(packets);
      file := None;
      packets, table, log := [], map[], [];
      EncodeNone();
      NoPackets();
    }

    /** Opens a file: the descriptors declared since the last close go to it, ahead of its first packet. */
    method Open(ok: bool) returns (closed: Option<bytes>)
      requires Valid()
      modifies this
      ensures Valid() && file.Some? == ok && nextUuid == if ok then 1 else old(nextUuid)
      ensures closed.Some? == old(file.Some?)
      ensures closed.Some? ==> ReadTrace(closed.value) == Some(old(log)) && log == []
      ensures closed == None ==> log == old(log)
    {
      hide Encode, EncodeAll, ReadPackets, ReadTrace, ReadPacket, TraceReader.Packet;
      closed := Close();
      if !ok { return; }
      assert [] + buf == buf;
      file, written, nextUuid, names := Some([]), 0, 1, map[];
      EncodeNone();
      var first := PutUint([], 10, 1, []);
      first := PutUint(first, 13, 1, [] + [Varint(10, 1)]);
      ghost var fields := [Varint(10, 1), Varint(13, 1)];
      assert [] + [Varint(10, 1)] + [Varint(13, 1)] == fields;
      FirstPacketReads(table);
      Packet(first, fields, map[], []);
    }

    /** declare: works on a closed writer too; its descriptor then waits for the next file. */
    method Declare(name: bytes, parent: nat, counter: bool) returns (uuid: nat)
      requires Valid()
      modifies this
      ensures Valid() && file.Some? == old(file.Some?)
      ensures uuid == old(nextUuid) && nextUuid == uuid + 1
      ensures log == old(log) + [Call.Track(uuid, name, parent, counter)]
    {
      hide Encode, EncodeAll, ReadPackets, ReadPacket, TraceReader.Packet, TrackFields;
      uuid := nextUuid;
      nextUuid := nextUuid + 1;
      var desc := TrackDescriptor(uuid, name, parent, counter);
      EncodeNone();
      var body := PutBytes([], 60, desc, []);
      assert [] + [Bytes(60, desc)] == [Bytes(60, desc)];
      TrackPacketReads(uuid, name, parent, counter, table);
      Packet(body, [Bytes(60, desc)], table, [Call.Track(uuid, name, parent, counter)]);
    }

    method Track(name: bytes, parent: nat) returns (uuid: nat)
      requires Valid()
      modifies this
      ensures Valid() && file.Some? == old(file.Some?)
      ensures uuid == old(nextUuid) && nextUuid == uuid + 1
      ensures log == old(log) + [Call.Track(uuid, name, parent, false)]
    {
      uuid := Declare(name, parent, false);
    }

    method CounterTrack(name: bytes, parent: nat) returns (uuid: nat)
      requires Valid()
      modifies this
      ensures Valid() && file.Some? == old(file.Some?)
      ensures uuid == old(nextUuid) && nextUuid == uuid + 1
      ensures log == old(log) + [Call.Track(uuid, name, parent, true)]
    {
      uuid := Declare(name, parent, true);
    }

    /** event: dropped when no file is open. */
    method Event(kind: nat, track: nat, ts: nat, name: Option<bytes>, args: seq<Arg>, extra: bytes, ghost extras: seq<Field>)
      requires Valid() && extra == EncodeAll(extras) && Extra(extras)
      modifies this
      ensures Valid() && file.Some? == old(file.Some?) && nextUuid == old(nextUuid)
      ensures log == old(log) + if file.Some? then [Call.Event(kind, track, ts, name, args, extras)] else []
    {
      hide Encode, EncodeAll, ReadPackets, ReadPacket, TraceReader.Packet, EventFields, EventPacket, Extra;
      if file == None { return; }
      var iid: Option<nat>, intern := None, false;
      ghost var known := table;
      if name.Some? {
        if name.value in names {
          iid := Some(names[name.value]);
        } else {
          iid, intern := Some(|names| + 1), true;
          InternOne(names, table, name.value);
          known := table[|names| + 1 := name.value];
          names := names[name.value := |names| + 1];
        }
      }
      var text := if name.Some? then name.value else [];
      var pair := if intern then Some((iid.value, text)) else None;
      var ev := TrackEvent(kind, track, iid, args, extra, extras);
      ghost var event := EventFields(kind, track, iid, args, extras);
      var body := EventBody(ts, pair, ev, event);
      EventPacketReads(kind, track, ts, iid, intern, text, args, extras, table);
      Packet(body, EventPacket(ts, pair, event), known, [Call.Event(kind, track, ts, name, args, extras)]);
    }

    method Begin(track: nat, ts: nat, name: bytes, args: seq<Arg>)
      requires Valid()
      modifies this
      ensures Valid() && file.Some? == old(file.Some?) && nextUuid == old(nextUuid)
      ensures log == old(log) + if file.Some? then [Call.Event(K_SLICE_BEGIN, track, ts, Some(name), args, [])] else []
    {
      Event(K_SLICE_BEGIN, track, ts, Some(name), args, [], []);
    }

    method End(track: nat, ts: nat)
      requires Valid()
      modifies this
      ensures Valid() && file.Some? == old(file.Some?) && nextUuid == old(nextUuid)
      ensures log == old(log) + if file.Some? then [Call.Event(K_SLICE_END, track, ts, None, [], [])] else []
    {
      Event(K_SLICE_END, track, ts, None, [], [], []);
    }

    method Instant(track: nat, ts: nat, name: bytes, args: seq<Arg>)
      requires Valid()
      modifies this
      ensures Valid() && file.Some? == old(file.Some?) && nextUuid == old(nextUuid)
      ensures log == old(log) + if file.Some? then [Call.Event(K_INSTANT, track, ts, Some(name), args, [])] else []
    {
      Event(K_INSTANT, track, ts, Some(name), args, [], []);
    }

    method Counter(track: nat, ts: nat, bits: u64)
      requires Valid()
      modifies this
      ensures Valid() && file.Some? == old(file.Some?) && nextUuid == old(nextUuid)
      ensures log == old(log) + if file.Some? then [Call.Event(K_COUNTER, track, ts, None, [], [Fixed64(44, bits)])] else []
    {
      hide Encode, EncodeAll;
      EncodeNone();
      var extra := PutDouble([], 44, bits, []);
      assert [] + [Fixed64(44, bits)] == [Fixed64(44, bits)];
      Event(K_COUNTER, track, ts, None, [], extra, [Fixed64(44, bits)]);
    }

    method Screenshot(track: nat, ts: nat, jpeg: bytes)
      requires Valid()
      modifies this
      ensures Valid() && file.Some? == old(file.Some?) && nextUuid == old(nextUuid)
      ensures log == old(log) + if file.Some? then [ScreenshotCall(track, ts, jpeg)] else []
    {
      hide Encode, EncodeAll;
      EncodeNone();
      var shot := PutBytes([], 1, jpeg, []);
      assert [] + [Bytes(1, jpeg)] == [Bytes(1, jpeg)];
      var extra := PutBytes([], 22, SCREENSHOT_CATEGORY, []);
      extra := PutBytes(extra, 50, shot, [] + [Bytes(22, SCREENSHOT_CATEGORY)]);
      assert [] + [Bytes(22, SCREENSHOT_CATEGORY)] + [Bytes(50, shot)] == ScreenshotFields(jpeg);
      Event(K_INSTANT, track, ts, Some(SCREENSHOT_NAME), [], extra, ScreenshotFields(jpeg));
    }
  }

  ghost function ScreenshotFields(jpeg: bytes): seq<Field>
  {
    [Bytes(22, SCREENSHOT_CATEGORY), Bytes(50, EncodeAll([Bytes(1, jpeg)]))]
  }

  ghost function ScreenshotCall(track: nat, ts: nat, jpeg: bytes): Call
  {
    Call.Event(K_INSTANT, track, ts, Some(SCREENSHOT_NAME), [], ScreenshotFields(jpeg))
  }

  lemma NoPackets()
    ensures ReadPackets([]) == Some((map[], []))
  {
  }
}
