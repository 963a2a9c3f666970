/** The sync protocol's frames: document envelopes, sync messages and awareness updates.
    Strings travel as their bytes, so a Go string is a byte sequence here. */
module YProto {
  import opened Results
  import opened VarUint

  const MESSAGE_SYNC := 0
  const MESSAGE_AWARENESS := 1
  const MESSAGE_NOTTY_DOCUMENT := 42

  const SYNC_STEP_1 := 0
  const SYNC_STEP_2 := 1
  const SYNC_UPDATE := 2

  /** A Go slice's length is an int, so it fits the 64 bits of a length prefix. */
  type bytes = s: seq<byte> | |s| < U64

  type int64 = x: int | -0x8000_0000_0000_0000 <= x < 0x8000_0000_0000_0000

  type uint64 = x: int | 0 <= x < U64

  datatype AwarenessState = AwarenessState(clock: int64, state: bytes)

  /** Go's conversions between int64 and uint64 keep the 64 bits. */
  function ToUint64(clock: int64): uint64 {
    if clock < 0 then clock + U64 else clock
  }

  function ToInt64(word: int): int {
    if word < 0x8000_0000_0000_0000 then word else word - U64
  }

  // ---- length-prefixed bytes ----

  function EncodeVarBytes(value: bytes): seq<byte> {
    Encode(|value|) + value
  }

  function DecodeVarBytes(s: seq<byte>): Result<Read<seq<byte>>, WireError> {
    match DecodeVarUint(s)
    case Err(error) => Err(error)
    case Ok(Read(length, rest)) =>
      if length <= |rest| then Ok(Read(rest[..length], rest[length..]))
      else Err(if rest == [] then Eof else UnexpectedEof)
  }

  method ReadVarBytes(reader: Reader) returns (r: Result<seq<byte>, WireError>)
    requires reader.Valid()
    modifies reader`pos, reader`unread
    ensures reader.Valid()
    ensures match DecodeVarBytes(old(reader.unread))
            case Ok(read) => r == Ok(read.value) && reader.unread == read.rest
            case Err(error) => r == Err(error)
  {
    var length := reader.ReadVarUint();
    if length.Err? {
      return Err(length.error);
    }
    r := reader.ReadFull(length.value);
  }

  lemma VarBytesRoundTrip(value: bytes, rest: seq<byte>)
    ensures DecodeVarBytes(EncodeVarBytes(value) + rest) == Ok(Read(value, rest))
  {
    assert EncodeVarBytes(value) + rest == Encode(|value|) + (value + rest);
    DecodeInvertsEncode(|value|, value + rest);
    assert (value + rest)[..|value|] == value && (value + rest)[|value|..] == rest;
  }

  lemma VarBytesReadAPrefix(s: seq<byte>, other: seq<byte>)
    requires DecodeVarBytes(s).Ok?
    ensures var read := DecodeVarBytes(s).value;
            |read.rest| < |s|
            && read.rest == s[|s| - |read.rest|..]
            && DecodeVarBytes(s[..|s| - |read.rest|] + other) == Ok(Read(read.value, other))
  {
    hide Decode;
    var read := DecodeVarBytes(s).value;
    var length := DecodeVarUint(s).value.value;
    var after := DecodeVarUint(s).value.rest;
    var head := |s| - |after|;
    DecodeReadsAPrefix(s, 0, 0, after[..length] + other);
    var tail := s[head..head + length] + other;
    assert s[..|s| - |read.rest|] + other == s[..head] + tail;
    assert tail[..length] == read.value && tail[length..] == other;
  }

  // ---- document envelopes ----

  function BuildDocumentMessage(documentId: bytes, payload: bytes): seq<byte> {
    Encode(MESSAGE_NOTTY_DOCUMENT) + EncodeVarBytes(documentId) + EncodeVarBytes(payload)
  }

  function DecodeDocumentMessage(message: seq<byte>): Result<(seq<byte>, seq<byte>), WireError> {
    match DecodeVarUint(message)
    case Err(error) => Err(error)
    case Ok(Read(messageType, afterType)) =>
      if messageType != MESSAGE_NOTTY_DOCUMENT then Err(WrongMessageType)
      else match DecodeVarBytes(afterType)
        case Err(error) => Err(error)
        case Ok(Read(documentId, afterId)) =>
          if documentId == [] then Err(MissingDocumentId)
          else match DecodeVarBytes(afterId)
            case Err(error) => Err(error)
            case Ok(Read(payload, rest)) =>
              if payload == [] then Err(MissingPayload)
              else if rest != [] then Err(TrailingBytes)
              else Ok((documentId, payload))
  }

  /** An envelope decodes to its parts exactly when both are non-empty and nothing follows. */
  lemma DocumentRoundTrip(documentId: bytes, payload: bytes, extra: seq<byte>)
    ensures DecodeDocumentMessage(BuildDocumentMessage(documentId, payload) + extra) ==
            if documentId == [] then Err(MissingDocumentId)
            else if payload == [] then Err(MissingPayload)
            else if extra != [] then Err(TrailingBytes)
            else Ok((documentId, payload))
  {
    hide Decode, Encode, DecodeVarBytes;
    var body := EncodeVarBytes(documentId) + (EncodeVarBytes(payload) + extra);
    assert BuildDocumentMessage(documentId, payload) + extra == Encode(MESSAGE_NOTTY_DOCUMENT) + body;
    DecodeInvertsEncode(MESSAGE_NOTTY_DOCUMENT, body);
    VarBytesRoundTrip(documentId, EncodeVarBytes(payload) + extra);
    VarBytesRoundTrip(payload, extra);
  }

  lemma VarBytesWithTrailing(s: seq<byte>, extra: seq<byte>)
    requires DecodeVarBytes(s).Ok?
    ensures DecodeVarBytes(s + extra) == Ok(Read(DecodeVarBytes(s).value.value, DecodeVarBytes(s).value.rest + extra))
  {
    var rest := DecodeVarBytes(s).value.rest;
    VarBytesReadAPrefix(s, rest + extra);
    assert s[..|s| - |rest|] + (rest + extra) == s + extra;
  }

  lemma VarUintWithTrailing(s: seq<byte>, extra: seq<byte>)
    requires DecodeVarUint(s).Ok?
    ensures DecodeVarUint(s + extra) == Ok(Read(DecodeVarUint(s).value.value, DecodeVarUint(s).value.rest + extra))
  {
    var rest := DecodeVarUint(s).value.rest;
    DecodeReadsAPrefix(s, 0, 0, rest + extra);
    assert s[..|s| - |rest|] + (rest + extra) == s + extra;
  }

  /** Any accepted envelope stops being accepted as soon as bytes are added to it. */
  lemma DocumentRejectsTrailing(message: seq<byte>, extra: seq<byte>)
    requires DecodeDocumentMessage(message).Ok? && extra != []
    ensures DecodeDocumentMessage(message + extra) == Err(TrailingBytes)
  {
    hide DecodeVarBytes;
    var afterType := DecodeVarUint(message).value.rest;
    var afterId := DecodeVarBytes(afterType).value.rest;
    VarUintWithTrailing(message, extra);
    VarBytesWithTrailing(afterType, extra);
    VarBytesWithTrailing(afterId, extra);
    assert [] + extra == extra;
  }

  // ---- sync messages ----

  function BuildSyncStep1FromStateVector(stateVector: bytes): seq<byte> {
    Encode(MESSAGE_SYNC) + Encode(SYNC_STEP_1) + EncodeVarBytes(stateVector)
  }

  function BuildSyncStep2FromUpdate(update: bytes): seq<byte> {
    Encode(MESSAGE_SYNC) + Encode(SYNC_STEP_2) + EncodeVarBytes(update)
  }

  function BuildSyncUpdate(update: bytes): seq<byte> {
    Encode(MESSAGE_SYNC) + Encode(SYNC_UPDATE) + EncodeVarBytes(update)
  }

  function DecodeSyncMessage(s: seq<byte>): Result<Read<(nat, seq<byte>)>, WireError> {
    match DecodeVarUint(s)
    case Err(error) => Err(error)
    case Ok(Read(messageType, rest)) =>
      if messageType == SYNC_STEP_1 || messageType == SYNC_STEP_2 || messageType == SYNC_UPDATE then
        match DecodeVarBytes(rest)
        case Err(error) => Err(error)
        case Ok(Read(value, after)) => Ok(Read((messageType, value), after))
      else Err(UnknownSyncType)
  }

  /** The server reads the message type first and hands the rest to the sync decoder. */
  function DecodeSyncFrame(s: seq<byte>): Result<Read<(nat, seq<byte>)>, WireError> {
    match DecodeVarUint(s)
    case Err(error) => Err(error)
    case Ok(Read(messageType, rest)) =>
      if messageType == MESSAGE_SYNC then DecodeSyncMessage(rest) else Err(WrongMessageType)
  }

  lemma SyncBodyRoundTrip(syncType: nat, data: bytes, rest: seq<byte>)
    requires syncType <= 2
    ensures DecodeSyncFrame(Encode(MESSAGE_SYNC) + Encode(syncType) + EncodeVarBytes(data) + rest)
         == Ok(Read((syncType, data), rest))
  {
    hide Decode, Encode, DecodeVarBytes;
    var body := EncodeVarBytes(data) + rest;
    assert Encode(MESSAGE_SYNC) + Encode(syncType) + EncodeVarBytes(data) + rest
        == Encode(MESSAGE_SYNC) + (Encode(syncType) + body);
    DecodeInvertsEncode(MESSAGE_SYNC, Encode(syncType) + body);
    DecodeInvertsEncode(syncType, body);
    VarBytesRoundTrip(data, rest);
  }

  /** All three sync messages come back with their type and data, and leave what follows. */
  lemma SyncRoundTrip(data: bytes, rest: seq<byte>)
    ensures DecodeSyncFrame(BuildSyncStep1FromStateVector(data) + rest) == Ok(Read((SYNC_STEP_1, data), rest))
    ensures DecodeSyncFrame(BuildSyncStep2FromUpdate(data) + rest) == Ok(Read((SYNC_STEP_2, data), rest))
    ensures DecodeSyncFrame(BuildSyncUpdate(data) + rest) == Ok(Read((SYNC_UPDATE, data), rest))
  {
    SyncBodyRoundTrip(SYNC_STEP_1, data, rest);
    SyncBodyRoundTrip(SYNC_STEP_2, data, rest);
    SyncBodyRoundTrip(SYNC_UPDATE, data, rest);
  }

  /** The numbers on the wire: a document envelope begins with 42, a sync message with 0 and then
      0, 1 or 2 for the two steps and for updates. */
  lemma FirstBytes(documentId: bytes, payload: bytes)
    ensures BuildDocumentMessage(documentId, payload) == [42] + EncodeVarBytes(documentId) + EncodeVarBytes(payload)
    ensures BuildSyncStep1FromStateVector(payload) == [0, 0] + EncodeVarBytes(payload)
    ensures BuildSyncStep2FromUpdate(payload) == [0, 1] + EncodeVarBytes(payload)
    ensures BuildSyncUpdate(payload) == [0, 2] + EncodeVarBytes(payload)
    ensures |payload| < 128 ==> EncodeVarBytes(payload) == [|payload|] + payload
  {
    assert Encode(42) == [42] && Encode(0) == [0] && Encode(1) == [1] && Encode(2) == [2];
    assert [0] + [0] == [0, 0] && [0] + [1] == [0, 1] && [0] + [2] == [0, 2];
  }

  /** Every other message type, and every other kind of sync message, is refused. */
  lemma OtherTypesAreRefused(kind: uint64, syncKind: uint64, rest: seq<byte>)
    ensures kind != 42 ==> DecodeDocumentMessage(Encode(kind) + rest) == Err(WrongMessageType)
    ensures kind != 0 ==> DecodeSyncFrame(Encode(kind) + rest) == Err(WrongMessageType)
    ensures syncKind > 2 ==> DecodeSyncFrame([0] + Encode(syncKind) + rest) == Err(UnknownSyncType)
  {
    hide Decode, Encode, DecodeVarBytes;
    DecodeInvertsEncode(kind, rest);
    DecodeInvertsEncode(syncKind, rest);
    ZeroByte(Encode(syncKind) + rest);
    assert [0] + Encode(syncKind) + rest == [0] + (Encode(syncKind) + rest);
  }

  lemma ZeroByte(rest: seq<byte>)
    ensures DecodeVarUint([0] + rest) == Ok(Read(0, rest))
  {
    assert Encode(0) == [0];
    DecodeInvertsEncode(0, rest);
  }

  // ---- awareness ----

  /** Client ids are uint64. */
  ghost predicate WireClients(clients: seq<nat>) {
    forall i | 0 <= i < |clients| :: clients[i] < U64
  }

  /** Indexing a Go map with a missing key gives the zero value. */
  function StateOf(states: map<nat, AwarenessState>, client: nat): AwarenessState {
    if client in states then states[client] else AwarenessState(0, [])
  }

  function EncodeAwarenessEntry(states: map<nat, AwarenessState>, client: nat): seq<byte> {
    Encode(client) + Encode(ToUint64(StateOf(states, client).clock)) + EncodeVarBytes(StateOf(states, client).state)
  }

  function EncodeAwarenessEntries(states: map<nat, AwarenessState>, clients: seq<nat>): seq<byte> {
    if clients == [] then []
    else EncodeAwarenessEntry(states, clients[0]) + EncodeAwarenessEntries(states, clients[1..])
  }

  lemma {:induction false} EncodeAwarenessEntriesSnoc(states: map<nat, AwarenessState>, clients: seq<nat>, last: nat)
    ensures EncodeAwarenessEntries(states, clients + [last]) ==
            EncodeAwarenessEntries(states, clients) + EncodeAwarenessEntry(states, last)
  {
    if clients == [] {
      assert [last][1..] == [];
    } else {
      assert (clients + [last])[1..] == clients[1..] + [last];
      EncodeAwarenessEntriesSnoc(states, clients[1..], last);
    }
  }

  method AppendAwarenessEntry(message: seq<byte>, states: map<nat, AwarenessState>, client: nat)
    returns (longer: seq<byte>)
    requires client < U64
    ensures longer == message + EncodeAwarenessEntry(states, client)
  {
    var state := StateOf(states, client);
    var id := EncodeVarUint(client);
    var clock := EncodeVarUint(ToUint64(state.clock));
    var length := EncodeVarUint(|state.state|);
    longer := message + id;
    longer := longer + clock;
    longer := longer + (length + state.state);
  }

  method BuildAwarenessUpdate(states: map<nat, AwarenessState>, clients: seq<nat>) returns (message: seq<byte>)
    requires |clients| < U64 && WireClients(clients)
    ensures message == [1] + Encode(|clients|) + EncodeAwarenessEntries(states, clients)
  {
    var kind := EncodeVarUint(MESSAGE_AWARENESS);
    var count := EncodeVarUint(|clients|);
    assert Encode(1) == [1];
    message := AppendAwarenessEntries(kind + count, states, clients);
  }

  method AppendAwarenessEntries(header: seq<byte>, states: map<nat, AwarenessState>, clients: seq<nat>)
    returns (message: seq<byte>)
    requires WireClients(clients)
    ensures message == header + EncodeAwarenessEntries(states, clients)
  {
    message := header;
    assert EncodeAwarenessEntries(states, clients[..0]) == [];
    hide EncodeAwarenessEntries, EncodeAwarenessEntry;
    for i := 0 to |clients|
      invariant message == header + EncodeAwarenessEntries(states, clients[..i])
    {
      assert clients[i] < U64;
      message := AppendAwarenessEntry(message, states, clients[i]);
      EncodeAwarenessEntriesSnoc(states, clients[..i], clients[i]);
      assert clients[..i + 1] == clients[..i] + [clients[i]];
    }
    assert clients[..|clients|] == clients;
  }

  /** An awareness state as received: the clock is the 64-bit word read as signed. */
  datatype Heard = Heard(word: int, state: seq<byte>) {
    function Clock(): int {
      ToInt64(word)
    }
  }

  /** One entry off the wire: the client and its state. */
  function DecodeAwarenessEntry(s: seq<byte>): Result<Read<(nat, Heard)>, WireError> {
    match DecodeVarUint(s)
    case Err(error) => Err(error)
    case Ok(Read(client, afterClient)) =>
      match DecodeVarUint(afterClient)
      case Err(error) => Err(error)
      case Ok(Read(clock, afterClock)) =>
        match DecodeVarBytes(afterClock)
        case Err(error) => Err(error)
        case Ok(Read(state, rest)) => Ok(Read((client, Heard(clock, state)), rest))
  }

  type RawStates = map<nat, Heard>

  function DecodeAwarenessEntries(count: nat, s: seq<byte>, states: RawStates): Result<Read<RawStates>, WireError>
    decreases count
  {
    if count == 0 then Ok(Read(states, s))
    else match DecodeAwarenessEntry(s)
      case Err(error) => Err(error)
      case Ok(Read((client, heard), rest)) => DecodeAwarenessEntries(count - 1, rest, states[client := heard])
  }

  function DecodeAwarenessUpdate(s: seq<byte>): Result<Read<RawStates>, WireError> {
    match DecodeVarUint(s)
    case Err(error) => Err(error)
    case Ok(Read(count, rest)) => DecodeAwarenessEntries(count, rest, map[])
  }

  method ReadAwarenessEntry(reader: Reader) returns (r: Result<(nat, Heard), WireError>)
    requires reader.Valid()
    modifies reader`pos, reader`unread
    ensures reader.Valid()
    ensures match DecodeAwarenessEntry(old(reader.unread))
            case Ok(read) => r == Ok(read.value) && reader.unread == read.rest
            case Err(error) => r == Err(error)
  {
    var client := reader.ReadVarUint();
    if client.Err? {
      return Err(client.error);
    }
    var clock := reader.ReadVarUint();
    if clock.Err? {
      return Err(clock.error);
    }
    var state := ReadVarBytes(reader);
    if state.Err? {
      return Err(state.error);
    }
    r := Ok((client.value, Heard(clock.value, state.value)));
  }

  lemma DecodeOneEntry(count: nat, s: seq<byte>, states: RawStates)
    requires count > 0
    ensures DecodeAwarenessEntries(count, s, states) ==
            match DecodeAwarenessEntry(s)
            case Err(error) => Err(error)
            case Ok(read) => DecodeAwarenessEntries(count - 1, read.rest, states[read.value.0 := read.value.1])
  {
  }

  method ReadAwarenessEntries(reader: Reader, count: nat) returns (r: Result<RawStates, WireError>)
    requires reader.Valid()
    modifies reader`pos, reader`unread
    ensures reader.Valid()
    ensures match DecodeAwarenessEntries(count, old(reader.unread), map[])
            case Ok(read) => r == Ok(read.value) && reader.unread == read.rest
            case Err(error) => r == Err(error)
  {
    hide DecodeVarBytes;
    var states: RawStates := map[];
    ghost var expected := DecodeAwarenessEntries(count, reader.unread, map[]);
    var index := 0;
    while index < count
      invariant reader.Valid() && index <= count
      invariant DecodeAwarenessEntries(count - index, reader.unread, states) == expected
    {
      DecodeOneEntry(count - index, reader.unread, states);
      var entry := ReadAwarenessEntry(reader);
      if entry.Err? {
        return Err(entry.error);
      }
      states := states[entry.value.0 := entry.value.1];
      index := index + 1;
    }
    r := Ok(states);
  }

  method ReadAwarenessUpdate(reader: Reader) returns (r: Result<RawStates, WireError>)
    requires reader.Valid()
    modifies reader`pos, reader`unread
    ensures reader.Valid()
    ensures match DecodeAwarenessUpdate(old(reader.unread))
            case Ok(read) => r == Ok(read.value) && reader.unread == read.rest
            case Err(error) => r == Err(error)
  {
    var count := reader.ReadVarUint();
    if count.Err? {
      return Err(count.error);
    }
    r := ReadAwarenessEntries(reader, count.value);
  }

  /** A clock travels as its residue modulo 2^64 and comes back with its sign. */
  lemma SignedClockRoundTrip(clock: int64)
    ensures ToUint64(clock) == clock % 0x1_0000_0000_0000_0000
    ensures ToInt64(ToUint64(clock)) == clock
  {
  }

  /** A listed client's state as it reaches the receiver. */
  function Sent(states: map<nat, AwarenessState>, client: nat): Heard {
    Heard(ToUint64(StateOf(states, client).clock), StateOf(states, client).state)
  }

  lemma AwarenessEntryRoundTrip(states: map<nat, AwarenessState>, client: nat, rest: seq<byte>)
    requires client < U64
    ensures DecodeAwarenessEntry(EncodeAwarenessEntry(states, client) + rest)
         == Ok(Read((client, Sent(states, client)), rest))
  {
    var state := StateOf(states, client);
    var tail := EncodeVarBytes(state.state) + rest;
    var middle := Encode(ToUint64(state.clock)) + tail;
    assert EncodeAwarenessEntry(states, client) + rest == Encode(client) + middle;
    DecodeInvertsEncode(client, middle);
    DecodeInvertsEncode(ToUint64(state.clock), tail);
    VarBytesRoundTrip(state.state, rest);
  }

  /** Recording the listed clients in order, as the decoder does. */
  ghost function Recorded(states: map<nat, AwarenessState>, clients: seq<nat>, known: RawStates): RawStates {
    if |clients| == 0 then known
    else
      Recorded(states, clients[1..], known[clients[0] := Sent(states, clients[0])])
  }

  /** The recorded map is the sender's map restricted to the listed clients. */
  lemma {:induction false} RecordedAt(states: map<nat, AwarenessState>, clients: seq<nat>, known: RawStates, client: nat)
    ensures client in Recorded(states, clients, known) <==> client in known || client in clients
    ensures client in Recorded(states, clients, known) ==>
              Recorded(states, clients, known)[client] ==
              if client in clients then Sent(states, client) else known[client]
    decreases |clients|
  {
    if |clients| > 0 {
      RecordedAt(states, clients[1..], known[clients[0] := Sent(states, clients[0])], client);
    }
  }

  lemma FirstEntryRoundTrip(states: map<nat, AwarenessState>, clients: seq<nat>, known: RawStates, rest: seq<byte>)
    requires |clients| > 0 && WireClients(clients)
    ensures DecodeAwarenessEntries(|clients|, EncodeAwarenessEntries(states, clients) + rest, known)
         == DecodeAwarenessEntries(|clients| - 1, EncodeAwarenessEntries(states, clients[1..]) + rest,
                                   known[clients[0] := Sent(states, clients[0])])
  {
    var client, tail := clients[0], EncodeAwarenessEntries(states, clients[1..]) + rest;
    assert EncodeAwarenessEntries(states, clients) + rest == EncodeAwarenessEntry(states, client) + tail;
    AwarenessEntryRoundTrip(states, client, tail);
  }

  lemma {:induction false} AwarenessEntriesRoundTrip(
    states: map<nat, AwarenessState>, clients: seq<nat>, known: RawStates, rest: seq<byte>)
    requires WireClients(clients)
    ensures DecodeAwarenessEntries(|clients|, EncodeAwarenessEntries(states, clients) + rest, known)
         == Ok(Read(Recorded(states, clients, known), rest))
    decreases |clients|
  {
    if |clients| == 0 {
      assert [] + rest == rest;
    } else {
      FirstEntryRoundTrip(states, clients, known, rest);
      AwarenessEntriesRoundTrip(states, clients[1..], known[clients[0] := Sent(states, clients[0])], rest);
    }
  }

  /** The order on the wire, readable where all numbers are small: client, clock, length, state. */
  lemma EntryBytes(client: nat, clock: int64, state: bytes)
    requires client < 128 && 0 <= clock < 128 && |state| < 128
    ensures EncodeAwarenessEntry(map[client := AwarenessState(clock, state)], client) == [client, clock, |state|] + state
    ensures EncodeAwarenessEntry(map[], client) == [client, 0, 0]
  {
    assert Encode(client) == [client] && Encode(clock) == [clock] && Encode(|state|) == [|state|] && Encode(0) == [0];
  }

  /** The receiver has the sender's clock, sign included, and state; zero values if there were none. */
  ghost predicate HeardAs(states: map<nat, AwarenessState>, client: nat, heard: Heard) {
    if client in states then heard.Clock() == states[client].clock && heard.state == states[client].state
    else heard.Clock() == 0 && heard.state == []
  }

  lemma SentIsHeard(states: map<nat, AwarenessState>, client: nat)
    ensures HeardAs(states, client, Sent(states, client))
  {
    SignedClockRoundTrip(StateOf(states, client).clock);
  }

  lemma DecodesToRecorded(states: map<nat, AwarenessState>, clients: seq<nat>, rest: seq<byte>)
    requires |clients| < U64 && WireClients(clients)
    ensures DecodeAwarenessUpdate(Encode(|clients|) + EncodeAwarenessEntries(states, clients) + rest)
         == Ok(Read(Recorded(states, clients, map[]), rest))
  {
    hide Encode, EncodeAwarenessEntries, DecodeAwarenessEntries, WireClients, Recorded;
    var body := EncodeAwarenessEntries(states, clients) + rest;
    assert Encode(|clients|) + EncodeAwarenessEntries(states, clients) + rest == Encode(|clients|) + body;
    DecodeInvertsEncode(|clients|, body);
    AwarenessEntriesRoundTrip(states, clients, map[], rest);
  }

  /** An awareness update decodes to the sender's map restricted to the listed clients (absent
      ones as zero values), with the sign of every clock preserved, and leaves what follows. */
  lemma AwarenessRoundTrip(states: map<nat, AwarenessState>, clients: seq<nat>, rest: seq<byte>)
    requires |clients| < U64 && WireClients(clients)
    ensures DecodeAwarenessUpdate(Encode(|clients|) + EncodeAwarenessEntries(states, clients) + rest)
         == Ok(Read(Recorded(states, clients, map[]), rest))
    ensures forall client :: client in Recorded(states, clients, map[]) <==> client in clients
    ensures forall client | client in clients ::
              HeardAs(states, client, Recorded(states, clients, map[])[client])
  {
    hide DecodeAwarenessUpdate, EncodeAwarenessEntries, Recorded, HeardAs;
    DecodesToRecorded(states, clients, rest);
    forall client: nat ensures client in Recorded(states, clients, map[]) <==> client in clients
                       ensures client in clients ==> Recorded(states, clients, map[])[client] == Sent(states, client)
    {
      RecordedAt(states, clients, map[], client);
    }
    forall client ensures HeardAs(states, client, Sent(states, client)) { SentIsHeard(states, client); }
  }
}
