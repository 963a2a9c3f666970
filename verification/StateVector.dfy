/** State vectors: how much of every client's history a replica has seen. */
module StateVectors {
  import opened Results
  import opened VarUint

  type StateVector = map<nat, nat>

  /** A missing client reads as clock zero, also in an absent (nil) vector. */
  function Clock(vector: StateVector, client: nat): nat {
    if client in vector then vector[client] else 0
  }

  /** `current` has seen everything `required` names. */
  predicate Dominates(current: StateVector, required: StateVector) {
    forall client | client in required :: Clock(current, client) >= required[client]
  }

  /** Domination is the pointwise order of clocks, over all clients and not only the listed. */
  lemma DominatesPointwise(current: StateVector, required: StateVector)
    ensures Dominates(current, required) <==> forall client: nat :: Clock(current, client) >= Clock(required, client)
  {
    if forall client: nat :: Clock(current, client) >= Clock(required, client) {
      forall client | client in required
        ensures Clock(current, client) >= required[client]
      {
        assert Clock(current, client) >= Clock(required, client);
      }
    }
  }

  /** The comparison stops at the first client that lags behind. */
  method StateVectorDominates(current: StateVector, required: StateVector) returns (dominates: bool)
    ensures dominates == Dominates(current, required)
  {
    var left := required.Keys;
    while left != {}
      invariant left <= required.Keys
      invariant forall client | client in required && client !in left :: Clock(current, client) >= required[client]
      decreases left
    {
      var client :| client in left;
      if Clock(current, client) < required[client] {
        return false;
      }
      left := left - {client};
    }
    return true;
  }

  /** This decoder reports a clean end of input inside a value as an unexpected one. */
  function Cut(error: WireError): WireError {
    if error == Eof then UnexpectedEof else error
  }

  function DecodePair(s: seq<byte>): Result<Read<(nat, nat)>, WireError> {
    match DecodeVarUint(s)
    case Err(error) => Err(Cut(error))
    case Ok(Read(client, afterClient)) =>
      match DecodeVarUint(afterClient)
      case Err(error) => Err(Cut(error))
      case Ok(Read(clock, rest)) => Ok(Read((client, clock), rest))
  }

  function DecodePairs(count: nat, s: seq<byte>, vector: StateVector): Result<StateVector, WireError>
    decreases count
  {
    if count == 0 then
      if |s| == 0 then Ok(vector) else Err(TrailingBytes)
    else match DecodePair(s)
      case Err(error) => Err(error)
      case Ok(Read((client, clock), rest)) => DecodePairs(count - 1, rest, vector[client := clock])
  }

  function DecodeStateVectorV1(data: seq<byte>): Result<StateVector, WireError> {
    match DecodeVarUint(data)
    case Err(error) => Err(Cut(error))
    case Ok(Read(count, rest)) => DecodePairs(count, rest, map[])
  }

  method ReadPair(reader: Reader) returns (r: Result<(nat, nat), WireError>)
    requires reader.Valid()
    modifies reader`pos, reader`unread
    ensures reader.Valid()
    ensures match DecodePair(old(reader.unread))
            case Ok(read) => r == Ok(read.value) && reader.unread == read.rest
            case Err(error) => r == Err(error)
  {
    var client := reader.ReadVarUint();
    if client.Err? {
      return Err(Cut(client.error));
    }
    var clock := reader.ReadVarUint();
    if clock.Err? {
      return Err(Cut(clock.error));
    }
    r := Ok((client.value, clock.value));
  }

  method ReadPairs(reader: Reader, count: nat) returns (r: Result<StateVector, WireError>)
    requires reader.Valid()
    modifies reader`pos, reader`unread
    ensures reader.Valid()
    ensures r == DecodePairs(count, old(reader.unread), map[])
  {
    var vector: StateVector := map[];
    ghost var expected := DecodePairs(count, reader.unread, map[]);
    var i := 0;
    while i < count
      invariant reader.Valid() && i <= count
      invariant DecodePairs(count - i, reader.unread, vector) == expected
    {
      var pair := ReadPair(reader);
      if pair.Err? {
        return Err(pair.error);
      }
      vector := vector[pair.value.0 := pair.value.1];
      i := i + 1;
    }
    var end := reader.AtEnd();
    if !end {
      return Err(TrailingBytes);
    }
    r := Ok(vector);
  }

  method ReadStateVectorV1(data: seq<byte>) returns (r: Result<StateVector, WireError>)
    ensures r == DecodeStateVectorV1(data)
  {
    var reader := new Reader(data);
    var count := reader.ReadVarUint();
    if count.Err? {
      return Err(Cut(count.error));
    }
    r := ReadPairs(reader, count.value);
  }

  // ---- the count-then-pairs layout ----

  type Pairs = seq<(nat, nat)>

  ghost predicate WordPairs(pairs: Pairs) {
    |pairs| < U64 && forall pair | pair in pairs :: pair.0 < U64 && pair.1 < U64
  }

  function EncodePairs(pairs: Pairs): seq<byte> {
    if pairs == [] then [] else Encode(pairs[0].0) + Encode(pairs[0].1) + EncodePairs(pairs[1..])
  }

  /** Writing the pairs into a map in order; a repeated client keeps its last clock. */
  function ToVector(pairs: Pairs, vector: StateVector): StateVector {
    if pairs == [] then vector else ToVector(pairs[1..], vector[pairs[0].0 := pairs[0].1])
  }

  lemma {:induction false} PairsRoundTrip(pairs: Pairs, vector: StateVector, extra: seq<byte>)
    requires WordPairs(pairs)
    ensures DecodePairs(|pairs|, EncodePairs(pairs) + extra, vector) ==
            if extra == [] then Ok(ToVector(pairs, vector)) else Err(TrailingBytes)
    decreases |pairs|
  {
    if pairs == [] {
      assert EncodePairs(pairs) + extra == extra;
    } else {
      var tail := EncodePairs(pairs[1..]) + extra;
      assert pairs[0] in pairs;
      assert EncodePairs(pairs) + extra == Encode(pairs[0].0) + (Encode(pairs[0].1) + tail);
      DecodeInvertsEncode(pairs[0].0, Encode(pairs[0].1) + tail);
      DecodeInvertsEncode(pairs[0].1, tail);
      PairsRoundTrip(pairs[1..], vector[pairs[0].0 := pairs[0].1], extra);
    }
  }

  /** Decoding gives back every vector laid out as a count and its pairs, and refuses it as
      soon as anything follows. */
  lemma StateVectorRoundTrip(pairs: Pairs, extra: seq<byte>)
    requires WordPairs(pairs)
    ensures DecodeStateVectorV1(Encode(|pairs|) + EncodePairs(pairs) + extra) ==
            if extra == [] then Ok(ToVector(pairs, map[])) else Err(TrailingBytes)
  {
    hide Encode, EncodePairs, DecodeVarUint, DecodePairs, ToVector, WordPairs;
    var body := EncodePairs(pairs) + extra;
    assert Encode(|pairs|) + EncodePairs(pairs) + extra == Encode(|pairs|) + body;
    CountFits(pairs);
    DecodeInvertsEncode(|pairs|, body);
    PairsRoundTrip(pairs, map[], extra);
  }

  lemma CountFits(pairs: Pairs)
    requires WordPairs(pairs)
    ensures |pairs| < U64
  {
  }

  ghost predicate Consistent(pairs: Pairs, vector: StateVector) {
    forall pair | pair in pairs :: pair.0 in vector && vector[pair.0] == pair.1
  }

  ghost function Clients(pairs: Pairs): set<nat> {
    set pair | pair in pairs :: pair.0
  }

  lemma {:induction false} ToVectorBuilds(pairs: Pairs, partial: StateVector, vector: StateVector)
    requires Consistent(pairs, vector)
    requires forall client | client in partial :: client in vector && vector[client] == partial[client]
    ensures var built := ToVector(pairs, partial);
            built.Keys == partial.Keys + Clients(pairs)
            && forall client | client in built :: client in vector && vector[client] == built[client]
    decreases |pairs|
  {
    if pairs == [] {
    } else {
      assert pairs[0] in pairs;
      ToVectorBuilds(pairs[1..], partial[pairs[0].0 := pairs[0].1], vector);
      assert Clients(pairs) == {pairs[0].0} + Clients(pairs[1..]) by {
        assert forall pair | pair in pairs :: pair == pairs[0] || pair in pairs[1..];
      }
    }
  }

  /** However a vector's pairs are ordered, encoding them and decoding gives the vector. */
  lemma VectorSurvivesTheWire(vector: StateVector, pairs: Pairs)
    requires WordPairs(pairs) && Consistent(pairs, vector) && Clients(pairs) == vector.Keys
    ensures DecodeStateVectorV1(Encode(|pairs|) + EncodePairs(pairs)) == Ok(vector)
  {
    hide Encode, EncodePairs, DecodeStateVectorV1, ToVector, WordPairs;
    StateVectorRoundTrip(pairs, []);
    assert Encode(|pairs|) + EncodePairs(pairs) + [] == Encode(|pairs|) + EncodePairs(pairs);
    ToVectorBuilds(pairs, map[], vector);
    var built := ToVector(pairs, map[]);
    assert forall client | client in vector :: client in built && built[client] == vector[client];
    assert built == vector;
  }

  /** The order on the wire, readable where all numbers are small: count, then client and clock. */
  lemma OnePairBytes(client: nat, clock: nat)
    requires client < 128 && clock < 128
    ensures DecodeStateVectorV1([1, client, clock]) == Ok(map[client := clock])
  {
    assert Encode(1) == [1] && Encode(client) == [client] && Encode(clock) == [clock];
    assert EncodePairs([(client, clock)]) == [client, clock] by { assert [(client, clock)][1..] == []; }
    StateVectorRoundTrip([(client, clock)], []);
    assert Encode(1) + EncodePairs([(client, clock)]) + [] == [1, client, clock];
    assert ToVector([(client, clock)], map[]) == map[client := clock] by { assert [(client, clock)][1..] == []; }
  }

  lemma {:induction false} PairsNeverEndCleanly(count: nat, s: seq<byte>, vector: StateVector)
    ensures DecodePairs(count, s, vector) != Err(Eof)
    decreases count
  {
    hide DecodeVarUint;
    if count > 0 && DecodePair(s).Ok? {
      var pair := DecodePair(s).value;
      PairsNeverEndCleanly(count - 1, pair.rest, vector[pair.value.0 := pair.value.1]);
    }
  }

  /** However the input ends too early, it is reported as unexpected; so is an empty input. */
  lemma EndsUnexpectedly(data: seq<byte>)
    ensures DecodeStateVectorV1(data) != Err(Eof) && DecodeStateVectorV1([]) == Err(UnexpectedEof)
  {
    hide DecodePairs;
    if DecodeVarUint(data).Ok? { PairsNeverEndCleanly(DecodeVarUint(data).value.value, DecodeVarUint(data).value.rest, map[]); }
  }
}
