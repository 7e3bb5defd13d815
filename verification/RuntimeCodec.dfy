/** The runtime state and the 104 bytes it is stored as. */
module RuntimeCodec {
  import opened Bytes

  const MAGIC: seq<byte> := [0x41, 0x49, 0x53, 0x48, 0x52, 0x54, 0x30, 0x32]
  const PLAIN_SIZE: nat := 104

  type Key = k: seq<byte> | |k| == 32 witness seq(32, _ => 0)

  datatype RuntimeState = RuntimeState(generation: u64, policyVersion: u64, modelVersion: u64, previousGeneration: u64,
                                       channelKey: Key, previousChannelKey: Key)

  datatype Plain = Read(state: RuntimeState) | Malformed | Unsound

  /** A state that can be read back: both counters have started. */
  predicate Sound(s: RuntimeState) { s.generation != 0 && s.modelVersion != 0 }

  function Wire(s: RuntimeState): (b: seq<byte>)
    ensures |b| == PLAIN_SIZE
  {
    MAGIC + LittleEndian(s.generation, 8) + LittleEndian(s.policyVersion, 8) + LittleEndian(s.modelVersion, 8)
    + LittleEndian(s.previousGeneration, 8) + s.channelKey + s.previousChannelKey
  }

  function Parse(b: seq<byte>): Plain {
    if |b| != PLAIN_SIZE || b[..8] != MAGIC then Malformed
    else if U64At(b, 8) == 0 || U64At(b, 24) == 0 then Unsound
    else Read(RuntimeState(U64At(b, 8), U64At(b, 16), U64At(b, 24), U64At(b, 32), b[40..72], b[72..104]))
  }

  method Serialize(s: RuntimeState) returns (b: seq<byte>)
    ensures b == Wire(s)
  {
    hide LittleEndian;
    b := AppendScalar(MAGIC, s.generation, 8);
    b := AppendScalar(b, s.policyVersion, 8);
    b := AppendScalar(b, s.modelVersion, 8);
    b := AppendScalar(b, s.previousGeneration, 8);
    b := AppendKey(b, s.channelKey);
    b := AppendKey(b, s.previousChannelKey);
  }

  method AppendKey(bytes: seq<byte>, key: Key) returns (b: seq<byte>)
    ensures b == bytes + key
  {
    b := bytes;
    for i := 0 to |key|
      invariant b == bytes + key[..i]
    {
      assert key[..i + 1] == key[..i] + [key[i]];
      b := b + [key[i]];
    }
    assert key[..|key|] == key;
  }

  method ReadKey(b: seq<byte>, at: nat) returns (key: Key)
    requires at + 32 <= |b|
    ensures key == b[at..at + 32]
  {
    var k: seq<byte> := [];
    for i := 0 to 32
      invariant k == b[at..at + i]
    {
      k := k + [b[at + i]];
    }
    key := k;
  }

  method Deserialize(b: seq<byte>) returns (r: Plain)
    ensures r == Parse(b)
  {
    hide FromLittleEndian;
    if |b| != PLAIN_SIZE || b[..8] != MAGIC { return Malformed; }
    var offset := |MAGIC|;
    var generation := ReadScalar(b, offset, 8);
    offset := offset + 8;
    var policy := ReadScalar(b, offset, 8);
    offset := offset + 8;
    var model := ReadScalar(b, offset, 8);
    offset := offset + 8;
    var previous := ReadScalar(b, offset, 8);
    offset := offset + 8;
    assert generation == U64At(b, 8) && policy == U64At(b, 16) && model == U64At(b, 24) && previous == U64At(b, 32);
    if generation == 0 || model == 0 { return Unsound; }
    var key := ReadKey(b, offset);
    offset := offset + 32;
    var before := ReadKey(b, offset);
    return Read(RuntimeState(generation, policy, model, previous, key, before));
  }

  // ---- the two are inverse -------------------------------------------------------------------

  /** Where the fields lie, behind the letters AISHRT02. */
  lemma WireFields(s: RuntimeState)
    ensures forall i | 0 <= i < 8 :: Wire(s)[i] as char == "AISHRT02"[i]
    ensures var b := Wire(s);
      && b[..8] == MAGIC && U64At(b, 8) == s.generation && U64At(b, 16) == s.policyVersion
      && U64At(b, 24) == s.modelVersion && U64At(b, 32) == s.previousGeneration
      && b[40..72] == s.channelKey && b[72..104] == s.previousChannelKey
  {
    hide LittleEndian, U64At;
    var b := Wire(s);
    var head := MAGIC + LittleEndian(s.generation, 8) + LittleEndian(s.policyVersion, 8) + LittleEndian(s.modelVersion, 8)
      + LittleEndian(s.previousGeneration, 8);
    assert |head| == 40 && b == (head + s.channelKey) + s.previousChannelKey;
    assert b[40..72] == s.channelKey && b[72..104] == s.previousChannelKey;
    U64AtWire(b, 8, s.generation);
    U64AtWire(b, 16, s.policyVersion);
    U64AtWire(b, 24, s.modelVersion);
    U64AtWire(b, 32, s.previousGeneration);
  }

  /** Bytes parse to a state exactly when they are that state's own encoding and its counters have started. */
  lemma ParseExact(b: seq<byte>, s: RuntimeState)
    ensures Parse(b) == Read(s) <==> b == Wire(s) && s.generation != 0 && s.modelVersion != 0
  {
    hide LittleEndian, U64At;
    if b == Wire(s) {
      WireFields(s);
    }
    if Parse(b) == Read(s) { Spells(b); }
  }

  /** Bytes that are no state's encoding are malformed, those of a state whose counters have not started unsound. */
  lemma FailsExactly(b: seq<byte>)
    ensures Parse(b).Malformed? <==> forall s :: b != Wire(s)
    ensures Parse(b).Unsound? <==> exists s :: b == Wire(s) && (s.generation == 0 || s.modelVersion == 0)
  {
    hide LittleEndian, U64At, Wire;
    forall s | b == Wire(s)
      ensures !Parse(b).Malformed?
      ensures Parse(b).Unsound? <==> s.generation == 0 || s.modelVersion == 0
    {
      WireFields(s);
    }
    if !Parse(b).Malformed? { Spells(b); }
  }

  /** Bytes of the right size and magic are the encoding of the state whose fields stand there. */
  lemma Spells(b: seq<byte>)
    requires |b| == PLAIN_SIZE && b[..8] == MAGIC
    ensures b == Wire(RuntimeState(U64At(b, 8), U64At(b, 16), U64At(b, 24), U64At(b, 32), b[40..72], b[72..104]))
  {
    hide LittleEndian, U64At;
    U64Stands(b, 8);
    U64Stands(b, 16);
    U64Stands(b, 24);
    U64Stands(b, 32);
    Cut(b);
  }

  lemma Cut(b: seq<byte>)
    requires |b| == PLAIN_SIZE
    ensures b == b[..8] + b[8..16] + b[16..24] + b[24..32] + b[32..40] + b[40..72] + b[72..104]
  {
  }
}
