/** The transaction message on the wire, and the merging of per-instruction account tables into one. */
module Message {
  import opened Wrappers

  type Byte = b: nat | b < 256
  type Bytes = seq<Byte>

  datatype Instruction = Instruction(programIdIdx: Byte, accountIndices: Bytes, data: Bytes)

  datatype Transaction = Transaction(recentBlockhash: Bytes, instructions: seq<Instruction>, accountKeys: seq<Bytes>,
                                     numSigners: Byte, numReadonlySigned: Byte, numReadonlyUnsigned: Byte)

  const U16: nat := 0x1_0000

  // ── compact-u16 ──────────────────────────────────────────────────

  /** Seven bits a byte, least significant first, the top bit set on all bytes but the last. */
  function Compact(v: nat): Bytes
  {
    if v < 128 then [v] else [v % 128 + 128] + Compact(v / 128)
  }

  method CompactU16Encode(value: nat, buf: Bytes) returns (out: Bytes)
    requires value < U16
    ensures out == buf + Compact(value)
  {
    out := buf;
    var val: nat := value;
    while true
      invariant out + Compact(val) == buf + Compact(value)
      decreases val
    {
      var elem: nat := val % 128;
      ghost var before := val;
      val := val / 128;
      if val > 0 { elem := elem + 128; }
      CompactStep(before);
      assert out + ([elem] + Compact(val)) == (out + [elem]) + Compact(val);
      out := out + [elem];
      if val == 0 { break; }
    }
  }

  lemma CompactStep(v: nat)
    ensures if v / 128 > 0 then v / 128 < v && Compact(v) == [v % 128 + 128] + Compact(v / 128) else Compact(v) == [v % 128]
  {}

  datatype Read<T> = Got(value: T, rest: Bytes) | Short

  /** Reads a number back; nothing longer than 16 bits is accepted. */
  function ReadCompact(b: Bytes): (r: Read<nat>)
    ensures r.Got? ==> r.value < U16
  {
    match ReadVar(b)
    case Got(v, rest) => if v < U16 then Got(v, rest) else Short
    case Short => Short
  }

  function ReadVar(b: Bytes): Read<nat>
  {
    if |b| == 0 then Short
    else if b[0] < 128 then Got(b[0], b[1..])
    else
      match ReadVar(b[1..])
      case Got(v, rest) => Got(b[0] - 128 + 128 * v, rest)
      case Short => Short
  }

  lemma {:induction false} ReadBackVar(v: nat, rest: Bytes)
    ensures ReadVar(Compact(v) + rest) == Got(v, rest)
  {
    var b := Compact(v) + rest;
    if v < 128 {
      assert b[1..] == rest;
    } else {
      ReadBackVar(v / 128, rest);
      assert b[1..] == Compact(v / 128) + rest;
    }
  }

  lemma ReadBackCompact(v: nat, rest: Bytes)
    requires v < U16
    ensures ReadCompact(Compact(v) + rest) == Got(v, rest)
  {
    ReadBackVar(v, rest);
  }

  // ── The message ──────────────────────────────────────────────────

  function KeyBytes(keys: seq<Bytes>): Bytes
  {
    if |keys| == 0 then [] else KeyBytes(keys[..|keys| - 1]) + keys[|keys| - 1]
  }

  /** A length is cut to 16 bits before it is written. */
  function Prefixed(b: Bytes): Bytes
  {
    Compact(|b| % U16) + b
  }

  function InstructionBytes(ix: Instruction): Bytes
  {
    [ix.programIdIdx] + Prefixed(ix.accountIndices) + Prefixed(ix.data)
  }

  function AllInstructionBytes(ixs: seq<Instruction>): Bytes
  {
    if |ixs| == 0 then [] else AllInstructionBytes(ixs[..|ixs| - 1]) + InstructionBytes(ixs[|ixs| - 1])
  }

  function Serialized(t: Transaction): Bytes
  {
    [t.numSigners, t.numReadonlySigned, t.numReadonlyUnsigned]
    + Compact(|t.accountKeys| % U16) + KeyBytes(t.accountKeys) + t.recentBlockhash
    + Compact(|t.instructions| % U16) + AllInstructionBytes(t.instructions)
  }

  method SerializeMessage(t: Transaction) returns (buf: Bytes)
    ensures buf == Serialized(t)
  {
    hide Compact, InstructionBytes;
    buf := [t.numSigners, t.numReadonlySigned, t.numReadonlyUnsigned];
    buf := CompactU16Encode(|t.accountKeys| % U16, buf);
    ghost var head := buf;
    for i := 0 to |t.accountKeys|
      invariant buf == head + KeyBytes(t.accountKeys[..i])
    {
      buf := buf + t.accountKeys[i];
      assert t.accountKeys[..i + 1][..i] == t.accountKeys[..i];
    }
    assert t.accountKeys[..|t.accountKeys|] == t.accountKeys;
    buf := buf + t.recentBlockhash;
    buf := CompactU16Encode(|t.instructions| % U16, buf);
    head := buf;
    for i := 0 to |t.instructions|
      invariant buf == head + AllInstructionBytes(t.instructions[..i])
    {
      buf := AppendInstruction(t.instructions[i], buf);
      assert t.instructions[..i + 1][..i] == t.instructions[..i];
    }
    assert t.instructions[..|t.instructions|] == t.instructions;
  }

  method AppendInstruction(ix: Instruction, buf: Bytes) returns (out: Bytes)
    ensures out == buf + InstructionBytes(ix)
  {
    hide Compact;
    out := buf + [ix.programIdIdx];
    out := CompactU16Encode(|ix.accountIndices| % U16, out);
    out := out + ix.accountIndices;
    out := CompactU16Encode(|ix.data| % U16, out);
    out := out + ix.data;
  }

  // ── Where everything stands ──────────────────────────────────────

  /** The three lengths of a compact number of 16 bits. */
  lemma CompactBytes(v: nat)
    requires v < U16
    ensures v < 0x80 ==> Compact(v) == [v]
    ensures 0x80 <= v < 0x4000 ==> Compact(v) == [v % 0x80 + 0x80, v / 0x80]
    ensures 0x4000 <= v ==> Compact(v) == [v % 0x80 + 0x80, v / 0x80 % 0x80 + 0x80, v / 0x4000]
  {
    hide Compact;
    CompactStep(v);
    if v >= 0x80 {
      var w := v / 0x80;
      CompactStep(w);
      SevenTwice(v, w);
      if v >= 0x4000 { CompactStep(w / 0x80); }
    }
  }

  lemma SevenTwice(v: nat, w: nat)
    requires w == v / 0x80 && v < U16
    ensures w / 0x80 == v / 0x4000 < 4 && (v >= 0x4000 <==> w >= 0x80)
  {}

  /** Header, keys, blockhash, and the number of instructions, at their offsets, for fewer than 128 keys and
      instructions. */
  lemma MessageLayout(t: Transaction)
    requires Sized(t) && |t.accountKeys| < 0x80 && |t.instructions| < 0x80
    ensures var s, n := Serialized(t), |t.accountKeys|;
            && |s| >= 37 + 32 * n
            && s[0] == t.numSigners && s[1] == t.numReadonlySigned && s[2] == t.numReadonlyUnsigned && s[3] == n
            && (forall i :: 0 <= i < n ==> KeyAt(s, 4 + 32 * i, t.accountKeys[i]))
            && KeyAt(s, 4 + 32 * n, t.recentBlockhash) && s[36 + 32 * n] == |t.instructions|
            && s[37 + 32 * n..] == AllInstructionBytes(t.instructions)
  {
    hide Compact, KeyBytes, AllInstructionBytes;
    var s, n, m, k := Serialized(t), |t.accountKeys|, |t.instructions|, KeyBytes(t.accountKeys);
    CompactBytes(n);
    CompactBytes(m);
    KeysLength(t.accountKeys);
    assert s == [t.numSigners, t.numReadonlySigned, t.numReadonlyUnsigned, n] + k + t.recentBlockhash + [m]
             + AllInstructionBytes(t.instructions);
    forall i | 0 <= i < n ensures KeyAt(s, 4 + 32 * i, t.accountKeys[i]) {
      KeyInKeys(t.accountKeys, i);
      assert s[4 + 32 * i..4 + 32 * i + 32] == k[32 * i..32 * i + 32];
    }
    assert s[4 + 32 * n..4 + 32 * n + 32] == t.recentBlockhash;
  }

  ghost predicate KeyAt(s: Bytes, offset: nat, key: Bytes)
  {
    offset + 32 <= |s| && s[offset..offset + 32] == key
  }

  lemma {:induction false} KeysLength(keys: seq<Bytes>)
    requires forall i :: 0 <= i < |keys| ==> |keys[i]| == 32
    ensures |KeyBytes(keys)| == 32 * |keys|
  {
    if |keys| > 0 { KeysLength(keys[..|keys| - 1]); }
  }

  lemma {:induction false} KeyInKeys(keys: seq<Bytes>, i: nat)
    requires i < |keys| && forall i :: 0 <= i < |keys| ==> |keys[i]| == 32
    ensures KeyAt(KeyBytes(keys), 32 * i, keys[i])
    decreases |keys|
  {
    var init := keys[..|keys| - 1];
    KeysLength(keys);
    KeysLength(init);
    if i < |init| {
      KeyInKeys(init, i);
      assert KeyBytes(keys)[32 * i..32 * i + 32] == KeyBytes(init)[32 * i..32 * i + 32];
    }
  }

  /** Instructions follow one another, each with its program, its accounts and its data. */
  lemma InstructionLayout(ixs: seq<Instruction>, ix: Instruction)
    requires |ix.accountIndices| < 0x80 && |ix.data| < 0x80
    ensures AllInstructionBytes([]) == []
    ensures AllInstructionBytes(ixs + [ix])
         == AllInstructionBytes(ixs) + [ix.programIdIdx, |ix.accountIndices|] + ix.accountIndices + [|ix.data|] + ix.data
  {
    hide Compact;
    assert (ixs + [ix])[..|ixs|] == ixs;
    CompactBytes(|ix.accountIndices|);
    CompactBytes(|ix.data|);
  }

  // ── Reading a message back ───────────────────────────────────────

  function ReadBytes(b: Bytes, n: nat): Read<Bytes>
  {
    if |b| < n then Short else Got(b[..n], b[n..])
  }

  function ReadPrefixed(b: Bytes): (r: Read<Bytes>)
    ensures r.Got? ==> |r.value| < U16
  {
    match ReadCompact(b)
    case Got(n, rest) => ReadBytes(rest, n)
    case Short => Short
  }

  function ReadKeys(b: Bytes, n: nat): (r: Read<seq<Bytes>>)
    ensures r.Got? ==> |r.value| == n
  {
    if n == 0 then Got([], b)
    else
      match ReadKeys(b, n - 1)
      case Short => Short
      case Got(keys, rest) =>
        match ReadBytes(rest, 32)
        case Short => Short
        case Got(key, rest') => Got(keys + [key], rest')
  }

  function ReadInstruction(b: Bytes): (r: Read<Instruction>)
    ensures r.Got? ==> SmallInstruction(r.value)
  {
    if |b| == 0 then Short
    else
      match ReadPrefixed(b[1..])
      case Short => Short
      case Got(accounts, rest) =>
        match ReadPrefixed(rest)
        case Short => Short
        case Got(data, rest') => Got(Instruction(b[0], accounts, data), rest')
  }

  function ReadInstructions(b: Bytes, n: nat): (r: Read<seq<Instruction>>)
    ensures r.Got? ==> |r.value| == n && forall i :: 0 <= i < n ==> SmallInstruction(r.value[i])
  {
    if n == 0 then Got([], b)
    else
      match ReadInstructions(b, n - 1)
      case Short => Short
      case Got(ixs, rest) =>
        match ReadInstruction(rest)
        case Short => Short
        case Got(ix, rest') => Got(ixs + [ix], rest')
  }

  /** A reader for the format: no access to lengths other than those on the wire. */
  function Parsed(b: Bytes): (r: Read<Transaction>)
    ensures r.Got? ==> Small(r.value)
  {
    if |b| < 3 then Short
    else
      match ReadCompact(b[3..])
      case Short => Short
      case Got(n, b1) =>
        match ReadKeys(b1, n)
        case Short => Short
        case Got(keys, b2) =>
          match ReadBytes(b2, 32)
          case Short => Short
          case Got(hash, b3) =>
            match ReadCompact(b3)
            case Short => Short
            case Got(m, b4) =>
              match ReadInstructions(b4, m)
              case Short => Short
              case Got(ixs, rest) => Got(Transaction(hash, ixs, keys, b[0], b[1], b[2]), rest)
  }

  predicate SmallInstruction(ix: Instruction)
  {
    |ix.accountIndices| < U16 && |ix.data| < U16
  }

  /** Every list has at most 65535 entries. */
  ghost predicate Small(t: Transaction)
  {
    && |t.accountKeys| < U16 && |t.instructions| < U16
    && forall i :: 0 <= i < |t.instructions| ==> SmallInstruction(t.instructions[i])
  }

  /** Keys and the blockhash are 32 bytes, as their types say. */
  ghost predicate Sized(t: Transaction)
  {
    |t.recentBlockhash| == 32 && forall i :: 0 <= i < |t.accountKeys| ==> |t.accountKeys[i]| == 32
  }

  lemma ReadBackPrefixed(b: Bytes, rest: Bytes)
    requires |b| < U16
    ensures ReadPrefixed(Prefixed(b) + rest) == Got(b, rest)
  {
    ReadBackCompact(|b|, b + rest);
    assert Prefixed(b) + rest == Compact(|b|) + (b + rest);
  }

  lemma {:induction false} ReadBackKeys(keys: seq<Bytes>, rest: Bytes)
    requires forall i :: 0 <= i < |keys| ==> |keys[i]| == 32
    ensures ReadKeys(KeyBytes(keys) + rest, |keys|) == Got(keys, rest)
  {
    if |keys| == 0 {
      assert KeyBytes(keys) + rest == rest;
    } else {
      var init, last := keys[..|keys| - 1], keys[|keys| - 1];
      ReadBackKeys(init, last + rest);
      assert KeyBytes(keys) + rest == KeyBytes(init) + (last + rest);
      assert init + [last] == keys;
    }
  }

  lemma ReadBackInstruction(ix: Instruction, rest: Bytes)
    requires SmallInstruction(ix)
    ensures ReadInstruction(InstructionBytes(ix) + rest) == Got(ix, rest)
  {
    hide ReadPrefixed, Prefixed;
    var b := InstructionBytes(ix) + rest;
    ReadBackPrefixed(ix.accountIndices, Prefixed(ix.data) + rest);
    ReadBackPrefixed(ix.data, rest);
    assert b[1..] == Prefixed(ix.accountIndices) + (Prefixed(ix.data) + rest);
  }

  lemma {:induction false} ReadBackInstructions(ixs: seq<Instruction>, rest: Bytes)
    requires forall i :: 0 <= i < |ixs| ==> SmallInstruction(ixs[i])
    ensures ReadInstructions(AllInstructionBytes(ixs) + rest, |ixs|) == Got(ixs, rest)
  {
    hide ReadInstruction, InstructionBytes, SmallInstruction;
    if |ixs| == 0 {
      assert AllInstructionBytes(ixs) + rest == rest;
    } else {
      var init, last := ixs[..|ixs| - 1], ixs[|ixs| - 1];
      ReadBackInstructions(init, InstructionBytes(last) + rest);
      ReadBackInstruction(last, rest);
      assert AllInstructionBytes(ixs) + rest == AllInstructionBytes(init) + (InstructionBytes(last) + rest);
      assert init + [last] == ixs;
    }
  }

  /** Reading a serialized message gives the transaction back exactly when no list is longer than 65535. */
  lemma MessageRoundTrip(t: Transaction)
    requires Sized(t)
    ensures Parsed(Serialized(t)) == Got(t, []) <==> Small(t)
  {
    if Small(t) {
      ReadBackMessage(t, []);
      assert Serialized(t) + [] == Serialized(t);
    }
  }

  lemma ReadBackMessage(t: Transaction, rest: Bytes)
    requires Sized(t) && Small(t)
    ensures Parsed(Serialized(t) + rest) == Got(t, rest)
  {
    hide ReadCompact, ReadKeys, ReadInstructions, KeyBytes, AllInstructionBytes, Compact;
    var ixs := AllInstructionBytes(t.instructions);
    var b4 := ixs + rest;
    var b3 := Compact(|t.instructions|) + b4;
    var b2 := t.recentBlockhash + b3;
    var b1 := KeyBytes(t.accountKeys) + b2;
    var b := Serialized(t) + rest;
    assert b[3..] == Compact(|t.accountKeys|) + b1;
    assert b2[..32] == t.recentBlockhash && b2[32..] == b3;
    ReadBackCompact(|t.accountKeys|, b1);
    ReadBackKeys(t.accountKeys, b2);
    ReadBackCompact(|t.instructions|, b4);
    ReadBackInstructions(t.instructions, rest);
  }

  /** t with other data in its last instruction. */
  function WithLastData(t: Transaction, data: Bytes): Transaction
    requires |t.instructions| > 0
  {
    var k := |t.instructions| - 1;
    t.(instructions := t.instructions[k := t.instructions[k].(data := data)])
  }

  /** An instruction with 65536 bytes of data is written with length 0: its reader takes the data for empty
      and has all of it left over. */
  lemma LongDataIsLost(t: Transaction, data: Bytes)
    requires Sized(t) && Small(t) && |t.instructions| > 0 && |data| == U16
    requires t.instructions[|t.instructions| - 1].data == []
    ensures Parsed(Serialized(WithLastData(t, data))) == Got(t, data)
  {
    hide Parsed, Compact, KeyBytes, Small, Sized;
    var k := |t.instructions| - 1;
    var long := WithLastData(t, data);
    var ix := t.instructions[k];
    assert InstructionBytes(long.instructions[k]) == InstructionBytes(ix) + data;
    assert long.instructions[..k] == t.instructions[..k];
    ReadBackMessage(t, data);
    assert Serialized(long) == Serialized(t) + data;
  }

  /** So equal messages come from equal transactions. */
  lemma SerializationInjective(t: Transaction, u: Transaction)
    requires Sized(t) && Small(t) && Sized(u) && Small(u) && Serialized(t) == Serialized(u)
    ensures t == u
  {
    MessageRoundTrip(t);
    MessageRoundTrip(u);
  }
}
