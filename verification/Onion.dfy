/** Layered encryption along a circuit. */
module OnionLayers {
  import opened Core
  import opened Words
  import opened ChaCha20
  import ChaChaStandard

  type SessionKey = s: seq<bv8> | |s| == 32 witness seq(32, i => 0)

  datatype Node = Node(nodeId: nat, address: string, port: nat, sessionKey: SessionKey, capabilities: bv8)

  /** The key buffer one layer is encrypted with. */
  type LayerKey = k: seq<bv8> | |k| == 44 witness seq(44, i => 0)

  function NonceSeed(circuitId: nat, hop: nat): bv32
    requires circuitId <= UINT32_MAX && hop <= UINT32_MAX
  {
    (circuitId as bv32) ^ ((hop as bv32) << 16)
  }

  /** Session key, then a nonce of circuit id and hop index, then zeros: src/onion/onion.cpp:141-147. */
  function KeyOfHop(node: Node, circuitId: nat, hop: nat): LayerKey
    requires circuitId <= UINT32_MAX && hop <= UINT32_MAX
  {
    node.sessionKey + WriteLe32(NonceSeed(circuitId, hop)) + [0, 0, 0, 0, 0, 0, 0, 0]
  }

  /** The key buffers of all hops, first hop first. */
  function HopKeys(hops: seq<Node>, circuitId: nat): (keys: seq<LayerKey>)
    requires circuitId <= UINT32_MAX && |hops| <= 10
    ensures |keys| == |hops|
    ensures forall i :: 0 <= i < |hops| ==> keys[i] == KeyOfHop(hops[i], circuitId, i)
  {
    seq(|hops|, i requires 0 <= i < |hops| => KeyOfHop(hops[i], circuitId, i))
  }

  function HopWord(hop: nat): bv32
    requires hop < 10
  {
    if hop == 0 then 0 else if hop == 1 then 1 else if hop == 2 then 2 else if hop == 3 then 3
    else if hop == 4 then 4 else if hop == 5 then 5 else if hop == 6 then 6 else if hop == 7 then 7
    else if hop == 8 then 8 else 9
  }

  lemma HopWords(hop: nat)
    requires hop < 10
    ensures hop as bv32 == HopWord(hop)
  {
  }

  lemma HopWordsDiffer(i: nat, j: nat)
    requires i < j < 10
    ensures HopWord(i) != HopWord(j) && HopWord(i) < 16 && HopWord(j) < 16
  {
  }

  lemma ShiftedDiffer(x: bv32, a: bv32, b: bv32)
    requires a < 16 && b < 16 && a != b
    ensures x ^ (a << 16) != x ^ (b << 16)
  {
  }

  lemma SeedsDiffer(circuitId: nat, i: nat, j: nat)
    requires circuitId <= UINT32_MAX && i < j < 10
    ensures NonceSeed(circuitId, i) != NonceSeed(circuitId, j)
  {
    hide HopWord;
    HopWords(i);
    HopWords(j);
    HopWordsDiffer(i, j);
    ShiftedDiffer(circuitId as bv32, HopWord(i), HopWord(j));
  }

  function WordOf(n: nat): bv32
    requires n <= UINT32_MAX
  {
    n as bv32
  }

  /** 16 bits up. */
  function Up(x: bv32): bv32 {
    x << 16
  }

  lemma SeedOfWords(circuitId: nat, hop: nat)
    requires circuitId <= UINT32_MAX && hop <= UINT32_MAX
    ensures NonceSeed(circuitId, hop) == Xor(WordOf(circuitId), Up(WordOf(hop)))
  {
  }

  lemma XorIs(x: bv32, y: bv32)
    ensures Xor(x, y) == x ^ y
  {
  }

  lemma XorFrontFlat(x: bv32, p: bv32)
    ensures Xor(x, x ^ p) == p
  {
  }

  lemma XorAssociativeFlat(x: bv32, y: bv32, z: bv32)
    ensures Xor(x, y ^ z) == Xor(x ^ y, z)
  {
  }

  lemma XorCancels(x: bv32, p: bv32, q: bv32)
    ensures Xor(x, Xor(Xor(x, p), q)) == Xor(p, q)
  {
    hide Xor;
    var y := Xor(x, p);
    XorIs(x, p);
    XorFrontFlat(x, p);
    XorIs(y, q);
    XorIs(x, y);
    XorAssociativeFlat(x, y, q);
  }

  lemma UpOfXor(a: bv32, b: bv32)
    ensures Up(Xor(a, b)) == Xor(Up(a), Up(b))
  {
  }

  lemma MovedOver(x: bv32, p: bv32, y: bv32, q: bv32)
    requires Xor(x, p) == Xor(y, q)
    ensures Xor(x, y) == Xor(p, q)
  {
    hide Xor;
    XorXor(y, q);
    XorCancels(x, p, q);
  }

  /** The difference of the circuit ids is that of the hop indexes, 16 bits up. */
  predicate SeedsCollide(c: nat, i: nat, d: nat, j: nat)
    requires c <= UINT32_MAX && i <= UINT32_MAX && d <= UINT32_MAX && j <= UINT32_MAX
  {
    Xor(WordOf(c), WordOf(d)) == Up(Xor(WordOf(i), WordOf(j)))
  }

  /** Two hops of whatever circuits get the same seed exactly then, */
  lemma SeedsCollideExactly(c: nat, i: nat, d: nat, j: nat)
    requires c <= UINT32_MAX && i <= UINT32_MAX && d <= UINT32_MAX && j <= UINT32_MAX
    ensures NonceSeed(c, i) == NonceSeed(d, j) <==> SeedsCollide(c, i, d, j)
  {
    hide NonceSeed, WordOf, Xor, Up;
    SeedOfWords(c, i);
    SeedOfWords(d, j);
    var (x, p, y, q) := (WordOf(c), Up(WordOf(i)), WordOf(d), Up(WordOf(j)));
    UpOfXor(WordOf(i), WordOf(j));
    if NonceSeed(c, i) == NonceSeed(d, j) {
      MovedOver(x, p, y, q);
    }
    if SeedsCollide(c, i, d, j) {
      MovedOver(x, y, p, q);
    }
  }

  /** and they get the same key buffer exactly when their session keys are the same on top of that. */
  lemma KeysCollideExactly(m: Node, c: nat, i: nat, n: Node, d: nat, j: nat)
    requires c <= UINT32_MAX && i <= UINT32_MAX && d <= UINT32_MAX && j <= UINT32_MAX
    ensures KeyOfHop(m, c, i) == KeyOfHop(n, d, j)
       <==> m.sessionKey == n.sessionKey && SeedsCollide(c, i, d, j)
  {
    hide WriteLe32, NonceSeed, SeedsCollide;
    SeedsCollideExactly(c, i, d, j);
    var (s, t) := (NonceSeed(c, i), NonceSeed(d, j));
    Le32RoundTrip(s);
    Le32RoundTrip(t);
    assert KeyOfHop(m, c, i)[..32] == m.sessionKey && KeyOfHop(n, d, j)[..32] == n.sessionKey;
    assert KeyOfHop(m, c, i)[32..36] == WriteLe32(s) && KeyOfHop(n, d, j)[32..36] == WriteLe32(t);
  }

  /** Hop 1 of circuit 1 and hop 0 of circuit 65537, when they are the same node. */
  lemma SharedKeyBuffer(n: Node)
    ensures KeyOfHop(n, 1, 1) == KeyOfHop(n, 0x1_0001, 0)
  {
    hide WriteLe32;
    assert NonceSeed(1, 1) == NonceSeed(0x1_0001, 0);
  }

  /** Where things stand in the key buffer of a hop, and in the cipher state it makes: the session key of that hop, then
      as nonce the circuit id exclusive or the hop index 16 bits up, least significant byte first, and zeros; the
      counter is 0. */
  lemma HopState(hops: seq<Node>, circuitId: nat, i: nat)
    requires circuitId <= UINT32_MAX && i < |hops| <= 10
    ensures |HopKeys(hops, circuitId)| == |hops|
    ensures var key := HopKeys(hops, circuitId)[i];
            var seed := (circuitId as bv32) ^ ((i as bv32) << 16);
            && key[..32] == hops[i].sessionKey
            && LeValue(key[32..36]) == seed as int && key[36..] == [0, 0, 0, 0, 0, 0, 0, 0]
            && InitialState(key)[12..] == [0, seed, 0, 0]
  {
    hide NonceSeed, WriteLe32, LeValue, ReadLe32;
    var (key, seed) := (KeyOfHop(hops[i], circuitId, i), NonceSeed(circuitId, i));
    assert key[32..36] == WriteLe32(seed);
    WordValue(seed);
    SeedIs(circuitId, i);
    NonceWords(seed);
    assert key[32..44] == WriteLe32(seed) + [0, 0, 0, 0, 0, 0, 0, 0];
  }

  lemma SeedIs(circuitId: nat, hop: nat)
    requires circuitId <= UINT32_MAX && hop <= UINT32_MAX
    ensures NonceSeed(circuitId, hop) == (circuitId as bv32) ^ ((hop as bv32) << 16)
  {
  }

  /** The twelve bytes of the nonce as words. */
  lemma NonceWords(seed: bv32)
    ensures Deserialize(WriteLe32(seed) + [0, 0, 0, 0, 0, 0, 0, 0]) == [seed, 0, 0]
  {
    hide WriteLe32, ReadLe32, Deserialize;
    var bs := WriteLe32(seed) + [0, 0, 0, 0, 0, 0, 0, 0];
    DeserializeNothing();
    DeserializeNext(bs, 0);
    DeserializeNext(bs, 1);
    DeserializeNext(bs, 2);
    Le32RoundTrip(seed);
    ReadZero();
    assert bs[..0] == [] && bs[..12] == bs;
    assert bs[0..4] == WriteLe32(seed) && bs[4..8] == [0, 0, 0, 0] && bs[8..12] == [0, 0, 0, 0];
  }

  lemma ReadZero()
    ensures ReadLe32([0, 0, 0, 0]) == 0
  {
  }

  /** No two hops of a circuit encrypt with the same key buffer, not even with equal session keys. */
  lemma HopKeysDiffer(hops: seq<Node>, circuitId: nat, i: nat, j: nat)
    requires circuitId <= UINT32_MAX && i < j < |hops| <= 10
    ensures HopKeys(hops, circuitId)[i] != HopKeys(hops, circuitId)[j]
  {
    hide WriteLe32, NonceSeed;
    SeedsDiffer(circuitId, i, j);
    var (s, t) := (NonceSeed(circuitId, i), NonceSeed(circuitId, j));
    Le32RoundTrip(s);
    Le32RoundTrip(t);
    assert KeyOfHop(hops[i], circuitId, i)[32..36] == WriteLe32(s);
    assert KeyOfHop(hops[j], circuitId, j)[32..36] == WriteLe32(t);
  }

  /** Taking a layer off, or putting one on: the cipher is its own inverse. */
  function Layer(data: seq<bv8>, key: LayerKey): (out: seq<bv8>)
    ensures |out| == |data|
  {
    Crypt(data, InitialState(key))
  }

  /** The last hop's layer goes on first, the first hop's layer last. */
  function Wrap(data: seq<bv8>, keys: seq<LayerKey>): (out: seq<bv8>)
    ensures |out| == |data|
  {
    if keys == [] then data else Layer(Wrap(data, keys[1..]), keys[0])
  }

  /** Taking layers off one after the other. */
  function Peel(packet: seq<bv8>, keys: seq<LayerKey>): (out: seq<bv8>)
    ensures |out| == |packet|
    decreases |keys|
  {
    if keys == [] then packet else Peel(Layer(packet, keys[0]), keys[1..])
  }

  lemma LayerTwice(data: seq<bv8>, key: LayerKey)
    ensures Layer(Layer(data, key), key) == data
  {
    hide Crypt, InitialState;
    CryptInvolution(data, InitialState(key));
  }

  lemma LayersCommute(data: seq<bv8>, k: LayerKey, l: LayerKey)
    ensures Layer(Layer(data, k), l) == Layer(Layer(data, l), k)
  {
    hide Crypt, InitialState;
    CryptCommutes(data, InitialState(k), InitialState(l));
  }

  /** Any layer may be taken for the outermost one. */
  lemma {:induction false} LayerToFront(data: seq<bv8>, keys: seq<LayerKey>, j: nat)
    requires j < |keys|
    ensures Wrap(data, keys) == Layer(Wrap(data, keys[..j] + keys[j + 1..]), keys[j])
  {
    hide Layer;
    var others := keys[..j] + keys[j + 1..];
    if j == 0 {
      assert others == keys[1..];
    } else {
      var rest := keys[1..];
      LayerToFront(data, rest, j - 1);
      assert others[1..] == rest[..j - 1] + rest[j..];
      LayersCommute(Wrap(data, others[1..]), keys[j], keys[0]);
    }
  }

  /** Peeling with the keys of all hops in any order gives the plaintext back. */
  lemma {:induction false} PeelInAnyOrder(data: seq<bv8>, keys: seq<LayerKey>, order: seq<LayerKey>)
    requires multiset(order) == multiset(keys)
    ensures Peel(Wrap(data, keys), order) == data
    decreases |order|
  {
    hide Layer;
    if order == [] {
      assert |multiset(keys)| == 0;
    } else {
      var k := order[0];
      assert order == [k] + order[1..];
      assert k in multiset(keys);
      var j :| 0 <= j < |keys| && keys[j] == k;
      var others := keys[..j] + keys[j + 1..];
      assert keys == keys[..j] + [k] + keys[j + 1..];
      assert multiset(others) == multiset(keys) - multiset{k} == multiset(order[1..]);
      LayerToFront(data, keys, j);
      LayerTwice(Wrap(data, others), k);
      PeelInAnyOrder(data, others, order[1..]);
    }
  }

  /** Key buffers do not depend on the packet, so all packets of a circuit share their keystreams: wherever two of them
      both have a byte, they differ as their plaintexts do. */
  lemma {:induction false} PacketsDifferAsPlaintexts(p: seq<bv8>, q: seq<bv8>, keys: seq<LayerKey>, k: nat)
    requires k < |p| && k < |q|
    ensures XorByte(Wrap(p, keys)[k], Wrap(q, keys)[k]) == XorByte(p[k], q[k])
  {
    hide XorByte, Keystream, InitialState;
    if keys == [] {
    } else {
      var (u, v) := (Wrap(p, keys[1..]), Wrap(q, keys[1..]));
      PacketsDifferAsPlaintexts(p, q, keys[1..], k);
      XorByteCancels(u[k], v[k], Keystream(InitialState(keys[0]), k));
    }
  }

  /** Byte `i` of the blocks that all layers make with counter `c`, together. */
  function Mask(keys: seq<LayerKey>, c: bv32, i: nat): bv8
    requires i < 64
  {
    if keys == [] then 0 else XorByte(Mask(keys[1..], c, i), Block(InitialState(keys[0])[12 := c])[i])
  }

  /** A packet, byte by byte: the plaintext exclusive or what the layers make at its place, byte k % 64 of block
      k / 64 modulo 2^32. */
  lemma {:induction false} PacketByte(p: seq<bv8>, keys: seq<LayerKey>, k: nat, c: bv32)
    requires k < |p| && c as int == k / 64 % 0x1_0000_0000
    ensures Wrap(p, keys)[k] == XorByte(p[k], Mask(keys, c, k % 64))
  {
    hide XorByte, Block, InitialState, Crypt;
    if keys == [] {
      XorByteZero(p[k]);
    } else {
      var state := InitialState(keys[0]);
      PacketByte(p, keys[1..], k, c);
      CounterIsZero(keys[0]);
      ChaChaStandard.CryptAt(Wrap(p, keys[1..]), state, k, c);
      XorByteIs(Wrap(p, keys[1..])[k], Block(state[12 := c])[k % 64]);
      XorByteMoves(p[k], Mask(keys[1..], c, k % 64), Block(state[12 := c])[k % 64]);
    }
  }

  lemma CounterIsZero(key: LayerKey)
    ensures InitialState(key)[12] as int == 0
  {
  }

  /** The order in which layers are put on does not show in the packet either. */
  lemma {:induction false} WrapInAnyOrder(data: seq<bv8>, keys: seq<LayerKey>, order: seq<LayerKey>)
    requires multiset(order) == multiset(keys)
    ensures Wrap(data, order) == Wrap(data, keys)
    decreases |order|
  {
    hide Layer;
    if order == [] {
      assert |multiset(keys)| == 0;
    } else {
      var k := order[0];
      assert order == [k] + order[1..];
      assert k in multiset(keys);
      var j :| 0 <= j < |keys| && keys[j] == k;
      var others := keys[..j] + keys[j + 1..];
      assert keys == keys[..j] + [k] + keys[j + 1..];
      assert multiset(others) == multiset(keys) - multiset{k} == multiset(order[1..]);
      LayerToFront(data, keys, j);
      WrapInAnyOrder(data, others, order[1..]);
    }
  }
}

/** The slot table of live circuits, as values: what creations and destructions do to it over a run. */
module CircuitTable {
  import opened Core

  const CAPACITY: nat := 16

  /** A live circuit is known by its birth, the number of creations before its own. */
  datatype Table = Table(slots: seq<Option<nat>>, count: nat, created: nat)

  datatype Op = Create | Destroy(slot: nat)

  function Live(slots: seq<Option<nat>>): (n: nat)
    ensures n <= |slots|
  {
    if slots == [] then 0 else (if slots[0].Some? then 1 else 0) + Live(slots[1..])
  }

  function FirstFree(slots: seq<Option<nat>>): (i: nat)
    ensures i <= |slots|
    ensures forall j :: 0 <= j < i ==> slots[j].Some?
    ensures i < |slots| ==> slots[i].None?
  {
    if slots == [] || slots[0].None? then 0 else 1 + FirstFree(slots[1..])
  }

  function FreeSlots(n: nat): (slots: seq<Option<nat>>)
    ensures |slots| == n && forall i :: 0 <= i < n ==> slots[i] == None
  {
    if n == 0 then [] else [None] + FreeSlots(n - 1)
  }

  function Empty(): Table {
    Table(FreeSlots(CAPACITY), 0, 0)
  }

  /** Create with valid arguments. The last branch is the clean-up the source calls unreachable. */
  function CreateIn(t: Table): Table {
    if t.count >= CAPACITY then t
    else
      var i := FirstFree(t.slots);
      if i < |t.slots| then Table(t.slots[i := Some(t.created)], t.count + 1, t.created + 1)
      else t.(created := t.created + 1)
  }

  predicate CreateSucceeds(t: Table) {
    t.count < CAPACITY && FirstFree(t.slots) < |t.slots|
  }

  function DestroyIn(t: Table, slot: nat): Table
    requires slot < |t.slots| && t.slots[slot].Some? && t.count > 0
  {
    t.(slots := t.slots[slot := None], count := t.count - 1)
  }

  predicate Enabled(t: Table, op: Op) {
    op.Destroy? ==> op.slot < |t.slots| && t.slots[op.slot].Some? && t.count > 0
  }

  function Step(t: Table, op: Op): Table
    requires Enabled(t, op)
  {
    match op
    case Create => CreateIn(t)
    case Destroy(slot) => DestroyIn(t, slot)
  }

  /** The ids a run hands out wrap at 2^32. */
  function IdOf(birth: nat): (id: nat)
    ensures id <= UINT32_MAX
  {
    (1 + birth) % 0x1_0000_0000
  }

  lemma IdsDistinct(a: nat, b: nat)
    requires a < b < 0x1_0000_0000
    ensures IdOf(a) != IdOf(b)
  {
  }

  lemma NextId(birth: nat)
    ensures IdOf(birth + 1) == (IdOf(birth) + 1) % 0x1_0000_0000
  {
  }

  predicate Invariant(t: Table) {
    && |t.slots| == CAPACITY
    && t.count == Live(t.slots)
    && (forall i :: 0 <= i < |t.slots| && t.slots[i].Some? ==> t.slots[i].value < t.created)
    && (forall i, j :: 0 <= i < j < |t.slots| && t.slots[i].Some? && t.slots[j].Some? ==>
          t.slots[i].value != t.slots[j].value)
  }

  /** A run of operations, each on a live circuit when it destroys one. */
  predicate IsRun(ops: seq<Op>, states: seq<Table>) {
    && |states| == |ops| + 1
    && states[0] == Empty()
    && forall k :: 0 <= k < |ops| ==> Enabled(states[k], ops[k]) && states[k + 1] == Step(states[k], ops[k])
  }

  lemma {:induction false} LiveUpdate(slots: seq<Option<nat>>, i: nat, v: Option<nat>)
    requires i < |slots|
    ensures Live(slots[i := v]) == Live(slots) + (if v.Some? then 1 else 0) - (if slots[i].Some? then 1 else 0)
  {
    if i == 0 {
      assert slots[i := v][1..] == slots[1..];
    } else {
      LiveUpdate(slots[1..], i - 1, v);
      assert slots[i := v][1..] == slots[1..][i - 1 := v];
    }
  }

  /** Pigeonhole: a table with fewer live circuits than slots has a free slot. */
  lemma {:induction false} FreeSlotExists(slots: seq<Option<nat>>)
    ensures FirstFree(slots) < |slots| <==> Live(slots) < |slots|
  {
    if slots == [] {
    } else {
      FreeSlotExists(slots[1..]);
    }
  }

  lemma {:induction false} NoneLive(n: nat)
    ensures Live(FreeSlots(n)) == 0
  {
    if n == 0 {
    } else {
      NoneLive(n - 1);
      assert FreeSlots(n)[1..] == FreeSlots(n - 1);
    }
  }

  lemma StepKeepsInvariant(t: Table, op: Op)
    requires Invariant(t) && Enabled(t, op)
    ensures Invariant(Step(t, op))
  {
    FreeSlotExists(t.slots);
    match op
    case Create =>
      if t.count < CAPACITY {
        LiveUpdate(t.slots, FirstFree(t.slots), Some(t.created));
      }
    case Destroy(slot) =>
      LiveUpdate(t.slots, slot, None);
  }

  /** Every state of every run keeps the invariant, */
  lemma {:induction false} RunsKeepInvariant(ops: seq<Op>, states: seq<Table>, k: nat)
    requires IsRun(ops, states) && k <= |ops|
    ensures Invariant(states[k])
  {
    if k == 0 {
      NoneLive(CAPACITY);
    } else {
      RunsKeepInvariant(ops, states, k - 1);
      StepKeepsInvariant(states[k - 1], ops[k - 1]);
    }
  }

  predicate LiveIdsDistinct(slots: seq<Option<nat>>) {
    forall i, j :: 0 <= i < j < |slots| && slots[i].Some? && slots[j].Some? ==>
      IdOf(slots[i].value) != IdOf(slots[j].value)
  }

  /** so in every state of every run creation fails exactly when 16 circuits are live, never for want of a slot,
      and live ids are distinct as long as no more than 2^32 circuits have been created. */
  lemma RunsAreSafe(ops: seq<Op>, states: seq<Table>, k: nat)
    requires IsRun(ops, states) && k <= |ops|
    ensures |states[k].slots| == 16 && states[k].count == Live(states[k].slots)
    ensures CreateSucceeds(states[k]) <==> Live(states[k].slots) < 16
    ensures states[k].count < 16 ==> FirstFree(states[k].slots) < 16
    ensures states[k].created <= 0x1_0000_0000 ==> LiveIdsDistinct(states[k].slots)
  {
    hide Step, IdOf;
    RunsKeepInvariant(ops, states, k);
    FreeSlotExists(states[k].slots);
    if states[k].created <= 0x1_0000_0000 {
      InvariantIds(states[k]);
    }
  }

  lemma InvariantIds(t: Table)
    requires Invariant(t) && t.created <= 0x1_0000_0000
    ensures LiveIdsDistinct(t.slots)
  {
    hide IdOf;
    forall i, j | 0 <= i < j < |t.slots| && t.slots[i].Some? && t.slots[j].Some?
      ensures IdOf(t.slots[i].value) != IdOf(t.slots[j].value)
    {
      var a, b := t.slots[i].value, t.slots[j].value;
      if a < b { IdsDistinct(a, b); } else { IdsDistinct(b, a); }
    }
  }

  function Destructions(ops: seq<Op>): nat {
    if ops == [] then 0 else Destructions(ops[..|ops| - 1]) + if ops[|ops| - 1].Destroy? then 1 else 0
  }

  /** No circuit is lost: those created are live or were destroyed. */
  lemma {:induction false} RunsConserve(ops: seq<Op>, states: seq<Table>, k: nat)
    requires IsRun(ops, states) && k <= |ops|
    ensures states[k].created == Live(states[k].slots) + Destructions(ops[..k])
  {
    if k == 0 {
      NoneLive(CAPACITY);
    } else {
      RunsConserve(ops, states, k - 1);
      RunsKeepInvariant(ops, states, k - 1);
      StepConserves(states[k - 1], ops[k - 1]);
      assert ops[..k][..k - 1] == ops[..k - 1];
    }
  }

  lemma StepConserves(t: Table, op: Op)
    requires Invariant(t) && Enabled(t, op)
    ensures Step(t, op).created - Live(Step(t, op).slots)
         == t.created - Live(t.slots) + if op.Destroy? then 1 else 0
  {
    StepKeepsInvariant(t, op);
    FreeSlotExists(t.slots);
  }
}

/** src/onion/onion.cpp: circuits and the router that holds them. */
module OnionRouter {
  import opened Core
  import opened Words
  import opened ChaCha20
  import opened OnionLayers
  import opened CircuitTable

  class Circuit {
    const circuitId: nat
    const hopCount: nat
    const hops: array<Node>
    const createdAt: nat
    var isActive: bool

    constructor (circuitId: nat, hops: array<Node>, hopCount: nat, createdAt: nat)
      requires circuitId <= UINT32_MAX && 1 <= hopCount <= 10 && hopCount <= hops.Length
      ensures this.circuitId == circuitId && this.hopCount == hopCount && this.createdAt == createdAt && isActive
      ensures fresh(this.hops) && WellFormed() && this.hops[..] == hops[..hopCount]
    {
      this.circuitId, this.hopCount, this.createdAt := circuitId, hopCount, createdAt;
      this.isActive := true;
      this.hops := new Node[hopCount](i requires 0 <= i < hops.Length reads hops => hops[i]);
    }

    predicate WellFormed() {
      circuitId <= UINT32_MAX && 1 <= hopCount <= 10 && hops.Length == hopCount
    }

    ghost function Keys(): seq<LayerKey>
      requires WellFormed()
      reads hops
    {
      HopKeys(hops[..], circuitId)
    }
  }

  class OnionPacket {
    var data: array?<bv8>
    var size: nat
    var circuitId: nat

    constructor ()
    {
      data, size, circuitId := null, 0, 0;
    }
  }

  /** Where create_circuit leaves its result. */
  class CircuitRef {
    var circuit: Circuit?

    constructor ()
    {
      circuit := null;
    }
  }

  /** `after` is `before` with `c` in the first free slot. */
  ghost predicate PutFirst(before: seq<Circuit?>, after: seq<Circuit?>, c: Circuit) {
    exists i :: 0 <= i < |before| && before[i] == null && null !in before[..i] && after == before[i := c]
  }

  lemma IsFirst(before: seq<Circuit?>, after: seq<Circuit?>, i: nat, c: Circuit)
    requires i < |before| && before[i] == null && null !in before[..i] && after == before[i := c]
    ensures PutFirst(before, after, c)
  {
  }

  class Router {
    const activeCircuits: array<Circuit?>
    var circuitCount: nat
    var nextCircuitId: nat
    ghost var births: seq<nat>
    ghost var created: nat

    constructor ()
      ensures Valid() && Abstract() == Empty() && fresh(activeCircuits)
      ensures activeCircuits.Length == 16 && circuitCount == 0 && nextCircuitId == 1
    {
      activeCircuits := new Circuit?[CAPACITY](_ => null);
      circuitCount := 0;
      nextCircuitId := 1;
      births := seq(CAPACITY, i => 0);
      created := 0;
      new;
      NoneLive(CAPACITY);
      assert Abstract().slots == FreeSlots(CAPACITY);
    }

    ghost function Slot(i: nat): Option<nat>
      requires i < activeCircuits.Length == |births|
      reads this, activeCircuits
    {
      if activeCircuits[i] == null then None else Some(births[i])
    }

    /** The table as a value. */
    ghost function Abstract(): (t: Table)
      requires activeCircuits.Length == |births| == CAPACITY
      reads this, activeCircuits
      ensures |t.slots| == CAPACITY
    {
      Table(Slots(CAPACITY), circuitCount, created)
    }

    ghost function Slots(n: nat): (s: seq<Option<nat>>)
      requires n <= activeCircuits.Length == |births|
      reads this, activeCircuits
      ensures |s| == n && forall i :: 0 <= i < n ==> s[i] == Slot(i)
    {
      if n == 0 then [] else Slots(n - 1) + [Slot(n - 1)]
    }

    /** No circuit is in two slots, every circuit in a slot carries the id of its birth, and the table satisfies the
        invariant of its runs. */
    ghost predicate Valid()
      reads this, activeCircuits
    {
      && activeCircuits.Length == |births| == CAPACITY
      && Invariant(Abstract())
      && nextCircuitId == IdOf(created)
      && (forall i :: 0 <= i < CAPACITY && activeCircuits[i] != null ==>
            activeCircuits[i].WellFormed() && activeCircuits[i].circuitId == IdOf(births[i]))
      && (forall i, j :: 0 <= i < j < CAPACITY && activeCircuits[i] != null ==> activeCircuits[i] != activeCircuits[j])
    }

    method CreateCircuit(hops: array?<Node>, hopCount: nat, outCircuit: CircuitRef?, now: nat)
      returns (err: ErrorCode)
      requires Valid()
      requires hops != null && hopCount <= 10 ==> hopCount <= hops.Length
      modifies this, activeCircuits, outCircuit
      ensures Valid()
      ensures hops == null || outCircuit == null || hopCount == 0 || hopCount > 10 ==>
                err == ERR_INVALID_ARG && Abstract() == old(Abstract())
      ensures hops != null && outCircuit != null && 1 <= hopCount <= 10 ==>
                && Abstract() == CreateIn(old(Abstract()))
                && (err == OK <==> Live(old(Abstract()).slots) < 16) && (err == OK <==> old(circuitCount) < 16)
                && (err != OK ==> err == ERR_OUT_OF_MEMORY && Abstract() == old(Abstract()))
      ensures err == OK ==>
                && outCircuit != null && outCircuit.circuit != null && FirstFree(old(Abstract()).slots) < CAPACITY
                && var c := outCircuit.circuit;
                && fresh(c) && c.isActive && c.WellFormed() && c.createdAt == now
                && c.hopCount == hopCount && c.hops[..] == old(hops[..hopCount])
                && c.circuitId == old(nextCircuitId) == IdOf(old(created))
                && PutFirst(old(activeCircuits[..]), activeCircuits[..], c)
                && circuitCount == old(circuitCount) + 1 && nextCircuitId == (old(nextCircuitId) + 1) % 0x1_0000_0000
      ensures err != OK ==> activeCircuits[..] == old(activeCircuits[..]) && nextCircuitId == old(nextCircuitId)
      ensures err != OK && outCircuit != null ==> outCircuit.circuit == old(outCircuit.circuit)
    {
      hide Invariant, IdOf, PutFirst, FirstFree, Live, CreateIn;
      if hops == null || hopCount == 0 || outCircuit == null {
        return ERR_INVALID_ARG;
      }
      if hopCount > 10 {
        return ERR_INVALID_ARG;
      }
      ghost var before := Abstract();
      InvariantCounts(before);
      if circuitCount >= CAPACITY {
        FullStays(before);
        return ERR_OUT_OF_MEMORY;
      }
      var circuit := new Circuit(nextCircuitId, hops, hopCount, now);
      NextId(created);
      nextCircuitId := (nextCircuitId + 1) % 0x1_0000_0000;
      assert Abstract().slots == before.slots;
      var added := Add(circuit);
      assert added;
      outCircuit.circuit := circuit;
      return OK;
    }

    /** Puts a new circuit into the first free slot, if there is one. */
    method Add(circuit: Circuit) returns (added: bool)
      requires activeCircuits.Length == |births| == CAPACITY && Invariant(Abstract())
      requires circuit.WellFormed() && circuit.circuitId == IdOf(created) && nextCircuitId == IdOf(created + 1)
      requires circuit !in activeCircuits[..] && circuitCount < CAPACITY
      requires forall i :: 0 <= i < CAPACITY && activeCircuits[i] != null ==>
                 activeCircuits[i].WellFormed() && activeCircuits[i].circuitId == IdOf(births[i])
      requires forall i, j :: 0 <= i < j < CAPACITY && activeCircuits[i] != null ==>
                 activeCircuits[i] != activeCircuits[j]
      modifies this, activeCircuits
      ensures added && Valid() && Abstract() == CreateIn(old(Abstract()))
      ensures FirstFree(old(Abstract()).slots) < CAPACITY
      ensures PutFirst(old(activeCircuits[..]), activeCircuits[..], circuit)
      ensures circuitCount == old(circuitCount) + 1 && nextCircuitId == old(nextCircuitId)
    {
      hide Invariant, IdOf, PutFirst, FirstFree;
      ghost var before := Abstract();
      InvariantCounts(before);
      ghost var free := FirstFree(before.slots);
      added := false;
      var i := 0;
      while i < CAPACITY
        invariant 0 <= i <= free < CAPACITY && !added && null !in activeCircuits[..i]
      {
        assert before.slots[i] == Slot(i);
        if activeCircuits[i] == null {
          break;
        }
        i := i + 1;
      }
      assert i == free;
      ghost var slots := activeCircuits[..];
      assert slots[..i] == activeCircuits[..i];
      activeCircuits[i] := circuit;
      assert activeCircuits[..] == slots[i := circuit];
      IsFirst(slots, activeCircuits[..], i, circuit);
      circuitCount := circuitCount + 1;
      births, created := births[i := created], created + 1;
      added := true;
      assert Abstract().slots == before.slots[i := Some(before.created)];
      StepKeepsInvariant(before, Create);
    }

    lemma FullStays(t: Table)
      requires t.count >= CAPACITY
      ensures CreateIn(t) == t
    {
    }

    lemma InvariantCounts(t: Table)
      requires Invariant(t)
      ensures t.count == Live(t.slots) && (t.count < CAPACITY ==> FirstFree(t.slots) < CAPACITY)
    {
      FreeSlotExists(t.slots);
    }

    method DestroyCircuit(circuit: Circuit?) returns (err: ErrorCode)
      requires Valid() && (circuit != null ==> circuit.isActive)
      modifies this, activeCircuits, circuit
      ensures Valid()
      ensures circuit == null ==> err == ERR_INVALID_ARG && Abstract() == old(Abstract())
      ensures circuit != null ==> err == OK && !circuit.isActive
      ensures circuit == null || circuit !in old(activeCircuits[..]) ==>
                && Abstract() == old(Abstract())
                && activeCircuits[..] == old(activeCircuits[..]) && circuitCount == old(circuitCount)
      ensures forall i :: 0 <= i < CAPACITY && circuit != null && circuit == old(activeCircuits[i]) ==>
                && Enabled(old(Abstract()), Destroy(i)) && Abstract() == Step(old(Abstract()), Destroy(i))
                && activeCircuits[..] == old(activeCircuits[..])[i := null] && circuitCount == old(circuitCount) - 1
      ensures nextCircuitId == old(nextCircuitId)
    {
      hide Invariant, IdOf;
      if circuit == null {
        return ERR_INVALID_ARG;
      }
      ghost var before := Abstract();
      InvariantCounts(before);
      var i := 0;
      while i < CAPACITY
        invariant 0 <= i <= CAPACITY && Valid() && Abstract() == before
        invariant activeCircuits[..] == old(activeCircuits[..])
        invariant circuit !in activeCircuits[..i]
      {
        if activeCircuits[i] == circuit {
          break;
        }
        i := i + 1;
      }
      if i < CAPACITY {
        assert before.slots[i] == Slot(i);
        SomeLive(before.slots, i);
        activeCircuits[i] := null;
        circuitCount := circuitCount - 1;
        assert Abstract().slots == before.slots[i := None];
        StepKeepsInvariant(before, Destroy(i));
      } else {
        assert activeCircuits[..i] == activeCircuits[..];
      }
      circuit.isActive := false;
      return OK;
    }

    /** Encrypts for every hop, last hop first. The cipher cannot fail on the buffers it is given. */
    method SendOnion(circuit: Circuit?, plaintext: Buffer, packet: OnionPacket) returns (err: ErrorCode)
      requires plaintext.Valid()
      requires circuit != null && circuit.isActive ==>
                 circuit.WellFormed() && plaintext.size + circuit.hopCount * 64 < SIZE_LIMIT
      modifies packet
      ensures circuit == null || !circuit.isActive || plaintext.size == 0 ==>
                err == ERR_INVALID_ARG && packet.data == old(packet.data) && packet.size == old(packet.size)
      ensures circuit != null && circuit.isActive && plaintext.size > 0 ==>
                && err == OK
                && packet.data != null && fresh(packet.data) && packet.data.Length == packet.size == plaintext.size
                && packet.data[..] == Wrap(plaintext.Contents(), circuit.Keys())
                && packet.circuitId == circuit.circuitId
    {
      hide Layer, KeyOfHop, Wrap, Splice;
      if circuit == null || !circuit.isActive {
        return ERR_INVALID_ARG;
      }
      if plaintext.size == 0 {
        return ERR_INVALID_ARG;
      }
      var maxSize := plaintext.size + circuit.hopCount * 64;
      var working := new bv8[maxSize](_ => 0);
      SpliceFront(working[..], plaintext.Contents());
      Memcpy(working, 0, plaintext.data, 0, plaintext.size);
      var currentSize := plaintext.size;
      EncryptLayers(circuit, working, currentSize);
      packet.data := new bv8[currentSize](_ => 0);
      SpliceFront(packet.data[..], working[..currentSize]);
      Memcpy(packet.data, 0, working, 0, currentSize);
      assert packet.data[..] == packet.data[..currentSize];
      packet.size := currentSize;
      packet.circuitId := circuit.circuitId;
      return OK;
    }
  }

  /** The loop over the hops, from the last one down. */
  method EncryptLayers(circuit: Circuit, working: array<bv8>, n: nat)
    requires circuit.WellFormed() && n <= working.Length < SIZE_LIMIT && (circuit.hops as object) != working
    modifies working
    ensures working[..n] == Wrap(old(working[..n]), circuit.Keys())
  {
    hide Layer, KeyOfHop;
    var scratch := new bv8[working.Length](_ => 0);
    ghost var p, keys := working[..n], circuit.Keys();
    var i := circuit.hopCount;
    assert keys[i..] == [];
    while i > 0
      invariant 0 <= i <= circuit.hopCount && circuit.Keys() == keys
      invariant working[..n] == Wrap(p, keys[i..])
    {
      i := i - 1;
      var keyBuffer := KeyBuffer(circuit.hops[i], circuit.circuitId, i);
      assert keyBuffer[..] == keys[i];
      assert keys[i..][1..] == keys[i + 1..];
      EncryptLayer(working, scratch, n, keyBuffer);
    }
    assert keys[0..] == keys;
  }

  /** One pass of the loop: encrypts into the second buffer and copies back. */
  method EncryptLayer(working: array<bv8>, scratch: array<bv8>, n: nat, keyBuffer: array<bv8>)
    requires n <= working.Length == scratch.Length < SIZE_LIMIT && keyBuffer.Length == 44
    requires working != scratch && working != keyBuffer && scratch != keyBuffer
    modifies working, scratch
    ensures working[..n] == Layer(old(working[..n]), keyBuffer[..])
  {
    hide Layer, InitialState, Crypt, Splice;
    var key := new Buffer(keyBuffer, 44);
    var input := new Buffer(working, n);
    var output := new Buffer(scratch, scratch.Length);
    assert key.Contents() == keyBuffer[..] && input.Contents() == working[..n];
    LayerIsCrypt(working[..n], keyBuffer[..]);
    var err := CryptInto(input, key, output);
    assert err == OK;
    assert output.Contents() == scratch[..n];
    SpliceFront(working[..], scratch[..n]);
    Memcpy(working, 0, output.data, 0, output.size);
  }

  lemma LayerIsCrypt(data: seq<bv8>, key: LayerKey)
    ensures Layer(data, key) == Crypt(data, InitialState(key))
  {
  }

  method KeyBuffer(hop: Node, circuitId: nat, index: nat) returns (buffer: array<bv8>)
    requires circuitId <= UINT32_MAX && index < 10
    ensures fresh(buffer) && buffer.Length == 44 && buffer[..] == KeyOfHop(hop, circuitId, index)
  {
    hide WriteLe32, NonceSeed;
    var seed := WriteLe32(NonceSeed(circuitId, index));
    buffer := new bv8[44](i requires 0 <= i => if i < 32 then hop.sessionKey[i] else 0);
    buffer[32], buffer[33], buffer[34], buffer[35] := seed[0], seed[1], seed[2], seed[3];
    forall i | 0 <= i < 44
      ensures buffer[i] == KeyOfHop(hop, circuitId, index)[i]
    {
      if i >= 36 {
        assert [0, 0, 0, 0, 0, 0, 0, 0][i - 36] == (0 as bv8);
      }
    }
    assert buffer[..] == KeyOfHop(hop, circuitId, index);
  }

  lemma {:induction false} SomeLive(slots: seq<Option<nat>>, i: nat)
    requires i < |slots| && slots[i].Some?
    ensures Live(slots) > 0
  {
    if i == 0 {
    } else {
      SomeLive(slots[1..], i - 1);
    }
  }
}
