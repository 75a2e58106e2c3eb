/** The 64-byte `_reserved` area of the pool account (src/state.rs) and the plain record it
    stores. Multi-byte fields are little-endian. Bytes [13..16] and [60..64] are unowned. */
module PackedFields {
  import opened Numbers

  const STAKE_POOL_DISCRIMINATOR: seq<u8> := [0x53, 0x50, 0x4F, 0x4F, 0x4C, 0x5F, 0x56, 0x31]
  const CURRENT_VERSION: u8 := 4
  const AREA: nat := 64

  /** The record view of the area; `spare` holds the unowned bytes. */
  datatype Fields = Fields(
    discriminator: seq<u8>,
    version: u8,
    marketResolved: bool,
    hwmEnabled: bool,
    hwmFloorBps: u16,
    hwmMark: u64,
    hwmLastEpoch: u64,
    trancheEnabled: bool,
    juniorBalance: u64,
    juniorTotalLp: u64,
    juniorFeeMultBps: u16,
    realizedJuniorLoss: u64,
    assetAdminBurned: bool,
    spare: seq<u8>)

  // ------------------------------------------------------- little-endian codec

  function Pow256(n: nat): (r: nat)
    ensures r > 0
  {
    if n == 0 then 1 else 256 * Pow256(n - 1)
  }

  lemma Pow256Values()
    ensures Pow256(2) == 0x1_0000
    ensures Pow256(8) == TWO_64
  {
    assert Pow256(4) == 0x1_0000_0000;
    assert Pow256(6) == 0x1_0000_0000_0000;
  }

  function ToLeBytes(x: nat, n: nat): (s: seq<u8>)
    ensures |s| == n
  {
    if n == 0 then [] else [x % 256] + ToLeBytes(x / 256, n - 1)
  }

  function FromLeBytes(s: seq<u8>): (x: nat)
    ensures x < Pow256(|s|)
  {
    if s == [] then 0 else s[0] + 256 * FromLeBytes(s[1..])
  }

  lemma {:induction false} LeRoundTrip(x: nat, n: nat)
    requires x < Pow256(n)
    ensures FromLeBytes(ToLeBytes(x, n)) == x
    decreases n
  {
    if n > 0 {
      LeRoundTrip(x / 256, n - 1);
      assert ToLeBytes(x, n)[1..] == ToLeBytes(x / 256, n - 1);
    }
  }

  function ReadU64(s: seq<u8>): u64
    requires |s| == 8
  {
    Pow256Values();
    FromLeBytes(s)
  }

  function ReadU16(s: seq<u8>): u16
    requires |s| == 2
  {
    Pow256Values();
    FromLeBytes(s)
  }

  lemma CodecU64(x: u64)
    ensures ReadU64(ToLeBytes(x, 8)) == x
  {
    Pow256Values();
    LeRoundTrip(x, 8);
  }

  lemma CodecU16(x: u16)
    ensures ReadU16(ToLeBytes(x, 2)) == x
  {
    Pow256Values();
    LeRoundTrip(x, 2);
  }

  // ----------------------------------------------------- the area as a record

  /** All getters at once, each at its own offset and with its own truth test. */
  function Decode(s: seq<u8>): Fields
    requires |s| == AREA
  {
    Fields(
      s[0..8], s[8], s[9] != 0, s[10] == 1, ReadU16(s[11..13]),
      ReadU64(s[16..24]), ReadU64(s[24..32]), s[32] == 1,
      ReadU64(s[33..41]), ReadU64(s[41..49]), ReadU16(s[49..51]),
      ReadU64(s[51..59]), s[59] == 1, s[13..16] + s[60..64])
  }

  datatype Setter =
    | SetDiscriminator
    | SetMarketResolved(b: bool)
    | SetHwmEnabled(b: bool)
    | SetHwmFloorBps(bps: u16)
    | SetHwmMark(v: u64)
    | SetHwmLastEpoch(v: u64)
    | SetTrancheEnabled(b: bool)
    | SetJuniorBalance(v: u64)
    | SetJuniorTotalLp(v: u64)
    | SetJuniorFeeMultBps(bps: u16)
    | SetRealizedJuniorLoss(v: u64)
    | SetAssetAdminBurned(b: bool)

  function Flag(b: bool): u8 {
    if b then 1 else 0
  }

  /** Where a setter writes and what bytes it writes there. */
  function Target(op: Setter): (int, seq<u8>) {
    match op
    case SetDiscriminator => (0, STAKE_POOL_DISCRIMINATOR + [CURRENT_VERSION])
    case SetMarketResolved(b) => (9, [Flag(b)])
    case SetHwmEnabled(b) => (10, [Flag(b)])
    case SetHwmFloorBps(bps) => (11, ToLeBytes(bps, 2))
    case SetHwmMark(v) => (16, ToLeBytes(v, 8))
    case SetHwmLastEpoch(v) => (24, ToLeBytes(v, 8))
    case SetTrancheEnabled(b) => (32, [Flag(b)])
    case SetJuniorBalance(v) => (33, ToLeBytes(v, 8))
    case SetJuniorTotalLp(v) => (41, ToLeBytes(v, 8))
    case SetJuniorFeeMultBps(bps) => (49, ToLeBytes(bps, 2))
    case SetRealizedJuniorLoss(v) => (51, ToLeBytes(v, 8))
    case SetAssetAdminBurned(b) => (59, [Flag(b)])
  }

  function WriteAt(s: seq<u8>, at: nat, data: seq<u8>): (r: seq<u8>)
    requires at + |data| <= |s|
    ensures |r| == |s|
  {
    s[..at] + data + s[at + |data|..]
  }

  function Store(s: seq<u8>, op: Setter): (r: seq<u8>)
    requires |s| == AREA
    ensures |r| == AREA
  {
    var (at, data) := Target(op);
    WriteAt(s, at, data)
  }

  /** The plain record a setter is meant to be: one field changes, no other. */
  function Assign(f: Fields, op: Setter): Fields {
    match op
    case SetDiscriminator => f.(discriminator := STAKE_POOL_DISCRIMINATOR, version := CURRENT_VERSION)
    case SetMarketResolved(b) => f.(marketResolved := b)
    case SetHwmEnabled(b) => f.(hwmEnabled := b)
    case SetHwmFloorBps(bps) => f.(hwmFloorBps := bps)
    case SetHwmMark(v) => f.(hwmMark := v)
    case SetHwmLastEpoch(v) => f.(hwmLastEpoch := v)
    case SetTrancheEnabled(b) => f.(trancheEnabled := b)
    case SetJuniorBalance(v) => f.(juniorBalance := v)
    case SetJuniorTotalLp(v) => f.(juniorTotalLp := v)
    case SetJuniorFeeMultBps(bps) => f.(juniorFeeMultBps := bps)
    case SetRealizedJuniorLoss(v) => f.(realizedJuniorLoss := v)
    case SetAssetAdminBurned(b) => f.(assetAdminBurned := b)
  }

  lemma SliceOfWrite(s: seq<u8>, at: nat, data: seq<u8>)
    requires at + |data| <= |s|
    ensures WriteAt(s, at, data)[at..at + |data|] == data
    ensures forall i, j :: 0 <= i <= j <= |s| && (j <= at || at + |data| <= i)
                           ==> WriteAt(s, at, data)[i..j] == s[i..j]
  {
  }

  lemma StoreDiscriminator(s: seq<u8>)
    requires |s| == AREA
    ensures Decode(Store(s, SetDiscriminator)) == Assign(Decode(s), SetDiscriminator)
  {
    var data := STAKE_POOL_DISCRIMINATOR + [CURRENT_VERSION];
    SliceOfWrite(s, 0, data);
    assert WriteAt(s, 0, data)[0..8] == STAKE_POOL_DISCRIMINATOR;
  }

  lemma StoreU16(s: seq<u8>, op: Setter, v: u16)
    requires |s| == AREA
    requires op == SetHwmFloorBps(v) || op == SetJuniorFeeMultBps(v)
    ensures Decode(Store(s, op)) == Assign(Decode(s), op)
  {
    var (at, data) := Target(op);
    SliceOfWrite(s, at, data);
    CodecU16(v);
  }

  lemma StoreHwmU64(s: seq<u8>, op: Setter, v: u64)
    requires |s| == AREA
    requires op == SetHwmMark(v) || op == SetHwmLastEpoch(v)
    ensures Decode(Store(s, op)) == Assign(Decode(s), op)
  {
    var (at, data) := Target(op);
    SliceOfWrite(s, at, data);
    CodecU64(v);
  }

  lemma StoreJuniorU64(s: seq<u8>, op: Setter, v: u64)
    requires |s| == AREA
    requires op == SetJuniorBalance(v) || op == SetJuniorTotalLp(v) || op == SetRealizedJuniorLoss(v)
    ensures Decode(Store(s, op)) == Assign(Decode(s), op)
  {
    var (at, data) := Target(op);
    SliceOfWrite(s, at, data);
    CodecU64(v);
  }

  lemma StoreFlag(s: seq<u8>, op: Setter)
    requires |s| == AREA
    requires op.SetMarketResolved? || op.SetHwmEnabled? || op.SetTrancheEnabled? || op.SetAssetAdminBurned?
    ensures Decode(Store(s, op)) == Assign(Decode(s), op)
  {
    var (at, data) := Target(op);
    SliceOfWrite(s, at, data);
  }

  /** Every setter, on every 64-byte area: the written field reads back, every other field,
      the discriminator, the version and the unowned bytes are as before. */
  lemma StoreRefinesAssign(s: seq<u8>, op: Setter)
    requires |s| == AREA
    ensures Decode(Store(s, op)) == Assign(Decode(s), op)
  {
    match op
    case SetDiscriminator => StoreDiscriminator(s);
    case SetHwmFloorBps(bps) => StoreU16(s, op, bps);
    case SetJuniorFeeMultBps(bps) => StoreU16(s, op, bps);
    case SetHwmMark(v) => StoreHwmU64(s, op, v);
    case SetHwmLastEpoch(v) => StoreHwmU64(s, op, v);
    case SetJuniorBalance(v) => StoreJuniorU64(s, op, v);
    case SetJuniorTotalLp(v) => StoreJuniorU64(s, op, v);
    case SetRealizedJuniorLoss(v) => StoreJuniorU64(s, op, v);
    case _ => StoreFlag(s, op);
  }

  function StoreAll(s: seq<u8>, ops: seq<Setter>): (r: seq<u8>)
    requires |s| == AREA
    ensures |r| == AREA
    decreases |ops|
  {
    if ops == [] then s else StoreAll(Store(s, ops[0]), ops[1..])
  }

  function AssignAll(f: Fields, ops: seq<Setter>): Fields
    decreases |ops|
  {
    if ops == [] then f else AssignAll(Assign(f, ops[0]), ops[1..])
  }

  /** Any sequence of setter calls on the bytes is the same sequence on the plain record. */
  lemma {:induction false} PackedBytesRefineRecord(s: seq<u8>, ops: seq<Setter>)
    requires |s| == AREA
    ensures Decode(StoreAll(s, ops)) == AssignAll(Decode(s), ops)
    decreases |ops|
  {
    if ops != [] {
      StoreRefinesAssign(s, ops[0]);
      PackedBytesRefineRecord(Store(s, ops[0]), ops[1..]);
    }
  }

  // ------------------------------------------------------------ in-place object

  /** The area as the program holds it: bytes mutated in place, and beside them the two
      cooldown-timelock values, which since layout version 4 have fields of their own. */
  class PoolArea {
    const reserved: array<u8>
    var pendingCooldownSlots: u64
    var cooldownProposedAtSlot: u64

    ghost predicate Valid() {
      reserved.Length == AREA
    }

    function View(): Fields
      requires Valid()
      reads reserved
    {
      Decode(reserved[..])
    }

    /** A freshly created account: zeroed bytes, then the discriminator. */
    constructor ()
      ensures Valid() && fresh(reserved)
      ensures View().discriminator == STAKE_POOL_DISCRIMINATOR && View().version == CURRENT_VERSION
      ensures pendingCooldownSlots == 0 && cooldownProposedAtSlot == 0
    {
      reserved := new u8[AREA](_ => 0);
      pendingCooldownSlots, cooldownProposedAtSlot := 0, 0;
      new;
      Apply(SetDiscriminator);
    }

    /** `reserved[at..at+n].copy_from_slice(data)`. */
    method CopyFromSlice(at: nat, data: seq<u8>)
      requires at + |data| <= reserved.Length
      modifies reserved
      ensures reserved[..] == WriteAt(old(reserved[..]), at, data)
    {
      for k := 0 to |data|
        invariant forall i :: 0 <= i < reserved.Length ==>
                    reserved[i] == if at <= i < at + k then data[i - at] else old(reserved[i])
      {
        reserved[at + k] := data[k];
      }
    }

    /** Any of the setters: writes its bytes in place and nothing else in the area; the
        timelock fields are outside the frame. */
    method Apply(op: Setter)
      requires Valid()
      modifies reserved
      ensures View() == Assign(old(View()), op)
    {
      var (at, data) := Target(op);
      CopyFromSlice(at, data);
      StoreRefinesAssign(old(reserved[..]), op);
    }

    /** Resets the mark in a new epoch, else raises it to the current value. */
    method RefreshHwm(epoch: u64, tvl: u64) returns (mark: u64)
      requires Valid()
      modifies reserved
      ensures mark == View().hwmMark >= tvl
      ensures epoch != old(View()).hwmLastEpoch ==> mark == tvl
      ensures epoch == old(View()).hwmLastEpoch ==>
                mark >= old(View()).hwmMark && (mark == tvl || mark == old(View()).hwmMark)
      ensures View() == old(View()).(hwmMark := mark, hwmLastEpoch := epoch)
    {
      hide Decode;
      var before := View();
      if epoch != before.hwmLastEpoch {
        Apply(SetHwmMark(tvl));
        Apply(SetHwmLastEpoch(epoch));
      } else if tvl > before.hwmMark {
        Apply(SetHwmMark(tvl));
      }
      mark := View().hwmMark;
    }

    method SetCooldownProposal(pending: u64, proposedAt: u64)
      requires Valid()
      modifies this`pendingCooldownSlots, this`cooldownProposedAtSlot
      ensures pendingCooldownSlots == pending && cooldownProposedAtSlot == proposedAt
    {
      pendingCooldownSlots := pending;
      cooldownProposedAtSlot := proposedAt;
    }
  }
}
