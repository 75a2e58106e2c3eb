/** The pool record of the state machine, against the bytes the account keeps it in: ten of its
    fields live in the packed area, and working on the bytes is working on the record. */
module PoolLayout {
  import opened Numbers
  import opened PackedFields
  import opened Ledger
  import Instructions

  /** `p` with its packed fields as the area's record view gives them. */
  function Unpack(f: Fields, p: Pool): Pool {
    p.(marketResolved := f.marketResolved,
       hwmEnabled := f.hwmEnabled, hwmFloorBps := f.hwmFloorBps,
       hwmMark := f.hwmMark, hwmEpoch := f.hwmLastEpoch,
       trancheEnabled := f.trancheEnabled, juniorBalance := f.juniorBalance,
       juniorLp := f.juniorTotalLp, juniorMult := f.juniorFeeMultBps,
       realizedLoss := f.realizedJuniorLoss)
  }

  /** What else the area holds: identity, version, the admin-burned flag, the unowned bytes. */
  ghost predicate SameRest(f: Fields, g: Fields) {
    && f.discriminator == g.discriminator && f.version == g.version
    && f.assetAdminBurned == g.assetAdminBurned && f.spare == g.spare
  }

  /** The area holds the packed fields of `p`. */
  ghost predicate Holds(s: seq<u8>, p: Pool) {
    |s| == AREA && Unpack(Decode(s), p) == p
  }

  /** A setter as an update of the pool record. */
  function Update(p: Pool, op: Setter): Pool {
    match op
    case SetDiscriminator => p
    case SetMarketResolved(b) => p.(marketResolved := b)
    case SetHwmEnabled(b) => p.(hwmEnabled := b)
    case SetHwmFloorBps(bps) => p.(hwmFloorBps := bps)
    case SetHwmMark(v) => p.(hwmMark := v)
    case SetHwmLastEpoch(v) => p.(hwmEpoch := v)
    case SetTrancheEnabled(b) => p.(trancheEnabled := b)
    case SetJuniorBalance(v) => p.(juniorBalance := v)
    case SetJuniorTotalLp(v) => p.(juniorLp := v)
    case SetJuniorFeeMultBps(bps) => p.(juniorMult := bps)
    case SetRealizedJuniorLoss(v) => p.(realizedLoss := v)
    case SetAssetAdminBurned(_) => p
  }

  function UpdateAll(p: Pool, ops: seq<Setter>): Pool
    decreases |ops|
  {
    if ops == [] then p else UpdateAll(Update(p, ops[0]), ops[1..])
  }

  /** One setter on bytes that hold a pool: they hold the pool with that one field updated. */
  lemma StoreHoldsUpdate(s: seq<u8>, p: Pool, op: Setter)
    requires Holds(s, p)
    ensures Holds(Store(s, op), Update(p, op))
  {
    hide Decode;
    StoreRefinesAssign(s, op);
  }

  /** Any sequence of setter calls on bytes that hold a pool leaves them holding the pool with
      the same updates made to its record. */
  lemma {:induction false} BytesHoldUpdatedPool(s: seq<u8>, p: Pool, ops: seq<Setter>)
    requires Holds(s, p)
    ensures Holds(StoreAll(s, ops), UpdateAll(p, ops))
    decreases |ops|
  {
    hide Holds;
    if ops != [] {
      StoreHoldsUpdate(s, p, ops[0]);
      BytesHoldUpdatedPool(Store(s, ops[0]), Update(p, ops[0]), ops[1..]);
    }
  }

  /** The setter calls that save the flags and the mark of a pool, and its junior fields. */
  function MarkSaves(q: Pool): seq<Setter> {
    [SetMarketResolved(q.marketResolved), SetHwmEnabled(q.hwmEnabled), SetHwmFloorBps(q.hwmFloorBps),
     SetHwmMark(q.hwmMark), SetHwmLastEpoch(q.hwmEpoch)]
  }

  function JuniorSaves(q: Pool): seq<Setter> {
    [SetTrancheEnabled(q.trancheEnabled), SetJuniorBalance(q.juniorBalance), SetJuniorTotalLp(q.juniorLp),
     SetJuniorFeeMultBps(q.juniorMult), SetRealizedJuniorLoss(q.realizedLoss)]
  }

  lemma AssignFive(f: Fields, ops: seq<Setter>)
    requires |ops| == 5
    ensures AssignAll(f, ops) == Assign(Assign(Assign(Assign(Assign(f, ops[0]), ops[1]), ops[2]), ops[3]), ops[4])
  {
    hide Assign;
    var f1 := Assign(f, ops[0]);
    var f2 := Assign(f1, ops[1]);
    var f3 := Assign(f2, ops[2]);
    var f4 := Assign(f3, ops[3]);
    assert ops[1..][1..] == ops[2..] && ops[2..][1..] == ops[3..] && ops[3..][1..] == ops[4..];
    assert AssignAll(f, ops) == AssignAll(f1, ops[1..]) == AssignAll(f2, ops[2..]);
    assert AssignAll(f2, ops[2..]) == AssignAll(f3, ops[3..]) == AssignAll(f4, ops[4..]);
    assert ops[4..][1..] == [] && AssignAll(Assign(f4, ops[4]), []) == Assign(f4, ops[4]);
  }

  lemma MarkSaved(f: Fields, q: Pool)
    ensures AssignAll(f, MarkSaves(q))
            == f.(marketResolved := q.marketResolved, hwmEnabled := q.hwmEnabled, hwmFloorBps := q.hwmFloorBps,
                  hwmMark := q.hwmMark, hwmLastEpoch := q.hwmEpoch)
  {
    hide AssignAll;
    AssignFive(f, MarkSaves(q));
  }

  lemma JuniorSaved(f: Fields, q: Pool)
    ensures AssignAll(f, JuniorSaves(q))
            == f.(trancheEnabled := q.trancheEnabled, juniorBalance := q.juniorBalance, juniorTotalLp := q.juniorLp,
                  juniorFeeMultBps := q.juniorMult, realizedJuniorLoss := q.realizedLoss)
  {
    hide AssignAll;
    AssignFive(f, JuniorSaves(q));
  }

  /** Save and load: any pool written over any area reads back, whatever was there, and the rest
      of the area is untouched. */
  lemma SavedPoolReadsBack(s: seq<u8>, q: Pool)
    requires |s| == AREA
    ensures var s' := StoreAll(StoreAll(s, MarkSaves(q)), JuniorSaves(q));
            Holds(s', q) && SameRest(Decode(s), Decode(s'))
  {
    hide Decode;
    hide AssignAll;
    hide StoreAll;
    var s1 := StoreAll(s, MarkSaves(q));
    PackedBytesRefineRecord(s, MarkSaves(q));
    MarkSaved(Decode(s), q);
    PackedBytesRefineRecord(s1, JuniorSaves(q));
    JuniorSaved(Decode(s1), q);
  }

  /** The in-place refresh on the bytes is `Refresh` on the pool they hold. */
  method RefreshHeldPool(area: PoolArea, ghost p: Pool, epoch: u64, tvl: u64) returns (mark: u64)
    requires area.Valid() && Holds(area.reserved[..], p)
    modifies area.reserved
    ensures Holds(area.reserved[..], Instructions.Refresh(p, epoch, tvl))
    ensures mark == Instructions.Refresh(p, epoch, tvl).hwmMark
  {
    hide Decode;
    mark := area.RefreshHwm(epoch, tvl);
  }
}
