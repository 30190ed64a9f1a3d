/**
 What the slot-mask vindex promises about its two directions: when the
 reverse mapping recovers the id, the configuration under which it always
 does, what goes wrong without it, and how the batch operations compose.
 */
module SlotMaskProofs {
  import opened UInt64
  import opened BigEndian
  import opened SlotMask

  /** The number an id's keyspace id encodes. */
  function Forward(p: ShardParams, x: u64): u64
    requires Usable(p)
  {
    Add(x, Shift(p, x))
  }

  /**
   A configuration under which the mapping is reversible: the mask keeps
   only the low `k` bits and the range size is a multiple of 2^k, so moving
   a number by whole range sizes never changes its slot. The constructor
   does not check this.
   */
  predicate ReversibleLayout(p: ShardParams, k: nat)
  {
    Usable(p) && k <= 64 && p.mask < Pow2(k) && p.rangeSize % Pow2(k) == 0
  }

  /** The keys of a list of destinations. */
  function Keys(ds: seq<Destination>): (ks: seq<seq<byte>>)
    ensures |ks| == |ds|
    ensures forall i :: 0 <= i < |ds| ==> ks[i] == ds[i].ksid
  {
    seq(|ds|, i requires 0 <= i < |ds| => ds[i].ksid)
  }

  // ----- One id -----

  /** The encoded number is exactly what `IdToKeyspaceId` wrote out. */
  lemma KeyOfId(v: SlotMask, x: u64)
    requires Usable(v.params)
    ensures IdToKeyspaceId(v, Uint64(x)) == Ret(Encode(Forward(v.params, x)), None)
    ensures Decode(IdToKeyspaceId(v, Uint64(x)).val) == Forward(v.params, x)
  {
    DecodeEncode(Forward(v.params, x));
  }

  /**
   The reverse mapping recovers an id exactly when the keyspace id's block
   is shifted by the same amount as the id's own block was.
   */
  lemma RoundTripIff(v: SlotMask, x: u64)
    requires Usable(v.params)
    ensures KeyspaceIdToId(v, IdToKeyspaceId(v, Uint64(x)).val) == Ret(Uint64(x), None)
            <==> Shift(v.params, Forward(v.params, x)) == Shift(v.params, x)
  {
    var p := v.params;
    var f := Forward(p, x);
    KeyOfId(v, x);
    var back := KeyspaceIdToId(v, IdToKeyspaceId(v, Uint64(x)).val);
    assert back.val == Uint64(Sub(f, Shift(p, f)));
    if Shift(p, f) == Shift(p, x) {
      SubAdd(x, Shift(p, x));
    }
    if back == Ret(Uint64(x), None) {
      AddSub(f, Shift(p, f));
      assert Add(x, Shift(p, f)) == Add(x, Shift(p, x));
      AddCancel(x, Shift(p, f), Shift(p, x));
    }
  }

  /** Adding the same number on the left can be cancelled, wrap-around included. */
  lemma AddCancel(x: u64, a: u64, b: u64)
    requires Add(x, a) == Add(x, b)
    ensures a == b
  {
    SubAdd(a, x);
    SubAdd(b, x);
    assert Add(a, x) == Add(x, a);
    assert Add(b, x) == Add(x, b);
  }

  /** Under the layout, moving a number by a multiple of 2^k keeps its block. */
  lemma BlockKeptByAdd(p: ShardParams, x: u64, t: u64, k: nat)
    requires ReversibleLayout(p, k)
    requires t % Pow2(k) == 0
    ensures Block(p, Add(x, t)) == Block(p, x)
  {
    AddKeepsLowBits(x, t, k);
    AndIgnoresHighBits(Add(x, t), p.mask, k);
    AndIgnoresHighBits(x, p.mask, k);
  }

  /** The same for moving down. */
  lemma BlockKeptBySub(p: ShardParams, x: u64, t: u64, k: nat)
    requires ReversibleLayout(p, k)
    requires t % Pow2(k) == 0
    ensures Block(p, Sub(x, t)) == Block(p, x)
  {
    SubKeepsLowBits(x, t, k);
    AndIgnoresHighBits(Sub(x, t), p.mask, k);
    AndIgnoresHighBits(x, p.mask, k);
  }

  /** Under the layout every shift is a multiple of 2^k. */
  lemma ShiftIsMultiple(p: ShardParams, x: u64, k: nat)
    requires ReversibleLayout(p, k)
    ensures Shift(p, x) % Pow2(k) == 0
  {
    MulKeepsMultiple(p.rangeSize, Block(p, x), k);
  }

  /** Under the layout the reverse mapping undoes the forward mapping. */
  lemma RoundTrip(v: SlotMask, id: Value, k: nat)
    requires ReversibleLayout(v.params, k)
    requires id.Uint64?
    ensures KeyspaceIdToId(v, IdToKeyspaceId(v, id).val) == Ret(id, None)
  {
    var p := v.params;
    ShiftIsMultiple(p, id.n, k);
    BlockKeptByAdd(p, id.n, Shift(p, id.n), k);
    RoundTripIff(v, id.n);
  }

  /** Under the layout the forward mapping undoes the reverse mapping on every eight-byte key. */
  lemma ReverseRoundTrip(v: SlotMask, ksid: seq<byte>, k: nat)
    requires ReversibleLayout(v.params, k)
    requires |ksid| == 8
    ensures IdToKeyspaceId(v, KeyspaceIdToId(v, ksid).val) == Ret(ksid, None)
  {
    var p := v.params;
    var n := Decode(ksid);
    var y := Sub(n, Shift(p, n));
    assert KeyspaceIdToId(v, ksid).val == Uint64(y);
    ShiftIsMultiple(p, n, k);
    BlockKeptBySub(p, n, Shift(p, n), k);
    AddSub(n, Shift(p, n));
    assert Forward(p, y) == n;
    KeyOfId(v, y);
    EncodeDecode(ksid);
  }

  /**
   Under the layout the mapping is injective: two ids share a keyspace id
   only when they are the same id. Each id always gets exactly one keyspace
   id, which is what `IsUnique` reports; injectivity is the further promise
   behind calling the vindex reversible.
   */
  lemma InjectiveUnderLayout(v: SlotMask, a: Value, b: Value, k: nat)
    requires ReversibleLayout(v.params, k)
    requires a.Uint64? && b.Uint64?
    ensures v.IsUnique()
    ensures IdToKeyspaceId(v, a).val == IdToKeyspaceId(v, b).val <==> a == b
  {
    RoundTrip(v, a, k);
    RoundTrip(v, b, k);
  }

  /** Under the layout the reverse mapping is injective: distinct eight-byte keys reverse to distinct ids. */
  lemma ReverseInjectiveUnderLayout(v: SlotMask, s: seq<byte>, t: seq<byte>, k: nat)
    requires ReversibleLayout(v.params, k)
    requires |s| == 8 && |t| == 8
    ensures KeyspaceIdToId(v, s).val == KeyspaceIdToId(v, t).val <==> s == t
  {
    ReverseRoundTrip(v, s, k);
    ReverseRoundTrip(v, t, k);
  }

  /** A configuration whose mask reaches above the range size's low zero bits. */
  const Overlapping := SlotMask("overlapping", ShardParams(1, 1, 0xFF))

  /**
   Without the layout the mapping is neither unique nor reversible: with
   range size 1, slot range 1 and mask 0xFF, ids 0x80 and 0x100 both map to
   keyspace id 0x100, which reverses to 0x100.
   */
  lemma NotReversibleWithoutLayout()
    ensures IdToKeyspaceId(Overlapping, Uint64(0x80)).val == IdToKeyspaceId(Overlapping, Uint64(0x100)).val
    ensures KeyspaceIdToId(Overlapping, IdToKeyspaceId(Overlapping, Uint64(0x80)).val) == Ret(Uint64(0x100), None)
  {
    var p := Overlapping.params;
    OverlappingShifts();
    KeyOfId(Overlapping, 0x80);
    KeyOfId(Overlapping, 0x100);
    var key := IdToKeyspaceId(Overlapping, Uint64(0x80)).val;
    assert Decode(key) == 0x100;
    assert KeyspaceIdToId(Overlapping, key).val == Uint64(Sub(0x100, Shift(p, 0x100)));
  }

  /** The arithmetic behind `NotReversibleWithoutLayout`. */
  lemma OverlappingShifts()
    ensures Forward(Overlapping.params, 0x80) == 0x100
    ensures Forward(Overlapping.params, 0x100) == 0x100
    ensures Shift(Overlapping.params, 0x100) == 0
  {
    var p := Overlapping.params;
    OverlappingSlots();
    assert Block(p, 0x80) == 0x80;
    assert Shift(p, 0x80) == 0x80;
    assert Add(0x80, 0x80) == 0x100;
    assert Block(p, 0x100) == 0;
    assert Shift(p, 0x100) == 0;
    assert Add(0x100, 0) == 0x100;
  }

  /** The slots of 0x80 and 0x100 under mask 0xFF. */
  lemma OverlappingSlots()
    ensures And(0x80, 0xFF) == 0x80
    ensures And(0x100, 0xFF) == 0
  {
    assert AndBits(0x01, 0x01) == 1;
    assert AndBits(0x02, 0x03) == 2;
    assert AndBits(0x04, 0x07) == 4;
    assert AndBits(0x08, 0x0F) == 8;
    assert AndBits(0x10, 0x1F) == 0x10;
    assert AndBits(0x20, 0x3F) == 0x20;
    assert AndBits(0x40, 0x7F) == 0x40;
    assert AndBits(0x80, 0xFF) == 0x80;
    assert AndBits(0x01, 0x00) == 0;
    assert AndBits(0x02, 0x01) == 0;
    assert AndBits(0x04, 0x03) == 0;
    assert AndBits(0x08, 0x07) == 0;
    assert AndBits(0x10, 0x0F) == 0;
    assert AndBits(0x20, 0x1F) == 0;
    assert AndBits(0x40, 0x3F) == 0;
    assert AndBits(0x80, 0x7F) == 0;
  }

  /** An id that does not convert is routed like id 0, whose keyspace id is all zeros. */
  lemma BadIdRoutesLikeZero(v: SlotMask, id: Value)
    requires Usable(v.params)
    requires !id.Uint64?
    ensures Map(v, [id]).val == Map(v, [Uint64(0)]).val
  {
    assert Forward(v.params, 0) == 0;
    KeyOfId(v, 0);
    assert Bytes(0, 8) == ZeroKey;
  }

  // ----- Batches -----

  /** `Verify` accepts, position by position, the keys `Map` produced. */
  lemma VerifyAcceptsMap(v: SlotMask, ids: seq<Value>)
    requires Usable(v.params)
    requires forall i :: 0 <= i < |ids| ==> ids[i].Uint64?
    ensures Verify(v, ids, Keys(Map(v, ids).val)) == Ret(seq(|ids|, _ => true), None)
  {
    var r := Verify(v, ids, Keys(Map(v, ids).val));
    assert r.val == seq(|ids|, _ => true);
  }

  /**
   Under the layout a key matches an id exactly when it is eight bytes long
   and reverses to that id.
   */
  lemma KeyMatchesIff(v: SlotMask, id: Value, ksid: seq<byte>, k: nat)
    requires ReversibleLayout(v.params, k)
    requires id.Uint64?
    ensures IdToKeyspaceId(v, id).val == ksid <==> |ksid| == 8 && KeyspaceIdToId(v, ksid).val == id
  {
    RoundTrip(v, id, k);
    if |ksid| == 8 {
      ReverseRoundTrip(v, ksid, k);
    }
  }

  /**
   Under the layout `Verify` says yes at position `i` exactly when
   `ReverseMap` would give back `ids[i]` for `ksids[i]`.
   */
  lemma VerifyAgreesWithReverse(v: SlotMask, ids: seq<Value>, ksids: seq<seq<byte>>, k: nat)
    requires ReversibleLayout(v.params, k)
    requires forall i :: 0 <= i < |ids| ==> ids[i].Uint64?
    requires |ksids| >= |ids|
    ensures Verify(v, ids, ksids).Ok()
    ensures forall i :: 0 <= i < |ids| ==>
              (Verify(v, ids, ksids).val[i] <==> |ksids[i]| == 8 && KeyspaceIdToId(v, ksids[i]).val == ids[i])
  {
    forall i | 0 <= i < |ids|
      ensures IdToKeyspaceId(v, ids[i]).val == ksids[i] <==>
              |ksids[i]| == 8 && KeyspaceIdToId(v, ksids[i]).val == ids[i]
    {
      KeyMatchesIff(v, ids[i], ksids[i], k);
    }
  }

  /** Under the layout `ReverseMap` undoes `Map` on ids that all convert. */
  lemma ReverseMapOfMap(v: SlotMask, ids: seq<Value>, k: nat)
    requires ReversibleLayout(v.params, k)
    requires forall i :: 0 <= i < |ids| ==> ids[i].Uint64?
    ensures ReverseMap(v, Keys(Map(v, ids).val)) == Ret(ids, None)
  {
    var ks := Keys(Map(v, ids).val);
    forall i | 0 <= i < |ids|
      ensures KeyspaceIdToId(v, ks[i]) == Ret(ids[i], None)
    {
      RoundTrip(v, ids[i], k);
    }
    assert WellFormedPrefix(ks) == |ks|;
    assert ReverseMap(v, ks).val == ids;
  }

  /** Under the layout `Map` undoes `ReverseMap` on keys that are all eight bytes long. */
  lemma MapOfReverseMap(v: SlotMask, ksids: seq<seq<byte>>, k: nat)
    requires ReversibleLayout(v.params, k)
    requires forall i :: 0 <= i < |ksids| ==> |ksids[i]| == 8
    ensures ReverseMap(v, ksids).Ok()
    ensures Keys(Map(v, ReverseMap(v, ksids).val).val) == ksids
  {
    assert WellFormedPrefix(ksids) == |ksids|;
    var ids := ReverseMap(v, ksids).val;
    forall i | 0 <= i < |ksids|
      ensures IdToKeyspaceId(v, ids[i]).val == ksids[i]
    {
      ReverseRoundTrip(v, ksids[i], k);
    }
  }

  // ----- Construction -----

  /**
   A vindex built without `shard_slot_range` has slot range 0, so every
   mapping of an id that converts would divide by zero.
   */
  lemma AbsentSlotRangeIsUnusable(name: string, m: map<string, string>)
    requires SlotRangeKey !in m
    requires NewSlotMask(name, m).Ok()
    ensures !Usable(NewSlotMask(name, m).val.value.params)
  {
  }

  /** The vindex's fixed capabilities. */
  lemma Capabilities(v: SlotMask)
    ensures v.Cost() == 1 && v.IsUnique() && !v.NeedsVCursor()
  {
  }
}
