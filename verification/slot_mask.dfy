/**
 The `slot_mask` vindex: a configuration-only, reversible mapping from an
 unsigned 64-bit row id to an eight-byte keyspace id. The id's slot is
 `id & mask`; every `slotRange` consecutive slots form one block, and the id
 is moved up by `rangeSize` for each block below its slot:

   keyspace id = id + rangeSize * ((id & mask) / slotRange)    (mod 2^64)

 written out big-endian. The reverse mapping subtracts the same amount,
 computed from the keyspace id's own slot.
 */
module SlotMask {
  import opened UInt64
  import opened BigEndian
  import HexParse

  datatype Option<T> = None | Some(value: T)

  /**
   An SQL value as this vindex sees it: `Uint64(n)` stands for any value the
   engine's conversion to `uint64` accepts (with `n` the converted number),
   `Unconvertible` for any value it rejects, and `Null` for the SQL NULL that
   a failed reverse mapping returns.
   */
  datatype Value = Uint64(n: u64) | Null | Unconvertible

  datatype Error =
    | ParseError(err: HexParse.NumError)  // a parameter is not a 64-bit hex number; the key is not recorded
    | ConversionError(id: Value)          // an id does not convert to uint64
    | KeyLengthError(length: nat)         // a keyspace id is not 8 bytes long

  /** A Go result pair `(value, error)`; the value is returned even alongside an error. */
  datatype Ret<T> = Ret(val: T, err: Option<Error>) {
    predicate Ok() { err.None? }
  }

  /** A routing destination naming exactly one keyspace id. */
  datatype Destination = DestinationKeyspaceId(ksid: seq<byte>)

  datatype ShardParams = ShardParams(rangeSize: u64, slotRange: u64, mask: u64)

  datatype SlotMask = SlotMask(name: string, params: ShardParams) {

    /** Relative cost of computing this vindex. */
    function Cost(): int { 1 }

    /**
     Whether each id maps to at most one keyspace id (rather than to a set of
     candidates). It does not claim that distinct ids get distinct keys.
     */
    predicate IsUnique() { true }

    /** Whether the mapping needs a live cursor; the model's operations take none. */
    predicate NeedsVCursor() { false }
  }

  const RangeSizeKey := "shard_range_size"
  const SlotRangeKey := "shard_slot_range"
  const SlotMaskKey := "shard_slot_mask"

  /** The eight zero bytes a failed conversion leaves in the key buffer. */
  const ZeroKey: seq<byte> := [0, 0, 0, 0, 0, 0, 0, 0]

  // ----- Construction -----

  /** Parameter `key` is absent or holds a 64-bit hexadecimal number. */
  predicate Readable(m: map<string, string>, key: string)
  {
    key !in m || HexParse.ParseUint64(m[key]).Parsed?
  }

  /** `x` is what parameter `key` configures: its number when present, 0 when absent. */
  predicate Configured(m: map<string, string>, key: string, x: u64)
  {
    if key in m then
      var p := HexParse.ParseUint64(m[key]);
      p.Parsed? && x == p.value
    else x == 0
  }

  /**
   The parameter `key` of `m` as an unsigned 64-bit number: 0 when absent,
   an error when present but not hexadecimal or too large.
   */
  function ReadParam(m: map<string, string>, key: string): (r: Ret<u64>)
    ensures r.Ok() <==> Readable(m, key)
    ensures r.Ok() ==> Configured(m, key, r.val)
    ensures !r.Ok() ==> key in m && r.err == Some(ParseError(HexParse.ParseUint64(m[key]).err))
  {
    if key !in m then Ret(0, None)
    else match HexParse.ParseUint64(m[key])
      case Parsed(v) => Ret(v, None)
      case Failed(e) => Ret(0, Some(ParseError(e)))
  }

  /**
   Builds a slot-mask vindex from its parameters, read in the order range
   size, slot range, mask; the first malformed one aborts construction. No
   relation between the three numbers is checked, not even that the slot
   range is non-zero.
   */
  function NewSlotMask(name: string, m: map<string, string>): (r: Ret<Option<SlotMask>>)
    ensures r.Ok() <==> Readable(m, RangeSizeKey) && Readable(m, SlotRangeKey) && Readable(m, SlotMaskKey)
    ensures r.Ok() ==>
              r.val.Some? && r.val.value.name == name &&
              Configured(m, RangeSizeKey, r.val.value.params.rangeSize) &&
              Configured(m, SlotRangeKey, r.val.value.params.slotRange) &&
              Configured(m, SlotMaskKey, r.val.value.params.mask)
    ensures !r.Ok() ==> r.val.None?
    ensures !Readable(m, RangeSizeKey) ==>
              r.err == Some(ParseError(HexParse.ParseUint64(m[RangeSizeKey]).err))
    ensures Readable(m, RangeSizeKey) && !Readable(m, SlotRangeKey) ==>
              r.err == Some(ParseError(HexParse.ParseUint64(m[SlotRangeKey]).err))
    ensures Readable(m, RangeSizeKey) && Readable(m, SlotRangeKey) && !Readable(m, SlotMaskKey) ==>
              r.err == Some(ParseError(HexParse.ParseUint64(m[SlotMaskKey]).err))
  {
    var rangeSize := ReadParam(m, RangeSizeKey);
    if !rangeSize.Ok() then Ret(None, rangeSize.err)
    else
      var slotRange := ReadParam(m, SlotRangeKey);
      if !slotRange.Ok() then Ret(None, slotRange.err)
      else
        var mask := ReadParam(m, SlotMaskKey);
        if !mask.Ok() then Ret(None, mask.err)
        else Ret(Some(SlotMask(name, ShardParams(rangeSize.val, slotRange.val, mask.val))), None)
  }

  // ----- One id, one keyspace id -----

  /** The mapping functions divide by the slot range: Go panics when it is zero. */
  predicate Usable(p: ShardParams)
  {
    p.slotRange != 0
  }

  /** The block that `x`'s slot falls in. */
  function Block(p: ShardParams, x: u64): u64
    requires Usable(p)
  {
    Div(And(x, p.mask), p.slotRange)
  }

  /** How far a number whose slot lies in `x`'s block is moved: `rangeSize` per block, wrapped. */
  function Shift(p: ShardParams, x: u64): u64
    requires Usable(p)
  {
    Mul(p.rangeSize, Block(p, x))
  }

  /**
   The eight-byte keyspace id for one row id. An id that does not convert
   yields the error together with eight zero bytes; the division (and so the
   panic on a zero slot range) is reached only for an id that converts.
   */
  function IdToKeyspaceId(v: SlotMask, id: Value): (r: Ret<seq<byte>>)
    requires id.Uint64? ==> Usable(v.params)
    ensures |r.val| == 8
    ensures r.Ok() <==> id.Uint64?
    ensures id.Uint64? ==>
              Decode(r.val) == (id.n + v.params.rangeSize * Block(v.params, id.n)) % Modulus
    ensures !id.Uint64? ==> r == Ret(ZeroKey, Some(ConversionError(id)))
  {
    match id
    case Uint64(num) =>
      var ksId := Add(num, Shift(v.params, num));
      AddMul(num, v.params.rangeSize, Block(v.params, num));
      DecodeEncode(ksId);
      Ret(Encode(ksId), None)
    case _ => Ret(ZeroKey, Some(ConversionError(id)))
  }

  /**
   The row id a keyspace id came from, or NULL with a length error for a key
   that is not eight bytes long.
   */
  function KeyspaceIdToId(v: SlotMask, ksid: seq<byte>): (r: Ret<Value>)
    requires |ksid| == 8 ==> Usable(v.params)
    ensures r.Ok() <==> |ksid| == 8
    ensures |ksid| != 8 ==> r == Ret(Null, Some(KeyLengthError(|ksid|)))
    ensures |ksid| == 8 ==>
              r.val.Uint64? &&
              r.val.n == (Decode(ksid) - v.params.rangeSize * Block(v.params, Decode(ksid))) % Modulus
    ensures |ksid| == 8 ==> Add(r.val.n, Shift(v.params, Decode(ksid))) == Decode(ksid)
  {
    if |ksid| != 8 then Ret(Null, Some(KeyLengthError(|ksid|)))
    else
      var val := Decode(ksid);
      SubMul(val, v.params.rangeSize, Block(v.params, val));
      AddSub(val, Shift(v.params, val));
      Ret(Uint64(Sub(val, Shift(v.params, val))), None)
  }

  // ----- Batches -----

  /** Number of ids before the first one that does not convert. */
  function ConvertiblePrefix(ids: seq<Value>): (n: nat)
    ensures n <= |ids|
    ensures forall i :: 0 <= i < n ==> ids[i].Uint64?
    ensures n < |ids| ==> !ids[n].Uint64?
  {
    if ids == [] || !ids[0].Uint64? then 0 else 1 + ConvertiblePrefix(ids[1..])
  }

  /** Number of keyspace ids before the first one that is not eight bytes long. */
  function WellFormedPrefix(ksids: seq<seq<byte>>): (n: nat)
    ensures n <= |ksids|
    ensures forall i :: 0 <= i < n ==> |ksids[i]| == 8
    ensures n < |ksids| ==> |ksids[n]| != 8
  {
    if ksids == [] || |ksids[0]| != 8 then 0 else 1 + WellFormedPrefix(ksids[1..])
  }

  /**
   `Map`: one destination per id, in order. A conversion error is dropped,
   so an id that does not convert is sent to the all-zero keyspace id.
   */
  function Map(v: SlotMask, ids: seq<Value>): (r: Ret<seq<Destination>>)
    requires Usable(v.params) || forall i :: 0 <= i < |ids| ==> !ids[i].Uint64?
    ensures r.Ok()
    ensures |r.val| == |ids|
    ensures forall i :: 0 <= i < |ids| ==>
              r.val[i] == DestinationKeyspaceId(IdToKeyspaceId(v, ids[i]).val)
    ensures forall i :: 0 <= i < |ids| && !ids[i].Uint64? ==> r.val[i].ksid == ZeroKey
  {
    if ids == [] then Ret([], None)
    else
      var ksId := IdToKeyspaceId(v, ids[0]).val;
      var rest := Map(v, ids[1..]);
      Ret([DestinationKeyspaceId(ksId)] + rest.val, None)
  }

  /**
   `Verify`: whether each id maps to the keyspace id at the same position.
   The first id that does not convert fails the whole call with no result.
   Go reads `ksids[i]` only after `ids[i]` has converted, and divides only
   for an id that converts, hence the two preconditions.
   */
  function Verify(v: SlotMask, ids: seq<Value>, ksids: seq<seq<byte>>): (r: Ret<seq<bool>>)
    requires ConvertiblePrefix(ids) <= |ksids|
    requires Usable(v.params) || ConvertiblePrefix(ids) == 0
    ensures r.Ok() <==> ConvertiblePrefix(ids) == |ids|
    ensures r.Ok() ==> |r.val| == |ids|
    ensures r.Ok() ==> forall i :: 0 <= i < |ids| ==>
              (r.val[i] <==> IdToKeyspaceId(v, ids[i]).val == ksids[i])
    ensures !r.Ok() ==> r.val == [] && r.err == Some(ConversionError(ids[ConvertiblePrefix(ids)]))
  {
    if ids == [] then Ret([], None)
    else
      var ksId := IdToKeyspaceId(v, ids[0]);
      if !ksId.Ok() then Ret([], ksId.err)
      else
        var rest := Verify(v, ids[1..], ksids[1..]);
        if !rest.Ok() then rest
        else Ret([ksId.val == ksids[0]] + rest.val, None)
  }

  /**
   `ReverseMap`: the id for each keyspace id, in order. At the first key that
   is not eight bytes long it stops, returning the ids computed so far with
   the length error.
   */
  function ReverseMap(v: SlotMask, ksids: seq<seq<byte>>): (r: Ret<seq<Value>>)
    requires Usable(v.params) || WellFormedPrefix(ksids) == 0
    ensures r.Ok() <==> WellFormedPrefix(ksids) == |ksids|
    ensures |r.val| == WellFormedPrefix(ksids)
    ensures forall i :: 0 <= i < |r.val| ==> r.val[i] == KeyspaceIdToId(v, ksids[i]).val
    ensures !r.Ok() ==> r.err == Some(KeyLengthError(|ksids[|r.val|]|))
  {
    if ksids == [] then Ret([], None)
    else
      var id := KeyspaceIdToId(v, ksids[0]);
      if !id.Ok() then Ret([], id.err)
      else
        var rest := ReverseMap(v, ksids[1..]);
        Ret([id.val] + rest.val, rest.err)
  }
}
