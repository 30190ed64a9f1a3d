# Slot-mask vindex, modelled in Dafny

This project models Vitess's `slot_mask` vindex (`go/vt/vtgate/vindexes/slot_mask.go`).
A vindex maps a row's id to a *keyspace id*, the eight-byte key that decides which shard
stores the row. This one needs only configuration and can be reversed. It takes three
hexadecimal parameters:

- `shard_range_size`: the range size;
- `shard_slot_range`: the slot range;
- `shard_slot_mask`: the mask.

For a 64-bit id it computes

    slot        = id & mask
    keyspace id = id + rangeSize * (slot / slotRange)      (uint64, wrapping)

and writes the result out big-endian. The reverse mapping decodes the eight bytes. It
subtracts the same amount, computed from the keyspace id's own slot.

The files:

- `uint64.dfy` (`UInt64`): Go's `uint64` as integers in [0, 2^64). `+`, `-` and `*`
  wrap modulo 2^64, and `/` is unsigned division. `&` is defined bit by bit and proved
  bitwise. It also holds the facts about low bits that the round trip rests on.
- `big_endian.dfy` (`BigEndian`): `binary.BigEndian.PutUint64` / `Uint64` as `Encode` /
  `Decode` on eight bytes, with both round trips.
- `hex.dfy` (`HexParse`): `strconv.ParseUint(s, 16, 64)`, which reads the parameters.
  It follows the digit loop. The error is a syntax error or a range error, whichever
  the scan meets first, and it carries the input.
- `slot_mask.dfy` (`SlotMask`): the vindex itself. It holds:
  - the parameters and the constructor;
  - `Cost` / `IsUnique` / `NeedsVCursor`;
  - the per-id functions `IdToKeyspaceId` and `KeyspaceIdToId`;
  - the batch operations `Map`, `Verify` and `ReverseMap`.
- `slot_mask_proofs.dfy` (`SlotMaskProofs`): the properties that relate the two
  directions and the batch operations.

Go's `(value, error)` pairs are `Ret(val, err)`. A nil slice is the empty sequence.

Each function's preconditions are exactly the inputs for which the Go code does not
panic:

- The slot range must be non-zero once a division is actually reached. An absent
  `shard_slot_range` leaves it at 0, and the constructor does not object; see
  `AbsentSlotRangeIsUnusable`.
- `Verify` may index `ksids` only at positions whose id converted.

The source calls the vindex "Unique, Reversible". Unique, in the sense `IsUnique`
reports, means each id gets exactly one keyspace id, which always holds. Reversibility,
and the injectivity it needs, holds only for some configurations, and the constructor
checks none.

- `RoundTripIff` states exactly when an id survives the round trip: its keyspace id
  must be shifted by the same amount as the id itself.
- `ReversibleLayout(p, k)` is a sufficient condition: `mask < 2^k` and `rangeSize` a
  multiple of 2^k. Under it:
  - both round trips hold;
  - both directions are injective;
  - `Map`, `ReverseMap` and `Verify` agree with one another.
- `NotReversibleWithoutLayout` shows the claim failing without that condition. With
  range size 1, slot range 1 and mask 0xFF, ids 0x80 and 0x100 share keyspace id 0x100.

On a malformed key, `ReverseMap` returns the ids computed before that key together with
the length error.

## Model

| member | source | states |
|---|---|---|
| HexParse.ParseUint64 | go/vt/vtgate/vindexes/slot_mask.go:38 | a parameter parses exactly when it is a non-empty string of hex digits denoting at most 2^64-1, and then to that number; otherwise the error is a range error exactly when the digits before the first non-digit already exceed 2^64-1, and a syntax error in every other case |
| SlotMask.ReadParam | go/vt/vtgate/vindexes/slot_mask.go:37-43 | an absent parameter reads as 0; a present one reads as its parsed number, or fails with the bare parse error (which names the input text, not the parameter) |
| SlotMask.NewSlotMask | go/vt/vtgate/vindexes/slot_mask.go:34-62 | construction succeeds exactly when each of the three parameters is absent or parses; each field is then the parsed number, or 0 when absent; on failure there is no vindex, and the error is that of the first bad parameter in the order range size, slot range, mask |
| SlotMask.IdToKeyspaceId | go/vt/vtgate/vindexes/slot_mask.go:122-136 | the key always has 8 bytes; it succeeds exactly for ids that convert to uint64, and then the key decodes to (id + rangeSize*((id & mask)/slotRange)) mod 2^64; an id that does not convert gives the conversion error and eight zero bytes |
| SlotMask.KeyspaceIdToId | go/vt/vtgate/vindexes/slot_mask.go:138-148 | succeeds exactly on 8-byte keys, and then gives (val - rangeSize*((val & mask)/slotRange)) mod 2^64 for the decoded val, from which adding the same shift gives back val; any other length gives NULL and a length error carrying the length |
| SlotMask.Map | go/vt/vtgate/vindexes/slot_mask.go:85-93 | never fails; one destination per id, in order, each the key IdToKeyspaceId computes; an id that does not convert gets the all-zero key |
| SlotMask.Verify | go/vt/vtgate/vindexes/slot_mask.go:96-106 | succeeds exactly when every id converts, and then position i is true exactly when the key recomputed for ids[i] equals ksids[i]; otherwise no result, and the error of the first id that does not convert |
| SlotMask.ReverseMap | go/vt/vtgate/vindexes/slot_mask.go:109-120 | returns the reverse mapping of exactly the keys before the first one that is not 8 bytes long; it succeeds exactly when there is no such key, and otherwise returns that key's length error |
| BigEndian.DecodeEncode | go/vt/vtgate/vindexes/slot_mask.go:133 | reading back the eight bytes PutUint64 writes gives the number written |
| BigEndian.EncodeDecode | go/vt/vtgate/vindexes/slot_mask.go:143 | every eight-byte key is the encoding of the number Uint64 reads from it |
| BigEndian.EncodeInjective | go/vt/vtgate/vindexes/slot_mask.go:133 | different numbers are written as different keys |
| BigEndian.EncodeIsBigEndian | go/vt/vtgate/vindexes/slot_mask.go:133 | for every x, byte i of the eight written is base-256 digit 7 - i of x, so the most significant byte comes first |
| BigEndian.EncodeExample | go/vt/vtgate/vindexes/slot_mask.go:133 | a worked value: 0x0102030405060708 is written as the bytes 1, 2, ..., 8 |
| UInt64.SubAdd | go/vt/vtgate/vindexes/slot_mask.go:145 | in wrapping uint64 arithmetic, subtracting what was added gives back the original number |
| UInt64.AndIgnoresHighBits | go/vt/vtgate/vindexes/slot_mask.go:130 | a mask below 2^k sees only the low k bits of the id |
| UInt64.AndBitsIsBitwise | go/vt/vtgate/vindexes/slot_mask.go:130 | the modelled `&` sets exactly the bits set in both operands |
| SlotMaskProofs.RoundTripIff | go/vt/vtgate/vindexes/slot_mask.go:130-145 | an id comes back from its keyspace id exactly when the keyspace id's block is shifted by the same amount as the id's own block |
| SlotMaskProofs.BlockKeptByAdd | go/vt/vtgate/vindexes/slot_mask.go:130-131 | when the mask lies below 2^k and the range size is a multiple of 2^k, the keyspace id's slot block equals the id's |
| SlotMaskProofs.BlockKeptBySub | go/vt/vtgate/vindexes/slot_mask.go:144-145 | under the same layout, the reverse mapping keeps the slot block too |
| SlotMaskProofs.RoundTrip | go/vt/vtgate/vindexes/slot_mask.go:26-27 | under the layout, KeyspaceIdToId(IdToKeyspaceId(id)) returns id without error for every id that converts |
| SlotMaskProofs.ReverseRoundTrip | go/vt/vtgate/vindexes/slot_mask.go:138-148 | under the layout, IdToKeyspaceId(KeyspaceIdToId(k)) returns k without error for every 8-byte key |
| SlotMaskProofs.InjectiveUnderLayout | go/vt/vtgate/vindexes/slot_mask.go:26-27 | under the layout, two ids share a keyspace id exactly when they are equal, so distinct ids are routed by distinct keys as the reversibility claim needs |
| SlotMaskProofs.ReverseInjectiveUnderLayout | go/vt/vtgate/vindexes/slot_mask.go:143-147 | under the layout, two 8-byte keys reverse to the same id exactly when they are equal |
| SlotMaskProofs.NotReversibleWithoutLayout | go/vt/vtgate/vindexes/slot_mask.go:26-27 | without the layout, injectivity and reversibility fail: with range size 1, slot range 1 and mask 0xFF, ids 0x80 and 0x100 share a key, and that key reverses to 0x100 |
| SlotMaskProofs.BadIdRoutesLikeZero | go/vt/vtgate/vindexes/slot_mask.go:86-90 | because Map drops the conversion error, an id that does not convert is routed like id 0 |
| SlotMaskProofs.VerifyAcceptsMap | go/vt/vtgate/vindexes/slot_mask.go:96-106 | Verify accepts every key that Map produced for ids that convert |
| SlotMaskProofs.KeyMatchesIff | go/vt/vtgate/vindexes/slot_mask.go:103 | under the layout, a key equals an id's key exactly when the key has 8 bytes and reverses to that id |
| SlotMaskProofs.VerifyAgreesWithReverse | go/vt/vtgate/vindexes/slot_mask.go:96-106 | under the layout, Verify says yes at position i exactly when ksids[i] reverses to ids[i] |
| SlotMaskProofs.ReverseMapOfMap | go/vt/vtgate/vindexes/slot_mask.go:109-120 | under the layout, ReverseMap of the keys Map produced gives back the ids without error |
| SlotMaskProofs.MapOfReverseMap | go/vt/vtgate/vindexes/slot_mask.go:85-93 | under the layout, Map of the ids ReverseMap produced gives back the keys |
| SlotMaskProofs.AbsentSlotRangeIsUnusable | go/vt/vtgate/vindexes/slot_mask.go:45-51 | a vindex built without shard_slot_range has slot range 0, so mapping any id that converts would divide by zero |
| SlotMaskProofs.Capabilities | go/vt/vtgate/vindexes/slot_mask.go:69-82 | Cost is 1, IsUnique is true, NeedsVCursor is false |

## Left out

- `evalengine.ToUint64`: this foreign conversion is abstracted. `Value.Uint64(n)` is an
  SQL value it converts to `n`, `Unconvertible` is one it rejects, and `Null` is SQL NULL.
  The round trips and injectivity therefore hold up to that conversion: an INT64 or
  VARCHAR id comes back as a UINT64 value, because `KeyspaceIdToId` always builds one
  (line 147), and distinct SQL values that convert to the same number share a key.
- `strconv.ParseUint`: only base 16 and bit size 64 are modelled, which is how the vindex
  calls it. A `NumError` carries its kind and the input, but not the function name or
  the message.
- The text of the length error (`fmt.Errorf`): only the length is kept.
- `String`, the `VCursor` arguments (every method ignores them) and the interface
  assertions on lines 15-18: none of them compute anything.
- `init` / `Register`: a side effect on a process-global registry.
- Slice capacities (`make(…, 0, len(…))`): not observable.
- `go/vt/vtgate/plan_executor_ddl_test.go`: an integration test of the executor. It needs
  timing, global flags and tablet state, which are not part of this model.
- Go's panics (division by zero, an index past the end of `ksids`) are not modelled as
  outcomes. The preconditions exclude exactly the inputs that would panic.
