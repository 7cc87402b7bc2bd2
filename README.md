# AgIsoStack wrapper: object-pool version hash and mock CAN driver

This project models the two self-contained pieces of logic in the Rust
wrapper around the AgIsoStack ISOBUS / SAE J1939 stack. Most of the rest of
that crate forwards into a foreign binding; what does not is listed under
"Left out".

- **Object-pool version hash** (`hash_object_pool_to_version`). A 64-bit
  seed starts at the pool's length. Each byte is zero-extended and passed
  through an integer mixer: xor-shift by 16, multiply by `0x45d9f3b`, twice,
  then a final xor-shift. The mixed byte is combined into the seed in the
  boost `hash_combine` style: `seed ^= x + 0x9e3779b9 + (seed << 6) + (seed >> 2)`.
  The final seed is rendered with `format!("{:X}")`.
  - `Bits` models `usize` as a 64-bit word, written as a natural number below
    2^64. It defines Rust's `^` (proved bitwise), `>>`, the bit-discarding
    `<<` and wrapping `+`.
  - `UpperHex` models the `{:X}` rendering. It proves that the rendering is
    canonical, that it reads back to the number, and that it is a bijection
    onto canonical strings.
  - `IopFileInterface` holds the mixer, the combine step and the left fold
    that specifies the hash. The method `HashObjectPoolToVersion` keeps the
    source's loop and its three reassignments of `x`. It is proved equal to
    the fold, and its multiplications are proved never to leave 64 bits.
- **Mock CAN driver** (`MockCanDriver`). A hardware plugin that only
  remembers whether it is open. The class `Mock.MockCanDriver` has the one
  mutable flag. A transition function over driver calls states what the flag
  is after any sequence of calls.

## Model

| member | source | states |
|---|---|---|
| `Bits.XorBit` | src/utility/iop_file_interface.rs:18-21 | `Xor` is Rust's `^`: bit i of the result is set exactly when the operands differ in bit i |
| `Bits.XorBelow` | src/utility/iop_file_interface.rs:18-21 | xor of two values below 2^k is below 2^k, so `^` on `usize` stays in the word and the mixer's bounds survive each xor-shift |
| `Bits.XorCancels` | src/utility/iop_file_interface.rs:21 | `(a ^ b) ^ b == a`: xor with a fixed operand undoes itself. |
| `Bits.XorCommutes` | src/utility/iop_file_interface.rs:18-21 | `a ^ b == b ^ a`, so `(x >> 16) ^ x` may be read either way round |
| `Bits.XorHigh` | src/utility/iop_file_interface.rs:18-20 | xor with a value below 2^k leaves every bit from k upwards unchanged |
| `Bits.XorBand` | src/utility/iop_file_interface.rs:18-21 | xor with a value below 2^k moves the other operand by less than 2^k either way |
| `Bits.XorWord` | src/utility/iop_file_interface.rs:18-21 | `a ^ b` on two `usize` values is a `usize`, and xoring `b` into it again gives `a` back |
| `Bits.Shr` | src/utility/iop_file_interface.rs:18-21 | `>>` on `usize` never yields more than its operand, so it stays in the word |
| `Bits.ShrIsDivision` | src/utility/iop_file_interface.rs:18-21 | `a >> k` is `a / 2^k` rounded down |
| `Bits.ShrBelow` | src/utility/iop_file_interface.rs:18-21 | a value below 2^(n+k) shifted right by k is below 2^n |
| `Bits.WrappingShl` | src/utility/iop_file_interface.rs:21 | `seed << 6` on `usize` keeps the low 58 bits of the seed, moved up by 6; the top 6 bits are dropped without a panic (stated for every shift below 64) |
| `Bits.WrappingAdd` | src/utility/iop_file_interface.rs:21 | a wrapping `+` on `usize` gives the exact sum when it fits and the sum less 2^64 otherwise, and its result is smaller than the left operand exactly when the addition carried out of bit 63 |
| `Bits.ShrOfSmall` | src/utility/iop_file_interface.rs:18 | a value below 2^k shifted right by k is 0, so `x >> 16` of a byte is 0 |
| `Bits.WrappingAddChain` | src/utility/iop_file_interface.rs:21 | three chained wrapping additions, the first of which cannot overflow, equal the whole sum taken mod 2^64 |
| `Bits.ModAddLeft` | src/utility/iop_file_interface.rs:21 | reducing a summand mod 2^64 first does not change the sum mod 2^64, which is why chained wrapping additions equal one wrap |
| `IopFileInterface.XorShift16OfByte` | src/utility/iop_file_interface.rs:17-18 | for a zero-extended byte, `(x >> 16) ^ x == x` |
| `IopFileInterface.XorShift16KeepsTop` | src/utility/iop_file_interface.rs:18-20 | `(x >> 16) ^ x` leaves the top 16 bits of a 64-bit word unchanged |
| `IopFileInterface.XorShift16Near` | src/utility/iop_file_interface.rs:18-20 | when `x >> 16` is below 2^k, `(x >> 16) ^ x` differs from `x` by less than 2^k |
| `IopFileInterface.XorShift16Below` | src/utility/iop_file_interface.rs:18-20 | `(x >> 16) ^ x` is below 2^k whenever x is |
| `IopFileInterface.MixProductsFit` | src/utility/iop_file_interface.rs:17-19 | the first product is below 2^35 and the second below 2^62, so neither multiplication overflows a 64-bit `usize` |
| `IopFileInterface.Mix` | src/utility/iop_file_interface.rs:17-20 | the mixed byte is below 2^62 |
| `IopFileInterface.MixNear` | src/utility/iop_file_interface.rs:17-20 | the mixed byte lies within 2^k2 of the plain product `((b * m) ± 2^k1) * m`, when the xor-shifts only touch the bits below 2^k1 and 2^k2 |
| `IopFileInterface.CombineStepWrapsOnce` | src/utility/iop_file_interface.rs:21 | `CombineStep`, one loop pass, sets `seed := seed XOR ((mix + 0x9e3779b9 + (seed << 6 mod 2^64) + (seed >> 2)) mod 2^64)` |
| `IopFileInterface.CombineOverflow` | src/utility/iop_file_interface.rs:21 | `mix + 0x9e3779b9` never overflows, but for some seeds the whole sum reaches 2^64, where an overflow-checked build would panic |
| `IopFileInterface.MixOfSampleBytes` | src/utility/iop_file_interface.rs:17-20 | bounds on the mixed bytes of 50 and 227 |
| `IopFileInterface.FirstSumOfSamplePool` | src/utility/iop_file_interface.rs:15-21 | in the pool [50, 227] the first pass starts from the seed 2 (the length), and its sum does not wrap |
| `IopFileInterface.OneByteSeedNear` | src/utility/iop_file_interface.rs:21 | when the sum of a pass does not wrap and the seed is below 2^k, the new seed is within 2^k of that sum |
| `IopFileInterface.FirstPassOfSamplePool` | src/utility/iop_file_interface.rs:15-22 | bounds on the seed after the first pass over the pool [50, 227] |
| `IopFileInterface.TwoBytePoolOverflows` | src/utility/iop_file_interface.rs:14-22 | on the two-byte pool [50, 227] the sum of the second pass reaches 2^64, so an overflow-checked build panics on an ordinary pool |
| `IopFileInterface.HashSeed` | src/utility/iop_file_interface.rs:15-22 | the hash seed is the left fold `SeedAfter` of the combine step, started from the pool's length: 0 for an empty pool, and otherwise the first byte is combined into the length first |
| `IopFileInterface.SeedAfterAppend` | src/utility/iop_file_interface.rs:16-22 | folding over `a + b` is folding over `b` from the seed `a` left: the loop is a left fold that can be split anywhere |
| `IopFileInterface.SeedAfterFirstByte` | src/utility/iop_file_interface.rs:16-22 | the bytes are combined in order, the first byte into the initial seed |
| `IopFileInterface.EmptyPoolVersion` | src/utility/iop_file_interface.rs:15-23 | an empty pool has seed 0 (its length) and version "0" |
| `IopFileInterface.SingleZeroByteVersion` | src/utility/iop_file_interface.rs:14-24 | the pool `[0]` has seed `0x9e3779f8` and version "9E3779F8" |
| `IopFileInterface.HashObjectPoolToVersion` | src/utility/iop_file_interface.rs:14-24 | the loop computes the fold of the combine step over the bytes from the length; the result is the canonical upper-case hex rendering of that seed, at most 16 digits, and reads back to it; it depends only on the bytes |
| `UpperHex.HexRenderingExample` | src/utility/iop_file_interface.rs:23 | the seed `0x9e3779f8` renders as "9E3779F8" |
| `UpperHex.FormatUpperHex` | src/utility/iop_file_interface.rs:23 | the rendering is non-empty, uses only `0`-`9` and `A`-`F`, has no leading `0` except for "0", and is "0" exactly for zero |
| `UpperHex.ParseFormat` | src/utility/iop_file_interface.rs:23 | reading the rendered string as base 16 gives the seed back |
| `UpperHex.FormatInjective` | src/utility/iop_file_interface.rs:23 | different seeds give different version strings |
| `UpperHex.FormatParse` | src/utility/iop_file_interface.rs:23 | every canonical upper-case hex string is the rendering of the number it denotes |
| `UpperHex.FormatLength` | src/utility/iop_file_interface.rs:23 | a seed below 16^k is rendered in at most k digits, so a 64-bit seed gives at most 16 |
| `Mock.MockCanDriver.constructor` | src/hardware_integration/mock/mock_can_driver.rs:9-11 | a new driver is not valid |
| `Mock.MockCanDriver.IsValid` | src/hardware_integration/mock/mock_can_driver.rs:15-17 | returns the current flag and changes nothing |
| `Mock.MockCanDriver.Close` | src/hardware_integration/mock/mock_can_driver.rs:19-21 | afterwards the driver is invalid, whatever it was before |
| `Mock.MockCanDriver.Open` | src/hardware_integration/mock/mock_can_driver.rs:23-25 | afterwards the driver is valid, whatever it was before |
| `Mock.MockCanDriver.ReadFrame` | src/hardware_integration/mock/mock_can_driver.rs:27-29 | always returns no frame and changes nothing |
| `Mock.MockCanDriver.WriteFrame` | src/hardware_integration/mock/mock_can_driver.rs:31-33 | reports every frame as sent, whatever its contents and whether or not the driver is open, and changes nothing |
| `Mock.ValidAfterCall` | src/hardware_integration/mock/mock_can_driver.rs:15-33 | after `open` the flag is set and after `close` it is clear, whatever it was; every other call leaves it as it was |
| `Mock.ValidAfterCalls` | src/hardware_integration/mock/mock_can_driver.rs:15-33 | the flag after a sequence of calls; a sequence without `open` or `close` leaves it as it was, since `is_valid`, `read_frame` and `write_frame` never change it |
| `Mock.ValidAfterCallsAppend` | src/hardware_integration/mock/mock_can_driver.rs:15-33 | the flag after `a + b` is the flag after `b` started from the flag after `a` |
| `Mock.LastOpenOrCloseDecides` | src/hardware_integration/mock/mock_can_driver.rs:19-25 | after any history the driver is valid exactly when the last `open` or `close` was `open`, so both calls are idempotent |

## Left out

- `read_iop_file` (src/utility/iop_file_interface.rs:10-12) reads the file system and returns an empty vector on any error. It is I/O and is not modelled.
- HashObjectPoolToVersion: `usize` is fixed at 64 bits. On a 32-bit target both multiplications of the mixer would overflow. The first one already does for every byte of 59 or more, since 59 * 0x45d9f3b passes 2^32. The model says nothing about such targets.
- HashObjectPoolToVersion: the additions on line 21 are modelled as wrapping modulo 2^64, as in a release build. In a build with overflow checks they panic when the sum reaches 2^64. `CombineOverflow` shows this for the seed 2^64 - 1, and `TwoBytePoolOverflows` shows that the two-byte pool [50, 227] already reaches it. Overflow-checked builds therefore panic on ordinary pools; the model follows the wrapping build.
- CombineStepWrapsOnce: one pass is not injective in the seed, since the xored operand depends on the seed. By hand, the seeds 0x1fff and 0x20f2 with the byte 0 both give 0x9e3f9e87. No lemma states this, because evaluating `Xor` on such constants is beyond the verifier's resource limit.
- HashObjectPoolToVersion: its requirement that the pool is shorter than 2^64 bytes holds for every Rust slice. The input is a value, so the `to_owned` copy and the fact that the caller's slice is untouched hold by construction.
- `UpperHex` covers only what `{:X}` does for an unsigned integer. Width, fill and the `#` flag are not used by the source.
- Mock.MockCanDriver: the plugin trait it implements (`CanHardwarePluginTrait`) and the `HardwareInterfaceCanFrame` binding struct are not part of this model. The frame is a plain record whose integer fields are unbounded.
- Mock.MockCanDriver: the Rust methods take `&mut self`. `IsValid`, `ReadFrame` and `WriteFrame` are modelled without a `modifies` clause because they change nothing.
- The NAME, CAN identifier, control function and NAME filter types forward every accessor to the foreign AgIsoStack binding, whose code is not part of this model. Their bit layouts and matching rules therefore cannot be stated from this source.
- The CAN message accessors (src/can_message.rs) are calls into the foreign binding, or `todo!()` stubs that always panic: `source_control_function`, `destination_control_function` and `get_can_port_index` (src/can_message.rs:83, 92, 114). Neither kind has logic to model here.
- The CAN frame constructor `new` (src/can_frame.rs:37-42) reads the clock and then panics on `todo!()`, so it never returns a frame. The other frame accessors only read the struct's fields: `is_extended`, `dlc` and `data`. `is_remote_frame` always answers false. `id` works as follows (src/can_frame.rs:51-72). For an extended frame it clamps an identifier above 0x1FFF_FFFF to `ExtendedId::MAX`. For a standard frame it first keeps only the low 16 bits of the identifier, and then clamps anything above 0x7FF to `StandardId::MAX`. These accessors are outside the hash and the mock driver and are not modelled.
- The network manager, the transport sessions (TP, BAM, ETP) and address-claim arbitration are in the `can_network_manager` module and the foreign library. Neither is part of this model, so there is no code to model them against.
- The system-timing helpers read the wall clock, and the example programs are demos made of sleeps, prints and hardware setup. Neither is modelled.
