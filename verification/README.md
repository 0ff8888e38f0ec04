# BinData bit fields, modelled in Dafny

This project models the sub-byte bit packer of the Ruby library BinData:

- `BinData::Bit`: one unsigned integer of `bit_length` bits that starts `bit_offset` bits into a byte.
- `BinData::BitField`: the container that lays such fields out back to back, threads the shared "leftover byte" between them, and reverses byte order at its boundary so that the whole record goes out most significant byte first.
- The part of `BinData::Base` that both rely on:
  - mandatory and optional parameters;
  - the `:readwrite` default and the rejection of nil values;
  - the split into known and extra parameters;
  - `check_offset`;
  - the gating of read, write and `num_bytes` by `:readwrite`.

The model is functional. An object is an immutable `BitFields.BitField` holding its parameters, its fields and its leftover slot (`Option<byte>`). Each operation returns a new object or a `Result` whose error names the exception the Ruby code would raise.

A stream is a byte sequence and a position. The mark that `read` records is an explicit argument.

The field loop of `_do_read` and `_write` is a fold (`ReadFields`, `WriteFields`). It passes the leftover from one field to the next.

Files, one module each:

- `results.dfy` (`Results`): `Option`, `Result` and the error kinds.
- `arith.dfy` (`Arith`): powers of two and shifts on unbounded integers, with Ruby's `&` and `|` written out bit by bit.
- `bytes.dfy` (`Bytes`): the integers that byte sequences spell least or most significant byte first.
- `base.dfy` (`Base`): parameter handling and `check_offset`.
- `bit.dfy` (`Bit`): `read_val`, `read_value_from_bytes`, `_num_bytes` and `_write` of one field.
- `bit_field.dfy` (`BitFields`): construction, accessors, `clear`, `snapshot`, `num_bytes`, `do_read` and `write` of the container, and the round trips.
- `bit_field_spec.dfy` (`BitFieldExamples`): the library's own 8-bit and 16-bit examples, and the two inputs behind the findings below.

Two places in `Bit` depart from the big-endian layout the container promises (see "## Findings"). `Bit.Mode` switches between them:

- `AsWritten` models the code as it stands.
- `Intended` models the corrected behaviour.

The general read and write lemmas are stated for both modes. They carry a precondition (`ReadsExactly`, `WritesExactly`) that says when the code as written still packs correctly, and that precondition holds for every layout under `Intended`. The library's examples are proved under `AsWritten`.

Where the code and its documentation disagree, the model follows the code:

- A trailing incomplete byte is not flushed. `write` emits only the bytes that are complete in the scratch buffer.
- The leftover slot belongs to the object and survives from one pass to the next. The first field of a record starts at offset 0 and never consults it.
- A `check_offset` that evaluates to nil or false fails with its own error ("offset not as expected"), distinct from the offset mismatch.
- Field names may repeat:
  - the accessors and `clear(name)` see the first field with a name;
  - `snapshot` keeps the last field's value under the name's first position.
- Writing a field that starts inside a byte when no leftover is present fails. In Ruby, OR-ing with nil raises, so the missing leftover is not treated as 0.

## Model

| member | source | states |
|---|---|---|
| Base.Dedup | lib/bindata/base.rb:65-67 | `uniq` keeps exactly the elements of its input, each once |
| Base.DedupDistinct | lib/bindata/base.rb:65-67 | a list without repeats is unchanged by `uniq` |
| Base.DedupOrder | lib/bindata/base.rb:65-67 | `uniq` lists the elements in the order of their first occurrences |
| Base.Parameters | lib/bindata/base.rb:65-67 | a key is a parameter of a class exactly when it is mandatory or optional, and the list has no repeats |
| Base.WithDefault | lib/bindata/base.rb:98-103 | `:readwrite` is added as true when it is absent; every supplied key keeps its value; no other key appears; the entries stay nil-free exactly when they were |
| Base.FirstMissing | lib/bindata/base.rb:105-111 | nothing is reported exactly when every mandatory parameter is supplied; otherwise the report is the first missing one in declaration order |
| Base.Partition | lib/bindata/base.rb:113-126 | succeeds exactly when no value is nil, and otherwise names the first nil entry; known keys go to the parameters and all other keys to the extras, with their supplied values |
| Base.Configure | lib/bindata/base.rb:98-126 | construction succeeds exactly when every mandatory parameter is supplied (or is `:readwrite`) and no value is nil; a missing mandatory parameter is reported in preference to a nil one; on success known and extra parameters partition the supplied keys plus `:readwrite`, and every mandatory parameter is among the known ones |
| Base.ConfigureValues | lib/bindata/base.rb:98-126 | every stored parameter has the value it was supplied with, none is nil, and `:readwrite` is true when it was not supplied |
| Base.CheckOffset | lib/bindata/base.rb:204-216 | the check passes exactly when no `:check_offset` is set, or it is true, or it equals the distance from the mark; nil or false fails as "not as expected", anything else as a mismatch carrying the actual offset |
| Base.EnabledUnlessFalse | lib/bindata/base.rb:150-158 | reading, writing and `num_bytes` are on unless `:readwrite` was supplied as false |
| Bit.NumBytes | lib/bindata/bit.rb:66-68 | a field spans the fewest whole bytes that hold `bit_offset + bit_length` bits, and at least one byte when it starts inside a byte |
| Bit.Gather | lib/bindata/bit.rb:57-60 | the OR-accumulating loop over the bytes equals the little-endian integer of those bytes shifted right by `bit_offset` |
| Bit.MaskByte | lib/bindata/bit.rb:62 | the mask `0xFF - (2**k - 1)` clears exactly the low `k` bits of a byte |
| Bit.ReadValueFromBytes | lib/bindata/bit.rb:56-64 | the value is bits `[bit_offset, bit_offset + bit_length)` of the bytes read least significant first, so it fits in `bit_length` bits; the leftover is the last byte with its low bits cleared (the field's offset as written); there is no leftover exactly when there are no bytes |
| Bit.Fetch | lib/bindata/bit.rb:46-50 | a field starting inside a byte, with a leftover present, reads the leftover plus one byte fewer from the stream; the read succeeds exactly when enough bytes remain, and yields the field's byte span |
| Bit.ReadVal | lib/bindata/bit.rb:45-54 | a field's read succeeds exactly when the stream holds the bytes it takes |
| Bit.ReadCarryOn | lib/bindata/bit.rb:62 | when the cleared bits are not bits the next field uses, the leftover a read hands on agrees with the next field's byte on every bit from that field's offset up |
| Bit.ReadValSlice | lib/bindata/bit.rb:45-64 | reading a field that starts at bit `S` of a window, with a correct carry, succeeds exactly when the window holds its last byte, yields bits `[S, S + bit_length)` of the window, consumes its bytes and passes on a correct carry |
| Bit.Build | lib/bindata/bit.rb:73-79 | the build loop yields `num_bytes` bytes, least significant first, spelling the low `8 * num_bytes` bits of the shifted value |
| Bit.Merge | lib/bindata/bit.rb:82-84 | a field at offset 0 keeps its bytes; otherwise the merge needs a leftover, the first byte becomes the bitwise OR of the built first byte and the leftover (overlapping bits included), and no other byte changes |
| Bit.WriteVal | lib/bindata/bit.rb:70-98 | a field's write succeeds exactly when it starts on a byte boundary or a leftover is present; it emits `(bit_offset + bit_length) / 8` bytes, keeps a new leftover when it ends inside a byte, and otherwise leaves the leftover alone |
| Bit.Emit | lib/bindata/bit.rb:86-97 | an incomplete last byte becomes the leftover; as written the complete bytes are emitted in reverse order, under the correction in their built order, and the two agree while there is at most one of them |
| Bit.WriteValSlice | lib/bindata/bit.rb:70-98 | writing bits `[S, E)` of a record after a correct leftover emits the record's bytes from byte `S / 8` up to byte `E / 8` and keeps exactly the record's bits of the next shared byte |
| Bit.WriteValCount | lib/bindata/bit.rb:70-98 | whatever the value, a field placed at bit `S` with the leftover it needs emits the bytes up to byte `E / 8` and keeps a leftover when `E` falls inside a byte |
| BitFields.Place | lib/bindata/bit_field.rb:50-56 | the constructor makes one field per declaration, with its name and bit length, its initial value (0 when none is declared) as both initial and current value |
| BitFields.PlaceChained | lib/bindata/bit_field.rb:50-56 | the running offset modulo 8 is each field's absolute start bit modulo 8 |
| BitFields.ChainedOffsets | lib/bindata/bit_field.rb:50-56 | field `i`'s offset is the sum of the earlier fields' lengths modulo 8 |
| BitFields.NewFields | lib/bindata/bit_field.rb:47-57 | a bit field is constructed exactly when the parameters are accepted and `:fields` is a field list; it then holds those fields placed from bit 0 and no leftover |
| BitFields.Find | lib/bindata/bit_field.rb:86-89 | the lookup finds nothing exactly when no field has the name, and otherwise the first field with it |
| BitFields.FieldNames | lib/bindata/bit_field.rb:107-109 | `field_names` lists every field's name, one per field, in declaration order |
| BitFields.FindFirst | lib/bindata/bit_field.rb:86-89 | whichever field is the first with a name is the one the lookup returns |
| BitFields.Get | lib/bindata/bit_field.rb:66-83 | a getter succeeds exactly for a declared field name; any other name fails |
| BitFields.Set | lib/bindata/bit_field.rb:66-83 | a setter succeeds exactly for a declared field name |
| BitFields.SetGet | lib/bindata/bit_field.rb:66-83 | after a setter the name reads back the new value unmasked, every other name reads as before, and nothing but that field's value changes |
| BitFields.ClearFieldGet | lib/bindata/bit_field.rb:91-97 | `clear(name)` makes the name read back its first field's initial value, leaves every other name as it was, and changes nothing else |
| BitFields.ClearField | lib/bindata/bit_field.rb:91-97 | `clear(name)` succeeds exactly for a declared field name; any other name fails |
| BitFields.ClearAllValues | lib/bindata/bit_field.rb:91-97 | `clear` makes every name read back its initial value and leaves layout, parameters and leftover as they were |
| BitFields.SnapshotKeys | lib/bindata/bit_field.rb:99-105 | the snapshot's keys are the field names without repeats, in order of first appearance |
| BitFields.SnapshotValues | lib/bindata/bit_field.rb:99-105 | a name in the snapshot maps to the value of the last field with that name, and other names are absent |
| BitFields.NumBytes | lib/bindata/bit_field.rb:113-115 | an enabled bit field spans the fewest whole bytes that hold the sum of its bit lengths; a disabled one spans none |
| BitFields.IoRead | lib/bindata/bit_field.rb:119 | reading `n` bytes from a stream yields the next `min(n, remaining)` bytes, or nil at the end when `n > 0` |
| BitFields.DoRead | lib/bindata/base.rb:144-148 | a failed offset check is the read's error; a disabled object is only cleared; a successful read keeps the parameters and moves forward within the stream |
| BitFields.Read | lib/bindata/base.rb:135-141 | `read` marks the current position, so a read with a `:check_offset` other than true or 0 fails, a disabled object is only cleared, and a successful read keeps the parameters and moves forward within the stream |
| BitFields.ReadForgets | lib/bindata/base.rb:144-148 | a read begins by clearing, so the values the fields held before cannot influence its outcome |
| BitFields.ReadFieldsSlices | lib/bindata/bit_field.rb:120 | reading the fields from bit `S` of a window, with a correct carry, succeeds exactly when the window holds the record's bytes, and gives each field its slice of the window |
| BitFields.ReadFields | lib/bindata/bit_field.rb:120 | reading the fields one after another keeps every field's name, offset, length and initial value; only the values change |
| BitFields.ReadWhole | lib/bindata/bit_field.rb:120 | the fields' reads over a whole window succeed exactly when the window holds the record's bytes and slice the window's integer |
| BitFields.ReadSlices | lib/bindata/bit_field.rb:117-121 | a read of an enabled bit field succeeds exactly when `num_bytes` bytes remain; it consumes them and gives field `i` bits `[Σ_{j<i} len_j, Σ_{j<=i} len_j)` of the big-endian integer they spell |
| BitFields.Write | lib/bindata/bit_field.rb:127-134 | a disabled bit field writes nothing; an enabled one writes at most `num_bytes` bytes and keeps its fields and parameters |
| BitFields.WriteFieldsCount | lib/bindata/bit_field.rb:131 | the fields' writes from bit `S` always succeed once the first field has the leftover it needs, and emit the bytes up to byte `E / 8` |
| BitFields.WriteFieldsPacks | lib/bindata/bit_field.rb:131 | when every field holds its slice of a record, the fields' writes emit that record's bytes least significant first and keep the record's bits of the last shared byte |
| BitFields.WriteCount | lib/bindata/bit_field.rb:127-134 | a write of an enabled bit field fails exactly when its fields fill part of a single byte; otherwise it emits `floor(Σ len / 8)` bytes and keeps an incomplete last byte in the leftover slot |
| BitFields.WritePacks | lib/bindata/bit_field.rb:127-134 | an enabled bit field whose values fit and whose lengths fill whole bytes writes the record its fields spell, most significant byte first, in `num_bytes` bytes |
| BitFields.WriteThenRead | lib/bindata/bit_field.rb:27-31 | reading what a bit field wrote, from the middle of a stream, into an object of the same layout restores every field and consumes exactly the written bytes |
| BitFields.ReadPacked | lib/bindata/bit_field.rb:117-121 | reading `num_bytes` bytes that spell a record, most significant byte first, restores the fields that spell it |
| BitFields.ReadThenWrite | lib/bindata/bit_field.rb:27-31 | writing what was just read gives back exactly the bytes that were read |
| BitFieldExamples.Declared | lib/bindata/base.rb:98-103 | a bit field declared with only `:fields` is enabled, has no offset check and no leftover, and holds its fields placed from bit 0 |
| BitFieldExamples.Placed8 | spec/bit_field_spec.rb:8-11 | the 8-bit example's fields get offsets 0, 4 and 7 |
| BitFieldExamples.Example8Get | spec/bit_field_spec.rb:14-22 | the 8-bit example is one byte long and its getters give 0xC, 0x5 and 0 |
| BitFieldExamples.Example8Set | spec/bit_field_spec.rb:24-33 | setting `a` to 0xB reads back 0xB, and clearing restores 0xC |
| BitFieldExamples.Example8Read | spec/bit_field_spec.rb:35-41 | reading 0xA3 gives `a` = 3, `b` = 2 and `c` = 1 |
| BitFieldExamples.Example8Write | spec/bit_field_spec.rb:43-48 | writing the initial values gives the byte 0x5C |
| BitFieldExamples.Placed16 | spec/bit_field_spec.rb:53-56 | the 16-bit example's fields get offsets 0, 2 and 4 |
| BitFieldExamples.Example16Get | spec/bit_field_spec.rb:59-67 | the 16-bit example is two bytes long and its getters give 0x3, 0x2BB and 0xA |
| BitFieldExamples.Example16Set | spec/bit_field_spec.rb:69-78 | setting the 2-bit `a` to 9 stores 9 unmasked, and clearing restores 3 |
| BitFieldExamples.Example16Read | spec/bit_field_spec.rb:80-86 | reading 0x84 0x21 gives `a` = 0x1, `b` = 0x108 and `c` = 0x8 |
| BitFieldExamples.Example16Write | spec/bit_field_spec.rb:88-93 | writing the initial values gives the bytes 0xAA 0xEF |
| BitFieldExamples.ReadLosesBits | lib/bindata/bit.rb:62 | as written, fields of 6, 3 and 7 bits reading 0x02 0x00 decode `c` as 0, although bits 9 to 15 of 0x0200 are 1 |
| BitFieldExamples.ReadKeepsBits | lib/bindata/bit.rb:62 | with the corrected mask the same read decodes `c` as 1 |
| BitFieldExamples.WriteSwapsBytes | lib/bindata/bit.rb:95-97 | as written, a single 16-bit field holding 0x0100 goes out as 0x00 0x01, which spells 1 |
| BitFieldExamples.WriteKeepsOrder | lib/bindata/bit.rb:95-97 | without the per-field reversal the same field goes out as 0x01 0x00 |

Some operations have no row of their own. The lemma rows above state what they do:

- `BitFields.New` (`initialize`) is stated by `NewFields`.
- `BitFields.ClearAll` (`clear` without a name) is stated by `ClearAllValues`.
- `BitFields.Snapshot` (`snapshot`) is stated by `SnapshotKeys` and `SnapshotValues`.
- `BitFields.WriteFields` and `BitFields.WriteRest` (the field loop of `_write`) are stated by `WriteFieldsCount` and `WriteFieldsPacks`.
- `BitFields.ReadRest` (the field loop of `_do_read`) is stated by `ReadFields`, `ReadFieldsSlices` and `ReadWhole`.
- `Base.Enabled` (the `eval_param(:readwrite) != false` guard) is stated by `EnabledUnlessFalse`.

## Left out

- Lazy evaluation of parameters (`LazyEvalEnv`, `eval_param`) is not modelled. Parameter values arrive already evaluated, as `Base.Value`.
- The class registry (`register`, `lookup`) is not modelled. It does not affect packing.
- The class-level `read` is not modelled. It only constructs an object and calls the instance `read`.
- `single_value?` and `ensure_mutual_exclusion` are not modelled. The bit packer does not call them.
- `create_env` and the environment chain are not modelled. `BitField#initialize` creates each field with `Bit.new(params, create_env)` (lib/bindata/bit_field.rb:55). A field reaches its container's `leftover_byte` through that environment's parent object (lib/bindata/bit.rb:102-110). The model replaces this chain with the container's `leftover` field, which `ReadFields` and `WriteFields` pass from one field to the next.
- Ancestor accumulation of declared parameters is not modelled. A `ParamSpec` lists a class's mandatory and optional parameters directly, with `Base`'s optional ones included.
- The `Single` superclass of `Bit` is not part of this model. Only its effects that the packer sees are modelled:
  - a field's value and initial value (0 when none is declared);
  - `clear`;
  - `snapshot` of a value;
  - a short stream read, which fails as `ShortRead`.
- Per-field parameters other than `:initial_value` are not modelled. This covers a field's own `:readwrite` or `:check_offset`, and overrides of `:bit_offset` or `:bit_length` in a declaration.
- `done_read` is not modelled. It only forwards to the fields' `Single` code, which is not part of this model.
- The "can't write whilst reading" guard (lib/bindata/bit.rb:71) is not modelled. The flag it tests belongs to `Single`, and a functional write cannot run inside a read.
- `io.instance_eval "def mark; …; end"` is not modelled. The mark is an argument of `DoRead`, and `Read` passes the current position.
- Streams are not modelled as Ruby IO objects:
  - the input is a byte sequence plus a position;
  - `write` returns the bytes it would put on the stream.
- Exception classes and messages are reduced to the constructors of `Results.Error`.
- BitFields.DoRead: does not model the object state an exception leaves behind, and neither do `BitFields.Read` and `BitFields.Write`. Their `Err` results carry no object. In Ruby:
  - `do_read` clears the fields before the offset check (lib/bindata/base.rb:145-146), so a read refused by `:check_offset` leaves every field at its initial value;
  - a short stream (lib/bindata/bit_field.rb:119-120) leaves the fields read before it decoded and `leftover_byte` updated;
  - a write that fails on an empty scratch (lib/bindata/bit_field.rb:133) keeps the leftover the fields stored.
- Bit.NumBytes: computes the byte count as an exact integer ceiling. Ruby divides by the Float `8.0` and rounds up (lib/bindata/bit.rb:67), which gives the same count for every bit count below 2^53.
- BitFields.NumBytes: computes the byte count as an exact integer ceiling, where Ruby divides by the Float `8.0` (lib/bindata/bit_field.rb:114). The two agree below 2^53 bits.
- A getter or setter for a name that is not a field falls through to Ruby's `method_missing` chain. That is modelled only as the `UnknownField` error.
- BitFields.Get: treats every declared name as a field. Ruby reaches a field's getter only through `method_missing` (lib/bindata/bit_field.rb:66-83), so a field named after a public method the object already answers (`clear`, `snapshot`, `field_names`, `read`, `write`, `num_bytes`, `leftover_byte`, or one of Object's methods such as `class`) calls that method instead.
- BitFields.Set: treats every declared name as a field. A setter whose name is already a public method, such as `leftover_byte=` from the `attr_accessor` at lib/bindata/bit_field.rb:45, calls that method and never reaches the field.
- A setter given several arguments (`obj.value = *args`) is not modelled. Only the single-value case is.
- Symbols are not modelled. Names and keys are strings.
- BitFields.Set: values are non-negative integers. Ruby accepts any object, and writes a negative integer in two's complement through `& 0xFF` and `>>= 8` (lib/bindata/bit.rb:73-79); its set sign bits then reach the next field through the leftover.
- Value masking on assignment is not modelled, because the source does not mask: a setter stores its value unmasked. The round-trip lemmas therefore require every value to fit its bit length (`Fits`).
- The round-trip lemmas require the lengths to add up to whole bytes. The class documentation states this assumption (lib/bindata/bit_field.rb:4-5).
- BitFields.WriteCount: states the byte count and leftover of a write but not the bytes themselves. The bytes are stated by `WritePacks` for records of whole bytes.
- Bit.ReadVal: states only when a read succeeds. The value, remaining stream and carry of a field read in place are stated by `Bit.ReadValSlice`.
- BitFields.Get: states only when a getter succeeds. The value it returns is stated by `SetGet`, `ClearFieldGet` and `ClearAllValues`.

## Findings

| source | as written | input that shows it | evidently intended | confidence | as-written member | corrected member |
|---|---|---|---|---|---|---|
| lib/bindata/bit.rb:62 | a read hands on its last byte with the low `bit_offset` bits cleared; when the field spans several bytes and ends below its own offset, this also clears bits of the next field | fields of 6, 3 and 7 bits reading 0x02 0x00: `c` decodes as 0, but bits 9 to 15 of 0x0200 are 1 | clear only the bits this field consumed, the low `(bit_offset + bit_length) % 8` | high; not executed | BitFieldExamples.ReadLosesBits | BitFields.ReadSlices |
| lib/bindata/bit.rb:95-97 | a field reverses its complete bytes, and the container (lib/bindata/bit_field.rb:133) reverses the record again, so a field that emits two or more whole bytes comes out byte-swapped; reading does not reverse per field, so write then read is not the identity | one 16-bit field holding 0x0100: written as 0x00 0x01, which reads back as 1 | emit the field's bytes least significant first and let the container's single reversal make the record big-endian | high; not executed | BitFieldExamples.WriteSwapsBytes | BitFields.WritePacks |

The corrected behaviour is `Bit.Mode.Intended`:

- `Bit.ClearedBits` clears the low `(off + len) % 8` bits.
- `Bit.Emit` does not reverse.

Under `Intended`, `ReadsExactly` and `WritesExactly` hold for every layout. So `BitFields.ReadSlices`, `BitFields.WritePacks`, `BitFields.WriteThenRead` and `BitFields.ReadThenWrite` state the intended big-endian layout and round trips for all field lists whose lengths fill whole bytes. Under `AsWritten` the same lemmas are proved only for the layouts those two predicates admit, which include the library's two examples.
