# D2SLib save-file core in Dafny

This project models how D2SLib decodes and re-encodes a Diablo II character
save file (a `.d2s` file). The file is one fixed-order, byte-aligned stream:

- a header;
- a 40-byte run of scalars: active weapon, a 16-byte name, the status byte,
  progression, two reserved 2-byte regions, class id, level and three
  timestamps;
- sixteen assigned skills and four quick skills;
- the fixed sections from appearances to attributes;
- class skills, the player item list and the corpse list;
- and, only for expansion characters, the mercenary item list and the golem.

Three pieces are modelled:

- **Status flags** (module `StatusFlags`). The status byte is held as eight
  bits, each a named flag. Newbie is bit 0, error 1, hardcore 2, dead 3,
  save-in-progress 4, expansion 5, ladder 6 and needs-renaming 7. The model
  covers the constructor/`Read`, the eight getters and setters, the bit
  writer `Write`, and the legacy array-returning `Write`.
- **Preview data** (module `Preview`). `PreviewItem` is a 12-byte thumbnail
  record, and `CodeString` shows its code as text. `PreviewData` is the
  144-byte (0x90) record: two save times, the guild emblem colour, two
  experience values, four thumbnails, a 64-byte name and a trailing `Unk1`.
- **The D2S aggregate** (modules `Save`, `SaveStages`, `SaveProperties`,
  `SaveLayout`). This covers the private constructor's decode walk,
  `Write(IBitWriter)`, `Read`, `Write(D2S)` and `WritePooled(D2S)`.

Bytes are integers `0..255` (module `Bytes`). A decoder takes a byte
sequence and returns `Option<(value, rest)>`: `None` is an underrun, which
the C# bit reader reports by throwing. Integers are little-endian.
The bit writer packs bits least significant bit first (module `Bits`).

The other sections (header, skill, appearances, locations, mercenary,
quests, waypoints, NPC dialog, attributes, class skills, item list, corpse
list, mercenary item list, golem) are not part of this model. Each is a
value of a type parameter `S`, read and written through a `Codec` in a
`Codecs<S>` bundle (module `SectionCodecs`). A codec also receives the
context the walk passes it: the class id, the header's format version, or
the mercenary. Nothing is assumed about a codec globally. The round-trip
theorems take two requirements about the codecs as explicit preconditions:

- `Inverts`: decode inverts encode on every prefix;
- `Canonical`: a successful decode consumed exactly the encoding of its
  result.

Two comments in the source do not match the code:

- The width comment above `PreviewData` (PreviewData.cs line 40) sums to
  140 and leaves out `Unk1`. The code reads and writes 144 bytes, which
  matches the 0x00bf to 0x014f gap in `D2S`'s offset comments. The model
  follows the code.
- `D2S`'s comments put `MapId` at 0x00ab (D2S.cs line 91) and `Mercenary`
  at 0x00b1 (line 93). `MapId` is read as a 4-byte `uint` (line 32), so it
  ends at 0x00af, and nothing is read between it and `Mercenary.Read`
  (lines 32-33). The two bytes 0x00af..0x00b1 are therefore either read
  inside the mercenary section, which is not part of this model, or the
  comment is off. The model follows the code: `Save.WriteSections` puts the
  mercenary encoding directly after the 4 bytes of `MapId`.

## Model

| member | source | states |
|---|---|---|
| `StatusFlags.Read` | src/Model/Save/Status.cs:9-12 | The status read from byte `b` stands for exactly `b`: its bit set re-packs to `b`. |
| `StatusFlags.ReadOfByte` | src/Model/Save/Status.cs:31-35 | Every status is the one read from its own byte, so `Read` loses nothing. |
| `StatusFlags.FlagIsBit` | src/Model/Save/Status.cs:16-23 | For every byte and every named flag, the getter is true exactly when that flag's bit (newbie 0 ... needs-renaming 7) is set in the byte. |
| `StatusFlags.Status.Get` | src/Model/Save/Status.cs:16-23 | A getter is true exactly when its flag's bit is set in the status byte. |
| `StatusFlags.Status.Set` | src/Model/Save/Status.cs:16-23 | After a setter call, the flag reads back the value set, and every other flag reads as before. |
| `StatusFlags.SetMovesOneBit` | src/Model/Save/Status.cs:16-23 | A setter changes the status byte by exactly the flag's bit weight, up or down, and not at all when the value is unchanged. |
| `StatusFlags.Status.Write` | src/Model/Save/Status.cs:25-29 | The bit writer emits exactly eight bits, and they pack to the one status byte. |
| `StatusFlags.WriteOfRead` | src/Model/Save/Status.cs:25-35 | For every byte `b`, the bits written for `Read(b)` pack to exactly `[b]`, and the legacy array write returns `[b]`. |
| `StatusFlags.WriteArray` | src/Model/Save/Status.cs:37-43 | The legacy write returns a one-byte array that reads back as the same status. |
| `StatusFlags.HardcoreExpansionByte` | src/Model/Save/Status.cs:18-21 | Byte 0x24 is hardcore and expansion with every other flag clear, and writes back as 0x24. |
| `Preview.WriteItem` | src/Model/Save/PreviewData.cs:30-37 | Every item encodes to exactly 12 bytes, whatever its quality and flags. |
| `Preview.ItemLayout` | src/Model/Save/PreviewData.cs:30-37 | An item encodes in order: a 4-byte code, a transform byte, a quality byte, a 2-byte file index and 4-byte flags. |
| `Preview.ReadItem` | src/Model/Save/PreviewData.cs:16-28 | Item decode fails exactly when fewer than 12 bytes remain. Otherwise it consumes 12 bytes that are the encoding of the result. |
| `Preview.ReadWriteItem` | src/Model/Save/PreviewData.cs:6-37 | Decoding an encoded item gives it back, whatever follows it. Every quality byte and flags value survives, because none is validated. |
| `Preview.TrimPad` | src/Model/Save/PreviewData.cs:14 | Trimming removes only trailing NULs and spaces, and leaves a string that does not end in either. |
| `Preview.CodeString` | src/Model/Save/PreviewData.cs:14 | The code string is the ASCII of the code's little-endian bytes with trailing NUL and space removed. It has at most 4 characters, and the dropped bytes are all padding. |
| `Preview.WswItem` | src/Model/Save/PreviewData.cs:14-37 | The code with bytes "wsw\0" shows as "wsw", and the item encodes to 12 bytes that decode back to it. |
| `Preview.WritePreview` | src/Model/Save/PreviewData.cs:75-88 | The preview record always encodes to 144 bytes (0x90). That is 4 bytes more than the width comment, which leaves out `Unk1`. |
| `Preview.PreviewLayout` | src/Model/Save/PreviewData.cs:75-88 | The byte range of each of the 11 fields within the encoded record, in read order. |
| `Preview.ReadPreview` | src/Model/Save/PreviewData.cs:55-73 | Preview decode fails exactly when fewer than 144 bytes remain. Otherwise it consumes exactly 144. |
| `Preview.ReadWritePreview` | src/Model/Save/PreviewData.cs:55-88 | Decoding an encoded preview record gives it back, whatever follows it. |
| `Preview.WriteReadPreview` | src/Model/Save/PreviewData.cs:55-88 | A successful preview decode consumed exactly the encoding of its result. |
| `Preview.EmblemColorKeepsPadding` | src/Model/Save/PreviewData.cs:45 | The emblem colour keeps all four bytes read, padding included, and writes them back unchanged. |
| `SectionCodecs.ReadWriteMany` | src/Model/Save/D2S.cs:24-25 | Reading `|xs|` values back from their encodings gives `xs` and the untouched rest. |
| `SectionCodecs.WriteReadMany` | src/Model/Save/D2S.cs:129-132 | A successful read of `n` values consumed exactly their encodings, one after another. |
| `SectionCodecs.WriteManyUniform` | src/Model/Save/D2S.cs:77-86 | When each value encodes to `w` bytes, value `i` occupies bytes `w*i` to `w*i+w`. |
| `Save.ReadName16` | src/Model/Save/D2S.cs:14 | The name is read as exactly 16 bytes, which are the bytes consumed. |
| `Save.ReadReserved` | src/Model/Save/D2S.cs:17-19 | A reserved region is read as exactly 2 bytes, and they are always held afterwards. |
| `Save.ReadStatus` | src/Model/Save/D2S.cs:15 | The status is one byte, and re-packing it gives the byte consumed. |
| `Save.WriteStatus` | src/Model/Save/D2S.cs:118 | The status writes exactly its own byte. |
| `Save.ReadScalarRun` | src/Model/Save/D2S.cs:13-23 | The run decodes exactly when 40 bytes remain and consumes 40. Both reserved regions are then held and 2 bytes wide. |
| `Save.WriteScalarRun` | src/Model/Save/D2S.cs:116-128 | The run encodes to 40 bytes whether or not the reserved regions are held. |
| `Save.ReadSkillBar` | src/Model/Save/D2S.cs:24-29 | Decoding yields exactly 16 assigned skills. |
| `Save.WriteSkillBar` | src/Model/Save/D2S.cs:129-136 | The encoded bar opens with the first sixteen assigned slots, in order; no slot past the sixteenth is written. |
| `Save.WriteSections` | src/Model/Save/D2S.cs:137-145 | Between the codec-sized sections, `MapId` takes exactly 4 bytes and the preview record exactly 0x90. |
| `Save.ReadExpansion` | src/Model/Save/D2S.cs:44-48 | The mercenary item list and golem are decoded exactly when the expansion flag is set. Otherwise nothing is read and both are null. |
| `Save.WriteExpansion` | src/Model/Save/D2S.cs:149-153 | Nothing is written when expansion is clear, or when it is set but both sections are null. |
| `Save.ReadBody` | src/Model/Save/D2S.cs:10-49 | Every record the walk returns has held 2-byte reserved regions, exactly sixteen assigned skills, and a mercenary item list and golem present exactly when the expansion flag is set. |
| `Save.WriteBody` | src/Model/Save/D2S.cs:113-154 | The body starts with everything up to the corpse list, and with the expansion flag clear it is exactly that. |
| `Save.Read` | src/Model/Save/D2S.cs:156-162 | `Read` succeeds exactly when the decode walk succeeds and leaves no byte unread, and then returns the walk's record. |
| `Save.Write` | src/Model/Save/D2S.cs:173-180 | With a length-preserving fix-up, the bytes returned are exactly as long as the body the writer produced. |
| `Save.WritePooled` | src/Model/Save/D2S.cs:164-171 | The pooled entry point returns the same bytes as `Write(D2S)`: the same body with the fix-up applied once. |
| `SaveStages.ReadWriteReserved` | src/Model/Save/D2S.cs:17-19 | A held 2-byte region reads back verbatim. |
| `SaveStages.ReadWriteStatus` | src/Model/Save/D2S.cs:15 | The status written reads back as the same eight flags. |
| `SaveStages.ReadWriteScalarRun` | src/Model/Save/D2S.cs:12-23 | Decoding an encoded scalar run gives it back, field for field, when its reserved regions are held. |
| `SaveStages.WriteReadScalarRun` | src/Model/Save/D2S.cs:115-128 | A decoded scalar run consumed exactly its own encoding. |
| `SaveStages.ReadWriteSkillBar` | src/Model/Save/D2S.cs:24-29 | Sixteen assigned skills and then left, right, left-swap and right-swap read back in that order. |
| `SaveStages.WriteSkillBarIgnoresExtraSlots` | src/Model/Save/D2S.cs:129-132 | Appending any slots after the sixteenth leaves the encoded skill bar unchanged. |
| `SaveStages.WriteReadSkillBar` | src/Model/Save/D2S.cs:129-136 | A decoded skill bar has 16 slots, consumed exactly its encoding, and each skill is encodable. |
| `SaveStages.ReadWriteSections` | src/Model/Save/D2S.cs:30-38 | The sections from appearances to attributes, including `MapId` and the preview record, read back in write order. |
| `SaveStages.WriteReadSections` | src/Model/Save/D2S.cs:137-145 | A decode of those sections consumed exactly their encoding. |
| `SaveStages.ReadWriteExpansion` | src/Model/Save/D2S.cs:44-48 | The expansion-only sections read back when present exactly under the expansion flag. |
| `SaveStages.WriteReadExpansion` | src/Model/Save/D2S.cs:149-153 | The expansion-only sections decoded were exactly their encodings. |
| `SaveProperties.ReadWriteBody` | src/Model/Save/D2S.cs:10-49 | Under the codec round-trip requirements, the decode walk reads back every field that `Write(IBitWriter)` wrote, in the same order, whatever follows. This holds for a record with held reserved regions, 16 skills, and expansion sections present exactly under the flag. |
| `SaveProperties.DecodeOfEncode` | src/Model/Save/D2S.cs:113-162 | `Read` of the body the writer emits returns the record, and the consumption check passes. |
| `SaveProperties.WriteReadBody` | src/Model/Save/D2S.cs:113-154 | A successful decode walk returns a record of that shape, and it consumed exactly that record's encoding. |
| `SaveProperties.EncodeOfDecode` | src/Model/Save/D2S.cs:156-162 | Every buffer that `Read` accepts re-encodes to itself. |
| `SaveProperties.ReadIffEncoding` | src/Model/Save/D2S.cs:156-162 | `Read(bytes)` returns `r` exactly when `bytes` is `r`'s encoding and `r` has that shape. This is both directions of the round trip. |
| `SaveProperties.DecodeGating` | src/Model/Save/D2S.cs:44-48 | For every decoded record, the mercenary item list and golem are present exactly when the expansion flag is set. |
| `SaveProperties.NonExpansionStopsAfterCorpses` | src/Model/Save/D2S.cs:40-48 | Without the expansion flag, the decode reads nothing after the corpse list. |
| `SaveProperties.EncodeGating` | src/Model/Save/D2S.cs:146-153 | With expansion clear, the encoding ends right after the corpse list. With it set, the encoding is the prefix, then the mercenary item list's encoding if it is non-null, then the golem's if it is non-null. |
| `SaveProperties.TrailingBytesRejected` | src/Model/Save/D2S.cs:158-161 | An encoding followed by any further bytes decodes in the walk but is rejected by the consumption check. |
| `SaveLayout.ScalarRunLayout` | src/Model/Save/D2S.cs:51-77 | Within the run, each scalar's position follows the field widths 4,16,1,1,2,1,2,1,4,4,4. The reserved defaults are `00 00` and `10 1E`. |
| `SaveLayout.SkillBarLayout` | src/Model/Save/D2S.cs:77-86 | With 4-byte skills, assigned skill `i` is at `4*i`, and the four quick skills follow at 0x40, 0x44, 0x48 and 0x4c. |
| `SaveLayout.BodyLayout` | src/Model/Save/D2S.cs:51-88 | With a 16-byte header, the scalar run fills 0x10..0x38, the skill bar fills 0x38..0x88, and the sections start at 0x88. |
| `SaveLayout.BodyOffsets` | src/Model/Save/D2S.cs:51-86 | Every scalar and skill is at the absolute offset in the field comments, from 0x10 (active weapon) to 0x84 (right swap skill). |

## Left out

- Bit reader and writer internals, including `InternalBitArray`, are not part of this model. Reads and writes are byte-aligned here. Bits are packed least significant bit first, and `BitConverter` is taken as little-endian.
- The other section codecs (Header, Skill, Appearances, Locations, Mercenary, QuestsSection, WaypointsSection, NPCDialogSection, Attributes, ClassSkills, ItemList, CorpseList, MercenaryItemList, Golem) are not part of this model. They are parameters, and their round-trip behaviour is a precondition of the theorems, not a proved fact.
- `Header.Fix`, the checksum fix-up, is a function parameter `fix` of `Save.Write` and `Save.WritePooled`. Nothing about its internals or idempotence is claimed.
- `Save.Write`: the model does not claim that `Read` of the fixed-up bytes gives the record back, because that depends on how the header codec treats the checksum. `SaveProperties.DecodeOfEncode` is stated for the body before the fix-up.
- `ReadString`/`WriteString` padding and trimming are not shown. The 16-byte and 64-byte names are therefore kept as raw fixed-width bytes.
- `Preview.CodeString`: `Encoding.ASCII` turns each byte above 0x7f into `?`. That rule is modelled for single bytes, and no other encoding behaviour is.
- `Save.Read`: the full-consumption check is a `Debug.Assert`, which release builds drop. The model always makes it an explicit failure.
- `Save.WriteSkillBar`: it requires at least sixteen assigned skills. With fewer, the C# writer's indexing throws, and this model does not represent exceptions. Sixteen or more are accepted and the first sixteen written, as in the C# writer.
- `SaveProperties.ReadWriteBody`: a record with null sections other than the two expansion ones is outside the model, since `S` has no null. An expansion record whose mercenary item list or golem is null is excluded by the shape requirement: the writer skips it, so the reader would misread what follows.
- `ClassSkills.Write` takes no class id, while its read does. The codec's encode context is therefore empty.
- Pooled memory (`MemoryOwner`, `ToPooledArray`), `Dispose`, `Interlocked.Exchange`, `stackalloc` and the JSON attributes are resource management and serialisation metadata. `WritePooled` returns a plain byte sequence.
- Offsets after the appearances section (0x00a8 onwards) depend on the widths of sections that are not part of this model, so they are not derived.
