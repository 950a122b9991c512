/** The character-select preview record: four fixed 12-byte item
    thumbnails inside a fixed 144-byte bundle. Neither record has a
    conditional field. */
module Preview {
  import opened Wrappers
  import opened Bytes

  /** Width of one item thumbnail: 4 + 1 + 1 + 2 + 4. */
  const ItemWidth: nat := 12

  /** Width of the bundle: 8 + 8 + 4 + 4 + 4 + 4 * 12 + 64 + 4, the gap
      between offsets 0x00bf and 0x014f of the save file. */
  const PreviewWidth: nat := 0x90

  /** Width of the fixed name field. */
  const NameWidth: nat := 64

  /** The 64-byte name, kept as its raw bytes. */
  type Name64 = s: seq<byte> | |s| == NameWidth
    witness seq(64, i => 0)

  /** One equipped-item thumbnail. Quality and flags are enum casts with no
      validation in the C# reader, so any byte and any 32-bit value is kept. */
  datatype PreviewItem = PreviewItem(
    code: u32,
    transform: byte,
    quality: byte,
    fileIndex: u16,
    flags: u32)

  /** The thumbnail bundle, fields in wire order. */
  datatype PreviewData = PreviewData(
    expansionSaveTime: u64,
    classicSaveTime: u64,
    guildEmblemColor: u32,   // one meaningful byte, padded to four
    expansionExperience: u32,
    classicExperience: u32,
    leftHand: PreviewItem,
    rightHand: PreviewItem,
    torso: PreviewItem,
    head: PreviewItem,
    name: Name64,
    unk1: u32)

  // ---------------------------------------------------------------------
  // PreviewItem

  function WriteItem(it: PreviewItem): (s: seq<byte>)
    ensures |s| == ItemWidth
  {
    WriteUInt32(it.code) + [it.transform] + [it.quality] + WriteUInt16(it.fileIndex) + WriteUInt32(it.flags)
  }

  /** The thumbnail's layout: code, transform, quality, file index, flags. */
  lemma ItemLayout(it: PreviewItem)
    ensures var s := WriteItem(it);
            && s[0..4] == WriteUInt32(it.code)
            && s[4] == it.transform && s[5] == it.quality
            && s[6..8] == WriteUInt16(it.fileIndex)
            && s[8..12] == WriteUInt32(it.flags)
  {
  }

  /** Reads one thumbnail; fails exactly when fewer than 12 bytes remain,
      and otherwise consumes the 12 bytes that re-encode to the result. */
  function ReadItem(s: seq<byte>): (r: Option<(PreviewItem, seq<byte>)>)
    ensures r.Some? <==> ItemWidth <= |s|
    ensures r.Some? ==> |r.value.1| == |s| - ItemWidth
    ensures r.Some? ==> s == WriteItem(r.value.0) + r.value.1
  {
    var code :- ReadUInt32(s);
    var transform :- ReadByte(code.1);
    var quality :- ReadByte(transform.1);
    var fileIndex :- ReadUInt16(quality.1);
    var flags :- ReadUInt32(fileIndex.1);
    Some((PreviewItem(code.0, transform.0, quality.0, fileIndex.0, flags.0), flags.1))
  }

  /** Decoding inverts encoding for every thumbnail, whatever follows it. */
  lemma ReadWriteItem(it: PreviewItem, rest: seq<byte>)
    ensures ReadItem(WriteItem(it) + rest) == Some((it, rest))
  {
    var t4 := WriteUInt32(it.flags) + rest;
    var t3 := WriteUInt16(it.fileIndex) + t4;
    var t2 := [it.quality] + t3;
    var t1 := [it.transform] + t2;
    assert WriteItem(it) + rest == WriteUInt32(it.code) + t1;
    ReadWriteUInt32(it.code, t1);
    ReadWriteUInt16(it.fileIndex, t4);
    ReadWriteUInt32(it.flags, rest);
  }

  function IsPad(c: char): bool
  {
    c == '\0' || c == ' '
  }

  /** String.TrimEnd over the characters NUL and space. */
  function TrimPad(s: string): (r: string)
    ensures r <= s
    ensures |r| == 0 || !IsPad(r[|r| - 1])
    ensures forall i :: |r| <= i < |s| ==> IsPad(s[i])
  {
    if |s| == 0 || !IsPad(s[|s| - 1]) then s else TrimPad(s[..|s| - 1])
  }

  /** ASCII decoding of one byte; a byte above 0x7f becomes '?'. */
  function AsciiChar(b: byte): (c: char)
    ensures b < 0x80 ==> c as int == b
    ensures b >= 0x80 ==> c == '?'
  {
    if b < 0x80 then b as char else '?'
  }

  /** The code's four little-endian bytes as ASCII, trailing NULs and spaces
      removed. */
  function CodeString(it: PreviewItem): (r: string)
    ensures |r| <= 4
    ensures forall i :: 0 <= i < |r| ==> r[i] == AsciiChar(WriteUInt32(it.code)[i])
    ensures forall i :: |r| <= i < 4 ==> IsPad(AsciiChar(WriteUInt32(it.code)[i]))
    ensures |r| == 0 || !IsPad(r[|r| - 1])
  {
    var bytes := WriteUInt32(it.code);
    var chars := [AsciiChar(bytes[0]), AsciiChar(bytes[1]), AsciiChar(bytes[2]), AsciiChar(bytes[3])];
    assert forall i :: 0 <= i < 4 ==> chars[i] == AsciiChar(bytes[i]);
    TrimPad(chars)
  }

  /** A thumbnail with code bytes "wsw\0" shows as "wsw" and survives
      encoding into exactly 12 bytes. */
  lemma WswItem()
    ensures var it := PreviewItem(0x777377, 0, 1, 0, 0);
            && WriteUInt32(it.code) == ['w' as int, 's' as int, 'w' as int, 0]
            && CodeString(it) == "wsw"
            && |WriteItem(it)| == 12
            && ReadItem(WriteItem(it)) == Some((it, []))
  {
    var it := PreviewItem(0x777377, 0, 1, 0, 0);
    WswCodeBytes();
    var chars := [AsciiChar(0x77), AsciiChar(0x73), AsciiChar(0x77), AsciiChar(0)];
    assert chars == ['w', 's', 'w', '\0'];
    assert chars[..3] == "wsw";
    assert TrimPad(chars) == TrimPad("wsw") == "wsw";
    ReadWriteItem(it, []);
    assert WriteItem(it) + [] == WriteItem(it);
  }

  /** The little-endian bytes of the code 0x777377. */
  lemma WswCodeBytes()
    ensures WriteUInt32(0x777377) == [0x77, 0x73, 0x77, 0]
  {
    assert 0x777377 % 256 == 0x77 && 0x777377 / 256 == 0x7773;
    assert 0x7773 % 256 == 0x73 && 0x7773 / 256 == 0x77;
    assert LeBytes(0x77, 2) == [0x77, 0];
    assert LeBytes(0x7773, 3) == [0x73, 0x77, 0];
  }

  // ---------------------------------------------------------------------
  // PreviewData

  function WritePreview(d: PreviewData): (s: seq<byte>)
    ensures |s| == PreviewWidth
  {
    WriteUInt64(d.expansionSaveTime) + WriteUInt64(d.classicSaveTime)
    + WriteUInt32(d.guildEmblemColor) + WriteUInt32(d.expansionExperience)
    + WriteUInt32(d.classicExperience)
    + WriteItem(d.leftHand) + WriteItem(d.rightHand) + WriteItem(d.torso) + WriteItem(d.head)
    + d.name + WriteUInt32(d.unk1)
  }

  /** A field written after prefix `p` occupies the positions right after it. */
  lemma FieldAfter(s: seq<byte>, p: seq<byte>, f: seq<byte>)
    requires p + f <= s
    ensures s[|p|..|p| + |f|] == f
  {
    assert s[|p|..|p| + |f|] == (p + f)[|p|..];
  }

  /** Where each field of the bundle lies in its encoding. */
  lemma PreviewLayout(d: PreviewData)
    ensures var s := WritePreview(d);
            && s[0..8] == WriteUInt64(d.expansionSaveTime)
            && s[8..16] == WriteUInt64(d.classicSaveTime)
            && s[16..20] == WriteUInt32(d.guildEmblemColor)
            && s[20..24] == WriteUInt32(d.expansionExperience)
            && s[24..28] == WriteUInt32(d.classicExperience)
            && s[28..40] == WriteItem(d.leftHand)
            && s[40..52] == WriteItem(d.rightHand)
            && s[52..64] == WriteItem(d.torso)
            && s[64..76] == WriteItem(d.head)
            && s[76..140] == d.name
            && s[140..144] == WriteUInt32(d.unk1)
  {
    var s := WritePreview(d);
    var p0: seq<byte> := [];
    var p1 := p0 + WriteUInt64(d.expansionSaveTime);
    var p2 := p1 + WriteUInt64(d.classicSaveTime);
    var p3 := p2 + WriteUInt32(d.guildEmblemColor);
    var p4 := p3 + WriteUInt32(d.expansionExperience);
    var p5 := p4 + WriteUInt32(d.classicExperience);
    var p6 := p5 + WriteItem(d.leftHand);
    var p7 := p6 + WriteItem(d.rightHand);
    var p8 := p7 + WriteItem(d.torso);
    var p9 := p8 + WriteItem(d.head);
    var p10 := p9 + d.name;
    var p11 := p10 + WriteUInt32(d.unk1);
    assert s == p11;
    assert p10 <= s && p9 <= s && p8 <= s && p7 <= s && p6 <= s;
    assert p5 <= s && p4 <= s && p3 <= s && p2 <= s && p1 <= s;
    FieldAfter(s, p0, WriteUInt64(d.expansionSaveTime));
    FieldAfter(s, p1, WriteUInt64(d.classicSaveTime));
    FieldAfter(s, p2, WriteUInt32(d.guildEmblemColor));
    FieldAfter(s, p3, WriteUInt32(d.expansionExperience));
    FieldAfter(s, p4, WriteUInt32(d.classicExperience));
    FieldAfter(s, p5, WriteItem(d.leftHand));
    FieldAfter(s, p6, WriteItem(d.rightHand));
    FieldAfter(s, p7, WriteItem(d.torso));
    FieldAfter(s, p8, WriteItem(d.head));
    FieldAfter(s, p9, d.name);
    FieldAfter(s, p10, WriteUInt32(d.unk1));
  }

  /** Reads the 64-byte name as raw bytes. */
  function ReadName(s: seq<byte>): (r: Option<(Name64, seq<byte>)>)
    ensures r.Some? <==> NameWidth <= |s|
    ensures r.Some? ==> |r.value.1| == |s| - NameWidth
    ensures r.Some? ==> r.value.0 + r.value.1 == s
  {
    var p :- ReadBytes(s, NameWidth);
    Some((p.0, p.1))
  }

  /** Reads the bundle; fails exactly when fewer than 144 bytes remain, and
      otherwise consumes the 144 bytes that re-encode to the result. */
  function ReadPreview(s: seq<byte>): (r: Option<(PreviewData, seq<byte>)>)
    ensures r.Some? <==> PreviewWidth <= |s|
    ensures r.Some? ==> |r.value.1| == |s| - PreviewWidth
  {
    var expansionSaveTime :- ReadUInt64(s);
    var classicSaveTime :- ReadUInt64(expansionSaveTime.1);
    var color :- ReadUInt32(classicSaveTime.1);
    var expansionExperience :- ReadUInt32(color.1);
    var classicExperience :- ReadUInt32(expansionExperience.1);
    var leftHand :- ReadItem(classicExperience.1);
    var rightHand :- ReadItem(leftHand.1);
    var torso :- ReadItem(rightHand.1);
    var head :- ReadItem(torso.1);
    var name :- ReadName(head.1);
    var unk1 :- ReadUInt32(name.1);
    Some((PreviewData(expansionSaveTime.0, classicSaveTime.0, color.0, expansionExperience.0,
                      classicExperience.0, leftHand.0, rightHand.0, torso.0, head.0, name.0, unk1.0),
          unk1.1))
  }

  /** Decoding inverts encoding for every bundle, whatever follows it. */
  lemma ReadWritePreview(d: PreviewData, rest: seq<byte>)
    ensures ReadPreview(WritePreview(d) + rest) == Some((d, rest))
  {
    var t10 := WriteUInt32(d.unk1) + rest;
    var t9 := d.name + t10;
    var t8 := WriteItem(d.head) + t9;
    var t7 := WriteItem(d.torso) + t8;
    var t6 := WriteItem(d.rightHand) + t7;
    var t5 := WriteItem(d.leftHand) + t6;
    var t4 := WriteUInt32(d.classicExperience) + t5;
    var t3 := WriteUInt32(d.expansionExperience) + t4;
    var t2 := WriteUInt32(d.guildEmblemColor) + t3;
    var t1 := WriteUInt64(d.classicSaveTime) + t2;
    assert WritePreview(d) + rest == WriteUInt64(d.expansionSaveTime) + t1;
    ReadWriteUInt64(d.expansionSaveTime, t1);
    ReadWriteUInt64(d.classicSaveTime, t2);
    ReadWriteUInt32(d.guildEmblemColor, t3);
    ReadWriteUInt32(d.expansionExperience, t4);
    ReadWriteUInt32(d.classicExperience, t5);
    ReadWriteItem(d.leftHand, t6);
    ReadWriteItem(d.rightHand, t7);
    ReadWriteItem(d.torso, t8);
    ReadWriteItem(d.head, t9);
    assert t9[..NameWidth] == d.name && t9[NameWidth..] == t10;
    assert ReadName(t9) == Some((d.name, t10));
    ReadWriteUInt32(d.unk1, rest);
  }

  /** Encoding inverts decoding: a successful read consumed exactly the
      encoding of what it returned. */
  lemma WriteReadPreview(s: seq<byte>, d: PreviewData, rest: seq<byte>)
    requires ReadPreview(s) == Some((d, rest))
    ensures s == WritePreview(d) + rest
  {
    var expansionSaveTime := ReadUInt64(s).value;
    var classicSaveTime := ReadUInt64(expansionSaveTime.1).value;
    var color := ReadUInt32(classicSaveTime.1).value;
    var expansionExperience := ReadUInt32(color.1).value;
    var classicExperience := ReadUInt32(expansionExperience.1).value;
    var leftHand := ReadItem(classicExperience.1).value;
    var rightHand := ReadItem(leftHand.1).value;
    var torso := ReadItem(rightHand.1).value;
    var head := ReadItem(torso.1).value;
    var name := ReadName(head.1).value;
    var unk1 := ReadUInt32(name.1).value;
    assert d == PreviewData(expansionSaveTime.0, classicSaveTime.0, color.0, expansionExperience.0,
                            classicExperience.0, leftHand.0, rightHand.0, torso.0, head.0, name.0, unk1.0);
    assert rest == unk1.1;
    Chain11(s, WriteUInt64(d.expansionSaveTime), expansionSaveTime.1,
            WriteUInt64(d.classicSaveTime), classicSaveTime.1,
            WriteUInt32(d.guildEmblemColor), color.1,
            WriteUInt32(d.expansionExperience), expansionExperience.1,
            WriteUInt32(d.classicExperience), classicExperience.1,
            WriteItem(d.leftHand), leftHand.1, WriteItem(d.rightHand), rightHand.1,
            WriteItem(d.torso), torso.1, WriteItem(d.head), head.1,
            d.name, name.1, WriteUInt32(d.unk1), rest);
  }

  /** The bytes of the colour field within an encoded bundle. */
  lemma ColorBytes(s: seq<byte>, d: PreviewData, rest: seq<byte>)
    requires s == WritePreview(d) + rest
    ensures WriteUInt32(d.guildEmblemColor) == s[16..20]
  {
    var w := WritePreview(d);
    PreviewLayout(d);
    assert s[16..20] == w[16..20];
  }

  /** The emblem colour is carried as a full 32-bit value: the three
      padding bytes read are the three written back. */
  lemma EmblemColorKeepsPadding(s: seq<byte>, d: PreviewData, rest: seq<byte>)
    requires ReadPreview(s) == Some((d, rest))
    ensures WriteUInt32(d.guildEmblemColor) == s[16..20]
  {
    WriteReadPreview(s, d, rest);
    ColorBytes(s, d, rest);
  }
}
