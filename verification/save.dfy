/** The save-file aggregate (the D2S record) and its decode/encode walk.

    Decoding is one pass over the buffer in a fixed order: header, the scalar
    run at 0x0010..0x0038, the skill bar at 0x0038..0x0088, the fixed
    sections from appearances to attributes, class skills, the player item
    and corpse lists, and, only when the status byte's expansion flag is
    set, the mercenary item list and the golem. Encoding writes the same
    fields in the same order. The record groups its fields by those runs;
    every field of the C# class is present, in wire order.

    The opaque sections are values of a type parameter `S` and are read
    and written through the codecs in a `Codecs<S>` bundle. */
module Save {
  import opened Wrappers
  import opened Bytes
  import Bits
  import StatusFlags
  import opened Preview
  import opened SectionCodecs

  /** Width of the character name field at 0x0014. */
  const CharNameWidth: nat := 16

  /** Width of each reserved region. */
  const ReservedWidth: nat := 2

  /** Written for the region at 0x0026 when the record holds none. */
  const DefaultUnk0x0026: seq<byte> := [0x00, 0x00]

  /** Written for the region at 0x0029 when the record holds none. */
  const DefaultUnk0x0029: seq<byte> := [0x10, 0x1E]

  /** Width of the scalar run 0x0010..0x0038: 4+16+1+1+2+1+2+1+4+4+4. */
  const ScalarRunWidth: nat := 40

  /** Number of assigned-skill slots. */
  const AssignedSkillCount: nat := 16

  /** The 16-byte character name, kept as its raw bytes. */
  type Name16 = s: seq<byte> | |s| == CharNameWidth
    witness seq(16, i => 0)

  /** The fields between the header and the skill bar. A reserved region is
      `None` for a record built in memory rather than decoded. */
  datatype ScalarRun = ScalarRun(
    activeWeapon: u32,             // 0x0010
    name: Name16,                  // 0x0014
    status: StatusFlags.Status,    // 0x0024
    progression: byte,             // 0x0025
    unk0x0026: Option<seq<byte>>,  // 0x0026, reserved (active arms)
    classId: byte,                 // 0x0028
    unk0x0029: Option<seq<byte>>,  // 0x0029, reserved (stats, skills)
    level: byte,                   // 0x002b
    created: u32,                  // 0x002c
    lastPlayed: u32,               // 0x0030
    playTime: u32)                 // 0x0034

  /** The sixteen assigned skills (0x0038) and the four quick skills. */
  datatype SkillBar<S> = SkillBar(
    assignedSkills: seq<S>,
    leftSkill: S,                       // 0x0078
    rightSkill: S,                      // 0x007c
    leftSwapSkill: S,                   // 0x0080
    rightSwapSkill: S)                  // 0x0084

  /** The fixed sequence of sections from 0x0088 to the attributes. */
  datatype Sections<S> = Sections(
    appearances: S,                // 0x0088
    location: S,                   // 0x00a8
    mapId: u32,
    mercenary: S,
    previewData: PreviewData,      // 0x00bf
    quests: S,                     // 0x014f
    waypoints: S,                  // 0x0279
    npcDialog: S,                  // 0x02c9
    attributes: S)                 // 0x02fc

  /** One character save. The mercenary item list and golem are `None`
      (null) when absent. */
  datatype D2S<S> = D2S(
    header: S,
    run: ScalarRun,
    skills: SkillBar<S>,
    sections: Sections<S>,
    classSkills: S,
    playerItemList: S,
    playerCorpses: S,
    mercenaryItemList: Option<S>,
    golem: Option<S>)

  /** The Read/Write pairs of the opaque sections, with the context each
      receives, and the header's format version. */
  datatype Codecs<!S> = Codecs(
    header: Codec<(), (), S>,
    version: S -> u32,
    skill: Codec<(), (), S>,
    appearances: Codec<(), (), S>,
    locations: Codec<(), (), S>,
    mercenary: Codec<(), (), S>,
    quests: Codec<(), (), S>,
    waypoints: Codec<(), (), S>,
    npcDialog: Codec<(), (), S>,
    attributes: Codec<(), (), S>,
    classSkills: Codec<byte, (), S>,          // read with the class id, written without
    itemList: Codec<u32, u32, S>,             // format version
    corpseList: Codec<u32, u32, S>,           // format version
    mercenaryItemList: Codec<(S, u32), (S, u32), S>,  // mercenary, format version
    golem: Codec<u32, u32, S>)                // format version

  // ---------------------------------------------------------------------
  // Scalar run

  /** The bytes written for a reserved region: the held bytes verbatim, or
      the default when the record holds none. */
  function Reserved(held: Option<seq<byte>>, default: seq<byte>): (s: seq<byte>)
    ensures held.Some? ==> s == held.value
    ensures held.None? ==> s == default
  {
    if held.Some? then held.value else default
  }

  /** A reserved region that is absent or exactly two bytes wide. */
  predicate ReservedFits(held: Option<seq<byte>>)
  {
    held.None? || |held.value| == ReservedWidth
  }

  function ReadName16(s: seq<byte>): (r: Option<(Name16, seq<byte>)>)
    ensures r.Some? <==> CharNameWidth <= |s|
    ensures r.Some? ==> |r.value.1| == |s| - CharNameWidth && r.value.0 + r.value.1 == s
  {
    var p :- ReadBytes(s, CharNameWidth);
    Some((p.0, p.1))
  }

  function ReadReserved(s: seq<byte>): (r: Option<(Option<seq<byte>>, seq<byte>)>)
    ensures r.Some? <==> ReservedWidth <= |s|
    ensures r.Some? ==> |r.value.1| == |s| - ReservedWidth
    ensures r.Some? ==> r.value.0.Some? && |r.value.0.value| == ReservedWidth
    ensures r.Some? ==> r.value.0.value + r.value.1 == s
  {
    var p :- ReadBytes(s, ReservedWidth);
    Some((Some(p.0), p.1))
  }

  function ReadStatus(s: seq<byte>): (r: Option<(StatusFlags.Status, seq<byte>)>)
    ensures r.Some? <==> 1 <= |s|
    ensures r.Some? ==> |r.value.1| == |s| - 1
    ensures r.Some? ==> [r.value.0.Byte()] + r.value.1 == s
  {
    var b :- ReadByte(s);
    Some((StatusFlags.Read(b.0), b.1))
  }

  /** The status byte as the bit writer emits it. */
  function WriteStatus(st: StatusFlags.Status): (s: seq<byte>)
    ensures s == [st.Byte()]
  {
    Bits.PackBits(st.Write())
  }

  function ReadScalarRun(s: seq<byte>): (r: Option<(ScalarRun, seq<byte>)>)
    ensures r.Some? <==> ScalarRunWidth <= |s|
    ensures r.Some? ==> |r.value.1| == |s| - ScalarRunWidth
    ensures r.Some? ==> r.value.0.unk0x0026.Some? && |r.value.0.unk0x0026.value| == ReservedWidth
    ensures r.Some? ==> r.value.0.unk0x0029.Some? && |r.value.0.unk0x0029.value| == ReservedWidth
  {
    var activeWeapon :- ReadUInt32(s);
    var name :- ReadName16(activeWeapon.1);
    var status :- ReadStatus(name.1);
    var progression :- ReadByte(status.1);
    var unk0x0026 :- ReadReserved(progression.1);
    var classId :- ReadByte(unk0x0026.1);
    var unk0x0029 :- ReadReserved(classId.1);
    var level :- ReadByte(unk0x0029.1);
    var created :- ReadUInt32(level.1);
    var lastPlayed :- ReadUInt32(created.1);
    var playTime :- ReadUInt32(lastPlayed.1);
    Some((ScalarRun(activeWeapon.0, name.0, status.0, progression.0, unk0x0026.0, classId.0,
                    unk0x0029.0, level.0, created.0, lastPlayed.0, playTime.0),
          playTime.1))
  }

  function WriteScalarRun(run: ScalarRun): (s: seq<byte>)
    ensures ReservedFits(run.unk0x0026) && ReservedFits(run.unk0x0029) ==> |s| == ScalarRunWidth
  {
    WriteUInt32(run.activeWeapon) + run.name + WriteStatus(run.status) + [run.progression]
    + Reserved(run.unk0x0026, DefaultUnk0x0026) + [run.classId]
    + Reserved(run.unk0x0029, DefaultUnk0x0029) + [run.level]
    + WriteUInt32(run.created) + WriteUInt32(run.lastPlayed) + WriteUInt32(run.playTime)
  }

  // ---------------------------------------------------------------------
  // Skill bar

  function ReadSkillBar<S>(c: Codec<(), (), S>, s: seq<byte>): (r: Option<(SkillBar<S>, seq<byte>)>)
    ensures r.Some? ==> |r.value.0.assignedSkills| == AssignedSkillCount
  {
    var slots :- ReadMany(c, AssignedSkillCount, s);
    var left :- c.decode((), slots.1);
    var right :- c.decode((), left.1);
    var leftSwap :- c.decode((), right.1);
    var rightSwap :- c.decode((), leftSwap.1);
    Some((SkillBar(slots.0, left.0, right.0, leftSwap.0, rightSwap.0), rightSwap.1))
  }

  /** Width of one encoded skill: the quick skills sit four bytes apart. */
  const SkillWidth: nat := 4

  /** Writes slots 0..15 of the assigned skills (the C# writer indexes them
      directly, so fewer than sixteen is an error), then the quick skills.
      The bar opens with the sixteen slots in order, so a slot past the
      sixteenth never reaches the buffer. */
  function WriteSkillBar<S>(c: Codec<(), (), S>, sb: SkillBar<S>): (s: seq<byte>)
    requires |sb.assignedSkills| >= AssignedSkillCount
    ensures WriteMany(c, sb.assignedSkills[..AssignedSkillCount]) <= s
  {
    WriteMany(c, sb.assignedSkills[..AssignedSkillCount])
    + c.encode((), sb.leftSkill) + c.encode((), sb.rightSkill)
    + c.encode((), sb.leftSwapSkill) + c.encode((), sb.rightSwapSkill)
  }

  // ---------------------------------------------------------------------
  // Fixed sections

  function ReadSections<S>(cs: Codecs<S>, s: seq<byte>): (r: Option<(Sections<S>, seq<byte>)>)
  {
    var appearances :- cs.appearances.decode((), s);
    var location :- cs.locations.decode((), appearances.1);
    var mapId :- ReadUInt32(location.1);
    var mercenary :- cs.mercenary.decode((), mapId.1);
    var previewData :- ReadPreview(mercenary.1);
    var quests :- cs.quests.decode((), previewData.1);
    var waypoints :- cs.waypoints.decode((), quests.1);
    var npcDialog :- cs.npcDialog.decode((), waypoints.1);
    var attributes :- cs.attributes.decode((), npcDialog.1);
    Some((Sections(appearances.0, location.0, mapId.0, mercenary.0, previewData.0, quests.0,
                   waypoints.0, npcDialog.0, attributes.0),
          attributes.1))
  }

  /** The fixed sections: the map id takes four bytes and the preview
      record 0x90, between sections whose widths their codecs decide. */
  function WriteSections<S>(cs: Codecs<S>, sc: Sections<S>): (s: seq<byte>)
    ensures |s| == |cs.appearances.encode((), sc.appearances)| + |cs.locations.encode((), sc.location)|
                   + 4 + |cs.mercenary.encode((), sc.mercenary)| + PreviewWidth
                   + |cs.quests.encode((), sc.quests)| + |cs.waypoints.encode((), sc.waypoints)|
                   + |cs.npcDialog.encode((), sc.npcDialog)| + |cs.attributes.encode((), sc.attributes)|
  {
    cs.appearances.encode((), sc.appearances) + cs.locations.encode((), sc.location)
    + WriteUInt32(sc.mapId) + cs.mercenary.encode((), sc.mercenary)
    + WritePreview(sc.previewData) + cs.quests.encode((), sc.quests)
    + cs.waypoints.encode((), sc.waypoints) + cs.npcDialog.encode((), sc.npcDialog)
    + cs.attributes.encode((), sc.attributes)
  }

  // ---------------------------------------------------------------------
  // Expansion-only sections

  /** The one branch of the walk: the mercenary item list and the golem
      are read when, and only when, the expansion flag is set. */
  function ReadExpansion<S>(cs: Codecs<S>, expansion: bool, mercenary: S, version: u32, s: seq<byte>)
    : (r: Option<((Option<S>, Option<S>), seq<byte>)>)
    ensures r.Some? ==> (r.value.0.0.Some? <==> expansion) && (r.value.0.1.Some? <==> expansion)
    ensures !expansion ==> r == Some(((None, None), s))
  {
    if !expansion then Some(((None, None), s))
    else
      var items :- cs.mercenaryItemList.decode((mercenary, version), s);
      var golem :- cs.golem.decode(version, items.1);
      Some(((Some(items.0), Some(golem.0)), golem.1))
  }

  /** Emits each expansion section that the record holds, and nothing at
      all when the expansion flag is clear. */
  function WriteExpansion<S>(cs: Codecs<S>, expansion: bool, mercenary: S, version: u32,
                             items: Option<S>, golem: Option<S>): (s: seq<byte>)
    ensures !expansion ==> s == []
    ensures expansion && items.None? && golem.None? ==> s == []
  {
    if !expansion then []
    else
      (if items.Some? then cs.mercenaryItemList.encode((mercenary, version), items.value) else [])
      + (if golem.Some? then cs.golem.encode(version, golem.value) else [])
  }

  // ---------------------------------------------------------------------
  // The whole record

  /** The shape every decoded record has: both reserved regions held and
      two bytes wide, exactly sixteen assigned skills, and the mercenary
      item list and golem present exactly when the expansion flag is set. */
  predicate Shaped<S>(r: D2S<S>)
  {
    && r.run.unk0x0026.Some? && |r.run.unk0x0026.value| == ReservedWidth
    && r.run.unk0x0029.Some? && |r.run.unk0x0029.value| == ReservedWidth
    && |r.skills.assignedSkills| == AssignedSkillCount
    && (r.mercenaryItemList.Some? <==> r.run.status.IsExpansion())
    && (r.golem.Some? <==> r.run.status.IsExpansion())
  }

  /** The private constructor: the full decode walk. Whatever it returns
      has the shape of a decoded record: the two reserved regions were
      read, exactly sixteen skill slots were read, and the expansion
      sections were read exactly when the status byte's flag is set. */
  function ReadBody<S>(cs: Codecs<S>, s: seq<byte>): (r: Option<(D2S<S>, seq<byte>)>)
    ensures r.Some? ==> Shaped(r.value.0)
  {
    var header :- cs.header.decode((), s);
    var run :- ReadScalarRun(header.1);
    var skills :- ReadSkillBar(cs.skill, run.1);
    var sections :- ReadSections(cs, skills.1);
    var version := cs.version(header.0);
    var classSkills :- cs.classSkills.decode(run.0.classId, sections.1);
    var items :- cs.itemList.decode(version, classSkills.1);
    var corpses :- cs.corpseList.decode(version, items.1);
    var expansion :- ReadExpansion(cs, run.0.status.IsExpansion(), sections.0.mercenary, version, corpses.1);
    Some((D2S(header.0, run.0, skills.0, sections.0, classSkills.0, items.0, corpses.0,
              expansion.0.0, expansion.0.1),
          expansion.1))
  }

  /** Everything up to and including the corpse list. */
  function WritePrefix<S>(cs: Codecs<S>, r: D2S<S>): (s: seq<byte>)
    requires |r.skills.assignedSkills| >= AssignedSkillCount
  {
    var version := cs.version(r.header);
    cs.header.encode((), r.header) + WriteScalarRun(r.run) + WriteSkillBar(cs.skill, r.skills)
    + WriteSections(cs, r.sections) + cs.classSkills.encode((), r.classSkills)
    + cs.itemList.encode(version, r.playerItemList) + cs.corpseList.encode(version, r.playerCorpses)
  }

  /** `Write(IBitWriter)`: the body, before the checksum is fixed. The
      expansion flag decides whether anything follows the corpse list. */
  function WriteBody<S>(cs: Codecs<S>, r: D2S<S>): (s: seq<byte>)
    requires |r.skills.assignedSkills| >= AssignedSkillCount
    ensures WritePrefix(cs, r) <= s
    ensures !r.run.status.IsExpansion() ==> s == WritePrefix(cs, r)
  {
    WritePrefix(cs, r)
    + WriteExpansion(cs, r.run.status.IsExpansion(), r.sections.mercenary, cs.version(r.header),
                     r.mercenaryItemList, r.golem)
  }

  /** The reader's position, in bits, after a walk that left `rest` unread. */
  function ConsumedBits(input: seq<byte>, rest: seq<byte>): int
  {
    (|input| - |rest|) * 8
  }

  /** `Read`: decode the buffer, then check that the cursor stopped exactly
      at its end. */
  function Read<S>(cs: Codecs<S>, bytes: seq<byte>): (r: Option<D2S<S>>)
    ensures r.Some? <==> ReadBody(cs, bytes).Some? && ReadBody(cs, bytes).value.1 == []
    ensures r.Some? ==> r.value == ReadBody(cs, bytes).value.0
  {
    var body :- ReadBody(cs, bytes);
    if ConsumedBits(bytes, body.1) == |bytes| * 8 then Some(body.0) else None
  }

  /** `Write(D2S)`: the body into a fresh array, then the header's checksum
      fix-up applied once to the finished array. The fix-up patches the
      array in place, so it is given as a length-preserving `fix`. */
  function Write<S>(cs: Codecs<S>, fix: seq<byte> -> seq<byte>, r: D2S<S>): (bytes: seq<byte>)
    requires |r.skills.assignedSkills| >= AssignedSkillCount
    ensures (forall b :: |fix(b)| == |b|) ==> |bytes| == |WriteBody(cs, r)|
  {
    fix(WriteBody(cs, r))
  }

  /** `WritePooled(D2S)`: the same walk and fix-up into a pooled buffer. */
  function WritePooled<S>(cs: Codecs<S>, fix: seq<byte> -> seq<byte>, r: D2S<S>): (bytes: seq<byte>)
    requires |r.skills.assignedSkills| >= AssignedSkillCount
    ensures bytes == Write(cs, fix, r)
  {
    var pooled := WriteBody(cs, r);
    fix(pooled)
  }
}
