/** Where the fixed part of the save file lies: the scalar run after the
    16-byte header, the sixteen assigned skills and the four quick skills,
    at the offsets the record's field comments give (0x0010 to 0x0088). */
module SaveLayout {
  import opened Wrappers
  import opened Bytes
  import StatusFlags
  import opened Preview
  import opened SectionCodecs
  import opened Save

  /** Width of the header, which ends where the active weapon starts. */
  const HeaderWidth: nat := 0x10

  /** Offsets of each scalar, relative to the start of the run. */
  lemma ScalarRunLayout(run: ScalarRun)
    requires ReservedFits(run.unk0x0026) && ReservedFits(run.unk0x0029)
    ensures var s := WriteScalarRun(run);
            && |s| == ScalarRunWidth
            && s[0..4] == WriteUInt32(run.activeWeapon)
            && s[4..20] == run.name
            && s[20] == run.status.Byte()
            && s[21] == run.progression
            && s[22..24] == (if run.unk0x0026.Some? then run.unk0x0026.value else [0x00, 0x00])
            && s[24] == run.classId
            && s[25..27] == (if run.unk0x0029.Some? then run.unk0x0029.value else [0x10, 0x1E])
            && s[27] == run.level
            && s[28..32] == WriteUInt32(run.created)
            && s[32..36] == WriteUInt32(run.lastPlayed)
            && s[36..40] == WriteUInt32(run.playTime)
  {
    var s := WriteScalarRun(run);
    var p1 := WriteUInt32(run.activeWeapon);
    var p2 := p1 + run.name;
    var p3 := p2 + WriteStatus(run.status);
    var p4 := p3 + [run.progression];
    var p5 := p4 + Reserved(run.unk0x0026, DefaultUnk0x0026);
    var p6 := p5 + [run.classId];
    var p7 := p6 + Reserved(run.unk0x0029, DefaultUnk0x0029);
    var p8 := p7 + [run.level];
    var p9 := p8 + WriteUInt32(run.created);
    var p10 := p9 + WriteUInt32(run.lastPlayed);
    assert s == p10 + WriteUInt32(run.playTime);
    assert p9 <= s && p8 <= s && p7 <= s && p6 <= s && p5 <= s;
    assert p4 <= s && p3 <= s && p2 <= s && p1 <= s;
    FieldAfter(s, [], p1);
    FieldAfter(s, p1, run.name);
    FieldAfter(s, p4, Reserved(run.unk0x0026, DefaultUnk0x0026));
    FieldAfter(s, p6, Reserved(run.unk0x0029, DefaultUnk0x0029));
    FieldAfter(s, p8, WriteUInt32(run.created));
    FieldAfter(s, p9, WriteUInt32(run.lastPlayed));
    FieldAfter(s, p10, WriteUInt32(run.playTime));
    assert s[20] == p3[20] && s[21] == p4[21] && s[24] == p6[24] && s[27] == p8[27];
  }

  /** Offsets of each skill, relative to the start of the skill bar, when
      every skill encodes to four bytes: sixteen assigned skills, then the
      left, right, left-swap and right-swap skills. */
  lemma SkillBarLayout<S>(c: Codec<(), (), S>, sb: SkillBar<S>)
    requires |sb.assignedSkills| >= AssignedSkillCount
    requires forall x :: |c.encode((), x)| == SkillWidth
    ensures var s := WriteSkillBar(c, sb);
            && |s| == 0x50
            && (forall i :: 0 <= i < AssignedSkillCount ==>
                  s[4 * i..4 * i + 4] == c.encode((), sb.assignedSkills[i]))
            && s[0x40..0x44] == c.encode((), sb.leftSkill)
            && s[0x44..0x48] == c.encode((), sb.rightSkill)
            && s[0x48..0x4c] == c.encode((), sb.leftSwapSkill)
            && s[0x4c..0x50] == c.encode((), sb.rightSwapSkill)
  {
    var s := WriteSkillBar(c, sb);
    var slots := sb.assignedSkills[..AssignedSkillCount];
    var m := WriteMany(c, slots);
    WriteManyUniform(c, slots, SkillWidth);
    var p1 := m + c.encode((), sb.leftSkill);
    var p2 := p1 + c.encode((), sb.rightSkill);
    var p3 := p2 + c.encode((), sb.leftSwapSkill);
    assert s == p3 + c.encode((), sb.rightSwapSkill);
    assert p2 <= s && p1 <= s && m <= s;
    FieldAfter(s, m, c.encode((), sb.leftSkill));
    FieldAfter(s, p1, c.encode((), sb.rightSkill));
    FieldAfter(s, p2, c.encode((), sb.leftSwapSkill));
    FieldAfter(s, p3, c.encode((), sb.rightSwapSkill));
    forall i | 0 <= i < AssignedSkillCount
      ensures s[4 * i..4 * i + 4] == c.encode((), sb.assignedSkills[i])
    {
      assert slots[i] == sb.assignedSkills[i];
      assert s[4 * i..4 * i + 4] == m[4 * i..4 * i + 4];
    }
  }

  /** With a 16-byte header and 4-byte skills, the fixed part of the body
      sits at the absolute offsets of the record's field comments, and the
      appearances section starts at 0x0088. */
  lemma BodyLayout<S>(cs: Codecs<S>, r: D2S<S>)
    requires |r.skills.assignedSkills| >= AssignedSkillCount
    requires ReservedFits(r.run.unk0x0026) && ReservedFits(r.run.unk0x0029)
    requires |cs.header.encode((), r.header)| == HeaderWidth
    requires forall x :: |cs.skill.encode((), x)| == SkillWidth
    ensures var b := WriteBody(cs, r);
            && 0x88 <= |b|
            && b[0x10..0x38] == WriteScalarRun(r.run)
            && b[0x38..0x88] == WriteSkillBar(cs.skill, r.skills)
            && WriteSections(cs, r.sections) <= b[0x88..]
  {
    var b := WriteBody(cs, r);
    var h := cs.header.encode((), r.header);
    var sr := WriteScalarRun(r.run);
    var sb := WriteSkillBar(cs.skill, r.skills);
    ScalarRunLayout(r.run);
    SkillBarLayout(cs.skill, r.skills);
    var tail := cs.classSkills.encode((), r.classSkills)
                + cs.itemList.encode(cs.version(r.header), r.playerItemList)
                + cs.corpseList.encode(cs.version(r.header), r.playerCorpses)
                + WriteExpansion(cs, r.run.status.IsExpansion(), r.sections.mercenary,
                                 cs.version(r.header), r.mercenaryItemList, r.golem);
    assert b == h + sr + sb + (WriteSections(cs, r.sections) + tail);
    FieldAfter(b, h, sr);
    FieldAfter(b, h + sr, sb);
    assert b[0x88..] == WriteSections(cs, r.sections) + tail;
  }

  /** The absolute offset of each scalar and skill, as the record's field
      comments give them. */
  lemma BodyOffsets<S>(cs: Codecs<S>, r: D2S<S>)
    requires |r.skills.assignedSkills| >= AssignedSkillCount
    requires ReservedFits(r.run.unk0x0026) && ReservedFits(r.run.unk0x0029)
    requires |cs.header.encode((), r.header)| == HeaderWidth
    requires forall x :: |cs.skill.encode((), x)| == SkillWidth
    ensures var b := WriteBody(cs, r);
            && 0x88 <= |b|
            && b[0x10..0x14] == WriteUInt32(r.run.activeWeapon)
            && b[0x14..0x24] == r.run.name
            && b[0x24] == r.run.status.Byte()
            && b[0x25] == r.run.progression
            && b[0x26..0x28] == (if r.run.unk0x0026.Some? then r.run.unk0x0026.value else [0x00, 0x00])
            && b[0x28] == r.run.classId
            && b[0x29..0x2b] == (if r.run.unk0x0029.Some? then r.run.unk0x0029.value else [0x10, 0x1E])
            && b[0x2b] == r.run.level
            && b[0x2c..0x30] == WriteUInt32(r.run.created)
            && b[0x30..0x34] == WriteUInt32(r.run.lastPlayed)
            && b[0x34..0x38] == WriteUInt32(r.run.playTime)
            && (forall i :: 0 <= i < AssignedSkillCount ==>
                  b[0x38 + 4 * i..0x3c + 4 * i] == cs.skill.encode((), r.skills.assignedSkills[i]))
            && b[0x78..0x7c] == cs.skill.encode((), r.skills.leftSkill)
            && b[0x7c..0x80] == cs.skill.encode((), r.skills.rightSkill)
            && b[0x80..0x84] == cs.skill.encode((), r.skills.leftSwapSkill)
            && b[0x84..0x88] == cs.skill.encode((), r.skills.rightSwapSkill)
  {
    var b := WriteBody(cs, r);
    BodyLayout(cs, r);
    RunAt(b, r.run);
    SkillsAt(b, cs.skill, r.skills);
  }

  /** The scalars of a run placed at 0x0010. */
  lemma RunAt(b: seq<byte>, run: ScalarRun)
    requires ReservedFits(run.unk0x0026) && ReservedFits(run.unk0x0029)
    requires 0x38 <= |b| && b[0x10..0x38] == WriteScalarRun(run)
    ensures b[0x10..0x14] == WriteUInt32(run.activeWeapon)
    ensures b[0x14..0x24] == run.name
    ensures b[0x24] == run.status.Byte() && b[0x25] == run.progression
    ensures b[0x26..0x28] == (if run.unk0x0026.Some? then run.unk0x0026.value else [0x00, 0x00])
    ensures b[0x28] == run.classId
    ensures b[0x29..0x2b] == (if run.unk0x0029.Some? then run.unk0x0029.value else [0x10, 0x1E])
    ensures b[0x2b] == run.level
    ensures b[0x2c..0x30] == WriteUInt32(run.created)
    ensures b[0x30..0x34] == WriteUInt32(run.lastPlayed)
    ensures b[0x34..0x38] == WriteUInt32(run.playTime)
  {
    ScalarRunLayout(run);
    var sr := b[0x10..0x38];
    SubSlice(b, 0x10, 0x38, 0, 4);
    SubSlice(b, 0x10, 0x38, 4, 20);
    SubSlice(b, 0x10, 0x38, 22, 24);
    SubSlice(b, 0x10, 0x38, 25, 27);
    SubSlice(b, 0x10, 0x38, 28, 32);
    SubSlice(b, 0x10, 0x38, 32, 36);
    SubSlice(b, 0x10, 0x38, 36, 40);
    assert b[0x24] == sr[20] && b[0x25] == sr[21] && b[0x28] == sr[24] && b[0x2b] == sr[27];
  }

  /** The skills of a skill bar placed at 0x0038. */
  lemma SkillsAt<S>(b: seq<byte>, c: Codec<(), (), S>, sb: SkillBar<S>)
    requires |sb.assignedSkills| >= AssignedSkillCount
    requires forall x :: |c.encode((), x)| == SkillWidth
    requires 0x88 <= |b| && b[0x38..0x88] == WriteSkillBar(c, sb)
    ensures forall i :: 0 <= i < AssignedSkillCount ==>
              b[0x38 + 4 * i..0x3c + 4 * i] == c.encode((), sb.assignedSkills[i])
    ensures b[0x78..0x7c] == c.encode((), sb.leftSkill)
    ensures b[0x7c..0x80] == c.encode((), sb.rightSkill)
    ensures b[0x80..0x84] == c.encode((), sb.leftSwapSkill)
    ensures b[0x84..0x88] == c.encode((), sb.rightSwapSkill)
  {
    SkillBarLayout(c, sb);
    var s := b[0x38..0x88];
    forall i | 0 <= i < AssignedSkillCount
      ensures b[0x38 + 4 * i..0x3c + 4 * i] == c.encode((), sb.assignedSkills[i])
    {
      SubSlice(b, 0x38, 0x88, 4 * i, 4 * i + 4);
    }
    SubSlice(b, 0x38, 0x88, 0x40, 0x44);
    SubSlice(b, 0x38, 0x88, 0x44, 0x48);
    SubSlice(b, 0x38, 0x88, 0x48, 0x4c);
    SubSlice(b, 0x38, 0x88, 0x4c, 0x50);
  }
}
