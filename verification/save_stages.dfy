/** Round trips of each stage of the save-file walk, in both directions:
    decoding what a stage wrote gives the stage's value back, and a
    successful decode consumed exactly what the stage writes for its
    result. */
module SaveStages {
  import opened Wrappers
  import opened Bytes
  import StatusFlags
  import opened Preview
  import opened SectionCodecs
  import opened Save

  // ---------------------------------------------------------------------
  // Scalar run

  lemma ReadWriteName16(name: Name16, rest: seq<byte>)
    ensures ReadName16(name + rest) == Some((name, rest))
  {
    assert (name + rest)[..CharNameWidth] == name;
    assert (name + rest)[CharNameWidth..] == rest;
  }

  lemma ReadWriteReserved(held: seq<byte>, rest: seq<byte>)
    requires |held| == ReservedWidth
    ensures ReadReserved(held + rest) == Some((Some(held), rest))
  {
    assert (held + rest)[..ReservedWidth] == held;
    assert (held + rest)[ReservedWidth..] == rest;
  }

  lemma ReadWriteStatus(st: StatusFlags.Status, rest: seq<byte>)
    ensures ReadStatus(WriteStatus(st) + rest) == Some((st, rest))
  {
    StatusFlags.ReadOfByte(st);
  }

  /** Decoding inverts encoding for every scalar run whose reserved regions
      are held and two bytes wide (as every decoded run's are). */
  lemma ReadWriteScalarRun(run: ScalarRun, rest: seq<byte>)
    requires run.unk0x0026.Some? && |run.unk0x0026.value| == ReservedWidth
    requires run.unk0x0029.Some? && |run.unk0x0029.value| == ReservedWidth
    ensures ReadScalarRun(WriteScalarRun(run) + rest) == Some((run, rest))
  {
    var t10 := WriteUInt32(run.playTime) + rest;
    var t9 := WriteUInt32(run.lastPlayed) + t10;
    var t8 := WriteUInt32(run.created) + t9;
    var t7 := [run.level] + t8;
    var t6 := run.unk0x0029.value + t7;
    var t5 := [run.classId] + t6;
    var t4 := run.unk0x0026.value + t5;
    var t3 := [run.progression] + t4;
    var t2 := WriteStatus(run.status) + t3;
    var t1 := run.name + t2;
    assert WriteScalarRun(run) + rest == WriteUInt32(run.activeWeapon) + t1;
    ReadWriteUInt32(run.activeWeapon, t1);
    ReadWriteName16(run.name, t2);
    ReadWriteStatus(run.status, t3);
    ReadWriteReserved(run.unk0x0026.value, t5);
    ReadWriteReserved(run.unk0x0029.value, t7);
    ReadWriteUInt32(run.created, t9);
    ReadWriteUInt32(run.lastPlayed, t10);
    ReadWriteUInt32(run.playTime, rest);
  }

  /** A successful scalar-run decode consumed exactly the run's encoding. */
  lemma WriteReadScalarRun(s: seq<byte>, run: ScalarRun, rest: seq<byte>)
    requires ReadScalarRun(s) == Some((run, rest))
    ensures s == WriteScalarRun(run) + rest
  {
    var activeWeapon := ReadUInt32(s).value;
    var name := ReadName16(activeWeapon.1).value;
    var status := ReadStatus(name.1).value;
    var progression := ReadByte(status.1).value;
    var unk0x0026 := ReadReserved(progression.1).value;
    var classId := ReadByte(unk0x0026.1).value;
    var unk0x0029 := ReadReserved(classId.1).value;
    var level := ReadByte(unk0x0029.1).value;
    var created := ReadUInt32(level.1).value;
    var lastPlayed := ReadUInt32(created.1).value;
    var playTime := ReadUInt32(lastPlayed.1).value;
    assert run == ScalarRun(activeWeapon.0, name.0, status.0, progression.0, unk0x0026.0, classId.0,
                            unk0x0029.0, level.0, created.0, lastPlayed.0, playTime.0);
    assert rest == playTime.1;
    Chain11(s, WriteUInt32(run.activeWeapon), activeWeapon.1, run.name, name.1,
            WriteStatus(run.status), status.1, [run.progression], progression.1,
            run.unk0x0026.value, unk0x0026.1, [run.classId], classId.1,
            run.unk0x0029.value, unk0x0029.1, [run.level], level.1,
            WriteUInt32(run.created), created.1, WriteUInt32(run.lastPlayed), lastPlayed.1,
            WriteUInt32(run.playTime), rest);
  }


  // ---------------------------------------------------------------------
  // Skill bar

  lemma ReadWriteSkillBar<S(!new)>(c: Codec<(), (), S>, sb: SkillBar<S>, rest: seq<byte>)
    requires Inverts(c)
    requires |sb.assignedSkills| == AssignedSkillCount
    requires forall i :: 0 <= i < |sb.assignedSkills| ==> c.fits((), sb.assignedSkills[i])
    requires c.fits((), sb.leftSkill) && c.fits((), sb.rightSkill)
    requires c.fits((), sb.leftSwapSkill) && c.fits((), sb.rightSwapSkill)
    ensures ReadSkillBar(c, WriteSkillBar(c, sb) + rest) == Some((sb, rest))
  {
    var t4 := c.encode((), sb.rightSkill) + (c.encode((), sb.leftSwapSkill) + (c.encode((), sb.rightSwapSkill) + rest));
    var t3 := c.encode((), sb.leftSkill) + t4;
    assert sb.assignedSkills[..AssignedSkillCount] == sb.assignedSkills;
    assert WriteSkillBar(c, sb) + rest == WriteMany(c, sb.assignedSkills) + t3;
    ReadWriteMany(c, sb.assignedSkills, t3);
    UseInverts(c, (), sb.leftSkill, t4);
    UseInverts(c, (), sb.rightSkill, c.encode((), sb.leftSwapSkill) + (c.encode((), sb.rightSwapSkill) + rest));
    UseInverts(c, (), sb.leftSwapSkill, c.encode((), sb.rightSwapSkill) + rest);
    UseInverts(c, (), sb.rightSwapSkill, rest);
  }

  /** Slots past the sixteenth are never written: appending to the
      assigned skills leaves the encoded bar unchanged. */
  lemma WriteSkillBarIgnoresExtraSlots<S>(c: Codec<(), (), S>, sb: SkillBar<S>, more: seq<S>)
    requires |sb.assignedSkills| >= AssignedSkillCount
    ensures WriteSkillBar(c, sb.(assignedSkills := sb.assignedSkills + more)) == WriteSkillBar(c, sb)
  {
    assert (sb.assignedSkills + more)[..AssignedSkillCount] == sb.assignedSkills[..AssignedSkillCount];
  }

  lemma WriteReadSkillBar<S(!new)>(c: Codec<(), (), S>, s: seq<byte>, sb: SkillBar<S>, rest: seq<byte>)
    requires Canonical(c)
    requires ReadSkillBar(c, s) == Some((sb, rest))
    ensures |sb.assignedSkills| == AssignedSkillCount
    ensures s == WriteSkillBar(c, sb) + rest
    ensures forall i :: 0 <= i < |sb.assignedSkills| ==> c.fits((), sb.assignedSkills[i])
    ensures c.fits((), sb.leftSkill) && c.fits((), sb.rightSkill)
    ensures c.fits((), sb.leftSwapSkill) && c.fits((), sb.rightSwapSkill)
  {
    var slots := ReadMany(c, AssignedSkillCount, s).value;
    var left := c.decode((), slots.1).value;
    var right := c.decode((), left.1).value;
    var leftSwap := c.decode((), right.1).value;
    var rightSwap := c.decode((), leftSwap.1).value;
    WriteReadMany(c, AssignedSkillCount, s, slots.0, slots.1);
    UseCanonical(c, (), slots.1);
    UseCanonical(c, (), left.1);
    UseCanonical(c, (), right.1);
    UseCanonical(c, (), leftSwap.1);
    assert sb.assignedSkills[..AssignedSkillCount] == sb.assignedSkills;
    assert slots.1 == c.encode((), sb.leftSkill) + (c.encode((), sb.rightSkill)
                      + (c.encode((), sb.leftSwapSkill) + (c.encode((), sb.rightSwapSkill) + rest)));
  }

  // ---------------------------------------------------------------------
  // Fixed sections

  ghost predicate SectionsInvert<S(!new)>(cs: Codecs<S>)
  {
    && Inverts(cs.appearances) && Inverts(cs.locations)
    && Inverts(cs.mercenary) && Inverts(cs.quests)
    && Inverts(cs.waypoints) && Inverts(cs.npcDialog)
    && Inverts(cs.attributes)
  }

  ghost predicate SectionsCanonical<S(!new)>(cs: Codecs<S>)
  {
    && Canonical(cs.appearances) && Canonical(cs.locations)
    && Canonical(cs.mercenary) && Canonical(cs.quests)
    && Canonical(cs.waypoints) && Canonical(cs.npcDialog)
    && Canonical(cs.attributes)
  }

  predicate SectionsFit<S>(cs: Codecs<S>, sc: Sections<S>)
  {
    && cs.appearances.fits((), sc.appearances) && cs.locations.fits((), sc.location)
    && cs.mercenary.fits((), sc.mercenary) && cs.quests.fits((), sc.quests)
    && cs.waypoints.fits((), sc.waypoints) && cs.npcDialog.fits((), sc.npcDialog)
    && cs.attributes.fits((), sc.attributes)
  }

  lemma ReadWriteSections<S(!new)>(cs: Codecs<S>, sc: Sections<S>, rest: seq<byte>)
    requires SectionsInvert(cs) && SectionsFit(cs, sc)
    ensures ReadSections(cs, WriteSections(cs, sc) + rest) == Some((sc, rest))
  {
    var t8 := cs.attributes.encode((), sc.attributes) + rest;
    var t7 := cs.npcDialog.encode((), sc.npcDialog) + t8;
    var t6 := cs.waypoints.encode((), sc.waypoints) + t7;
    var t5 := cs.quests.encode((), sc.quests) + t6;
    var t4 := WritePreview(sc.previewData) + t5;
    var t3 := cs.mercenary.encode((), sc.mercenary) + t4;
    var t2 := WriteUInt32(sc.mapId) + t3;
    var t1 := cs.locations.encode((), sc.location) + t2;
    assert WriteSections(cs, sc) + rest == cs.appearances.encode((), sc.appearances) + t1;
    UseInverts(cs.appearances, (), sc.appearances, t1);
    UseInverts(cs.locations, (), sc.location, t2);
    ReadWriteUInt32(sc.mapId, t3);
    UseInverts(cs.mercenary, (), sc.mercenary, t4);
    ReadWritePreview(sc.previewData, t5);
    UseInverts(cs.quests, (), sc.quests, t6);
    UseInverts(cs.waypoints, (), sc.waypoints, t7);
    UseInverts(cs.npcDialog, (), sc.npcDialog, t8);
    UseInverts(cs.attributes, (), sc.attributes, rest);
  }

  lemma WriteReadSections<S(!new)>(cs: Codecs<S>, s: seq<byte>, sc: Sections<S>, rest: seq<byte>)
    requires SectionsCanonical(cs)
    requires ReadSections(cs, s) == Some((sc, rest))
    ensures s == WriteSections(cs, sc) + rest
    ensures SectionsFit(cs, sc)
  {
    var appearances := cs.appearances.decode((), s).value;
    var location := cs.locations.decode((), appearances.1).value;
    var mapId := ReadUInt32(location.1).value;
    var mercenary := cs.mercenary.decode((), mapId.1).value;
    var previewData := ReadPreview(mercenary.1).value;
    var quests := cs.quests.decode((), previewData.1).value;
    var waypoints := cs.waypoints.decode((), quests.1).value;
    var npcDialog := cs.npcDialog.decode((), waypoints.1).value;
    var attributes := cs.attributes.decode((), npcDialog.1).value;
    assert sc == Sections(appearances.0, location.0, mapId.0, mercenary.0, previewData.0, quests.0,
                          waypoints.0, npcDialog.0, attributes.0);
    assert rest == attributes.1;
    UseCanonical(cs.appearances, (), s);
    UseCanonical(cs.locations, (), appearances.1);
    UseCanonical(cs.mercenary, (), mapId.1);
    WriteReadPreview(mercenary.1, previewData.0, previewData.1);
    UseCanonical(cs.quests, (), previewData.1);
    UseCanonical(cs.waypoints, (), quests.1);
    UseCanonical(cs.npcDialog, (), waypoints.1);
    UseCanonical(cs.attributes, (), npcDialog.1);
    Chain9(s, cs.appearances.encode((), sc.appearances), appearances.1,
           cs.locations.encode((), sc.location), location.1,
           WriteUInt32(sc.mapId), mapId.1,
           cs.mercenary.encode((), sc.mercenary), mercenary.1,
           WritePreview(sc.previewData), previewData.1,
           cs.quests.encode((), sc.quests), quests.1,
           cs.waypoints.encode((), sc.waypoints), waypoints.1,
           cs.npcDialog.encode((), sc.npcDialog), npcDialog.1,
           cs.attributes.encode((), sc.attributes), rest);
  }


  // ---------------------------------------------------------------------
  // Expansion-only sections

  lemma ReadWriteExpansion<S(!new)>(cs: Codecs<S>, expansion: bool, mercenary: S, version: u32,
                                    items: Option<S>, golem: Option<S>, rest: seq<byte>)
    requires Inverts(cs.mercenaryItemList) && Inverts(cs.golem)
    requires items.Some? <==> expansion
    requires golem.Some? <==> expansion
    requires items.Some? ==> cs.mercenaryItemList.fits((mercenary, version), items.value)
    requires golem.Some? ==> cs.golem.fits(version, golem.value)
    ensures ReadExpansion(cs, expansion, mercenary, version,
                          WriteExpansion(cs, expansion, mercenary, version, items, golem) + rest)
            == Some(((items, golem), rest))
  {
    if expansion {
      var t := cs.golem.encode(version, golem.value) + rest;
      assert WriteExpansion(cs, expansion, mercenary, version, items, golem) + rest
             == cs.mercenaryItemList.encode((mercenary, version), items.value) + t;
      UseInverts(cs.mercenaryItemList, (mercenary, version), items.value, t);
      UseInverts(cs.golem, version, golem.value, rest);
    } else {
      assert WriteExpansion(cs, expansion, mercenary, version, items, golem) + rest == rest;
    }
  }

  lemma WriteReadExpansion<S(!new)>(cs: Codecs<S>, expansion: bool, mercenary: S, version: u32,
                                    s: seq<byte>, items: Option<S>, golem: Option<S>, rest: seq<byte>)
    requires Canonical(cs.mercenaryItemList) && Canonical(cs.golem)
    requires ReadExpansion(cs, expansion, mercenary, version, s) == Some(((items, golem), rest))
    ensures s == WriteExpansion(cs, expansion, mercenary, version, items, golem) + rest
    ensures items.Some? ==> cs.mercenaryItemList.fits((mercenary, version), items.value)
    ensures golem.Some? ==> cs.golem.fits(version, golem.value)
  {
    if expansion {
      var m := cs.mercenaryItemList.decode((mercenary, version), s).value;
      var g := cs.golem.decode(version, m.1).value;
      UseCanonical(cs.mercenaryItemList, (mercenary, version), s);
      UseCanonical(cs.golem, version, m.1);
      assert s == cs.mercenaryItemList.encode((mercenary, version), m.0)
                  + (cs.golem.encode(version, g.0) + rest);
    } else {
      assert s == rest;
    }
  }
}
