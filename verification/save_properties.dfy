/** Properties of the whole save-file walk: decoding inverts encoding,
    a successful decode is the encoding of what it returned, the
    expansion sections are gated by the status flag, and the
    full-consumption check rejects trailing bytes. */
module SaveProperties {
  import opened Wrappers
  import opened Bytes
  import StatusFlags
  import opened Preview
  import opened SectionCodecs
  import opened Save
  import opened SaveStages

  // ---------------------------------------------------------------------
  // What a record must look like to survive a round trip

  /** Every opaque section of the record is one its codec can encode, in
      the context the walk gives it. */
  predicate Fits<S>(cs: Codecs<S>, r: D2S<S>)
  {
    var version := cs.version(r.header);
    && cs.header.fits((), r.header)
    && (forall i :: 0 <= i < |r.skills.assignedSkills| ==> cs.skill.fits((), r.skills.assignedSkills[i]))
    && cs.skill.fits((), r.skills.leftSkill) && cs.skill.fits((), r.skills.rightSkill)
    && cs.skill.fits((), r.skills.leftSwapSkill) && cs.skill.fits((), r.skills.rightSwapSkill)
    && SectionsFit(cs, r.sections)
    && cs.classSkills.fits(r.run.classId, r.classSkills)
    && cs.itemList.fits(version, r.playerItemList)
    && cs.corpseList.fits(version, r.playerCorpses)
    && (r.mercenaryItemList.Some? ==>
          cs.mercenaryItemList.fits((r.sections.mercenary, version), r.mercenaryItemList.value))
    && (r.golem.Some? ==> cs.golem.fits(version, r.golem.value))
  }

  /** Every section codec's decode inverts its encode. */
  ghost predicate AllInvert<S(!new)>(cs: Codecs<S>)
  {
    && Inverts(cs.header) && Inverts(cs.skill) && SectionsInvert(cs)
    && InvertsUnderReadContext(cs.classSkills)
    && Inverts(cs.itemList) && Inverts(cs.corpseList)
    && Inverts(cs.mercenaryItemList) && Inverts(cs.golem)
  }

  /** Every section codec consumes exactly the encoding of what it decodes. */
  ghost predicate AllCanonical<S(!new)>(cs: Codecs<S>)
  {
    && Canonical(cs.header) && Canonical(cs.skill) && SectionsCanonical(cs)
    && CanonicalUnderReadContext(cs.classSkills)
    && Canonical(cs.itemList) && Canonical(cs.corpseList)
    && Canonical(cs.mercenaryItemList) && Canonical(cs.golem)
  }

  // ---------------------------------------------------------------------
  // Round trips

  /** The decode walk reads back, field for field, what the encode walk
      wrote, and stops exactly where the encoding ends. */
  lemma ReadWriteBody<S(!new)>(cs: Codecs<S>, r: D2S<S>, rest: seq<byte>)
    requires AllInvert(cs) && Shaped(r) && Fits(cs, r)
    ensures ReadBody(cs, WriteBody(cs, r) + rest) == Some((r, rest))
  {
    var version := cs.version(r.header);
    var exp := r.run.status.IsExpansion();
    var t8 := WriteExpansion(cs, exp, r.sections.mercenary, version, r.mercenaryItemList, r.golem) + rest;
    var t7 := cs.corpseList.encode(version, r.playerCorpses) + t8;
    var t6 := cs.itemList.encode(version, r.playerItemList) + t7;
    var t5 := cs.classSkills.encode((), r.classSkills) + t6;
    var t4 := WriteSections(cs, r.sections) + t5;
    var t3 := WriteSkillBar(cs.skill, r.skills) + t4;
    var t2 := WriteScalarRun(r.run) + t3;
    Chain8(cs.header.encode((), r.header) + t2, cs.header.encode((), r.header), t2, WriteScalarRun(r.run), t3,
           WriteSkillBar(cs.skill, r.skills), t4, WriteSections(cs, r.sections), t5,
           cs.classSkills.encode((), r.classSkills), t6, cs.itemList.encode(version, r.playerItemList), t7,
           cs.corpseList.encode(version, r.playerCorpses), t8,
           WriteExpansion(cs, exp, r.sections.mercenary, version, r.mercenaryItemList, r.golem), rest);
    assert WriteBody(cs, r) + rest == cs.header.encode((), r.header) + t2;
    UseInverts(cs.header, (), r.header, t2);
    ReadWriteScalarRun(r.run, t3);
    ReadWriteSkillBar(cs.skill, r.skills, t4);
    ReadWriteSections(cs, r.sections, t5);
    UseInvertsUnderReadContext(cs.classSkills, r.run.classId, r.classSkills, t6);
    UseInverts(cs.itemList, version, r.playerItemList, t7);
    UseInverts(cs.corpseList, version, r.playerCorpses, t8);
    ReadWriteExpansion(cs, exp, r.sections.mercenary, version, r.mercenaryItemList, r.golem, rest);
  }

  /** `Read` of the body that `Write(IBitWriter)` emits gives the record
      back, and the consumption check passes. */
  lemma DecodeOfEncode<S(!new)>(cs: Codecs<S>, r: D2S<S>)
    requires AllInvert(cs) && Shaped(r) && Fits(cs, r)
    ensures Read(cs, WriteBody(cs, r)) == Some(r)
  {
    ReadWriteBody(cs, r, []);
    assert WriteBody(cs, r) + [] == WriteBody(cs, r);
  }

  /** A successful decode walk returns a well-shaped record and consumed
      exactly that record's encoding. */
  lemma WriteReadBody<S(!new)>(cs: Codecs<S>, s: seq<byte>, r: D2S<S>, rest: seq<byte>)
    requires AllCanonical(cs)
    requires ReadBody(cs, s) == Some((r, rest))
    ensures Shaped(r) && Fits(cs, r)
    ensures s == WriteBody(cs, r) + rest
  {
    var header := cs.header.decode((), s).value;
    var run := ReadScalarRun(header.1).value;
    var skills := ReadSkillBar(cs.skill, run.1).value;
    var sections := ReadSections(cs, skills.1).value;
    var version := cs.version(header.0);
    var classSkills := cs.classSkills.decode(run.0.classId, sections.1).value;
    var items := cs.itemList.decode(version, classSkills.1).value;
    var corpses := cs.corpseList.decode(version, items.1).value;
    var exp := run.0.status.IsExpansion();
    var expansion := ReadExpansion(cs, exp, sections.0.mercenary, version, corpses.1).value;
    assert r == D2S(header.0, run.0, skills.0, sections.0, classSkills.0, items.0, corpses.0,
                    expansion.0.0, expansion.0.1);
    assert rest == expansion.1;
    UseCanonical(cs.header, (), s);
    WriteReadScalarRun(header.1, run.0, run.1);
    WriteReadSkillBar(cs.skill, run.1, skills.0, skills.1);
    WriteReadSections(cs, skills.1, sections.0, sections.1);
    UseCanonicalUnderReadContext(cs.classSkills, run.0.classId, sections.1);
    UseCanonical(cs.itemList, version, classSkills.1);
    UseCanonical(cs.corpseList, version, items.1);
    WriteReadExpansion(cs, exp, sections.0.mercenary, version, corpses.1,
                       expansion.0.0, expansion.0.1, rest);
    Chain8(s, cs.header.encode((), r.header), header.1, WriteScalarRun(r.run), run.1,
           WriteSkillBar(cs.skill, r.skills), skills.1, WriteSections(cs, r.sections), sections.1,
           cs.classSkills.encode((), r.classSkills), classSkills.1,
           cs.itemList.encode(version, r.playerItemList), items.1,
           cs.corpseList.encode(version, r.playerCorpses), corpses.1,
           WriteExpansion(cs, exp, r.sections.mercenary, version, r.mercenaryItemList, r.golem), rest);
  }


  /** Every buffer `Read` accepts is the encoding of the record it returns. */
  lemma EncodeOfDecode<S(!new)>(cs: Codecs<S>, bytes: seq<byte>, r: D2S<S>)
    requires AllCanonical(cs)
    requires Read(cs, bytes) == Some(r)
    ensures Shaped(r) && Fits(cs, r)
    ensures WriteBody(cs, r) == bytes
  {
    WriteReadBody(cs, bytes, r, []);
  }

  /** With codecs that round-trip in both directions, `Read` accepts a
      buffer and returns `r` exactly when the buffer is `r`'s encoding and
      `r` is a well-shaped record of encodable sections. */
  lemma ReadIffEncoding<S(!new)>(cs: Codecs<S>, bytes: seq<byte>, r: D2S<S>)
    requires AllInvert(cs) && AllCanonical(cs)
    ensures Read(cs, bytes) == Some(r)
            <==> Shaped(r) && Fits(cs, r) && WriteBody(cs, r) == bytes
  {
    if Read(cs, bytes) == Some(r) {
      EncodeOfDecode(cs, bytes, r);
    }
    if Shaped(r) && Fits(cs, r) && WriteBody(cs, r) == bytes {
      DecodeOfEncode(cs, r);
    }
  }

  // ---------------------------------------------------------------------
  // The expansion branch and the consumption check

  /** The decode walk fills in the mercenary item list and the golem when,
      and only when, the status byte's expansion flag is set. */
  lemma DecodeGating<S>(cs: Codecs<S>, s: seq<byte>, r: D2S<S>, rest: seq<byte>)
    requires ReadBody(cs, s) == Some((r, rest))
    ensures r.mercenaryItemList.Some? <==> r.run.status.IsExpansion()
    ensures r.golem.Some? <==> r.run.status.IsExpansion()
  {
    var header := cs.header.decode((), s).value;
    var run := ReadScalarRun(header.1).value;
    var skills := ReadSkillBar(cs.skill, run.1).value;
    var sections := ReadSections(cs, skills.1).value;
    var version := cs.version(header.0);
    var classSkills := cs.classSkills.decode(run.0.classId, sections.1).value;
    var items := cs.itemList.decode(version, classSkills.1).value;
    var corpses := cs.corpseList.decode(version, items.1).value;
    var expansion := ReadExpansion(cs, run.0.status.IsExpansion(), sections.0.mercenary, version, corpses.1).value;
    assert r.run == run.0;
    assert r.mercenaryItemList == expansion.0.0 && r.golem == expansion.0.1;
  }

  /** Without the expansion flag nothing is read after the corpse list:
      the walk stops right after the prefix's encoding. */
  lemma NonExpansionStopsAfterCorpses<S(!new)>(cs: Codecs<S>, s: seq<byte>, r: D2S<S>, rest: seq<byte>)
    requires AllCanonical(cs)
    requires ReadBody(cs, s) == Some((r, rest))
    requires !r.run.status.IsExpansion()
    ensures r.mercenaryItemList.None? && r.golem.None?
    ensures Shaped(r)
    ensures s == WritePrefix(cs, r) + rest
  {
    WriteReadBody(cs, s, r, rest);
    DecodeGating(cs, s, r, rest);
    EncodeGating(cs, r);
  }

  /** The encode walk emits nothing after the corpse list when the
      expansion flag is clear, whatever sections the record holds, and
      with the flag set emits exactly the sections the record holds. */
  lemma EncodeGating<S>(cs: Codecs<S>, r: D2S<S>)
    requires |r.skills.assignedSkills| >= AssignedSkillCount
    ensures !r.run.status.IsExpansion() ==> WriteBody(cs, r) == WritePrefix(cs, r)
    ensures r.run.status.IsExpansion() ==>
      WriteBody(cs, r) == WritePrefix(cs, r)
        + (if r.mercenaryItemList.Some?
           then cs.mercenaryItemList.encode((r.sections.mercenary, cs.version(r.header)), r.mercenaryItemList.value)
           else [])
        + (if r.golem.Some? then cs.golem.encode(cs.version(r.header), r.golem.value) else [])
  {
  }

  /** The consumption check: a well-formed encoding followed by any
      further bytes is rejected, although the walk itself succeeds on it. */
  lemma TrailingBytesRejected<S(!new)>(cs: Codecs<S>, r: D2S<S>, extra: seq<byte>)
    requires AllInvert(cs) && Shaped(r) && Fits(cs, r)
    requires extra != []
    ensures ReadBody(cs, WriteBody(cs, r) + extra) == Some((r, extra))
    ensures Read(cs, WriteBody(cs, r) + extra) == None
  {
    ReadWriteBody(cs, r, extra);
  }
}
