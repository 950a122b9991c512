/** The character status byte (offset 0x24 of the save file): one byte
    held as a set of eight bits, each a named boolean flag. */
module StatusFlags {
  import opened Bytes
  import opened Bits

  /** The backing bit set: always exactly eight bits, bit 0 first. */
  type FlagBits = s: seq<bool> | |s| == 8
    witness [false, false, false, false, false, false, false, false]

  /** The eight named flags. */
  datatype Flag = Newbie | Error | Hardcore | Dead | SaveProcess | Expansion | Ladder | NeedsRenaming
  {
    /** The bit of the status byte that holds the flag. */
    function Index(): (k: nat)
      ensures k < 8
    {
      match this
      case Newbie => 0
      case Error => 1
      case Hardcore => 2
      case Dead => 3
      case SaveProcess => 4
      case Expansion => 5
      case Ladder => 6
      case NeedsRenaming => 7
    }
  }

  datatype Status = Status(flags: FlagBits)
  {
    /** The byte the bit set stands for. */
    function Byte(): (b: byte)
      ensures ToBits(b, 8) == flags
    {
      FromBitsBound(flags);
      ToBitsOfFromBits(flags);
      FromBits(flags)
    }

    /** The flag's getter: bit `f.Index()` of the status byte. */
    function Get(f: Flag): (v: bool)
      ensures v <==> IsBitSet(Byte(), f.Index())
    {
      ToBitsIndex(Byte(), 8, f.Index());
      flags[f.Index()]
    }

    /** The flag's setter: changes that flag and no other. */
    function Set(f: Flag, v: bool): (s: Status)
      ensures s.Get(f) == v
      ensures forall g: Flag :: g != f ==> s.Get(g) == Get(g)
    {
      Status(flags[f.Index() := v])
    }

    predicate IsNewbie() { Get(Newbie) }
    predicate IsError() { Get(Error) }
    predicate IsHardcore() { Get(Hardcore) }
    predicate IsDead() { Get(Dead) }
    predicate IsSaveProcess() { Get(SaveProcess) }
    predicate IsExpansion() { Get(Expansion) }
    predicate IsLadder() { Get(Ladder) }
    predicate IsNeedsRenaming() { Get(NeedsRenaming) }

    /** Writes the bit set to the bit writer: exactly eight bits, which the
        byte-aligned writer packs into the status byte. */
    function Write(): (bits: seq<bool>)
      ensures |bits| == 8
      ensures PackBits(bits) == [Byte()]
    {
      var bytes := PackBits(flags);
      forall k | 0 <= k < 8 ensures ToBits(bytes[0], 8)[k] == flags[k] {
        assert flags[8 * 0 + k] <==> IsBitSet(bytes[0], k);
        ToBitsIndex(bytes[0], 8, k);
      }
      assert ToBits(bytes[0], 8) == flags;
      FromBitsBound(flags);
      FromBitsOfToBits(bytes[0], 8);
      flags
    }
  }

  /** The constructor and `Read`: the byte is stored as its eight bits with
      no reinterpretation. */
  function Read(b: byte): (s: Status)
    ensures s.Byte() == b
  {
    FromBitsOfToBits(b, 8);
    Status(ToBits(b, 8))
  }

  /** The legacy array-returning write: a fresh writer holding only the
      status bits, turned into an array. */
  function WriteArray(s: Status): (bytes: seq<byte>)
    ensures |bytes| == 1
    ensures Read(bytes[0]) == s
  {
    var bits := s.Write();
    ToBitsOfFromBits(s.flags);
    PackBits(bits)
  }

  /** For every byte, writing the status read from it emits that byte. */
  lemma WriteOfRead(b: byte)
    ensures PackBits(Read(b).Write()) == [b]
    ensures WriteArray(Read(b)) == [b]
  {
  }

  /** Named flag k is bit k of the stored byte, for every byte. */
  lemma FlagIsBit(b: byte, f: Flag)
    ensures Read(b).Get(f) <==> IsBitSet(b, f.Index())
  {
  }

  /** The flags read from a byte give back the byte. */
  lemma ReadOfByte(s: Status)
    ensures Read(s.Byte()) == s
  {
    ToBitsOfFromBits(s.flags);
  }

  /** The setter rewrites one bit of the status byte: the byte moves by
      exactly that flag's weight, and only when the flag changes. */
  lemma SetMovesOneBit(s: Status, f: Flag, v: bool)
    ensures s.Set(f, v).Byte() == s.Byte() + (BitValue(v) - BitValue(s.Get(f))) * Pow2(f.Index())
  {
    FromBitsUpdate(s.flags, f.Index(), v);
  }

  /** Byte 0x24 (binary 00100100) is a hardcore expansion character. */
  lemma HardcoreExpansionByte()
    ensures Read(0x24).IsHardcore() && Read(0x24).IsExpansion()
    ensures !Read(0x24).IsNewbie() && !Read(0x24).IsError() && !Read(0x24).IsDead()
    ensures !Read(0x24).IsSaveProcess() && !Read(0x24).IsLadder() && !Read(0x24).IsNeedsRenaming()
    ensures WriteArray(Read(0x24)) == [0x24]
  {
    assert Pow2(2) == 4 && Pow2(5) == 32 && Pow2(7) == 128;
  }
}
