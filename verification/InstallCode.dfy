/** The install-code part of address_and_code_init: eight registers, high byte first,
    then the CRC, low byte first, as section 10.1 of the Zigbee Base Device Behavior
    Specification asks. */
module InstallCode {
  import opened Crc16
  import opened Crc16Bits
  import opened CrcLaws
  import opened CrcResidue
  import opened CrcTwoBits

  const ZB_CCM_KEY_SIZE: nat := 16
  const SET_CODE_BIT: bv16 := 2

  /** Byte j of a register sequence, each register high byte first. */
  function ByteOf(code: seq<bv16>, j: nat): bv8
    requires j < 2 * |code|
  {
    if j % 2 == 0 then HighByte(code[j / 2]) else LowByte(code[j / 2])
  }

  /** The code bytes of the registers. */
  function CodeBytes(code: seq<bv16>): (bytes: seq<bv8>)
    ensures |bytes| == 2 * |code|
  {
    seq(2 * |code|, j requires 0 <= j < 2 * |code| => ByteOf(code, j))
  }

  /** The configured code can be read back from the bytes. */
  lemma CodeReadsBack(code: seq<bv16>, i: nat)
    requires i < |code|
    ensures ((CodeBytes(code)[2 * i] as bv16) << 8) | CodeBytes(code)[2 * i + 1] as bv16 == code[i]
  {
  }

  /** The bytes handed to the stack when the set-code bit of the mode register is set. */
  method BuildInstallCode(mode: bv16, code: array<bv16>) returns (given: bool, ic: array<bv8>)
    requires code.Length == 8
    ensures given <==> mode & 2 != 0
    ensures fresh(ic) && ic.Length == ZB_CCM_KEY_SIZE + 2
    ensures given ==> ic[..] == Sealed(CodeBytes(code[..]))
    ensures code[..] == old(code[..])
  {
    ic := new bv8[ZB_CCM_KEY_SIZE + 2](_ => 0);
    given := mode & SET_CODE_BIT != 0;
    if given {
      FillCode(code, ic);
      var crc := Crc16X25(ic, ZB_CCM_KEY_SIZE);
      MaskedHighByte(crc);
      ic[ZB_CCM_KEY_SIZE] := (crc & 0xFF) as bv8;
      ic[ZB_CCM_KEY_SIZE + 1] := ((crc >> 8) & 0xFF) as bv8;
      assert ic[..] == ic[..ZB_CCM_KEY_SIZE] + [ic[ZB_CCM_KEY_SIZE], ic[ZB_CCM_KEY_SIZE + 1]];
    }
  }

  /** The packing loop. */
  method FillCode(code: array<bv16>, ic: array<bv8>)
    requires code.Length == 8 && ic.Length == ZB_CCM_KEY_SIZE + 2
    modifies ic
    ensures ic[..ZB_CCM_KEY_SIZE] == CodeBytes(code[..])
  {
    var i := 0;
    while i < 8
      invariant 0 <= i <= 8
      invariant forall j | 0 <= j < 2 * i :: ic[j] == ByteOf(code[..], j)
    {
      ic[i * 2] := ((code[i] >> 8) & 0xFF) as bv8;
      ic[i * 2 + 1] := (code[i] & 0xFF) as bv8;
      MaskedHighByte(code[i]);
      assert (i * 2) / 2 == i && (i * 2 + 1) / 2 == i && (i * 2 + 1) % 2 == 1;
      i := i + 1;
    }
  }

  lemma MaskedHighByte(x: bv16)
    ensures ((x >> 8) & 0xFF) as bv8 == HighByte(x)
  {
  }

  /** A receiver that checks for the residue accepts the install code, and of all ways to
      complete the code bytes with two more bytes accepts only this one. */
  lemma InstallCodeAccepted(code: seq<bv16>, lo: bv8, hi: bv8)
    ensures Crc(CodeBytes(code) + [lo, hi]) == 0x0F47 <==> CodeBytes(code) + [lo, hi] == Sealed(CodeBytes(code))
  {
    var bytes := CodeBytes(code);
    ResidueExactly(bytes, lo, hi);
    CrcOfGood(Register(START, bytes + [lo, hi]));
    var a, b := bytes + [lo, hi], Sealed(bytes);
    assert a == b <==> a[|bytes|] == b[|bytes|] && a[|bytes| + 1] == b[|bytes| + 1];
  }

  lemma CrcOfGood(r: bv16)
    ensures r ^ 0xFFFF == 0x0F47 <==> r == GOOD
  {
  }

  /** Mistyping the install code in one, two or three bits anywhere, in any odd number of
      bits, or in up to sixteen consecutive ones, is always noticed. */
  lemma CorruptionNoticed(code: seq<bv16>, received: seq<bv8>, k: nat)
    requires |code| == 8 && received != Sealed(CodeBytes(code)) && |received| == |Sealed(CodeBytes(code))|
    requires var sent, got := MessageBits(Sealed(CodeBytes(code))), MessageBits(received);
      EqualOutside(sent, got, k, 16) || CountDifferent(sent, got) <= 3 || CountDifferent(sent, got) % 2 == 1
    ensures Crc(received) != 0x0F47
  {
    var s := Sealed(CodeBytes(code));
    SealedCrc(CodeBytes(code));
    if EqualOutside(MessageBits(s), MessageBits(received), k, 16) {
      BurstDetected(s, received, k);
    } else if CountDifferent(MessageBits(s), MessageBits(received)) <= 3 {
      SomeBitDiffers(s, received);
      FewBitErrorDetected(s, received);
    } else {
      OddErrorDetected(s, received);
    }
  }

  lemma SomeBitDiffers(a: seq<bv8>, b: seq<bv8>)
    requires |a| == |b| && a != b
    ensures CountDifferent(MessageBits(a), MessageBits(b)) >= 1
  {
    if CountDifferent(MessageBits(a), MessageBits(b)) == 0 {
      NoDifference(MessageBits(a), MessageBits(b));
      MessageBitsInjective(a, b);
    }
  }
}
