/** The CRC of particular messages: the check value, the factory install code, and what a
    leading zero byte does. */
module CrcValues {
  import opened LinearMachine
  import opened CrcBits
  import opened Crc16
  import opened Crc16Bits
  import opened CrcLaws
  import opened CrcResidue
  import opened InstallCode
  import opened RegisterTable

  /** One byte more, in two times four shifts. */
  lemma Enter(m: seq<bv8>, r: bv16, b: bv8, x: bv16, mid: bv16, out: bv16) returns (longer: seq<bv8>)
    requires Register(START, m) == r && r ^ b as bv16 == x && FourTimes(x) == mid && FourTimes(mid) == out
    ensures longer == m + [b] && Register(START, longer) == out
  {
    longer := m + [b];
    RegisterSnoc(START, m, b);
    FourShifts(x, 4);
    FourShifts(mid, 0);
  }

  /** The check value of CRC-16/X-25: "123456789" gives 0x906E. */
  lemma CheckValue()
    ensures Crc([0x31, 0x32, 0x33, 0x34, 0x35, 0x36, 0x37, 0x38, 0x39]) == 0x906E
  {
    var m: seq<bv8> := [];
    m := Enter(m, 0xFFFF, 0x31, 0xFFCE, 0xE8F2, 0x2F8D);
    m := Enter(m, 0x2F8D, 0x32, 0x2FBF, 0xF574, 0x4D53);
    m := Enter(m, 0x4D53, 0x33, 0x4D60, 0x04D6, 0x634B);
    m := Enter(m, 0x634B, 0x34, 0x637F, 0xF1B8, 0x8B13);
    m := Enter(m, 0x8B13, 0x35, 0x8B26, 0x6BB4, 0x44BF);
    m := Enter(m, 0x44BF, 0x36, 0x4489, 0x90C1, 0x198D);
    m := Enter(m, 0x198D, 0x37, 0x19BA, 0xA491, 0x1AC8);
    m := Enter(m, 0x1AC8, 0x38, 0x1AF0, 0x01AF, 0xF795);
    m := Enter(m, 0xF795, 0x39, 0xF7AC, 0xC976, 0x6F91);
    assert m == [0x31, 0x32, 0x33, 0x34, 0x35, 0x36, 0x37, 0x38, 0x39];
  }

  const FACTORY_CODE: seq<bv16> := [0x0102, 0x0304, 0x0506, 0x0708, 0x090A, 0x0B0C, 0x0D0E, 0x0F11]

  lemma FactoryBytes()
    ensures CodeBytes(FACTORY_CODE) ==
      [0x01, 0x02, 0x03, 0x04, 0x05, 0x06, 0x07, 0x08,
       0x09, 0x0A, 0x0B, 0x0C, 0x0D, 0x0E, 0x0F, 0x11]
  {
  }

  lemma FirstFactoryBytes() returns (m: seq<bv8>)
    ensures m == [0x01, 0x02, 0x03, 0x04, 0x05, 0x06, 0x07, 0x08] && Register(START, m) == 0x922B
  {
    m := [];
    m := Enter(m, 0xFFFF, 0x01, 0xFFFE, 0xE8F1, 0x1E0E);
    m := Enter(m, 0x1E0E, 0x02, 0x1E0C, 0xC7EC, 0xCA72);
    m := Enter(m, 0xCA72, 0x03, 0xCA71, 0x1C26, 0x62C4);
    m := Enter(m, 0x62C4, 0x04, 0x62C0, 0x062C, 0xC66E);
    m := Enter(m, 0xC66E, 0x05, 0xC66B, 0xB9ED, 0xDD13);
    m := Enter(m, 0xDD13, 0x06, 0xDD15, 0x5F54, 0x47F1);
    m := Enter(m, 0x47F1, 0x07, 0x47F6, 0x6779, 0x92FE);
    m := Enter(m, 0x92FE, 0x08, 0x92F6, 0x6A29, 0x922B);
  }

  lemma FactoryCrc()
    ensures Crc([0x01, 0x02, 0x03, 0x04, 0x05, 0x06, 0x07, 0x08,
                 0x09, 0x0A, 0x0B, 0x0C, 0x0D, 0x0E, 0x0F, 0x11]) == 0xEC19
  {
    var m := FirstFactoryBytes();
    m := Enter(m, 0x922B, 0x09, 0x9222, 0x2820, 0x0282);
    m := Enter(m, 0x0282, 0x0A, 0x0288, 0x8420, 0x0842);
    m := Enter(m, 0x0842, 0x0B, 0x0849, 0x940D, 0xDFCD);
    m := Enter(m, 0xDFCD, 0x0C, 0xDFC1, 0x1D7D, 0xD75A);
    m := Enter(m, 0xD75A, 0x0D, 0xD757, 0x7EF2, 0x26ED);
    m := Enter(m, 0x26ED, 0x0E, 0x26E3, 0x33ED, 0xD5B3);
    m := Enter(m, 0xD5B3, 0x0F, 0xD5BC, 0xCB57, 0x7F32);
    m := Enter(m, 0x7F32, 0x11, 0x7F23, 0x3671, 0x13E6);
    assert m == [0x01, 0x02, 0x03, 0x04, 0x05, 0x06, 0x07, 0x08, 0x09, 0x0A, 0x0B, 0x0C, 0x0D, 0x0E, 0x0F, 0x11];
  }

  lemma FactoryCrcBytes()
    ensures LowByte(0xEC19) == 0x19 && HighByte(0xEC19) == 0xEC
  {
  }

  /** The default code registers are handed on as these eighteen bytes. */
  lemma FactoryInstallCode()
    ensures Sealed(CodeBytes(FACTORY_CODE)) ==
      [0x01, 0x02, 0x03, 0x04, 0x05, 0x06, 0x07, 0x08,
       0x09, 0x0A, 0x0B, 0x0C, 0x0D, 0x0E, 0x0F, 0x11, 0x19, 0xEC]
  {
    FactoryBytes();
    FactoryCrc();
    FactoryCrcBytes();
  }

  /** They are the defaults of registers 80 to 87. */
  lemma FactoryCodeIsDefault(i: nat)
    requires i < 8
    ensures DefaultState()[80 + i].initial == FACTORY_CODE[i] as int
  {
    assert DefaultState()[80 + i] == AddressRow(80 + i);
    assert i == 0 || i == 1 || i == 2 || i == 3 || i == 4 || i == 5 || i == 6 || i == 7;
  }

  lemma ZeroByteStep()
    ensures ByteStep(START, 0) != START
  {
    var m := Enter([], 0xFFFF, 0x00, 0xFFFF, 0xF870, 0x0F87);
    RegisterSnoc(START, [], 0);
  }

  /** A zero byte in front always changes the CRC: the register does not start at zero. */
  lemma LeadingZeroCounts(message: seq<bv8>)
    ensures Crc([0] + message) != Crc(message)
  {
    ZeroByteStep();
    DifferentStarts(ByteStep(START, 0), START, message);
    assert ([0] + message)[1..] == message;
    ComplementTwice(Register(START, [0] + message));
    ComplementTwice(Register(START, message));
  }

  lemma DifferentStarts(r: bv16, s: bv16, message: seq<bv8>)
    requires r != s
    ensures Register(r, message) != Register(s, message)
  {
    RegisterIsFeed(r, message);
    RegisterIsFeed(s, message);
    if Register(r, message) == Register(s, message) {
      StepReversible();
      FeedReversible<Word, bool>(Step, ToBits(r), ToBits(s), MessageBits(message));
      ToBitsInjective(r, s);
    }
  }
}
