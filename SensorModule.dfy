/** The host's picture of one sensor module: the fields decoded from a register page, the
    control byte the host sets to start a measurement, and the page decoder itself. */
module SensorModule {
  import opened Bytes
  import opened Registers

  type u32 = x: int | 0 <= x < 0x1_0000_0000

  /** A binary32 value kept as its IEEE 754 bit pattern. The module stores every float field as
      the value of the four page bytes reinterpreted as binary32; the bit pattern is what
      determines that value, and the model does not interpret it further. */
  datatype Float32 = Float32(bits: u32)

  const ZERO_F32 := Float32(0)

  /** Every field of a module, as a value. */
  datatype Snapshot = Snapshot(
    registerMapVerMinor: int,
    registerMapVerMajor: int,
    firmwareVerMinor: int,
    firmwareVerMajor: int,
    control: int,
    status: int,
    concentration: Float32,
    temperature: Float32,
    humidity: Float32,
    moduleId: int)

  /** `_u16`: the little-endian u16 at two offsets of a buffer; it is below 2^16 and its low
      and high bytes are the bytes at those offsets. */
  function U16(data: seq<byte>, lo: nat, hi: nat): (r: nat)
    requires lo < |data| && hi < |data|
    ensures r < 0x1_0000
    ensures r % 256 == data[lo] && r / 256 == data[hi]
  {
    Le16Bytes(data[lo], data[hi]);
    Le16(data[lo], data[hi])
  }

  /** The four bytes at the given offsets are `x`'s little-endian encoding, least significant
      first. */
  predicate EncodesLittleEndian(x: int, data: seq<byte>, b0: nat, b1: nat, b2: nat, b3: nat)
    requires b0 < |data| && b1 < |data| && b2 < |data| && b3 < |data|
  {
    && x % 256 == data[b0] && x / 256 % 256 == data[b1]
    && x / 0x1_0000 % 256 == data[b2] && x / 0x100_0000 == data[b3]
  }

  /** `_u32`: the little-endian u32 at four offsets of a buffer, least significant first; it is
      below 2^32 and its four bytes are the bytes at those offsets. */
  function U32(data: seq<byte>, b0: nat, b1: nat, b2: nat, b3: nat): (r: u32)
    requires b0 < |data| && b1 < |data| && b2 < |data| && b3 < |data|
    ensures EncodesLittleEndian(r, data, b0, b1, b2, b3)
  {
    Le32Bytes(data[b0], data[b1], data[b2], data[b3]);
    Le32(data[b0], data[b1], data[b2], data[b3])
  }

  /** Both helpers compute what the source writes, `data[lo] | (data[hi] << 8)` and
      `data[b0] | (data[b1] << 8) | (data[b2] << 16) | (data[b3] << 24)`. */
  lemma HelpersMatchBitwiseForm(data: seq<byte>, lo: nat, hi: nat, b0: nat, b1: nat, b2: nat, b3: nat)
    requires lo < |data| && hi < |data|
    requires b0 < |data| && b1 < |data| && b2 < |data| && b3 < |data|
    ensures U16(data, lo, hi) == Or(data[lo], Shl(data[hi], 8)) == data[lo] as int + 256 * data[hi] as int
    ensures U32(data, b0, b1, b2, b3)
         == Or(Or(Or(data[b0], Shl(data[b1], 8)), Shl(data[b2], 16)), Shl(data[b3], 24))
  {
    Le16IsBitwiseOr(data[lo], data[hi]);
    Le32IsBitwiseOr(data[b0], data[b1], data[b2], data[b3]);
  }

  /** `_f32`: the binary32 whose little-endian encoding is the four bytes at the given offsets,
      kept as its bit pattern: that pattern gives back exactly the four bytes it was read from,
      least significant first. */
  function F32(data: seq<byte>, b0: nat, b1: nat, b2: nat, b3: nat): (r: Float32)
    requires b0 < |data| && b1 < |data| && b2 < |data| && b3 < |data|
    ensures EncodesLittleEndian(r.bits, data, b0, b1, b2, b3)
  {
    Float32(U32(data, b0, b1, b2, b3))
  }

  /** What `deserialize` stores from a full page: single bytes from their offsets, three binary32
      values from their 4-byte groups and the u32 device id. Every single-byte field is a
      byte, and each binary32 bit pattern and the id are encoded by their own four page bytes. */
  function PageSnapshot(data: seq<byte>): (r: Snapshot)
    requires |data| >= REGISTERS_PAGE_SIZE
    ensures && 0 <= r.registerMapVerMinor < 256 && 0 <= r.registerMapVerMajor < 256
            && 0 <= r.firmwareVerMinor < 256 && 0 <= r.firmwareVerMajor < 256
            && 0 <= r.control < 256 && 0 <= r.status < 256
    ensures EncodesLittleEndian(r.concentration.bits, data, REG_CONCENTRATION_LLSB,
              REG_CONCENTRATION_LMSB, REG_CONCENTRATION_MLSB, REG_CONCENTRATION_MMSB)
    ensures EncodesLittleEndian(r.temperature.bits, data, REG_TEMPERATURE_LLSB,
              REG_TEMPERATURE_LMSB, REG_TEMPERATURE_MLSB, REG_TEMPERATURE_MMSB)
    ensures EncodesLittleEndian(r.humidity.bits, data, REG_HUMIDITY_LLSB,
              REG_HUMIDITY_LMSB, REG_HUMIDITY_MLSB, REG_HUMIDITY_MMSB)
    ensures 0 <= r.moduleId < 0x1_0000_0000
    ensures EncodesLittleEndian(r.moduleId, data, REG_DEVICE_ID_LLSB,
              REG_DEVICE_ID_LMSB, REG_DEVICE_ID_MLSB, REG_DEVICE_ID_MMSB)
  {
    Snapshot(
      registerMapVerMinor := data[REG_MAP_VER_LSB],
      registerMapVerMajor := data[REG_MAP_VER_MSB],
      firmwareVerMinor := data[REG_FIRMWARE_VER_LSB],
      firmwareVerMajor := data[REG_FIRMWARE_VER_MSB],
      control := data[REG_CONTROL],
      status := data[REG_STATUS],
      concentration := F32(data, REG_CONCENTRATION_LLSB, REG_CONCENTRATION_LMSB,
                           REG_CONCENTRATION_MLSB, REG_CONCENTRATION_MMSB),
      temperature := F32(data, REG_TEMPERATURE_LLSB, REG_TEMPERATURE_LMSB,
                         REG_TEMPERATURE_MLSB, REG_TEMPERATURE_MMSB),
      humidity := F32(data, REG_HUMIDITY_LLSB, REG_HUMIDITY_LMSB,
                      REG_HUMIDITY_MLSB, REG_HUMIDITY_MMSB),
      moduleId := U32(data, REG_DEVICE_ID_LLSB, REG_DEVICE_ID_LMSB,
                      REG_DEVICE_ID_MLSB, REG_DEVICE_ID_MMSB))
  }

  /** Pages that agree on every mapped offset decode to the same fields: the decoder reads no
      other byte of the page. */
  lemma PageSnapshotReadsOnlyTheMap(a: seq<byte>, b: seq<byte>)
    requires |a| >= REGISTERS_PAGE_SIZE && |b| >= REGISTERS_PAGE_SIZE
    requires forall i :: 0 <= i < |FIELD_OFFSETS| ==> a[FIELD_OFFSETS[i]] == b[FIELD_OFFSETS[i]]
    ensures PageSnapshot(a) == PageSnapshot(b)
  {
    assert a[FIELD_OFFSETS[0]] == b[FIELD_OFFSETS[0]] && a[FIELD_OFFSETS[1]] == b[FIELD_OFFSETS[1]]
        && a[FIELD_OFFSETS[2]] == b[FIELD_OFFSETS[2]] && a[FIELD_OFFSETS[3]] == b[FIELD_OFFSETS[3]]
        && a[FIELD_OFFSETS[4]] == b[FIELD_OFFSETS[4]] && a[FIELD_OFFSETS[5]] == b[FIELD_OFFSETS[5]]
        && a[FIELD_OFFSETS[6]] == b[FIELD_OFFSETS[6]] && a[FIELD_OFFSETS[7]] == b[FIELD_OFFSETS[7]]
        && a[FIELD_OFFSETS[8]] == b[FIELD_OFFSETS[8]] && a[FIELD_OFFSETS[9]] == b[FIELD_OFFSETS[9]]
        && a[FIELD_OFFSETS[10]] == b[FIELD_OFFSETS[10]] && a[FIELD_OFFSETS[11]] == b[FIELD_OFFSETS[11]]
        && a[FIELD_OFFSETS[12]] == b[FIELD_OFFSETS[12]] && a[FIELD_OFFSETS[13]] == b[FIELD_OFFSETS[13]]
        && a[FIELD_OFFSETS[14]] == b[FIELD_OFFSETS[14]] && a[FIELD_OFFSETS[15]] == b[FIELD_OFFSETS[15]]
        && a[FIELD_OFFSETS[16]] == b[FIELD_OFFSETS[16]] && a[FIELD_OFFSETS[17]] == b[FIELD_OFFSETS[17]]
        && a[FIELD_OFFSETS[18]] == b[FIELD_OFFSETS[18]] && a[FIELD_OFFSETS[19]] == b[FIELD_OFFSETS[19]]
        && a[FIELD_OFFSETS[20]] == b[FIELD_OFFSETS[20]] && a[FIELD_OFFSETS[21]] == b[FIELD_OFFSETS[21]];
  }

  /** Pages that decode to the same fields agree on every mapped offset: no byte the decoder
      reads is lost, the four bytes of each binary32 and of the id included. */
  lemma PageSnapshotKeepsTheMap(a: seq<byte>, b: seq<byte>)
    requires |a| >= REGISTERS_PAGE_SIZE && |b| >= REGISTERS_PAGE_SIZE
    requires PageSnapshot(a) == PageSnapshot(b)
    ensures forall i :: 0 <= i < |FIELD_OFFSETS| ==> a[FIELD_OFFSETS[i]] == b[FIELD_OFFSETS[i]]
  {
    Le32Injective(a[0x08], a[0x09], a[0x0A], a[0x0B], b[0x08], b[0x09], b[0x0A], b[0x0B]);
    Le32Injective(a[0x0C], a[0x0D], a[0x0E], a[0x0F], b[0x0C], b[0x0D], b[0x0E], b[0x0F]);
    Le32Injective(a[0x10], a[0x11], a[0x12], a[0x13], b[0x10], b[0x11], b[0x12], b[0x13]);
    Le32Injective(a[0x7C], a[0x7D], a[0x7E], a[0x7F], b[0x7C], b[0x7D], b[0x7E], b[0x7F]);
    forall i | 0 <= i < |FIELD_OFFSETS| ensures a[FIELD_OFFSETS[i]] == b[FIELD_OFFSETS[i]] {
      assert FIELD_OFFSETS[i] in {0x00, 0x01, 0x02, 0x03, 0x04, 0x06, 0x08, 0x09, 0x0A, 0x0B,
        0x0C, 0x0D, 0x0E, 0x0F, 0x10, 0x11, 0x12, 0x13, 0x7C, 0x7D, 0x7E, 0x7F};
    }
  }

  /** The device id of a page is `_u32` of bytes 0x7C..0x7F as the source writes it,
      `b0 | (b1 << 8) | (b2 << 16) | (b3 << 24)`, and lies in [0, 2^32). */
  lemma ModuleIdOfPage(data: seq<byte>)
    requires |data| >= REGISTERS_PAGE_SIZE
    ensures PageSnapshot(data).moduleId
      == Or(Or(Or(data[0x7C], Shl(data[0x7D], 8)), Shl(data[0x7E], 16)), Shl(data[0x7F], 24))
    ensures 0 <= PageSnapshot(data).moduleId < 0x1_0000_0000
  {
    Le32IsBitwiseOr(data[0x7C], data[0x7D], data[0x7E], data[0x7F]);
  }

  class Module {
    var registerMapVerMinor: int
    var registerMapVerMajor: int
    var status: int
    var control: int
    var firmwareVerMinor: int
    var firmwareVerMajor: int
    var concentration: Float32
    var temperature: Float32
    var humidity: Float32
    var moduleId: int

    /** All fields as one value. */
    function View(): Snapshot
      reads this
    {
      Snapshot(registerMapVerMinor, registerMapVerMajor, firmwareVerMinor, firmwareVerMajor,
               control, status, concentration, temperature, humidity, moduleId)
    }

    /** A new module has every integer field 0 and every float field 0.0. */
    constructor ()
      ensures View() == Snapshot(0, 0, 0, 0, 0, 0, ZERO_F32, ZERO_F32, ZERO_F32, 0)
    {
      registerMapVerMinor, registerMapVerMajor := 0, 0;
      status, control := 0, 0;
      firmwareVerMinor, firmwareVerMajor := 0, 0;
      concentration, temperature, humidity := ZERO_F32, ZERO_F32, ZERO_F32;
      moduleId := 0;
    }

    /** `deserialize`: a buffer shorter than a page is refused and nothing changes; otherwise
        every field is overwritten from the page and the call reports success. */
    method Deserialize(data: seq<byte>) returns (ok: bool)
      modifies this
      ensures ok <==> |data| >= REGISTERS_PAGE_SIZE
      ensures !ok ==> unchanged(this)
      ensures ok ==> View() == PageSnapshot(data)
    {
      if |data| < REGISTERS_PAGE_SIZE {
        return false;
      }
      registerMapVerMinor, registerMapVerMajor := data[REG_MAP_VER_LSB], data[REG_MAP_VER_MSB];
      control, status := data[REG_CONTROL], data[REG_STATUS];
      firmwareVerMinor, firmwareVerMajor := data[REG_FIRMWARE_VER_LSB], data[REG_FIRMWARE_VER_MSB];
      concentration := F32(data, REG_CONCENTRATION_LLSB, REG_CONCENTRATION_LMSB,
                           REG_CONCENTRATION_MLSB, REG_CONCENTRATION_MMSB);
      temperature := F32(data, REG_TEMPERATURE_LLSB, REG_TEMPERATURE_LMSB,
                         REG_TEMPERATURE_MLSB, REG_TEMPERATURE_MMSB);
      humidity := F32(data, REG_HUMIDITY_LLSB, REG_HUMIDITY_LMSB,
                      REG_HUMIDITY_MLSB, REG_HUMIDITY_MMSB);
      moduleId := U32(data, REG_DEVICE_ID_LLSB, REG_DEVICE_ID_LMSB,
                      REG_DEVICE_ID_MLSB, REG_DEVICE_ID_MMSB);
      return true;
    }

    /** `serialize_control`: the control register's address and a one-byte payload, the control
        value masked to its low eight bits (Python's `& 0xFF`, which for every integer, negative
        ones included, is the Euclidean remainder by 256). */
    function SerializeControl(): (r: (nat, seq<byte>))
      reads this
      ensures r.0 == REG_CONTROL && |r.1| == 1
      ensures (control - r.1[0]) % 256 == 0
      ensures 0 <= control < 256 ==> r.1 == [control]
    {
      (REG_CONTROL, [control % 256])
    }

    /** Request the concentration (oxygen) measurement sequence. */
    method ControlStartMeasurementSet()
      modifies this
      ensures View() == old(View()).(control := 0x01)
    {
      control := 0x01;
    }

    /** Request the temperature/humidity measurement sequence. */
    method ControlStartSht40MeasurementSet()
      modifies this
      ensures View() == old(View()).(control := 0x02)
    {
      control := 0x02;
    }

    /** Request that the device store its settings to flash. */
    method ControlStoreSettingsToFlash()
      modifies this
      ensures View() == old(View()).(control := 0x04)
    {
      control := 0x04;
    }
  }
}
