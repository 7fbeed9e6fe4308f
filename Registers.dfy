/** The device's register map: the byte offset of every field the host decodes from one
    register page, and the page size. */
module Registers {

  // Version, control and status bytes.
  const REG_MAP_VER_LSB: nat := 0x00
  const REG_MAP_VER_MSB: nat := 0x01
  const REG_FIRMWARE_VER_LSB: nat := 0x02
  const REG_FIRMWARE_VER_MSB: nat := 0x03
  const REG_CONTROL: nat := 0x04
  /** Offset 0x05 is reserved; status keeps its original address. */
  const REG_STATUS: nat := 0x06

  // Binary32 sensor values, least significant byte first.
  const REG_CONCENTRATION_LLSB: nat := 0x08
  const REG_CONCENTRATION_LMSB: nat := 0x09
  const REG_CONCENTRATION_MLSB: nat := 0x0A
  const REG_CONCENTRATION_MMSB: nat := 0x0B
  const REG_TEMPERATURE_LLSB: nat := 0x0C
  const REG_TEMPERATURE_LMSB: nat := 0x0D
  const REG_TEMPERATURE_MLSB: nat := 0x0E
  const REG_TEMPERATURE_MMSB: nat := 0x0F
  const REG_HUMIDITY_LLSB: nat := 0x10
  const REG_HUMIDITY_LMSB: nat := 0x11
  const REG_HUMIDITY_MLSB: nat := 0x12
  const REG_HUMIDITY_MMSB: nat := 0x13

  // The u32 device id, least significant byte first.
  const REG_DEVICE_ID_LLSB: nat := 0x7C
  const REG_DEVICE_ID_LMSB: nat := 0x7D
  const REG_DEVICE_ID_MLSB: nat := 0x7E
  const REG_DEVICE_ID_MMSB: nat := 0x7F

  /** One past the last register: a full page is still 256 bytes. */
  const REG_LAST: nat := 256
  const REGISTERS_PAGE_SIZE: nat := REG_LAST

  /** The byte groups of the three binary32 fields, each in little-endian order. */
  const FLOAT_FIELDS: seq<seq<nat>> := [
    [REG_CONCENTRATION_LLSB, REG_CONCENTRATION_LMSB, REG_CONCENTRATION_MLSB, REG_CONCENTRATION_MMSB],
    [REG_TEMPERATURE_LLSB, REG_TEMPERATURE_LMSB, REG_TEMPERATURE_MLSB, REG_TEMPERATURE_MMSB],
    [REG_HUMIDITY_LLSB, REG_HUMIDITY_LMSB, REG_HUMIDITY_MLSB, REG_HUMIDITY_MMSB]
  ]

  /** Every offset the register page decoder reads. */
  const FIELD_OFFSETS: seq<nat> := [
    REG_MAP_VER_LSB, REG_MAP_VER_MSB, REG_FIRMWARE_VER_LSB, REG_FIRMWARE_VER_MSB,
    REG_CONTROL, REG_STATUS,
    REG_CONCENTRATION_LLSB, REG_CONCENTRATION_LMSB, REG_CONCENTRATION_MLSB, REG_CONCENTRATION_MMSB,
    REG_TEMPERATURE_LLSB, REG_TEMPERATURE_LMSB, REG_TEMPERATURE_MLSB, REG_TEMPERATURE_MMSB,
    REG_HUMIDITY_LLSB, REG_HUMIDITY_LMSB, REG_HUMIDITY_MLSB, REG_HUMIDITY_MMSB,
    REG_DEVICE_ID_LLSB, REG_DEVICE_ID_LMSB, REG_DEVICE_ID_MLSB, REG_DEVICE_ID_MMSB]

  /** A page holds 256 bytes. */
  lemma PageSize()
    ensures REGISTERS_PAGE_SIZE == REG_LAST == 256
  {
  }

  /** Every field lies inside one page. */
  lemma OffsetsInsidePage()
    ensures |FIELD_OFFSETS| == 22
    ensures forall i :: 0 <= i < |FIELD_OFFSETS| ==> FIELD_OFFSETS[i] < REGISTERS_PAGE_SIZE
  {
  }

  /** No two fields share a byte. */
  lemma OffsetsDistinct()
    ensures forall i, j :: 0 <= i < j < |FIELD_OFFSETS| ==> FIELD_OFFSETS[i] != FIELD_OFFSETS[j]
  {
  }

  /** Each binary32 field occupies four consecutive ascending offsets. */
  lemma FloatFieldsContiguous()
    ensures forall f :: 0 <= f < |FLOAT_FIELDS| ==>
      |FLOAT_FIELDS[f]| == 4 && forall k :: 0 < k < 4 ==> FLOAT_FIELDS[f][k] == FLOAT_FIELDS[f][0] + k
  {
  }

  /** Control sits at 0x04 and status at 0x06; 0x05 between them is reserved and read by no field. */
  lemma ControlAndStatus()
    ensures REG_CONTROL == 0x04 && REG_STATUS == 0x06
    ensures 0x05 !in FIELD_OFFSETS
  {
  }

  /** The device id occupies 0x7C..0x7F, contiguous, in the first half of the page. */
  lemma DeviceIdPlacement()
    ensures REG_DEVICE_ID_LLSB == 0x7C
    ensures REG_DEVICE_ID_LMSB == REG_DEVICE_ID_LLSB + 1
    ensures REG_DEVICE_ID_MLSB == REG_DEVICE_ID_LLSB + 2
    ensures REG_DEVICE_ID_MMSB == REG_DEVICE_ID_LLSB + 3
    ensures REG_DEVICE_ID_MMSB < REGISTERS_PAGE_SIZE / 2
  {
  }
}
