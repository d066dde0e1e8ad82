/** Types and constants shared by the sensor mote and the border router. */
module Common {

  /** A C `uint8_t`. */
  newtype uint8 = x: int | 0 <= x < 0x100

  /** A C `uint16_t`. */
  newtype uint16 = x: int | 0 <= x < 0x1_0000

  /** The mote's UDP port: the gateway opens its connection towards it. */
  const UdpClientPort: uint16 := 8765

  /** The gateway's UDP port: the mote sends its reports to it. */
  const UdpServerPort: uint16 := 5678

  /** The report a mote sends to the gateway (`sensor_packet`). */
  datatype SensorPacket = SensorPacket(temperature: uint16, lightIntensity: uint16)

  datatype Option<T> = None | Some(value: T)
}
