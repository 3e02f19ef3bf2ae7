/** The tags of the packets that the Windows controller sends; the phone has a table of its own. */
module ControllerPackets {
  import opened Octets

  const RESOLUTION: byte := 0x01
  const ACTIVATION: byte := 0x02
  const CAMERA: byte := 0x03
  const CORRECTION_FILTER: byte := 0x05
  const EFFECT_FILTER: byte := 0x06
  const ROTATION: byte := 0x07
  const BITRATE: byte := 0x08
  const ADAPTIVE_BITRATE: byte := 0x09
  const STABILIZATION: byte := 0x0A
  const FLASH: byte := 0x0B
  const FOCUS: byte := 0x0C
  const CODEC: byte := 0x0D
  const FPS: byte := 0x0E
  const ZOOM: byte := 0x0F
  const FLIP: byte := 0x10
}
