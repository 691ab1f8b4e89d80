/** Unsigned machine words as numbers. */
module MachineWords {
  type Byte = b: nat | b < 0x100
  type Halfword = h: nat | h < 0x1_0000
  type Word = w: nat | w < 0x1_0000_0000
}
