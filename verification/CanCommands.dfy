/** What decode_msg makes of each buffer command, in numbers. */
module CanCommands {
  import opened MachineWords
  import opened Crc16
  import opened CanFragments
  import opened CanReassembly

  predicate ForUs(f: CanFrame, ids: Ids) {
    f.eid % 256 == 255 || f.eid % 256 == ids.first || f.eid % 256 == ids.second
  }

  /** A payload in mode 0 is a command that is answered, in mode 1 it is passed on, and in mode 2 it is a
      command that is not answered. There are no other modes. */
  predicate HandedOn(log: seq<Delivery>, log': seq<Delivery>, mode: Byte, payload: seq<Byte>, from: Byte) {
    && (mode == 0 ==> log' == log + [Handle(payload, from)])
    && (mode == 1 ==> log' == log + [PassOn(payload)])
    && (mode == 2 ==> log' == log + [HandleSilently(payload)])
    && (mode > 2 ==> log' == log)
  }

  /** The commands that are not executed while the payload's reply function is replaced. */
  predicate Withheld(command: Byte) {
    command in {1, 2, 3, 73, 81}
  }

  ghost predicate CopiedTo(buffer: seq<Byte>, buffer': seq<Byte>, at: nat, bytes: seq<Byte>) {
    && |buffer'| == |buffer| == 512
    && forall j :: 0 <= j < 512 ==> buffer'[j] == if at <= j < at + |bytes| then bytes[j - at] else buffer[j]
  }

  /** Command 5. */
  lemma Fill(d: CanDecoder, f: CanFrame, ids: Ids, replaced: bool)
    requires ForUs(f, ids) && f.eid / 256 == 5 && f.dlc >= 1
    ensures Defined(f, ids, replaced)
    ensures var e := Receive(d, f, ids, replaced);
            && CopiedTo(d.buffer, e.buffer, f.data8[0], f.data8[1..f.dlc])
            && e.log == d.log && e.lastId == d.lastId
  {
  }

  /** Command 6. */
  lemma FillLong(d: CanDecoder, f: CanFrame, ids: Ids, replaced: bool)
    requires ForUs(f, ids) && f.eid / 256 == 6
    ensures var at := f.data8[0] as nat * 256 + f.data8[1];
            && (at >= 512 ==> Defined(f, ids, replaced) && Receive(d, f, ids, replaced) == d)
            && (f.dlc >= 2 && at + f.dlc <= 514 ==>
                 && Defined(f, ids, replaced)
                 && var e := Receive(d, f, ids, replaced);
                    && (at < 512 ==> CopiedTo(d.buffer, e.buffer, at, f.data8[2..f.dlc]))
                    && e.log == d.log && e.lastId == d.lastId)
  {
  }

  /** Command 7. */
  lemma Process(d: CanDecoder, f: CanFrame, ids: Ids, replaced: bool)
    requires ForUs(f, ids) && f.eid / 256 == 7
    ensures Defined(f, ids, replaced)
    ensures var e, len := Receive(d, f, ids, replaced), f.data8[2] as nat * 256 + f.data8[3];
            && e.buffer == d.buffer && e.lastId == f.data8[0]
            && if len <= 512 && Checksum(d.buffer[..len]) == ByteBits(f.data8[4]) + ByteBits(f.data8[5])
                  && !(replaced && Withheld(d.buffer[0]))
               then HandedOn(d.log, e.log, f.data8[1], d.buffer[..len], f.data8[0])
               else e.log == d.log
  {
  }

  /** Command 8. */
  lemma ProcessShort(d: CanDecoder, f: CanFrame, ids: Ids, replaced: bool)
    requires ForUs(f, ids) && f.eid / 256 == 8 && f.dlc >= 2
    ensures Defined(f, ids, replaced)
    ensures var e := Receive(d, f, ids, replaced);
            && e.buffer == d.buffer && e.lastId == f.data8[0]
            && if replaced && Withheld(f.data8[2]) then e.log == d.log
               else HandedOn(d.log, e.log, f.data8[1], f.data8[2..f.dlc], f.data8[0])
  {
  }

  /** Other commands, and frames for others. */
  lemma Ignored(d: CanDecoder, f: CanFrame, ids: Ids, replaced: bool)
    requires !ForUs(f, ids) || f.eid / 256 < 5 || f.eid / 256 > 8
    ensures Defined(f, ids, replaced) && Receive(d, f, ids, replaced) == d
  {
  }
}
