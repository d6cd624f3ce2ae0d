/**
The flash command of the host tool, from Intel HEX text to the target's program flash.
*/
module Programmer {
  import opened BitVectors
  import opened Stm8
  import opened FlashController
  import opened Target
  import opened Link
  import opened FlashLog
  import opened EraseRanges
  import opened Flash
  import opened Firmware
  import opened HostLink
  import E = Enter
  import H = HexParser
  import I = HexImage

  const MASK_ATTEMPTS := 100

  /** A controller that was quiet still is, and its memory is still `mem`. */
  ghost predicate Still(m: Machine, origin: Target, t: Target) {
    && t.Conforming? == origin.Conforming?
    && (m == STM8 && t.Conforming? && origin.dev.work.Quiet? ==> t.dev.work.Quiet? && t.dev.mem == origin.dev.mem)
  }

  /** The flash holds the first `n` bytes of the image and zeros after them; the rest of the
      memory is as it was. */
  ghost predicate Filled(m: Machine, origin: Target, t: Target, log: Log, image: seq<Byte>, n: nat)
    requires |image| == FLASH_SIZE && n <= FLASH_SIZE
  {
    && t.Conforming? == origin.Conforming?
    && (m == STM8 && t.Conforming? && TriggersTaken(log) && origin.dev.work.Quiet? ==>
          && t.dev.work.Quiet?
          && t.dev.mem == Stored(origin.dev.mem, FLASH_START, image[..n] + Zeros(FLASH_SIZE - n)))
  }

  /** A quiet controller whose program flash is unlocked, or can be. */
  predicate Startable(d: Stm8.Device) {
    d.work.Quiet? && !d.refused && (d.pul || d.pukr == Expecting)
  }

  // ----- what is sent -----

  /** The two keys, in their order. */
  function KeyOrders(): seq<Order> {
    [Order(CMD_MEMORY_WRITE, MemoryPayload(PUKR, 1, [0x56])), Order(CMD_MEMORY_WRITE, MemoryPayload(PUKR, 1, [0xAE]))]
  }

  function BlockOrder(image: seq<Byte>, offset: nat): seq<Order>
    requires offset + BLOCK <= |image|
  {
    var block := image[offset..offset + BLOCK];
    if block == Zeros(BLOCK) then []
    else [Order(CMD_FLASH_WRITE_BLOCK, MemoryPayload(FLASH_START + offset, BLOCK, block))]
  }

  /** The blocks below `end` that are not blank, in ascending order. */
  function BlockOrders(image: seq<Byte>, end: nat): seq<Order>
    requires end <= |image|
  {
    if end < BLOCK then [] else BlockOrders(image, end - BLOCK) + BlockOrder(image, end - BLOCK)
  }

  lemma {:induction false} OrdersGrow(image: seq<Byte>, end: nat, more: nat, left: nat)
    requires more == end + BLOCK * left <= |image|
    ensures BlockOrders(image, end) <= BlockOrders(image, more)
    decreases left
  {
    if left > 0 {
      var less := more - BLOCK;
      OrdersGrow(image, end, less, left - 1);
      OrdersStep(image, less, more);
      Beginnings(BlockOrders(image, end), BlockOrders(image, less), BlockOrders(image, more));
    }
  }

  lemma {:induction false} OrdersStep(image: seq<Byte>, less: nat, more: nat)
    requires more == less + BLOCK <= |image|
    ensures BlockOrders(image, less) <= BlockOrders(image, more)
  {
    var one := BlockOrder(image, less);
    assert BlockOrders(image, more) == BlockOrders(image, less) + one;
  }

  lemma Beginnings(a: seq<Order>, b: seq<Order>, c: seq<Order>)
    requires a <= b <= c
    ensures a <= c
  {
  }

  /** The flash command after the entry: the keys if the flash is locked, one erase of all of it,
      and the blocks. */
  function Plan(image: seq<Byte>, locked: bool): seq<Order>
    requires |image| == FLASH_SIZE
  {
    Unlocking(locked) + (Erasing() + BlockOrders(image, |image|))
  }

  function Unlocking(locked: bool): seq<Order> {
    if locked then KeyOrders() else []
  }

  function Erasing(): seq<Order> {
    [Order(CMD_FLASH_ERASE, ErasePayload(FLASH_START, FLASH_SIZE))]
  }

  /** Since `before` a beginning of the plan has been carried out, and if `ok` all of it. */
  predicate Followed(before: seq<Order>, after: seq<Order>, plan: seq<Order>, ok: bool) {
    before <= after <= before + plan && (ok ==> after == before + plan)
  }

  lemma FollowedFirst(before: seq<Order>, after: seq<Order>, first: seq<Order>, rest: seq<Order>, ok: bool)
    requires Followed(before, after, first, ok)
    ensures Followed(before, after, first + rest, false)
  {
    assert before + (first + rest) == (before + first) + rest;
  }

  lemma FollowedNext(before: seq<Order>, mid: seq<Order>, after: seq<Order>, first: seq<Order>, rest: seq<Order>, ok: bool)
    requires mid == before + first && Followed(mid, after, rest, ok)
    ensures Followed(before, after, first + rest, ok)
  {
    assert before + (first + rest) == mid + rest;
  }

  // ----- what the steps do -----

  lemma ReadStill(m: Machine, origin: Target, t: Target, u: Target, address: Address, data: seq<Byte>)
    requires Still(m, origin, t) && |data| == 1 && DmGot(m, u, t, address, data)
    ensures Still(m, origin, u)
  {
    if t.Conforming? {
      SingleAccess(m, t.dev, address, 0);
      if m == STM8 && t.dev.work.Quiet? {
        PollStill(t.dev, address);
      }
    }
  }

  lemma PollStill(d: Stm8.Device, a: Address)
    requires d.work.Quiet?
    ensures ReadByte(d, a).1.mem == d.mem && ReadByte(d, a).1.work.Quiet?
  {
  }

  lemma KeyStill(m: Machine, origin: Target, t: Target, u: Target, v: Byte)
    requires Still(m, origin, t) && DmWrote(m, u, t, PUKR, [v], 1)
    ensures Still(m, origin, u)
  {
    assert [v][..1] == [v];
    if t.Conforming? {
      SingleAccess(m, t.dev, PUKR, v);
      KeyKeepsMemory(t.dev, v);
    }
  }

  lemma IapsrRead(t: Target, u: Target, data: seq<Byte>)
    requires t.Conforming? && |data| == 1 && DmGot(STM8, u, t, IAPSR, data)
    ensures u.dev == ReadByte(t.dev, IAPSR).1 && IapsrSays(t.dev, u.dev, data[0])
  {
    SingleAccess(STM8, t.dev, IAPSR, 0);
    PollSettles(t.dev);
  }

  /** One of the two keys. */
  lemma KeyWritten(t: Target, u: Target, v: Byte)
    requires t.Conforming? && DmWrote(STM8, u, t, PUKR, [v], 1)
    ensures u.dev == WriteByte(t.dev, PUKR, v)
  {
    assert [v][..1] == [v];
    SingleAccess(STM8, t.dev, PUKR, v);
  }

  lemma KeysUnlock(d: Stm8.Device)
    requires Startable(d) && !d.pul
    ensures Ready(WriteByte(WriteByte(d, PUKR, 0x56), PUKR, 0xAE))
  {
  }

  lemma KeyKeepsMemory(d: Stm8.Device, v: Byte)
    ensures WriteByte(d, PUKR, v).mem == d.mem && WriteByte(d, PUKR, v).work == d.work
  {
  }

  /** The whole flash is a whole number of blocks. */
  lemma FlashBlocks()
    ensures BlockStart(FLASH_START) == FLASH_START && BLOCK * BlockCount(FLASH_START, FLASH_SIZE) == FLASH_SIZE
  {
  }

  lemma ErasedFills(m: Machine, origin: Target, t: Target, u: Target, log: Log, image: seq<Byte>)
    requires |image| == FLASH_SIZE && Still(m, origin, t)
    requires ErasedTo(m, t, u, log, BlockStart(FLASH_START), BlockCount(FLASH_START, FLASH_SIZE))
    ensures Filled(m, origin, u, log, image, 0)
  {
    FlashBlocks();
    assert image[..0] + Zeros(FLASH_SIZE) == Zeros(FLASH_SIZE);
  }

  /** The next block is still erased. */
  lemma NextErased(d: Stm8.Device, mem: Memory, image: seq<Byte>, n: nat)
    requires |image| == FLASH_SIZE && n + BLOCK <= FLASH_SIZE
    requires d.mem == Stored(mem, FLASH_START, image[..n] + Zeros(FLASH_SIZE - n))
    ensures ErasedCells(d, FLASH_START + n, BLOCK)
  {
  }

  /** The block takes the place of its zeros. */
  lemma BlockFills(mem: Memory, image: seq<Byte>, n: nat, block: seq<Byte>)
    requires |image| == FLASH_SIZE && n + BLOCK <= FLASH_SIZE && block == image[n..n + BLOCK]
    ensures Stored(Stored(mem, FLASH_START, image[..n] + Zeros(FLASH_SIZE - n)), FLASH_START + n, block)
         == Stored(mem, FLASH_START, image[..n + BLOCK] + Zeros(FLASH_SIZE - (n + BLOCK)))
  {
    assert image[..n + BLOCK] == image[..n] + block;
  }

  /** A blank block is in place already. */
  lemma BlankFills(image: seq<Byte>, n: nat)
    requires |image| == FLASH_SIZE && n + BLOCK <= FLASH_SIZE && image[n..n + BLOCK] == Zeros(BLOCK)
    ensures image[..n + BLOCK] + Zeros(FLASH_SIZE - (n + BLOCK)) == image[..n] + Zeros(FLASH_SIZE - n)
  {
    assert image[..n + BLOCK] == image[..n] + Zeros(BLOCK);
    assert Zeros(FLASH_SIZE - n) == Zeros(BLOCK) + Zeros(FLASH_SIZE - (n + BLOCK));
  }

  lemma ProgrammedFills(m: Machine, origin: Target, t: Target, u: Target, log: Log, before: Log,
      image: seq<Byte>, n: nat, block: seq<Byte>)
    requires |image| == FLASH_SIZE && n + BLOCK <= FLASH_SIZE && block == image[n..n + BLOCK]
    requires Filled(m, origin, t, before, image, n) && (TriggersTaken(log) ==> TriggersTaken(before))
    requires u.Conforming? == t.Conforming? && BlockProgrammed(m, t, u, log, FLASH_START + n, block)
    ensures Filled(m, origin, u, log, image, n + BLOCK)
  {
    if m == STM8 && u.Conforming? && TriggersTaken(log) && origin.dev.work.Quiet? {
      NextErased(t.dev, origin.dev.mem, image, n);
      BlockFills(origin.dev.mem, image, n, block);
    }
  }

  // ----- what is in flash at the end -----

  /** Each address of the flash holds its byte of the map, or zero; no other address has
      changed but the two debug registers. */
  predicate Flashed(before: Memory, after: Memory, bytes: map<nat, Byte>) {
    forall a :: 0 <= a < SPACE && a != SWIM_CSR && a != DM_CSR2 ==>
      after[a] == if InProgram(a) then (if a in bytes then bytes[a] else 0) else before[a]
  }

  lemma FilledIsFlashed(mem: Memory, image: seq<Byte>, bytes: map<nat, Byte>)
    requires |image| == FLASH_SIZE && I.ImageOf(image, bytes, FLASH_START, 0)
    ensures Flashed(mem, Stored(mem, FLASH_START, image), bytes)
  {
    var after := Stored(mem, FLASH_START, image);
    forall a | 0 <= a < SPACE
      ensures after[a] == if InProgram(a) then (if a in bytes then bytes[a] else 0) else mem[a]
    {
      if InProgram(a) {
        assert after[a] == image[a - FLASH_START];
        assert FLASH_START + (a - FLASH_START) == a;
      }
    }
  }

  /** A read of the whole flash returns it, and changes nothing. */
  lemma FlashRead(m: Machine, t: Target, u: Target, data: seq<Byte>)
    requires m == STM8 && u.Conforming? && |data| == FLASH_SIZE && DmGot(m, u, t, FLASH_START, data)
    ensures data == u.dev.mem[FLASH_START..FLASH_START + FLASH_SIZE] && u.dev == t.dev
  {
    SilentRead(t.dev, FLASH_START, FLASH_SIZE);
  }

  /** write_key_pair_same_register, unlock_program_flash's two writes. */
  method WriteKeyPair(probe: Probe, ghost origin: Site) returns (ok: bool)
    requires probe.Synced() && Still(probe.fw.driver.link.m, origin.target, probe.Here().target)
    modifies probe, probe.fw, probe.fw.port, probe.fw.driver, probe.fw.driver.link
    ensures old(probe.fw.driver.Healthy()) ==> ok && probe.fw.driver.Healthy()
    ensures old(probe.fw.driver.Healthy()) && Startable(old(probe.Here()).target.dev) && !old(probe.Here()).target.dev.pul
        ==> Ready(probe.Here().target.dev)
    ensures probe.Synced() && Followed(old(probe.orders), probe.orders, KeyOrders(), ok)
    ensures ok ==> Still(probe.fw.driver.link.m, origin.target, probe.Here().target)
    ensures ok ==> TriggersTaken(probe.Here().log) == TriggersTaken(old(probe.Here()).log)
  {
    ghost var taken;
    ghost var t := probe.Here().target;
    ok, taken := probe.WriteMemory(PUKR, [0x56]);
    if !ok {
      return;
    }
    KeyStill(probe.fw.driver.link.m, origin.target, t, probe.Here().target, 0x56);
    ghost var s := t;
    if s.Conforming? && probe.fw.driver.link.m == STM8 {
      KeyWritten(s, probe.Here().target, 0x56);
    }
    t := probe.Here().target;
    ok, taken := probe.WriteMemory(PUKR, [0xAE]);
    if !ok {
      return;
    }
    KeyStill(probe.fw.driver.link.m, origin.target, t, probe.Here().target, 0xAE);
    if s.Conforming? && probe.fw.driver.link.m == STM8 {
      KeyWritten(t, probe.Here().target, 0xAE);
      if Startable(s.dev) && !s.dev.pul {
        KeysUnlock(s.dev);
      }
    }
  }

  /** A read of IAPSR. */
  method ReadIapsr(probe: Probe, ghost origin: Site) returns (ok: bool, v: Byte)
    requires probe.Synced() && Still(probe.fw.driver.link.m, origin.target, probe.Here().target)
    modifies probe, probe.fw, probe.fw.port, probe.fw.driver, probe.fw.driver.link
    ensures old(probe.fw.driver.Healthy()) ==>
              && ok && probe.fw.driver.Healthy()
              && IapsrSays(old(probe.Here()).target.dev, probe.Here().target.dev, v)
    ensures probe.Synced() && probe.orders == old(probe.orders)
    ensures ok ==> Still(probe.fw.driver.link.m, origin.target, probe.Here().target)
    ensures ok ==> TriggersTaken(probe.Here().log) == TriggersTaken(old(probe.Here()).log)
  {
    ghost var t := probe.Here().target;
    var r := probe.ReadMemory(IAPSR, 1);
    if r.Failed? {
      return false, 0;
    }
    ReadStill(probe.fw.driver.link.m, origin.target, t, probe.Here().target, IAPSR, r.value);
    if t.Conforming? && probe.fw.driver.link.m == STM8 {
      IapsrRead(t, probe.Here().target, r.value);
    }
    return true, r.value[0];
  }

  /** unlock_program_flash; a flash that stays locked is left for the erase to refuse. */
  method UnlockProgramFlash(probe: Probe) returns (ok: bool, ghost locked: bool)
    requires probe.Synced()
    modifies probe, probe.fw, probe.fw.port, probe.fw.driver, probe.fw.driver.link
    ensures old(probe.fw.driver.Healthy()) && Startable(old(probe.Here()).target.dev)
        ==> ok && probe.fw.driver.Healthy() && Ready(probe.Here().target.dev)
    ensures probe.Synced() && Followed(old(probe.orders), probe.orders, Unlocking(locked), ok)
    ensures ok ==> Still(probe.fw.driver.link.m, old(probe.Here()).target, probe.Here().target)
    ensures ok ==> TriggersTaken(probe.Here().log) == TriggersTaken(old(probe.Here()).log)
  {
    ghost var origin := probe.Here();
    var iapsr;
    locked := false;
    ok, iapsr := ReadIapsr(probe, origin);
    if !ok || Pul(iapsr) {
      return;
    }
    locked := true;
    ok := WriteKeyPair(probe, origin);
    if !ok {
      return;
    }
    for attempt := 0 to MASK_ATTEMPTS
      invariant probe.orders == old(probe.orders) + KeyOrders()
      invariant probe.Synced() && ok && Still(probe.fw.driver.link.m, origin.target, probe.Here().target)
      invariant TriggersTaken(probe.Here().log) == TriggersTaken(origin.log)
      invariant old(probe.fw.driver.Healthy()) && Startable(origin.target.dev)
            ==> probe.fw.driver.Healthy() && Ready(probe.Here().target.dev)
    {
      ok, iapsr := ReadIapsr(probe, origin);
      if !ok || Pul(iapsr) {
        return;
      }
    }
  }

  /** One block that is not blank. */
  method WriteOne(probe: Probe, image: seq<Byte>, offset: nat, block: seq<Byte>, ghost origin: Site) returns (ok: bool)
    requires probe.Synced() && |image| == FLASH_SIZE
    requires offset + BLOCK <= FLASH_SIZE && block == image[offset..offset + BLOCK]
    requires Filled(probe.fw.driver.link.m, origin.target, probe.Here().target, probe.Here().log, image, offset)
    requires TriggersTaken(probe.Here().log) ==> TriggersTaken(origin.log)
    modifies probe, probe.fw, probe.fw.port, probe.fw.driver, probe.fw.driver.link
    ensures old(probe.fw.driver.Healthy()) && Ready(old(probe.Here()).target.dev)
        ==> ok && probe.fw.driver.Healthy() && Ready(probe.Here().target.dev)
            && TriggersTaken(probe.Here().log) == TriggersTaken(old(probe.Here()).log)
    ensures probe.Synced() && (block != Zeros(BLOCK) ==> probe.orders == old(probe.orders) + BlockOrder(image, offset))
    ensures ok ==> Filled(probe.fw.driver.link.m, origin.target, probe.Here().target, probe.Here().log, image, offset + BLOCK)
    ensures ok ==> (TriggersTaken(probe.Here().log) ==> TriggersTaken(origin.log))
  {
    ghost var before := probe.Here();
    ok := probe.FlashWriteBlock(FLASH_START + offset, block);
    if ok {
      ProgrammedFills(probe.fw.driver.link.m, origin.target, before.target, probe.Here().target, probe.Here().log, before.log,
                      image, offset, block);
    }
  }

  /** The orders for the blocks below `end` have been sent since `before`. */
  ghost predicate Sent(before: seq<Order>, after: seq<Order>, image: seq<Byte>, end: nat) {
    end <= |image| && after == before + BlockOrders(image, end)
  }

  lemma {:induction false} NextSent(before: seq<Order>, mid: seq<Order>, after: seq<Order>, image: seq<Byte>, offset: nat)
    requires Sent(before, mid, image, offset) && offset + BLOCK <= |image| && after == mid + BlockOrder(image, offset)
    ensures Sent(before, after, image, offset + BLOCK)
  {
    var next := offset + BLOCK;
    assert BlockOrders(image, next) == BlockOrders(image, offset) + BlockOrder(image, offset);
  }

  lemma {:induction false} SentFollowed(before: seq<Order>, after: seq<Order>, image: seq<Byte>, end: nat, left: nat, ok: bool)
    requires Sent(before, after, image, end) && |image| == end + BLOCK * left && (ok ==> left == 0)
    ensures Followed(before, after, BlockOrders(image, |image|), ok)
  {
    OrdersGrow(image, end, |image|, left);
  }

  /** One round of the loop: a blank block is skipped. */
  method WriteStep(probe: Probe, image: seq<Byte>, offset: nat, ghost origin: Site, ghost before: seq<Order>)
    returns (ok: bool)
    requires Sent(before, probe.orders, image, offset)
    requires probe.Synced() && |image| == FLASH_SIZE && offset + BLOCK <= FLASH_SIZE
    requires Filled(probe.fw.driver.link.m, origin.target, probe.Here().target, probe.Here().log, image, offset)
    requires TriggersTaken(probe.Here().log) ==> TriggersTaken(origin.log)
    modifies probe, probe.fw, probe.fw.port, probe.fw.driver, probe.fw.driver.link
    ensures old(probe.fw.driver.Healthy()) && Ready(old(probe.Here()).target.dev)
        ==> ok && probe.fw.driver.Healthy() && Ready(probe.Here().target.dev)
            && TriggersTaken(probe.Here().log) == TriggersTaken(old(probe.Here()).log)
    ensures probe.Synced() && Sent(before, probe.orders, image, offset + BLOCK)
    ensures ok ==> Filled(probe.fw.driver.link.m, origin.target, probe.Here().target, probe.Here().log, image, offset + BLOCK)
    ensures ok ==> (TriggersTaken(probe.Here().log) ==> TriggersTaken(origin.log))
  {
    var block := image[offset..offset + BLOCK];
    ghost var mid := probe.orders;
    if block == Zeros(BLOCK) {
      BlankFills(image, offset);
      ok := true;
    } else {
      ok := WriteOne(probe, image, offset, block, origin);
    }
    NextSent(before, mid, probe.orders, image, offset);
  }

  /** The loop over the blocks of the image, up to `end`; `left` of them are left. */
  method WriteLoop(probe: Probe, image: seq<Byte>, ghost origin: Site) returns (ok: bool, ghost end: nat, ghost left: nat)
    requires probe.Synced() && |image| == FLASH_SIZE
    requires Filled(probe.fw.driver.link.m, origin.target, probe.Here().target, probe.Here().log, image, 0)
    requires TriggersTaken(probe.Here().log) ==> TriggersTaken(origin.log)
    modifies probe, probe.fw, probe.fw.port, probe.fw.driver, probe.fw.driver.link
    ensures old(probe.fw.driver.Healthy()) && Ready(old(probe.Here()).target.dev)
        ==> ok && probe.fw.driver.Healthy() && TriggersTaken(probe.Here().log) == TriggersTaken(old(probe.Here()).log)
    ensures probe.Synced() && |image| == end + BLOCK * left && Sent(old(probe.orders), probe.orders, image, end)
    ensures ok ==> left == 0
    ensures ok ==> Filled(probe.fw.driver.link.m, origin.target, probe.Here().target, probe.Here().log, image, FLASH_SIZE)
    ensures ok ==> (TriggersTaken(probe.Here().log) ==> TriggersTaken(origin.log))
  {
    var offset := 0;
    ghost var before, taken := probe.orders, TriggersTaken(probe.Here().log);
    ghost var healthy := probe.fw.driver.Healthy() && Ready(probe.Here().target.dev);
    end, left := 0, FLASH_SIZE / BLOCK;
    while offset < FLASH_SIZE
      invariant probe.Synced() && offset + BLOCK * left == FLASH_SIZE && end == offset
      invariant Sent(before, probe.orders, image, offset)
      invariant healthy ==>
                  probe.fw.driver.Healthy() && Ready(probe.Here().target.dev) && TriggersTaken(probe.Here().log) == taken
      invariant Filled(probe.fw.driver.link.m, origin.target, probe.Here().target, probe.Here().log, image, offset)
      invariant TriggersTaken(probe.Here().log) ==> TriggersTaken(origin.log)
    {
      ok := WriteStep(probe, image, offset, origin, before);
      offset := offset + BLOCK;
      end, left := offset, left - 1;
      if !ok {
        return;
      }
    }
    ok := true;
  }

  /** The blocks of the image, from left to right; a blank block is in place already. */
  method WriteBlocks(probe: Probe, image: seq<Byte>, ghost origin: Site) returns (ok: bool)
    requires probe.Synced() && |image| == FLASH_SIZE
    requires Filled(probe.fw.driver.link.m, origin.target, probe.Here().target, probe.Here().log, image, 0)
    requires TriggersTaken(probe.Here().log) ==> TriggersTaken(origin.log)
    modifies probe, probe.fw, probe.fw.port, probe.fw.driver, probe.fw.driver.link
    ensures old(probe.fw.driver.Healthy()) && Ready(old(probe.Here()).target.dev)
        ==> ok && probe.fw.driver.Healthy() && TriggersTaken(probe.Here().log) == TriggersTaken(old(probe.Here()).log)
    ensures probe.Synced() && Followed(old(probe.orders), probe.orders, BlockOrders(image, |image|), ok)
    ensures ok ==> Filled(probe.fw.driver.link.m, origin.target, probe.Here().target, probe.Here().log, image, FLASH_SIZE)
    ensures ok ==> (TriggersTaken(probe.Here().log) ==> TriggersTaken(origin.log))
  {
    ghost var before, end, left := probe.orders, 0, 0;
    ok, end, left := WriteLoop(probe, image, origin);
    SentFollowed(before, probe.orders, image, end, left, ok);
  }

  /** One erase of the whole flash, and then the blocks. */
  method EraseAndWrite(probe: Probe, image: seq<Byte>, ghost origin: Site) returns (ok: bool)
    requires probe.Synced() && |image| == FLASH_SIZE && Still(probe.fw.driver.link.m, origin.target, probe.Here().target)
    requires TriggersTaken(probe.Here().log) ==> TriggersTaken(origin.log)
    modifies probe, probe.fw, probe.fw.port, probe.fw.driver, probe.fw.driver.link
    ensures old(probe.fw.driver.Healthy()) && Ready(old(probe.Here()).target.dev)
        ==> ok && probe.fw.driver.Healthy() && TriggersTaken(probe.Here().log) == TriggersTaken(old(probe.Here()).log)
    ensures probe.Synced() && Followed(old(probe.orders), probe.orders, Erasing() + BlockOrders(image, |image|), ok)
    ensures ok ==> Filled(probe.fw.driver.link.m, origin.target, probe.Here().target, probe.Here().log, image, FLASH_SIZE)
    ensures ok ==> (TriggersTaken(probe.Here().log) ==> TriggersTaken(origin.log))
  {
    ghost var before, unlocked := probe.orders, probe.Here();
    ok := probe.FlashErase(FLASH_START, FLASH_SIZE);
    ghost var mid, blocks := probe.orders, BlockOrders(image, |image|);
    if !ok {
      FollowedFirst(before, mid, Erasing(), blocks, false);
      return;
    }
    FlashBlocks();
    ErasedFills(probe.fw.driver.link.m, origin.target, unlocked.target, probe.Here().target, probe.Here().log, image);
    ok := WriteBlocks(probe, image, origin);
    FollowedNext(before, mid, probe.orders, Erasing(), blocks, ok);
  }

  /** The flash read back and compared. */
  method VerifyImage(probe: Probe, image: seq<Byte>, ghost origin: Target) returns (ok: bool)
    requires probe.Synced() && |image| == FLASH_SIZE
    requires Filled(probe.fw.driver.link.m, origin, probe.Here().target, probe.Here().log, image, FLASH_SIZE)
    modifies probe, probe.fw, probe.fw.port, probe.fw.driver, probe.fw.driver.link
    ensures probe.Synced() && probe.orders == old(probe.orders)
    ensures old(probe.fw.driver.Healthy()) && old(probe.Here()).target.dev.mem[FLASH_START..FLASH_START + FLASH_SIZE] == image ==> ok
    ensures ok ==> Filled(probe.fw.driver.link.m, origin, probe.Here().target, probe.Here().log, image, FLASH_SIZE)
    ensures var u := probe.Here().target;
            ok && probe.fw.driver.link.m == STM8 && u.Conforming? ==> u.dev.mem[FLASH_START..FLASH_START + FLASH_SIZE] == image
    ensures ok ==> TriggersTaken(probe.Here().log) == TriggersTaken(old(probe.Here()).log)
  {
    ghost var written := probe.Here();
    var readback := probe.ReadMemory(FLASH_START, FLASH_SIZE);
    if readback.Failed? {
      return false;
    }
    if probe.fw.driver.link.m == STM8 && probe.Here().target.Conforming? {
      FlashRead(probe.fw.driver.link.m, written.target, probe.Here().target, readback.value);
    }
    return readback.value == image;
  }

  lemma ImageInFlash(mem: Memory, image: seq<Byte>)
    requires |image| == FLASH_SIZE
    ensures Stored(mem, FLASH_START, image[..FLASH_SIZE] + Zeros(0))[FLASH_START..FLASH_START + FLASH_SIZE] == image
  {
    assert image[..FLASH_SIZE] + Zeros(0) == image;
  }

  /** The image written to the flash, and read back if `verify`. */
  method FlashImage(probe: Probe, image: seq<Byte>, verify: bool) returns (ok: bool, ghost locked: bool)
    requires probe.Synced() && |image| == FLASH_SIZE
    modifies probe, probe.fw, probe.fw.port, probe.fw.driver, probe.fw.driver.link
    ensures probe.Synced() && Followed(old(probe.orders), probe.orders, Plan(image, locked), ok)
    ensures ok ==> Filled(probe.fw.driver.link.m, old(probe.Here()).target, probe.Here().target, probe.Here().log, image, FLASH_SIZE)
    ensures var u := probe.Here().target;
            ok && verify && probe.fw.driver.link.m == STM8 && u.Conforming?
            ==> u.dev.mem[FLASH_START..FLASH_START + FLASH_SIZE] == image
    ensures old(probe.fw.driver.Healthy()) && Startable(old(probe.Here()).target.dev) && TriggersTaken(old(probe.Here()).log)
        ==> ok && TriggersTaken(probe.Here().log)
  {
    ghost var origin, before := probe.Here(), probe.orders;
    ok, locked := UnlockProgramFlash(probe);
    ghost var mid, rest := probe.orders, Erasing() + BlockOrders(image, |image|);
    if !ok {
      FollowedFirst(before, mid, Unlocking(locked), rest, false);
      return;
    }
    ok := EraseAndWrite(probe, image, origin);
    FollowedNext(before, mid, probe.orders, Unlocking(locked), rest, ok);
    if ok && verify {
      if origin.target.Conforming? {
        ImageInFlash(origin.target.dev.mem, image);
      }
      ok := VerifyImage(probe, image, origin.target);
    }
  }

  /** The file is accepted, and every byte of it lies in the program flash. */
  predicate Fitting(lines: seq<string>) {
    H.Parse(lines).Ok? && forall a :: a in H.Parse(lines).value ==> InProgram(a)
  }

  /** The map over zeros. */
  function Picture(bytes: map<nat, Byte>): (p: seq<Byte>)
    ensures |p| == FLASH_SIZE
  {
    seq(FLASH_SIZE, k requires 0 <= k < FLASH_SIZE => if FLASH_START + k in bytes then bytes[FLASH_START + k] else 0)
  }

  lemma PictureIs(image: seq<Byte>, bytes: map<nat, Byte>)
    requires |image| == FLASH_SIZE && I.ImageOf(image, bytes, FLASH_START, 0)
    ensures Picture(bytes) == image
  {
  }

  /**
  cmd_flash, up to the optional reset of the target. If it succeeds on a target that
  conforms and whose triggers were taken, the program flash is the file's map over zeros,
  and no other memory has changed but the two debug registers. With `verify`, success alone
  says that the flash is the image. And if nothing goes wrong it succeeds, exactly if the
  file is accepted and fits.
  */
  method CmdFlash(probe: Probe, lines: seq<string>, verify: bool) returns (ok: bool, ghost locked: bool)
    requires probe.Synced()
    modifies probe, probe.fw, probe.fw.port, probe.fw.driver, probe.fw.driver.link
    ensures probe.Synced()
    ensures !Fitting(lines)
        ==> !ok && probe.Here() == old(probe.Here()) && probe.orders == old(probe.orders) && probe.sequence == old(probe.sequence)
    ensures Fitting(lines)
        ==> Followed(old(probe.orders) + [Order(CMD_ENTER_SWIM, [])], probe.orders,
                     Plan(Picture(H.Parse(lines).value), locked), ok)
    ensures var (t, u) := (old(probe.Here()).target, probe.Here().target);
            ok && probe.fw.driver.link.m == STM8 && t.Conforming? && t.dev.work.Quiet? && TriggersTaken(probe.Here().log)
            ==> u.Conforming? && Flashed(t.dev.mem, u.dev.mem, H.Parse(lines).value)
    ensures var u := probe.Here().target;
            ok && verify && probe.fw.driver.link.m == STM8 && u.Conforming?
            ==> I.ImageOf(u.dev.mem[FLASH_START..FLASH_START + FLASH_SIZE], H.Parse(lines).value, FLASH_START, 0)
    ensures old(probe.fw.driver.Reachable()) && Startable(old(probe.Here()).target.dev) && TriggersTaken(old(probe.Here()).log) ==>
              && (ok <==> Fitting(lines))
              && (ok ==> TriggersTaken(probe.Here().log))
  {
    var loaded := I.LoadImage(lines, FLASH_START, FLASH_SIZE, 0);
    if loaded.Err? {
      return false, false;
    }
    locked := false;
    PictureIs(loaded.value, H.Parse(lines).value);
    ghost var origin := probe.Here().target;
    ok := probe.EnterSwim();
    if !ok {
      return;
    }
    ghost var entered := probe.Here().target;
    ok, locked := FlashImage(probe, loaded.value, verify);
    if ok {
      FlashedSinceEntry(probe.fw.driver.link.m, origin, entered, probe.Here().target, probe.Here().log, loaded.value,
                        H.Parse(lines).value);
    }
  }

  /** The flash filled after SWIM was entered, as seen from before. */
  lemma FlashedSinceEntry(m: Machine, t: Target, entered: Target, u: Target, log: Log, image: seq<Byte>,
      bytes: map<nat, Byte>)
    requires |image| == FLASH_SIZE && I.ImageOf(image, bytes, FLASH_START, 0)
    requires E.OnlyDebug(m, t, entered) && Filled(m, entered, u, log, image, FLASH_SIZE)
    ensures m == STM8 && t.Conforming? && t.dev.work.Quiet? && TriggersTaken(log)
        ==> u.Conforming? && Flashed(t.dev.mem, u.dev.mem, bytes)
  {
    if m == STM8 && t.Conforming? && t.dev.work.Quiet? && TriggersTaken(log) {
      assert image[..FLASH_SIZE] + Zeros(0) == image;
      FilledIsFlashed(entered.dev.mem, image, bytes);
      MemoryKept(t.dev.mem, entered.dev.mem, u.dev.mem, bytes);
    }
  }

  lemma MemoryKept(before: Memory, entered: Memory, after: Memory, bytes: map<nat, Byte>)
    requires Flashed(entered, after, bytes)
    requires forall a: Address :: a != SWIM_CSR && a != DM_CSR2 ==> entered[a] == before[a]
    ensures Flashed(before, after, bytes)
  {
  }
}
