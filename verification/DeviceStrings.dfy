/** Strings stored over one or more blocks (modules/wasabi-fs/src/fs.rs, modules/wasabi-fs/src/fs_structs.rs). */
module DeviceStrings {
  import opened Machine
  import opened FreeLists
  import opened BlockDevices
  import opened BlockAllocators

  /** A block less the `u32` length and the next pointer. */
  const BLOCK_STRING_DATA_LENGTH: nat := 4084
  /** A block less the next pointer. */
  const BLOCK_STRING_PART_DATA_LENGTH: nat := 4088

  datatype Written = Written(lba: nat) | BlockDeviceFull | StringTooLong
  datatype Read = Bytes(bytes: seq<Byte>) | MalformedStringLength | Unreadable

  function LengthInParts(text: seq<Byte>): nat {
    if |text| > BLOCK_STRING_DATA_LENGTH then |text| - BLOCK_STRING_DATA_LENGTH else 0
  }

  function PartCount(text: seq<Byte>): nat {
    CountsRequired(BLOCK_STRING_PART_DATA_LENGTH, LengthInParts(text))
  }

  /** A fixed-size data field that starts with the given bytes and is zero behind them. */
  function Padded(bytes: seq<Byte>, size: nat): (r: seq<Byte>)
    requires |bytes| <= size
    ensures |r| == size && r[..|bytes|] == bytes && forall k :: |bytes| <= k < size ==> r[k] == 0
  {
    bytes + seq(size - |bytes|, _ => 0)
  }

  function PartStart(bytes: seq<Byte>, k: nat): nat {
    Min(BLOCK_STRING_PART_DATA_LENGTH * k, |bytes|)
  }

  function PartData(bytes: seq<Byte>, k: nat): (r: seq<Byte>)
    ensures |r| <= BLOCK_STRING_PART_DATA_LENGTH
  {
    bytes[PartStart(bytes, k)..PartStart(bytes, k + 1)]
  }

  function PartBlock(bytes: seq<Byte>, blocks: seq<nat>, k: nat): Block {
    StringPart(Padded(PartData(bytes, k), BLOCK_STRING_PART_DATA_LENGTH), NextOf(blocks, k))
  }

  ghost predicate PartsWritten(dev: map<nat, Block>, bytes: seq<Byte>, blocks: seq<nat>, n: nat) {
    forall k :: 0 <= k < n && k < |blocks| ==> blocks[k] in dev && dev[blocks[k]] == PartBlock(bytes, blocks, k)
  }

  lemma WriteNextPart(d0: map<nat, Block>, d: map<nat, Block>, bytes: seq<Byte>, blocks: seq<nat>, k: nat)
    requires Distinct(blocks) && k < |blocks| && PartsWritten(d, bytes, blocks, k) && OnlyTouches(d0, d, blocks)
    ensures var e := d[blocks[k] := PartBlock(bytes, blocks, k)];
            PartsWritten(e, bytes, blocks, k + 1) && OnlyTouches(d0, e, blocks)
  {
    hide PartBlock;
  }

  /** Splitting the next part off the rest of the bytes. */
  lemma NextPart(bytes: seq<Byte>, rest: seq<Byte>, k: nat)
    requires rest == bytes[PartStart(bytes, k)..]
    ensures |rest| > 0 ==>
              var n := Min(BLOCK_STRING_PART_DATA_LENGTH, |rest|);
              && k < CountsRequired(BLOCK_STRING_PART_DATA_LENGTH, |bytes|)
              && rest[..n] == PartData(bytes, k) && rest[n..] == bytes[PartStart(bytes, k + 1)..]
    ensures |rest| == 0 ==> k >= CountsRequired(BLOCK_STRING_PART_DATA_LENGTH, |bytes|)
  {
  }

  /** One block per part, linked front to back; every block given is used. */
  method WriteStringParts(dev: Device, partsSubstring: seq<Byte>, blocks: seq<nat>) returns (first: nat)
    requires |partsSubstring| > 0 && Distinct(blocks)
    requires |blocks| == CountsRequired(BLOCK_STRING_PART_DATA_LENGTH, |partsSubstring|)
    modifies dev
    ensures |blocks| > 0 && first == blocks[0]
    ensures PartsWritten(dev.blocks, partsSubstring, blocks, |blocks|)
    ensures OnlyTouches(old(dev.blocks), dev.blocks, blocks)
  {
    first := blocks[0];
    var bytes := partsSubstring;
    var k := 0;
    ghost var d0 := dev.blocks;
    assert PartsWritten(d0, partsSubstring, blocks, 0) && OnlyTouches(d0, d0, blocks);
    assert bytes == partsSubstring[PartStart(partsSubstring, 0)..];
    hide PartsWritten, OnlyTouches, Distinct, PartBlock, PartStart, PartData, CountsRequired, NextOf;
    while |bytes| > 0
      invariant 0 <= k <= |blocks| && bytes == partsSubstring[PartStart(partsSubstring, k)..]
      invariant PartsWritten(dev.blocks, partsSubstring, blocks, k) && OnlyTouches(d0, dev.blocks, blocks)
      decreases |bytes|
    {
      NextPart(partsSubstring, bytes, k);
      var n := Min(BLOCK_STRING_PART_DATA_LENGTH, |bytes|);
      var partData := bytes[..n];
      bytes := bytes[n..];
      WriteNextPart(d0, dev.blocks, partsSubstring, blocks, k);
      PartBlockIs(partsSubstring, blocks, k);
      dev.WriteBlock(blocks[k], StringPart(Padded(partData, BLOCK_STRING_PART_DATA_LENGTH), NextOf(blocks, k)));
      k := k + 1;
    }
    NextPart(partsSubstring, bytes, k);
    assert k == |blocks|;
  }

  lemma PartBlockIs(bytes: seq<Byte>, blocks: seq<nat>, k: nat)
    ensures PartBlock(bytes, blocks, k)
            == StringPart(Padded(PartData(bytes, k), BLOCK_STRING_PART_DATA_LENGTH), NextOf(blocks, k))
  {
  }

  // ----- Reading -----

  predicate IsPart(dev: map<nat, Block>, lba: nat) {
    lba in dev && dev[lba].StringPart? && |dev[lba].data| == BLOCK_STRING_PART_DATA_LENGTH
  }

  predicate IsHead(dev: map<nat, Block>, lba: nat) {
    lba in dev && dev[lba].StringHead? && |dev[lba].data| == BLOCK_STRING_DATA_LENGTH
  }

  /** The bytes found by following parts until the length is used up. */
  function ReadParts(dev: map<nat, Block>, next: Option<nat>, remaining: nat): Read
    decreases remaining
  {
    if remaining == 0 then Bytes([])
    else if next.None? then MalformedStringLength
    else if !IsPart(dev, next.value) then Unreadable
    else
      var part := dev[next.value];
      var n := Min(remaining, BLOCK_STRING_PART_DATA_LENGTH);
      match ReadParts(dev, part.next, remaining - n)
      case Bytes(rest) => Bytes(part.data[..n] + rest)
      case other => other
  }

  function ReadAll(dev: map<nat, Block>, ptr: nat): Read {
    if !IsHead(dev, ptr) then Unreadable
    else
      var head := dev[ptr];
      var n := Min(head.length, BLOCK_STRING_DATA_LENGTH);
      match ReadParts(dev, head.next, head.length - n)
      case Bytes(rest) => Bytes(head.data[..n] + rest)
      case other => other
  }

  /** From `next` the blocks of `chain` follow each other, all of them parts, and the last one points to `last`. */
  ghost predicate PartsFrom(dev: map<nat, Block>, next: Option<nat>, chain: seq<nat>, last: Option<nat>)
    decreases |chain|
  {
    if chain == [] then last == next
    else next == Some(chain[0]) && IsPart(dev, chain[0]) && PartsFrom(dev, dev[chain[0]].next, chain[1..], last)
  }

  function DataAlong(dev: map<nat, Block>, chain: seq<nat>): seq<Byte> {
    if chain == [] || !IsPart(dev, chain[0]) then [] else dev[chain[0]].data + DataAlong(dev, chain[1..])
  }

  /** Reading follows as many parts as the length asks for. It delivers that much of their data, or finds the end of the
      chain, or a block that is no part. */
  lemma {:induction false} ReadPartsExact(dev: map<nat, Block>, next: Option<nat>, remaining: nat)
    returns (chain: seq<nat>, last: Option<nat>)
    ensures PartsFrom(dev, next, chain, last)
    ensures BLOCK_STRING_PART_DATA_LENGTH * (|chain| - 1) < remaining || chain == []
    ensures remaining <= BLOCK_STRING_PART_DATA_LENGTH * |chain| ==>
              remaining <= |DataAlong(dev, chain)| && ReadParts(dev, next, remaining) == Bytes(DataAlong(dev, chain)[..remaining])
    ensures remaining > BLOCK_STRING_PART_DATA_LENGTH * |chain| ==>
              ReadParts(dev, next, remaining) == (if last.None? then MalformedStringLength else Unreadable)
              && (last.Some? ==> !IsPart(dev, last.value))
    decreases remaining
  {
    if remaining == 0 || next.None? || !IsPart(dev, next.value) {
      chain, last := [], next;
    } else {
      var x := next.value;
      var n := Min(remaining, BLOCK_STRING_PART_DATA_LENGTH);
      var rest;
      rest, last := ReadPartsExact(dev, dev[x].next, remaining - n);
      chain := [x] + rest;
      assert chain[1..] == rest;
      var data := dev[x].data + DataAlong(dev, rest);
      if remaining <= BLOCK_STRING_PART_DATA_LENGTH * |chain| {
        assert data[..remaining] == dev[x].data[..n] + DataAlong(dev, rest)[..remaining - n];
      }
    }
  }

  /** The answer for a string block: the first `length` bytes of its data and that of its parts, if they go on for that
      long. */
  ghost predicate ReadsAs(dev: map<nat, Block>, ptr: nat, chain: seq<nat>, last: Option<nat>, r: Read) {
    if !IsHead(dev, ptr) then r == Unreadable
    else
      var head := dev[ptr];
      var data := head.data + DataAlong(dev, chain);
      && PartsFrom(dev, head.next, chain, last)
      && if head.length <= BLOCK_STRING_DATA_LENGTH + BLOCK_STRING_PART_DATA_LENGTH * |chain|
         then head.length <= |data| && r == Bytes(data[..head.length])
         else if last.None? then r == MalformedStringLength
         else r == Unreadable && !IsPart(dev, last.value)
  }

  lemma ReadAllExact(dev: map<nat, Block>, ptr: nat) returns (chain: seq<nat>, last: Option<nat>)
    ensures ReadsAs(dev, ptr, chain, last, ReadAll(dev, ptr))
  {
    chain, last := [], None;
    if IsHead(dev, ptr) {
      hide ReadParts, DataAlong, PartsFrom;
      var head := dev[ptr];
      var n := Min(head.length, BLOCK_STRING_DATA_LENGTH);
      chain, last := ReadPartsExact(dev, head.next, head.length - n);
      var data := head.data + DataAlong(dev, chain);
      if head.length <= BLOCK_STRING_DATA_LENGTH + BLOCK_STRING_PART_DATA_LENGTH * |chain| {
        assert data[..head.length] == head.data[..n] + DataAlong(dev, chain)[..head.length - n];
      }
    }
  }

  /** The reading loop delivers what the recursive reading says, on any device contents. */
  method ReadString(dev: Device, ptr: nat) returns (r: Read, ghost chain: seq<nat>, ghost last: Option<nat>)
    ensures r == ReadAll(dev.blocks, ptr) && ReadsAs(dev.blocks, ptr, chain, last, r)
  {
    hide ReadsAs;
    chain, last := ReadAllExact(dev.blocks, ptr);
    if !IsHead(dev.blocks, ptr) { return Unreadable, chain, last; }
    var head := dev.blocks[ptr];
    var lengthRemaining := head.length;
    var nextPtr := head.next;
    var lengthInBlock := Min(lengthRemaining, BLOCK_STRING_DATA_LENGTH);
    var text := head.data[..lengthInBlock];
    lengthRemaining := lengthRemaining - lengthInBlock;
    while lengthRemaining > 0
      invariant lengthRemaining >= 0
      invariant ReadAll(dev.blocks, ptr) == Prepend(text, ReadParts(dev.blocks, nextPtr, lengthRemaining))
      decreases lengthRemaining
    {
      if nextPtr.None? { return MalformedStringLength, chain, last; }
      if !IsPart(dev.blocks, nextPtr.value) { return Unreadable, chain, last; }
      var block := dev.blocks[nextPtr.value];
      lengthInBlock := Min(lengthRemaining, BLOCK_STRING_PART_DATA_LENGTH);
      PrependTwice(text, block.data[..lengthInBlock],
                   ReadParts(dev.blocks, block.next, lengthRemaining - lengthInBlock));
      nextPtr := block.next;
      text := text + block.data[..lengthInBlock];
      lengthRemaining := lengthRemaining - lengthInBlock;
    }
    return Bytes(text), chain, last;
  }

  function Prepend(bytes: seq<Byte>, r: Read): Read {
    match r
    case Bytes(rest) => Bytes(bytes + rest)
    case other => other
  }

  lemma PrependTwice(a: seq<Byte>, b: seq<Byte>, r: Read)
    ensures Prepend(a, Prepend(b, r)) == Prepend(a + b, r)
    ensures Prepend(a, Bytes([])) == Bytes(a)
  {
    if r.Bytes? {
      assert a + (b + r.bytes) == (a + b) + r.bytes;
    }
  }

  // ----- Round trip -----

  lemma ReadOnePart(dev: map<nat, Block>, lba: nat, data: seq<Byte>, next: Option<nat>, remaining: nat)
    requires 0 < remaining && |data| == Min(remaining, BLOCK_STRING_PART_DATA_LENGTH)
    requires lba in dev && dev[lba] == StringPart(Padded(data, BLOCK_STRING_PART_DATA_LENGTH), next)
    ensures ReadParts(dev, Some(lba), remaining) == Prepend(data, ReadParts(dev, next, remaining - |data|))
  {
  }

  lemma PartLengths(bytes: seq<Byte>, k: nat)
    requires k < CountsRequired(BLOCK_STRING_PART_DATA_LENGTH, |bytes|)
    ensures PartStart(bytes, k) < PartStart(bytes, k + 1) <= |bytes|
    ensures |PartData(bytes, k)| == Min(|bytes| - PartStart(bytes, k), BLOCK_STRING_PART_DATA_LENGTH)
    ensures PartStart(bytes, k + 1) == PartStart(bytes, k) + |PartData(bytes, k)|
    ensures bytes[PartStart(bytes, k)..] == PartData(bytes, k) + bytes[PartStart(bytes, k + 1)..]
    ensures k + 1 == CountsRequired(BLOCK_STRING_PART_DATA_LENGTH, |bytes|) ==> PartStart(bytes, k + 1) == |bytes|
  {
  }

  lemma PartOnDevice(dev: map<nat, Block>, bytes: seq<Byte>, blocks: seq<nat>, k: nat)
    requires PartsWritten(dev, bytes, blocks, |blocks|) && k < |blocks|
    ensures blocks[k] in dev
    ensures dev[blocks[k]] == StringPart(Padded(PartData(bytes, k), BLOCK_STRING_PART_DATA_LENGTH), NextOf(blocks, k))
    ensures k + 1 < |blocks| ==> NextOf(blocks, k) == Some(blocks[k + 1])
  {
    PartBlockIs(bytes, blocks, k);
  }

  lemma {:induction false} ReadWrittenParts(dev: map<nat, Block>, bytes: seq<Byte>, blocks: seq<nat>, k: nat)
    requires PartsWritten(dev, bytes, blocks, |blocks|) && k < |blocks|
    requires |blocks| == CountsRequired(BLOCK_STRING_PART_DATA_LENGTH, |bytes|)
    ensures PartStart(bytes, k) <= |bytes|
    ensures ReadParts(dev, Some(blocks[k]), |bytes| - PartStart(bytes, k)) == Bytes(bytes[PartStart(bytes, k)..])
    decreases |blocks| - k
  {
    hide PartsWritten, PartBlock, PartStart, PartData, CountsRequired, ReadParts, Padded, NextOf;
    PartOnDevice(dev, bytes, blocks, k);
    PartLengths(bytes, k);
    ReadOnePart(dev, blocks[k], PartData(bytes, k), NextOf(blocks, k), |bytes| - PartStart(bytes, k));
    if k + 1 < |blocks| {
      ReadWrittenParts(dev, bytes, blocks, k + 1);
    } else {
      ReadNothing(dev, NextOf(blocks, k));
    }
  }

  lemma ReadNothing(dev: map<nat, Block>, next: Option<nat>)
    ensures ReadParts(dev, next, 0) == Bytes([])
  {
  }

  /** The head block and the parts behind it. */
  function HeadBlock(text: seq<Byte>, blocks: seq<nat>): Block {
    var n := Min(|text|, BLOCK_STRING_DATA_LENGTH);
    StringHead(|text|, Padded(text[..n], BLOCK_STRING_DATA_LENGTH), NextOf(blocks, 0))
  }

  /** A string laid out on `blocks` reads back as itself. */
  lemma StringRoundTrip(dev: map<nat, Block>, text: seq<Byte>, blocks: seq<nat>)
    requires |blocks| == PartCount(text) + 1
    requires blocks[0] in dev && dev[blocks[0]] == HeadBlock(text, blocks)
    requires PartCount(text) > 0 ==>
               PartsWritten(dev, text[BLOCK_STRING_DATA_LENGTH..], blocks[1..], PartCount(text))
    ensures ReadAll(dev, blocks[0]) == Bytes(text)
  {
    hide PartsWritten, CountsRequired;
    PartCountZero(text);
    if LengthInParts(text) > 0 {
      ReadWrittenParts(dev, text[BLOCK_STRING_DATA_LENGTH..], blocks[1..], 0);
      assert text == text[..BLOCK_STRING_DATA_LENGTH] + text[BLOCK_STRING_DATA_LENGTH..];
    } else {
      assert text[..|text|] + [] == text;
    }
  }

  lemma PartCountZero(text: seq<Byte>)
    ensures PartCount(text) == 0 <==> LengthInParts(text) == 0
  {
  }

  /** The outcome of a successful write: the string reads back, on distinct blocks that were free and no longer
      are, and no other block of the device has changed. */
  ghost predicate StringSaved(f1: seq<BlockGroup>, f2: seq<BlockGroup>, d1: map<nat, Block>, d2: map<nat, Block>,
                              text: seq<Byte>, lba: nat, blocks: seq<nat>) {
    && |blocks| == PartCount(text) + 1 && lba == blocks[0] && Distinct(blocks)
    && (forall x :: x in blocks ==> IsFree(f1, x))
    && (forall x :: IsFree(f2, x) <==> IsFree(f1, x) && x !in blocks)
    && ReadAll(d2, lba) == Bytes(text)
    && OnlyTouches(d1, d2, blocks)
  }

  /** Writing the head last, on a block of its own, leaves the parts in place. */
  lemma HeadBesideParts(d: map<nat, Block>, d0: map<nat, Block>, text: seq<Byte>, blocks: seq<nat>)
    requires |blocks| == PartCount(text) + 1 && Distinct(blocks) && OnlyTouches(d0, d, blocks[1..])
    requires PartCount(text) > 0 ==>
               PartsWritten(d, text[BLOCK_STRING_DATA_LENGTH..], blocks[1..], PartCount(text))
    ensures var e := d[blocks[0] := HeadBlock(text, blocks)];
            ReadAll(e, blocks[0]) == Bytes(text) && OnlyTouches(d0, e, blocks)
  {
    var e := d[blocks[0] := HeadBlock(text, blocks)];
    hide HeadBlock, PartBlock, ReadAll, PartCount;
    assert forall k :: 0 <= k < |blocks[1..]| ==> blocks[1..][k] != blocks[0];
    StringRoundTrip(e, text, blocks);
    assert forall x :: x !in blocks ==> x !in blocks[1..] && x != blocks[0];
  }

  /** Succeeds exactly when the number of blocks is a power of two that one free group holds and the length
      fits a `u32`. Without blocks nothing changes; a string that is too long still takes its blocks. */
  method WriteString(allocator: BlockAllocator, dev: Device, text: seq<Byte>)
    returns (r: Written, ghost blocks: seq<nat>)
    requires Disjoint(allocator.free)
    modifies allocator, dev
    ensures r.BlockDeviceFull? <==> !(IsPow2(PartCount(text) + 1) && HasGroup(old(allocator.free), PartCount(text) + 1))
    ensures r.StringTooLong? <==> !r.BlockDeviceFull? && |text| > U32_MAX
    ensures r.BlockDeviceFull? ==> allocator.free == old(allocator.free)
    ensures !r.Written? ==> dev.blocks == old(dev.blocks)
    ensures r.Written? ==> Disjoint(allocator.free)
                           && StringSaved(old(allocator.free), allocator.free, old(dev.blocks), dev.blocks, text, r.lba, blocks)
  {
    hide Disjoint, IsFree, IsPow2, HasGroup, AllocatesGroup, Flatten, OnlyTouches, PartsWritten, Distinct, CountsRequired,
         ReadAll, HeadBlock, Padded;
    blocks := [];
    ghost var f1 := allocator.free;
    ghost var d0 := dev.blocks;
    var lengthInParts := LengthInParts(text);
    var partBlockCount := CountsRequired(BLOCK_STRING_PART_DATA_LENGTH, lengthInParts);
    PartCountZero(text);
    var groups;
    ghost var at;
    groups, at := allocator.Allocate(partBlockCount + 1);
    if groups.None? { return BlockDeviceFull, blocks; }
    ghost var g := groups.value[0];
    assert groups.value == [g];
    AllocateGroupExact(f1, allocator.free, partBlockCount + 1, g, at);
    AllocatedBlocks(f1, allocator.free, partBlockCount + 1, g, at);
    var list := Flatten(groups.value);
    blocks := list;
    if |text| > U32_MAX { return StringTooLong, blocks; }
    var headLba, parts := list[0], list[1..];
    TailDistinct(list);
    var n := Min(|text|, BLOCK_STRING_DATA_LENGTH);
    var next := None;
    SameDevice(d0, parts);
    if lengthInParts > 0 {
      var first := WriteStringParts(dev, text[BLOCK_STRING_DATA_LENGTH..], parts);
      next := Some(first);
    }
    HeadBlockIs(text, list);
    HeadBesideParts(dev.blocks, d0, text, list);
    dev.WriteBlock(headLba, StringHead(|text|, Padded(text[..n], BLOCK_STRING_DATA_LENGTH), next));
    return Written(headLba), blocks;
  }

  lemma TailDistinct(s: seq<nat>)
    requires |s| > 0 && Distinct(s)
    ensures Distinct(s[1..])
  {
  }

  lemma SameDevice(d: map<nat, Block>, blocks: seq<nat>)
    ensures OnlyTouches(d, d, blocks)
  {
  }

  lemma HeadBlockIs(text: seq<Byte>, blocks: seq<nat>)
    requires |blocks| > 0
    ensures HeadBlock(text, blocks)
            == StringHead(|text|, Padded(text[..Min(|text|, BLOCK_STRING_DATA_LENGTH)], BLOCK_STRING_DATA_LENGTH),
                          if |blocks| > 1 then Some(blocks[1..][0]) else None)
  {
  }
}
