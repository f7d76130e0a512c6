/** Programming and erasing: how the flash driver's operation task splits a request into device commands. */
module FlashOps {
  import opened Arith

  const U32: nat := 0x1_0000_0000
  const SECTOR: nat := 4096

  datatype Command = ProgramPage(at: nat, n: nat) | EraseSector(at: nat) | EraseChip

  type Byte = x: int | 0 <= x < 256

  /** The bitwise conjunction of the n low bits. */
  function And(a: nat, b: nat, n: nat): (r: nat)
    ensures r <= a
  {
    if n == 0 then 0 else 2 * And(a / 2, b / 2, n - 1) + (if a % 2 == 1 && b % 2 == 1 then 1 else 0)
  }

  predicate Bit(a: nat, k: nat)
    decreases k
  {
    if k == 0 then a % 2 == 1 else Bit(a / 2, k - 1)
  }

  /** Each low bit of the conjunction is set exactly when both bits are. */
  lemma {:induction false} AndBits(a: nat, b: nat, n: nat, k: nat)
    requires k < n
    ensures Bit(And(a, b, n), k) <==> Bit(a, k) && Bit(b, k)
    decreases k
  {
    if k > 0 { AndBits(a / 2, b / 2, n - 1, k - 1); }
  }

  /** Programming a byte clears bits and sets none. */
  function ProgramByte(was: Byte, b: Byte): Byte { And(was, b, 8) }

  function Min(a: int, b: int): int { if a <= b then a else b }

  /** The memory after programming data at a position. */
  function Programmed(mem: seq<Byte>, at: nat, data: seq<Byte>): (m: seq<Byte>)
    requires at + |data| <= |mem|
    ensures |m| == |mem|
    ensures forall i :: 0 <= i < |mem| ==>
              m[i] == if at <= i < at + |data| then ProgramByte(mem[i], data[i - at]) else mem[i]
  {
    seq(|mem|, i requires 0 <= i < |mem| => if at <= i < at + |data| then ProgramByte(mem[i], data[i - at]) else mem[i])
  }

  /** Erasing sets all bits of a range. */
  function Erased(mem: seq<Byte>, lo: int, hi: int): (m: seq<Byte>)
    ensures |m| == |mem|
    ensures forall i :: 0 <= i < |mem| ==> m[i] == if lo <= i < hi then 0xFF else mem[i]
  {
    seq(|mem|, i requires 0 <= i < |mem| => if lo <= i < hi then 0xFF else mem[i])
  }

  lemma ProgrammedTwice(mem: seq<Byte>, at: nat, data: seq<Byte>, more: seq<Byte>)
    requires at + |data| + |more| <= |mem|
    ensures Programmed(Programmed(mem, at, data), at + |data|, more) == Programmed(mem, at, data + more)
  {
    var once, all := Programmed(mem, at, data), data + more;
    var twice := Programmed(once, at + |data|, more);
    forall i | 0 <= i < |mem|
      ensures twice[i] == Programmed(mem, at, all)[i]
    {
      if at <= i < at + |data| { assert all[i - at] == data[i - at]; }
    }
  }

  lemma ErasedTwice(mem: seq<Byte>, lo: int, mid: int, hi: int)
    requires lo <= mid <= hi
    ensures Erased(Erased(mem, lo, mid), mid, hi) == Erased(mem, lo, hi)
  {
  }

  /** The commands program [lo, hi) piece by piece, each byte once, and no piece crosses a page. */
  ghost predicate Tiles(cs: seq<Command>, lo: int, hi: int, page: nat)
    requires page > 0
    decreases |cs|
  {
    if cs == [] then lo == hi
    else
      var c := cs[|cs| - 1];
      && c.ProgramPage? && c.n > 0 && c.at % page + c.n <= page && c.at + c.n == hi
      && Tiles(cs[..|cs| - 1], lo, c.at, page)
  }

  /** The commands erase the sectors of [lo, hi) one by one. */
  ghost predicate Sectors(cs: seq<Command>, lo: int, hi: int)
    decreases |cs|
  {
    if cs == [] then lo == hi
    else
      var c := cs[|cs| - 1];
      c.EraseSector? && c.at % SECTOR == 0 && c.at + SECTOR == hi && Sectors(cs[..|cs| - 1], lo, c.at)
  }

  /** The flash device and what has been sent to it. */
  class Flash {
    const mem: array<Byte>
    const page: nat
    ghost var commands: seq<Command>

    ghost predicate Valid() {
      0 < page && mem.Length < U32 && mem.Length % page == 0 && mem.Length % SECTOR == 0
    }

    /** The device accepts what lies in one page. */
    method Program(at: nat, data: seq<Byte>)
      requires Valid() && at + |data| <= mem.Length && at % page + |data| <= page
      modifies this, mem
      ensures mem[..] == Programmed(old(mem[..]), at, data)
      ensures commands == old(commands) + [ProgramPage(at, |data|)]
    {
      forall i | 0 <= i < |data| {
        mem[at + i] := ProgramByte(mem[at + i], data[i]);
      }
      commands := commands + [ProgramPage(at, |data|)];
    }

    method Erase(at: nat)
      requires at % SECTOR == 0 && at + SECTOR <= mem.Length
      modifies this, mem
      ensures mem[..] == Erased(old(mem[..]), at, at + SECTOR)
      ensures commands == old(commands) + [EraseSector(at)]
    {
      forall i | at <= i < at + SECTOR {
        mem[i] := 0xFF;
      }
      commands := commands + [EraseSector(at)];
    }

    method EraseAll()
      modifies this, mem
      ensures mem[..] == Erased(old(mem[..]), 0, mem.Length)
      ensures commands == old(commands) + [EraseChip]
    {
      forall i | 0 <= i < mem.Length {
        mem[i] := 0xFF;
      }
      commands := commands + [EraseChip];
    }

    /** Programs the data from `address` on, up to the end of the flash. */
    method WriteOp(data: seq<Byte>, address: nat) returns (ghost cs: seq<Command>)
      requires Valid() && |data| < U32 && address < U32
      modifies this, mem
      ensures var n := Fitting(address, |data|, mem.Length);
              && mem[..] == Wrote(old(mem[..]), address, data[..n])
              && commands == old(commands) + cs && Tiles(cs, address, address + n, page)
    {
      assert page > 0;
      hide Wrote, Tiles, Valid;
      ghost var was := mem[..];
      cs := [];
      WroteNothing(was, address, data, page);
      var bytesLeftToWrite: nat, addressToWrite: nat, p: nat := |data|, address, 0;
      assert commands == old(commands) + cs;
      while bytesLeftToWrite > 0
        invariant p + bytesLeftToWrite == |data| && addressToWrite == address + p
        invariant p > 0 ==> addressToWrite <= mem.Length
        invariant Valid() && mem[..] == Wrote(was, address, data[..p])
        invariant commands == old(commands) + cs && Tiles(cs, address, addressToWrite, page)
      {
        if addressToWrite >= mem.Length {
          break;
        }
        var bytesToWrite := ProgramNext(data, address, p, was, cs);
        cs := cs + [ProgramPage(addressToWrite, bytesToWrite)];
        bytesLeftToWrite := bytesLeftToWrite - bytesToWrite;
        addressToWrite := addressToWrite + bytesToWrite;
        p := p + bytesToWrite;
      }
    }

    /** One pass of the loop: as much as the page and the data have left. */
    method ProgramNext(data: seq<Byte>, address: nat, p: nat, ghost was: seq<Byte>, ghost cs: seq<Command>)
        returns (bytesToWrite: nat)
      requires Valid() && p < |data| && address + p < mem.Length && mem[..] == Wrote(was, address, data[..p])
      requires Tiles(cs, address, address + p, page)
      modifies this, mem
      ensures 0 < bytesToWrite <= |data| - p && address + p + bytesToWrite <= mem.Length
      ensures mem[..] == Wrote(was, address, data[..p + bytesToWrite])
      ensures commands == old(commands) + [ProgramPage(address + p, bytesToWrite)]
      ensures Valid()
      ensures Tiles(cs + [ProgramPage(address + p, bytesToWrite)], address, address + p + bytesToWrite, page)
    {
      var at := address + p;
      var bytesLeft, maxBytesToWrite := |data| - p, page - at % page;
      PageFits(at, mem.Length, page);
      bytesToWrite := if bytesLeft <= maxBytesToWrite then bytesLeft else maxBytesToWrite;
      WroteMore(was, address, data, p, bytesToWrite);
      TilesMore(cs, address, at, bytesToWrite, page);
      hide Wrote, Tiles;
      Program(at, data[p..p + bytesToWrite]);
    }
  
    /** Erases whole sectors from the one that holds `address`; a request for the whole flash becomes one
      * chip erase.  The sum of the length and the offset in the first sector is taken modulo 2^32. */
    method EraseOp(address: nat, len: nat) returns (ghost cs: seq<Command>)
      requires Valid() && address < U32 && len < U32
      modifies this, mem
      ensures mem[..] == Erased(old(mem[..]), EraseStart(address, len, mem.Length), EraseEnd(address, len, mem.Length))
      ensures commands == old(commands) + cs
      ensures if address == 0 && len >= mem.Length then cs == [EraseChip]
              else Sectors(cs, EraseStart(address, len, mem.Length), EraseEnd(address, len, mem.Length))
    {
      if address == 0 && len >= mem.Length {
        EraseAll();
        cs := [EraseChip];
      } else {
        var bytesLeftToErase, addressToErase := len, address;
        if address / SECTOR * SECTOR != address {
          bytesLeftToErase := (bytesLeftToErase + (address - address / SECTOR * SECTOR)) % U32;
          addressToErase := address / SECTOR * SECTOR;
        }
        SectorStart(address, len);
        cs := EraseSectors(addressToErase, bytesLeftToErase);
      }
    }

    method EraseSectors(first: nat, len: nat) returns (ghost cs: seq<Command>)
      requires Valid() && first % SECTOR == 0
      modifies this, mem
      ensures mem[..] == Erased(old(mem[..]), first, SectorsEnd(first, len, mem.Length))
      ensures commands == old(commands) + cs && Sectors(cs, first, SectorsEnd(first, len, mem.Length))
    {
      hide Valid, Sectors;
      ghost var was := mem[..];
      var bytesLeftToErase: nat, addressToErase: nat := len, first;
      cs := [];
      NoSectors(was, first);
      assert commands == old(commands) + cs;
      while bytesLeftToErase > 0
        invariant Valid() && addressToErase % SECTOR == 0
        invariant SectorsEnd(first, len, mem.Length) == SectorsEnd(addressToErase, bytesLeftToErase, mem.Length)
        invariant first <= addressToErase && mem[..] == Erased(was, first, addressToErase)
        invariant commands == old(commands) + cs && Sectors(cs, first, addressToErase)
      {
        if addressToErase >= mem.Length {
          break;
        }
        NextSector(addressToErase, bytesLeftToErase, mem.Length) by { assert Valid(); UnpackValid(); }
        assert addressToErase == addressToErase / SECTOR * SECTOR;
        Erase(addressToErase);
        ErasedTwice(was, first, addressToErase, addressToErase + SECTOR);
        SectorsMore(cs, first, addressToErase);
        cs := cs + [EraseSector(addressToErase)];
        addressToErase := addressToErase + SECTOR;
        bytesLeftToErase := bytesLeftToErase - Min(SECTOR, bytesLeftToErase);
      }
    }

    lemma UnpackValid()
      requires Valid()
      ensures mem.Length % SECTOR == 0 && mem.Length < U32
    {
    }
  }

  /** The end of the sectors that len bytes from a sector boundary take up, within the flash. */
  function SectorsEnd(first: nat, len: nat, size: nat): nat
    decreases len
  {
    if len == 0 || first >= size then first
    else SectorsEnd(first + SECTOR, if len <= SECTOR then 0 else len - SECTOR, size)
  }

  lemma NoSectors(mem: seq<Byte>, first: nat)
    ensures Erased(mem, first, first) == mem && Sectors([], first, first)
  {
  }

  lemma SectorsMore(cs: seq<Command>, lo: int, at: nat)
    requires Sectors(cs, lo, at) && at % SECTOR == 0
    ensures Sectors(cs + [EraseSector(at)], lo, at + SECTOR)
  {
    assert (cs + [EraseSector(at)])[..|cs|] == cs;
  }

  lemma NextSector(at: nat, left: nat, size: nat)
    requires at % SECTOR == 0 && at < size && size % SECTOR == 0 && left > 0
    ensures at + SECTOR <= size && (at + SECTOR) % SECTOR == 0
    ensures SectorsEnd(at, left, size) == SectorsEnd(at + SECTOR, left - Min(SECTOR, left), size)
  {
  }

  function EraseStart(address: nat, len: nat, size: nat): nat {
    if address == 0 && len >= size then 0 else address / SECTOR * SECTOR
  }

  function EraseEnd(address: nat, len: nat, size: nat): nat {
    if address == 0 && len >= size then size
    else SectorsEnd(address / SECTOR * SECTOR, (address % SECTOR + len) % U32, size)
  }

  lemma SectorStart(address: nat, len: nat)
    requires len < U32
    ensures var start := address / SECTOR * SECTOR;
            && start % SECTOR == 0 && address - start == address % SECTOR
            && (start == address ==> (address % SECTOR + len) % U32 == len)
  {
  }

  /** How much of a request of n bytes lies in a flash of the given size. */
  function Fitting(address: nat, n: nat, size: nat): nat {
    if address >= size then 0 else if n <= size - address then n else size - address
  }

  /** What a write of data that fits leaves. */
  function Wrote(mem: seq<Byte>, at: nat, data: seq<Byte>): (m: seq<Byte>)
    ensures |m| == |mem|
  {
    if at + |data| <= |mem| then Programmed(mem, at, data) else mem
  }

  /** A write of data leaves each of the eight bits of each byte set exactly if it was set and, in the range that
    * fits, is set in the data. */
  lemma WrittenBits(mem: seq<Byte>, address: nat, data: seq<Byte>, i: nat, k: nat)
    requires i < |mem| && k < 8
    ensures var n := Fitting(address, |data|, |mem|);
            Bit(Wrote(mem, address, data[..n])[i], k) <==>
            Bit(mem[i], k) && (address <= i < address + n ==> Bit(data[i - address], k))
  {
    var n := Fitting(address, |data|, |mem|);
    if address <= i < address + n {
      assert data[..n][i - address] == data[i - address];
      AndBits(mem[i], data[i - address], 8, k);
    }
  }

  lemma WroteNothing(mem: seq<Byte>, at: nat, data: seq<Byte>, page: nat)
    requires page > 0
    ensures Wrote(mem, at, data[..0]) == mem && Tiles([], at, at, page)
  {
    if at <= |mem| { assert Programmed(mem, at, data[..0]) == mem; }
  }

  lemma WroteMore(mem: seq<Byte>, at: nat, data: seq<Byte>, p: nat, n: nat)
    requires p + n <= |data| && at + p + n <= |mem|
    ensures Programmed(Wrote(mem, at, data[..p]), at + p, data[p..p + n]) == Wrote(mem, at, data[..p + n])
  {
    assert data[..p] + data[p..p + n] == data[..p + n];
    ProgrammedTwice(mem, at, data[..p], data[p..p + n]);
  }

  lemma TilesMore(cs: seq<Command>, lo: int, at: nat, n: nat, page: nat)
    requires page > 0 && Tiles(cs, lo, at, page) && 0 < n && at % page + n <= page
    ensures Tiles(cs + [ProgramPage(at, n)], lo, at + n, page)
  {
    assert (cs + [ProgramPage(at, n)])[..|cs|] == cs;
  }

  /** What is left of a page lies inside a flash of whole pages. */
  lemma PageFits(at: nat, size: nat, page: nat)
    requires page > 0 && at < size && size % page == 0
    ensures 0 < page - at % page && at + (page - at % page) <= size
  {
    DivMod(at, page);
    DivMod(size, page);
    var i, n := at / page, size / page;
    if i >= n { MulMonotone(n, i, page); }
    MulMonotone(i + 1, n, page);
    MulDistrib(i, 1, page);
  }

  // ---- which bytes are erased ----

  /** Byte i of the flash lies in a sector that has a byte of [address, address + len). */
  predicate Meets(i: int, address: nat, len: nat) {
    len > 0 && i / SECTOR * SECTOR < address + len && address < i / SECTOR * SECTOR + SECTOR
  }

  lemma {:induction false} SectorsEndBounds(first: nat, len: nat, size: nat)
    requires first % SECTOR == 0 && size % SECTOR == 0
    ensures first <= SectorsEnd(first, len, size) && (first <= size ==> SectorsEnd(first, len, size) <= size)
    decreases len
  {
    if len > 0 && first < size {
      SectorsEndBounds(first + SECTOR, if len <= SECTOR then 0 else len - SECTOR, size);
    }
  }

  lemma {:induction false} SectorsReach(first: nat, len: nat, size: nat, i: nat)
    requires first % SECTOR == 0 && size % SECTOR == 0 && first <= i < size
    ensures i < SectorsEnd(first, len, size) <==> i / SECTOR * SECTOR < first + len
    decreases len
  {
    if len > 0 {
      var rest := if len <= SECTOR then 0 else len - SECTOR;
      if i < first + SECTOR {
        SectorsEndBounds(first + SECTOR, rest, size);
      } else {
        SectorsReach(first + SECTOR, rest, size, i);
      }
    }
  }

  ghost predicate ErasesExactly(address: nat, len: nat, size: nat) {
    forall i {:trigger Meets(i, address, len)} :: 0 <= i < size ==>
      (EraseStart(address, len, size) <= i < EraseEnd(address, len, size) <==> Meets(i, address, len))
  }

  /** A caller can check this: the request is for the whole flash or beyond its end, or it is not empty and
    * its length plus the offset in the first sector stays below 2^32; or it is empty and aligned; or only
    * the last sector is left and the sum does not wrap to zero. */
  predicate EraseSound(address: nat, len: nat, size: nat) {
    || (address == 0 && len >= size)
    || address >= size
    || (len > 0 && address % SECTOR + len < U32)
    || (len == 0 && address % SECTOR == 0)
    || (len > 0 && address / SECTOR * SECTOR + SECTOR == size && address % SECTOR + len != U32)
  }

  /** `erase_op` erases exactly the sectors that meet the request if and only if that holds: an empty
    * request inside a sector erases it, and a length near 2^32 wraps and erases too little. */
  lemma EraseExact(address: nat, len: nat, size: nat)
    requires address < U32 && len < U32 && size < U32 && size % SECTOR == 0
    ensures ErasesExactly(address, len, size) <==> EraseSound(address, len, size)
  {
    if EraseSound(address, len, size) {
      forall i | 0 <= i < size
        ensures EraseStart(address, len, size) <= i < EraseEnd(address, len, size) <==> Meets(i, address, len)
      {
        EraseSoundAt(address, len, size, i);
      }
    } else {
      var i := EraseFails(address, len, size);
      assert Meets(i, address, len) <==> !(EraseStart(address, len, size) <= i < EraseEnd(address, len, size));
    }
  }

  lemma EraseSoundAt(address: nat, len: nat, size: nat, i: nat)
    requires address < U32 && len < U32 && i < size < U32 && size % SECTOR == 0 && EraseSound(address, len, size)
    ensures EraseStart(address, len, size) <= i < EraseEnd(address, len, size) <==> Meets(i, address, len)
  {
    var first, total := address / SECTOR * SECTOR, (address % SECTOR + len) % U32;
    hide SectorsEnd;
    SectorsEndBounds(first, total, size);
    if first <= i { SectorsReach(first, total, size, i); }
    if address >= size { FirstBeyond(address, size, total); }
  }

  lemma FirstBeyond(address: nat, size: nat, total: nat)
    requires address >= size && size % SECTOR == 0
    ensures var first := address / SECTOR * SECTOR; first >= size && SectorsEnd(first, total, size) == first
  {
  }

  lemma EraseFails(address: nat, len: nat, size: nat) returns (i: nat)
    requires address < U32 && len < U32 && size < U32 && size % SECTOR == 0 && !EraseSound(address, len, size)
    ensures i < size
    ensures Meets(i, address, len) <==> !(EraseStart(address, len, size) <= i < EraseEnd(address, len, size))
  {
    var first, total := address / SECTOR * SECTOR, (address % SECTOR + len) % U32;
    hide SectorsEnd;
    i := if len == 0 || total == 0 then first else first + SECTOR;
    SectorsReach(first, total, size, i);
  }

  /** The whole-chip branch leaves what the sector loop would. */
  lemma ChipIsSectors(len: nat, size: nat)
    requires size <= len && size % SECTOR == 0
    ensures SectorsEnd(0, len, size) == size
  {
    hide SectorsEnd;
    SectorsEndBounds(0, len, size);
    if size > 0 { SectorsReach(0, len, size, size - 1); }
  }
}
