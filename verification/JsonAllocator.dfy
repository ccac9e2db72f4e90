/** The zone allocator that jsonParse carves its nodes from. Addresses and sizes are 64-bit
    numbers; malloc's answers are parameters. */
module JsonAllocator {
  import opened Options

  const ZONE_SIZE: nat := 4096
  const HEADER: nat := 16
  const SIZE_T: nat := 0x1_0000_0000_0000_0000

  /** The header of a malloc'ed zone. capacity is what malloc was asked for. */
  class Zone {
    const addr: nat
    ghost const capacity: nat
    var used: nat
    var next: Zone?

    constructor (addr: nat, ghost capacity: nat, used: nat)
      ensures this.addr == addr && this.capacity == capacity && this.used == used && next == null
    {
      this.addr, this.capacity, this.used, next := addr, capacity, used, null;
    }
  }

  /** len bytes at address at, handed out from a zone. */
  datatype Block = Block(at: nat, len: nat, zone: Zone)

  /** (size + 7) & ~7 in size_t. */
  function Rounded(size: nat): (r: nat)
    ensures r % 8 == 0
    ensures size <= SIZE_T - 8 ==> size <= r < size + 8
  {
    (size + 7) % SIZE_T / 8 * 8
  }

  function AllocSize(size: nat): nat {
    (HEADER + Rounded(size)) % SIZE_T
  }

  function CapacityFor(allocSize: nat): nat {
    if allocSize <= ZONE_SIZE then ZONE_SIZE else allocSize
  }

  /** What malloc is asked for when a new zone is needed. */
  function MallocSize(size: nat): nat {
    CapacityFor(AllocSize(size))
  }

  /** Does the request fit what is left of a head zone, as far as size_t arithmetic can tell? */
  predicate FitsHead(used: Option<nat>, size: nat) {
    used.Some? && (used.value + Rounded(size)) % SIZE_T <= ZONE_SIZE
  }

  /** Nothing that decides about the request wraps around in size_t. */
  predicate NoWrap(used: Option<nat>, size: nat) {
    && size <= SIZE_T - 8
    && if FitsHead(used, size) then used.value + Rounded(size) <= ZONE_SIZE else HEADER + Rounded(size) < SIZE_T
  }

  lemma Arithmetic(used: Option<nat>, size: nat)
    ensures Rounded(size) % 8 == 0 && Rounded(size) < SIZE_T
    ensures FitsHead(used, size) ==> used.Some? && (used.value + Rounded(size)) % SIZE_T <= ZONE_SIZE
    ensures MallocSize(size) == CapacityFor(AllocSize(size)) && AllocSize(size) % 8 == 0
    ensures NoWrap(used, size) && FitsHead(used, size) ==> used.value + Rounded(size) <= ZONE_SIZE
    ensures NoWrap(used, size) && !FitsHead(used, size) ==> AllocSize(size) == HEADER + Rounded(size)
  {
  }

  /** Where in its zone the block for the request starts, and how large that zone is. */
  function Offset(used: Option<nat>, size: nat): nat {
    if FitsHead(used, size) then used.value else HEADER
  }

  function ZoneCapacity(used: Option<nat>, headCapacity: nat, size: nat): nat {
    if FitsHead(used, size) then headCapacity else MallocSize(size)
  }

  /** A block of `size` bytes lies within its zone if and only if the request does not wrap. */
  lemma BlockInsideIff(used: Option<nat>, headCapacity: nat, size: nat)
    requires used.Some? ==> HEADER <= used.value <= headCapacity <= SIZE_T - HEADER && used.value % 8 == 0
    requires used.Some? ==> headCapacity >= ZONE_SIZE && (headCapacity == ZONE_SIZE || used.value > ZONE_SIZE)
    requires size < SIZE_T
    ensures Offset(used, size) + size <= ZoneCapacity(used, headCapacity, size) <==> NoWrap(used, size)
  {
    var r := Rounded(size);
    if size <= SIZE_T - 8 {
      if FitsHead(used, size) {
        assert used.value + r < SIZE_T ==> (used.value + r) % SIZE_T == used.value + r;
      } else {
        assert HEADER + r < SIZE_T ==> (HEADER + r) % SIZE_T == HEADER + r;
      }
    }
  }

  /** The largest request of all gets a block without a single byte. */
  lemma WrappedRequest()
    ensures Rounded(SIZE_T - 1) == 0 && !NoWrap(None, SIZE_T - 1)
    ensures Offset(None, SIZE_T - 1) + (SIZE_T - 1) > ZoneCapacity(None, 0, SIZE_T - 1)
  {
  }

  predicate Disjoint(a: nat, m: nat, b: nat, n: nat) {
    a + m <= b || b + n <= a
  }

  ghost predicate Apart(y: Zone, z: Zone) {
    y != z && Disjoint(y.addr, y.capacity, z.addr, z.capacity)
  }

  /** The area of a zone; one that was made larger than usual is full and stays so. */
  ghost predicate AreaOk(z: Zone)
    reads z`used
  {
    && (z.capacity == ZONE_SIZE || z.used > ZONE_SIZE)
    && HEADER <= z.used <= z.capacity && z.used % 8 == 0 && ZONE_SIZE <= z.capacity
    && z.addr % 8 == 0 && 0 < z.addr && z.addr + z.capacity <= SIZE_T
  }

  class JsonAllocator {
    var head: Zone?
    ghost var zones: seq<Zone>
    ghost var blocks: seq<Block>

    constructor ()
      ensures Valid() && zones == [] && blocks == []
    {
      head, zones, blocks := null, [], [];
    }

    /** The zones form a null-terminated list of memory areas that do not overlap. */
    ghost predicate ZonesOk()
      reads this`head, this`zones, zones
    {
      && Linked() && (forall i :: 0 <= i < |zones| ==> AreaOk(zones[i]))
      && (forall i, j :: 0 <= i < j < |zones| ==> Apart(zones[i], zones[j]))
    }

    ghost predicate Linked()
      reads this`head, this`zones, (set z | z in zones)`next
    {
      && head == (if zones == [] then null else zones[0])
      && forall i {:trigger zones[i]} :: 0 <= i < |zones| ==> zones[i].next == if i + 1 < |zones| then zones[i + 1] else null
    }

    /** Every block lies in the used part of its zone, behind the header, and is aligned. */
    static ghost predicate BlockOk(b: Block)
      reads b.zone`used
    {
      b.at % 8 == 0 && b.zone.addr + HEADER <= b.at && b.at + b.len <= b.zone.addr + b.zone.used
    }

    ghost predicate BlocksOk()
      reads this`zones, this`blocks, (set z | z in zones)`used
    {
      && (forall k :: 0 <= k < |blocks| ==> blocks[k].zone in zones && BlockOk(blocks[k]))
      && (forall k, l :: 0 <= k < l < |blocks| ==> Disjoint(blocks[k].at, blocks[k].len, blocks[l].at, blocks[l].len))
    }

    ghost predicate Valid()
      reads this, zones
    {
      ZonesOk() && BlocksOk()
    }

    /** malloc answers null, or an aligned area that overlaps no zone. */
    ghost predicate MallocAnswer(addr: nat, bytes: nat)
      reads this, zones
    {
      addr == 0 || (addr % 16 == 0 && addr + bytes <= SIZE_T
                    && forall i :: 0 <= i < |zones| ==> Disjoint(addr, bytes, zones[i].addr, zones[i].capacity))
    }

    /** The bytes the head zone has given away, if there is a head zone. */
    ghost function HeadUse(): Option<nat>
      reads this`head, head
    {
      if head == null then None else Some(head.used)
    }

    /** The head zone's free space, and as much as does not wrap is a block of its own. */
    method Carve(r: nat) returns (p: nat)
      requires Valid() && head != null && r % 8 == 0 && (head.used + r) % SIZE_T <= ZONE_SIZE
      modifies this`blocks, head`used
      ensures 0 < p == old(head.addr + head.used) && head.used == (old(head.used) + r) % SIZE_T
      ensures old(head.used) + r <= ZONE_SIZE ==> Valid() && blocks == old(blocks) + [Block(p, r, head)]
    {
      hide Linked;
      hide Apart;
      HeadZone();
      ghost var fits := head.used + r <= ZONE_SIZE;
      if fits { BlocksBelow(r); }
      p := head.addr + head.used;
      label before:
      head.used := (head.used + r) % SIZE_T;
      if fits {
        forall k | 0 <= k < |blocks| ensures blocks[k].zone in zones && BlockOk(blocks[k]) {
          assert old@before(BlockOk(blocks[k]));
        }
        AddBlock(Block(p, r, head));
      }
    }

    lemma BlocksBelow(r: nat)
      requires Valid() && head != null && head.used + r <= ZONE_SIZE
      ensures forall k :: 0 <= k < |blocks| ==> Disjoint(blocks[k].at, blocks[k].len, head.addr + head.used, r)
    {
      HeadZone();
      forall k | 0 <= k < |blocks| ensures Disjoint(blocks[k].at, blocks[k].len, head.addr + head.used, r) {
        BlockBelow(k);
      }
    }

    lemma HeadZone()
      requires ZonesOk() && head != null
      ensures zones != [] && head == zones[0] && head in zones && AreaOk(head)
    {
    }

    /** The new block is recorded. */
    ghost method AddBlock(b: Block)
      requires BlocksOk() && b.zone in zones && BlockOk(b)
      requires forall k :: 0 <= k < |blocks| ==> Disjoint(blocks[k].at, blocks[k].len, b.at, b.len)
      modifies this`blocks
      ensures BlocksOk() && blocks == old(blocks) + [b]
    {
      hide BlockOk;
      blocks := blocks + [b];
    }

    /** Blocks of other zones lie outside the head zone, those of the head zone below `used`. */
    lemma BlockBelow(k: nat)
      requires Valid() && zones != [] && k < |blocks|
      ensures blocks[k].zone == zones[0] ==> blocks[k].at + blocks[k].len <= zones[0].addr + zones[0].used
      ensures blocks[k].zone != zones[0] ==> Disjoint(blocks[k].at, blocks[k].len, zones[0].addr, zones[0].capacity)
      ensures zones[0].addr + HEADER <= zones[0].addr + zones[0].used <= zones[0].addr + zones[0].capacity
    {
      hide Linked;
      var z := blocks[k].zone;
      assert BlockOk(blocks[k]);
      if z != zones[0] {
        var i :| 0 <= i < |zones| && zones[i] == z;
        assert Apart(zones[0], zones[i]);
        assert AreaOk(zones[i]);
      }
    }

    /** zone overlaps none of the zones in the list. */
    ghost predicate NewArea(zone: Zone)
      reads this`zones
    {
      forall i :: 0 <= i < |zones| ==> Apart(zone, zones[i])
    }

    method PushZone(zone: Zone)
      requires ZonesOk() && NewArea(zone)
      modifies this`head, this`zones, zone`next
      ensures head == zone && zones == [zone] + old(zones)
      ensures AreaOk(zone) ==> ZonesOk()
    {
      hide Apart;
      hide AreaOk;
      DistinctFrom(zone);
      zone.next := head;
      head := zone;
      ghost var was := zones;
      zones := [zone] + zones;
      forall i, j | 0 <= i < j < |zones| ensures Apart(zones[i], zones[j]) {
        if i > 0 { assert Apart(was[i - 1], was[j - 1]); }
      }
    }

    /** A zone too large to be carved from goes behind the head. */
    method InsertZone(zone: Zone)
      requires ZonesOk() && AreaOk(zone) && NewArea(zone) && head != null
      modifies this`zones, zone`next, head`next
      ensures ZonesOk() && head == old(head) && old(zones) != [] && zones == [old(zones)[0], zone] + old(zones)[1..]
    {
      DistinctFrom(zone);
      HeadZone();
      HeadOnce();
      hide Apart;
      hide AreaOk;
      ghost var was := zones;
      zone.next := head.next;
      head.next := zone;
      zones := [was[0], zone] + was[1..];
      forall i, j | 0 <= i < j < |zones| ensures Apart(zones[i], zones[j]) {
        ApartInserted(zone, was, i, j);
      }
      assert Linked() by { LinkedInserted(zone, was); }
    }

    lemma ApartInserted(zone: Zone, was: seq<Zone>, i: nat, j: nat)
      requires was != [] && zones == [was[0], zone] + was[1..] && i < j < |zones|
      requires forall k, l :: 0 <= k < l < |was| ==> Apart(was[k], was[l])
      requires forall k :: 0 <= k < |was| ==> Apart(zone, was[k])
      ensures Apart(zones[i], zones[j])
    {
      var a, b := if i == 0 then 0 else i - 1, j - 1;
      if i == 1 {
        assert Apart(zone, was[b]);
      } else if j == 1 {
        assert Apart(zone, was[0]);
      } else {
        assert Apart(was[a], was[b]);
      }
    }

    lemma LinkedInserted(zone: Zone, was: seq<Zone>)
      requires was != [] && zones == [was[0], zone] + was[1..] && head == was[0]
      requires head.next == zone && zone.next == if |was| > 1 then was[1] else null
      requires forall i {:trigger was[i]} :: 1 <= i < |was| ==> was[i].next == if i + 1 < |was| then was[i + 1] else null
      ensures Linked()
    {
    }

    lemma DistinctFrom(zone: Zone)
      requires NewArea(zone)
      ensures zone !in zones
    {
    }

    lemma HeadOnce()
      requires ZonesOk() && zones != []
      ensures forall i {:trigger zones[i]} :: 1 <= i < |zones| ==> zones[i] != zones[0]
    {
      forall i {:trigger zones[i]} | 1 <= i < |zones| ensures zones[i] != zones[0] {
        assert Apart(zones[0], zones[i]);
      }
    }

    /** allocate, for every size: answer is what malloc returns, should it be asked. The blocks stay
        sound unless the request wraps around. */
    method Allocate(size: nat, answer: nat) returns (p: nat)
      requires Valid() && size < SIZE_T && MallocAnswer(answer, MallocSize(size))
      modifies this, head
      ensures old(NoWrap(HeadUse(), size)) ==> Valid()
      ensures old(NoWrap(HeadUse(), size)) && p == 0 ==> blocks == old(blocks)
      ensures old(NoWrap(HeadUse(), size)) && p != 0 ==> Added(blocks, old(blocks), p, Rounded(size))
      ensures old(FitsHead(HeadUse(), size)) ==> p == old(head.addr + head.used) && zones == old(zones)
      ensures old(FitsHead(HeadUse(), size)) ==> head == old(head) && head.used == (old(head.used) + Rounded(size)) % SIZE_T
      ensures !old(FitsHead(HeadUse(), size)) ==> p == if answer == 0 then 0 else answer + HEADER
      ensures !old(FitsHead(HeadUse(), size)) && answer == 0 ==> zones == old(zones)
      ensures !old(FitsHead(HeadUse(), size)) && answer != 0 ==> exists z: Zone :: z.addr == answer && WithZone(zones, old(zones), z)
    {
      hide *;
      HeadUseIs();
      var used := if head == null then None else Some(head.used);
      Arithmetic(used, size);
      var r := Rounded(size);
      if FitsHead(used, size) {
        ghost var zone := head;
        p := Carve(r);
        if NoWrap(used, size) { BlockAdded(old(blocks), Block(p, r, zone)); }
        return;
      }
      if answer == 0 {
        return 0;
      }
      p := NewZone(AllocSize(size), answer);
    }

    /** The blocks are those there were and one of len bytes at address at. */
    static predicate Added(all: seq<Block>, was: seq<Block>, at: nat, len: nat) {
      |all| == |was| + 1 && all[..|was|] == was && all[|was|].at == at && all[|was|].len == len
    }

    static lemma BlockAdded(was: seq<Block>, b: Block)
      ensures Added(was + [b], was, b.at, b.len)
    {
    }

    lemma HeadUseIs()
      ensures HeadUse() == if head == null then None else Some(head.used)
    {
    }

    /** A block at the start of a new zone, whose size wrapped around if it is less than its header. */
    method NewZone(allocSize: nat, answer: nat) returns (p: nat)
      requires Valid() && allocSize % 8 == 0
      requires answer != 0 && MallocAnswer(answer, CapacityFor(allocSize))
      modifies this, head
      ensures p == answer + HEADER
      ensures exists z: Zone :: z.addr == answer && WithZone(zones, old(zones), z)
      ensures allocSize >= HEADER ==> Valid() && Added(blocks, old(blocks), p, allocSize - HEADER)
    {
      hide *;
      var zone := new Zone(answer, CapacityFor(allocSize), allocSize);
      ghost var was := zones;
      ghost var fits := allocSize >= HEADER;
      NewZoneOk(zone);
      HeaderFits();
      if fits { BlocksElsewhere(zone); }
      ZonesStay();
      label before:
      if allocSize <= ZONE_SIZE || head == null {
        PushZone(zone);
      } else {
        InsertZone(zone);
      }
      p := answer + HEADER;
      ZonePlaced(was, zone);
      if fits {
        StillThere(was, zone);
        forall k | 0 <= k < |blocks| ensures blocks[k].zone in zones && BlockOk(blocks[k]) {
          assert blocks[k].zone in was;
          assert old@before(BlockOk(blocks[k]));
        }
        FirstBlockOk(Block(p, allocSize - HEADER, zone));
        AllBlocksOk();
        BlockAdded(blocks, Block(p, allocSize - HEADER, zone));
        AddBlock(Block(p, allocSize - HEADER, zone));
        ValidAgain();
      }
    }

    static lemma HeaderFits()
      ensures HEADER <= ZONE_SIZE
    {
    }

    lemma ZonePlaced(was: seq<Zone>, zone: Zone)
      requires zones == [zone] + was || (was != [] && zones == [was[0], zone] + was[1..])
      ensures WithZone(zones, was, zone)
    {
    }

    lemma ZonesStay()
      requires Valid()
      ensures ZonesOk()
    {
    }

    lemma ValidAgain()
      requires ZonesOk() && BlocksOk()
      ensures Valid()
    {
    }

    /** all is was with the zone as its head or, if that is too large to be carved from, behind it. */
    static predicate WithZone(all: seq<Zone>, was: seq<Zone>, zone: Zone) {
      all == [zone] + was || (was != [] && all == [was[0], zone] + was[1..])
    }

    lemma StillThere(was: seq<Zone>, zone: Zone)
      requires WithZone(zones, was, zone)
      ensures zone in zones && forall z :: z in was ==> z in zones
    {
      assert zones[0] in zones && zones[if zones == [zone] + was then 0 else 1] == zone;
      forall i | 0 <= i < |was| ensures was[i] in zones {
        assert was[i] == zones[if zones == [zone] + was then i + 1 else if i == 0 then 0 else i + 1];
      }
    }

    lemma FirstBlockOk(b: Block)
      requires b.zone in zones && b.at == b.zone.addr + HEADER && b.at + b.len == b.zone.addr + b.zone.used && b.zone.addr % 8 == 0
      ensures BlockOk(b)
    {
    }

    lemma AllBlocksOk()
      requires forall k :: 0 <= k < |blocks| ==> blocks[k].zone in zones && BlockOk(blocks[k])
      requires forall k, l :: 0 <= k < l < |blocks| ==> Disjoint(blocks[k].at, blocks[k].len, blocks[l].at, blocks[l].len)
      ensures BlocksOk()
    {
    }

    /** malloc's answer makes a zone of its own, and a sound one unless its size wrapped around. */
    lemma NewZoneOk(zone: Zone)
      requires Valid() && zone !in zones && zone.addr != 0 && zone.used % 8 == 0
      requires zone.capacity == CapacityFor(zone.used) && MallocAnswer(zone.addr, zone.capacity)
      ensures NewArea(zone)
      ensures zone.used >= HEADER ==> AreaOk(zone) && zone.addr % 8 == 0 && zone.used <= zone.capacity
    {
      hide Linked;
      hide BlocksOk;
      hide AreaOk;
      forall i | 0 <= i < |zones| ensures Apart(zone, zones[i]) {
        assert zones[i] in zones;
      }
      if zone.used >= HEADER { AreaOkFor(zone); }
    }

    lemma AreaOkFor(zone: Zone)
      requires zone.used % 8 == 0 && zone.used >= HEADER && zone.capacity == CapacityFor(zone.used)
      requires 0 < zone.addr && zone.addr % 16 == 0 && zone.addr + zone.capacity <= SIZE_T
      ensures AreaOk(zone) && zone.addr % 8 == 0 && zone.used <= zone.capacity
    {
    }

    lemma BlocksElsewhere(zone: Zone)
      requires Valid() && NewArea(zone) && HEADER <= zone.used <= zone.capacity
      ensures ZonesOk() && forall k :: 0 <= k < |blocks| ==> blocks[k].zone in zones && BlockOk(blocks[k])
      ensures forall k :: 0 <= k < |blocks| ==> Disjoint(blocks[k].at, blocks[k].len, zone.addr + HEADER, zone.used - HEADER)
      ensures forall k, l :: 0 <= k < l < |blocks| ==> Disjoint(blocks[k].at, blocks[k].len, blocks[l].at, blocks[l].len)
    {
      hide Linked;
      forall k | 0 <= k < |blocks| ensures Disjoint(blocks[k].at, blocks[k].len, zone.addr + HEADER, zone.used - HEADER) {
        var z := blocks[k].zone;
        var i :| 0 <= i < |zones| && zones[i] == z;
        assert Apart(zone, zones[i]) && AreaOk(zones[i]) && BlockOk(blocks[k]);
      }
    }

    /** deallocate: `freed` are the zones given back to free, in that order. */
    method Deallocate() returns (freed: seq<Zone>)
      requires Valid()
      modifies this
      ensures head == null && zones == [] && blocks == [] && Valid()
      ensures freed == old(zones)
      ensures forall i, j :: 0 <= i < j < |freed| ==> freed[i] != freed[j]
    {
      hide AreaOk;
      freed := [];
      ghost var all := zones;
      while head != null
        invariant |freed| <= |all| && freed == all[..|freed|]
        invariant head == if |freed| < |all| then all[|freed|] else null
        invariant forall i {:trigger all[i]} :: 0 <= i < |all| ==> all[i].next == if i + 1 < |all| then all[i + 1] else null
        decreases |all| - |freed|
      {
        var next := head.next;
        freed := freed + [head];
        head := next;
      }
      zones, blocks := [], [];
    }
  }
}
