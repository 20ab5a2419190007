/** The circular packet queue of the shaper: fixed slots, overwritten in place. */
module PacketQueue {
  import opened Bytes

  const CAPACITY: nat := 8192
  const SLOT: nat := 2048

  type Packet = seq<Byte>

  /** A slot keeps whatever earlier packets left behind the first `size` bytes of its payload. */
  datatype PacketSlot = PacketSlot(size: nat, payload: seq<Byte>)

  predicate SlotOk(s: PacketSlot) { s.size <= SLOT == |s.payload| }

  /** The free slot at position n is not the slot of an earlier position. */
  lemma FreeSlot(head: nat, i: nat, n: nat)
    requires head < CAPACITY && i < n < CAPACITY
    ensures (head + i) % CAPACITY != (head + n) % CAPACITY
  {
  }

  lemma NextSlot(head: nat, i: nat)
    requires head < CAPACITY
    ensures ((head + 1) % CAPACITY + i) % CAPACITY == (head + (i + 1)) % CAPACITY
  {
  }

  class Queue {
    const pool: array<PacketSlot>
    var head: nat
    var tail: nat
    var count: nat

    ghost predicate Valid()
      reads this, pool
    {
      && pool.Length == CAPACITY && head < CAPACITY && tail < CAPACITY && count <= CAPACITY
      && tail == (head + count) % CAPACITY
      && forall i | 0 <= i < CAPACITY :: SlotOk(pool[i])
    }

    ghost function At(i: nat): Packet
      requires Valid() && i < count
      reads this, pool
    {
      var s := pool[(head + i) % CAPACITY];
      s.payload[..s.size]
    }

    ghost function Contents(): (q: seq<Packet>)
      requires Valid()
      reads this, pool
      ensures |q| == count
    {
      seq(count, i requires 0 <= i < count reads this, pool requires Valid() => At(i))
    }

    constructor ()
      ensures Valid() && Contents() == [] && fresh(pool)
    {
      pool := new PacketSlot[CAPACITY](_ => PacketSlot(0, seq(SLOT, _ => 0)));
      head, tail, count := 0, 0, 0;
    }

    method Push(pkt: Packet) returns (ok: bool)
      requires Valid()
      modifies this`tail, this`count, pool
      ensures Valid()
      ensures ok == (|old(Contents())| < CAPACITY && |pkt| <= SLOT)
      ensures Contents() == if ok then old(Contents()) + [pkt] else old(Contents())
    {
      if count == CAPACITY || |pkt| > SLOT {
        return false;
      }
      ghost var before, n := Contents(), count;
      pool[tail] := PacketSlot(|pkt|, pkt + pool[tail].payload[|pkt|..]);
      assert pool[tail].payload[..|pkt|] == pkt;
      tail := (tail + 1) % CAPACITY;
      count := count + 1;
      forall i | 0 <= i < n
        ensures At(i) == before[i]
      {
        FreeSlot(head, i, n);
      }
      assert At(n) == pkt;
      assert Contents() == before + [pkt];
      ok := true;
    }

    method Front() returns (pkt: Packet)
      requires Valid()
      ensures pkt == if Contents() == [] then [] else Contents()[0]
    {
      if count == 0 {
        return [];
      }
      pkt := pool[head].payload[..pool[head].size];
    }

    method Pop()
      requires Valid()
      modifies this`head, this`count
      ensures Valid()
      ensures Contents() == if old(Contents()) == [] then [] else old(Contents())[1..]
    {
      if count > 0 {
        ghost var before, was := Contents(), head;
        NextSlot(head, count - 1);
        head := (head + 1) % CAPACITY;
        count := count - 1;
        forall i | 0 <= i < count
          ensures At(i) == before[i + 1]
        {
          NextSlot(was, i);
        }
        assert Contents() == before[1..];
      }
    }
  }
}
