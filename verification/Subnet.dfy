/** The hosting node's network allocator (infrastructure/hosting-agent/network_policy.py): a circular probe over
    the equal blocks of a pool, starting at a hashed position. */
module Subnet {
  import opened Collections

  const ADDRESS_BITS := 32

  datatype Network = Network(address: nat, prefix: nat)

  function Size(prefix: nat): nat
    requires prefix <= ADDRESS_BITS
  {
    PowerOfTwo(ADDRESS_BITS - prefix)
  }

  ghost predicate IsMultiple(address: nat, size: nat) {
    exists k: nat :: k * size == address
  }

  /** A canonical IPv4 network: no host bits set. */
  ghost predicate IsNetwork(n: Network) {
    && n.prefix <= ADDRESS_BITS
    && IsMultiple(n.address, Size(n.prefix))
    && n.address + Size(n.prefix) <= PowerOfTwo(ADDRESS_BITS)
  }

  function Broadcast(n: Network): nat
    requires n.prefix <= ADDRESS_BITS
  {
    n.address + Size(n.prefix) - 1
  }

  predicate Contains(n: Network, address: nat)
    requires n.prefix <= ADDRESS_BITS
  {
    n.address <= address <= Broadcast(n)
  }

  /** ipaddress's overlaps: an end of one lies in the other. */
  predicate Overlaps(a: Network, b: Network)
    requires a.prefix <= ADDRESS_BITS && b.prefix <= ADDRESS_BITS
  {
    Contains(a, b.address) || Contains(a, Broadcast(b)) || Contains(b, a.address) || Contains(b, Broadcast(a))
  }

  /** The address is one of the network's. */
  ghost predicate IsIn(address: nat, n: Network)
    requires n.prefix <= ADDRESS_BITS
  {
    n.address <= address < n.address + Size(n.prefix)
  }

  lemma OverlapMeansSharedAddress(a: Network, b: Network)
    requires a.prefix <= ADDRESS_BITS && b.prefix <= ADDRESS_BITS
    ensures Overlaps(a, b) <==> exists x: nat :: IsIn(x, a) && IsIn(x, b)
  {
    if Overlaps(a, b) {
      var x := if Contains(a, b.address) then b.address else if Contains(a, Broadcast(b)) then Broadcast(b)
               else if Contains(b, a.address) then a.address else Broadcast(a);
      assert IsIn(x, a) && IsIn(x, b);
    }
  }

  lemma {:induction false} PowersMultiply(a: nat, b: nat)
    ensures PowerOfTwo(a) * PowerOfTwo(b) == PowerOfTwo(a + b)
  {
    if a > 0 {
      PowersMultiply(a - 1, b);
      assert PowerOfTwo(a) * PowerOfTwo(b) == 2 * (PowerOfTwo(a - 1) * PowerOfTwo(b));
    }
  }

  // ----- The blocks of a pool -----

  ghost predicate FitsPool(pool: Network, prefix: nat) {
    IsNetwork(pool) && pool.prefix <= prefix <= ADDRESS_BITS
  }

  function BlockCount(pool: Network, prefix: nat): (r: nat)
    requires FitsPool(pool, prefix)
    ensures r > 0
  {
    PowerOfTwo(prefix - pool.prefix)
  }

  function Block(pool: Network, prefix: nat, index: nat): Network
    requires FitsPool(pool, prefix)
  {
    Network(pool.address + index * Size(prefix), prefix)
  }

  lemma BlocksFillPool(pool: Network, prefix: nat)
    requires FitsPool(pool, prefix)
    ensures BlockCount(pool, prefix) * Size(prefix) == Size(pool.prefix)
  {
    PowersMultiply(prefix - pool.prefix, ADDRESS_BITS - prefix);
  }

  /** Every block is a network of the asked size inside the pool. */
  lemma BlockIsInside(pool: Network, prefix: nat, index: nat)
    requires FitsPool(pool, prefix) && index < BlockCount(pool, prefix)
    ensures IsNetwork(Block(pool, prefix, index))
    ensures pool.address <= Block(pool, prefix, index).address
    ensures Broadcast(Block(pool, prefix, index)) <= Broadcast(pool)
  {
    var size, count := Size(prefix), BlockCount(pool, prefix);
    BlocksFillPool(pool, prefix);
    BlocksAreApart(index, count, size);
    var k: nat :| k * Size(pool.prefix) == pool.address;
    MultiplesAdd(k, count, size, index);
  }

  lemma BlocksAreApart(i: nat, j: nat, size: nat)
    requires i < j
    ensures i * size + size <= j * size
  {
    var gap := j - i - 1;
    assert j * size == (i + 1 + gap) * size == i * size + size + gap * size;
  }

  lemma MultiplesAdd(k: nat, count: nat, size: nat, index: nat)
    ensures IsMultiple(k * (count * size) + index * size, size)
  {
    assert (k * count + index) * size == k * (count * size) + index * size;
  }

  /** Blocks of one pool overlap only themselves. */
  lemma BlocksAreDisjoint(pool: Network, prefix: nat, i: nat, j: nat)
    requires FitsPool(pool, prefix)
    ensures Overlaps(Block(pool, prefix, i), Block(pool, prefix, j)) <==> i == j
  {
    if i < j {
      BlocksAreApart(i, j, Size(prefix));
    } else if j < i {
      BlocksAreApart(j, i, Size(prefix));
    }
  }

  // ----- Choosing -----

  /** some used network overlaps this one. */
  predicate IsTaken(candidate: Network, used: seq<Network>)
    requires candidate.prefix <= ADDRESS_BITS
    requires forall u :: u in used ==> u.prefix <= ADDRESS_BITS
  {
    exists i :: 0 <= i < |used| && Overlaps(candidate, used[i])
  }

  function ProbeIndex(start: nat, offset: nat, total: nat): (r: nat)
    requires total > 0
    ensures r < total
  {
    (start + offset) % total
  }

  lemma ProbeWraps(start: nat, offset: nat, total: nat)
    requires start < total && offset < total
    ensures ProbeIndex(start, offset, total) == if start + offset < total then start + offset else start + offset - total
  {
    var x := start + offset;
    if x >= total {
      assert x == 1 * total + (x - total);
    }
  }

  /** The probe passes every block exactly once. */
  lemma ProbeVisitsEachOnce(start: nat, total: nat, index: nat) returns (offset: nat)
    requires index < total && start < total
    ensures offset < total && ProbeIndex(start, offset, total) == index
    ensures forall o: nat :: o < total && ProbeIndex(start, o, total) == index ==> o == offset
  {
    offset := if index >= start then index - start else index + total - start;
    ProbeWraps(start, offset, total);
    forall o: nat | o < total && ProbeIndex(start, o, total) == index ensures o == offset {
      ProbeWraps(start, o, total);
    }
  }

  /** The probe starts at the block of the start index, and goes on with the block behind the last one, or, at the
      end of the pool, with the pool's first. */
  lemma ProbeWalksPool(pool: Network, prefix: nat, start: nat, offset: nat)
    requires FitsPool(pool, prefix) && start < BlockCount(pool, prefix) && offset < BlockCount(pool, prefix)
    ensures var total := BlockCount(pool, prefix);
      var block := Block(pool, prefix, ProbeIndex(start, offset, total));
      var next := Block(pool, prefix, ProbeIndex(start, offset + 1, total));
      && (offset == 0 ==> block.address == pool.address + start * Size(prefix))
      && (offset + 1 < total ==>
            next.address == if Broadcast(block) == Broadcast(pool) then pool.address else Broadcast(block) + 1)
  {
    var total := BlockCount(pool, prefix);
    ProbeWraps(start, offset, total);
    NextBlock(pool, prefix, ProbeIndex(start, offset, total));
    if offset + 1 < total {
      ProbeWraps(start, offset + 1, total);
    }
  }

  lemma NextBlock(pool: Network, prefix: nat, index: nat)
    requires FitsPool(pool, prefix) && index < BlockCount(pool, prefix)
    ensures Block(pool, prefix, 0).address == pool.address
    ensures Block(pool, prefix, index + 1).address == Broadcast(Block(pool, prefix, index)) + 1
    ensures Broadcast(Block(pool, prefix, index)) == Broadcast(pool) <==> index + 1 == BlockCount(pool, prefix)
  {
    BlocksFillPool(pool, prefix);
    Successor(index, Size(prefix));
    if index + 1 < BlockCount(pool, prefix) {
      BlocksAreApart(index + 1, BlockCount(pool, prefix), Size(prefix));
    }
  }

  lemma Successor(index: nat, size: nat)
    ensures (index + 1) * size == index * size + size
  {
  }

  datatype Choice = Chosen(subnet: Network) | Failed

  /** The first free block the probe meets. */
  ghost predicate IsFirstFree(pool: Network, prefix: nat, start: nat, used: seq<Network>, subnet: Network)
    requires FitsPool(pool, prefix)
    requires forall u :: u in used ==> u.prefix <= ADDRESS_BITS
  {
    var total := BlockCount(pool, prefix);
    exists offset: nat :: offset < total
      && subnet == Block(pool, prefix, ProbeIndex(start, offset, total))
      && !IsTaken(subnet, used)
      && forall o: nat :: o < offset ==> IsTaken(Block(pool, prefix, ProbeIndex(start, o, total)), used)
  }

  ghost predicate IsExhausted(pool: Network, prefix: nat, used: seq<Network>)
    requires FitsPool(pool, prefix)
    requires forall u :: u in used ==> u.prefix <= ADDRESS_BITS
  {
    forall i: nat :: i < BlockCount(pool, prefix) ==> IsTaken(Block(pool, prefix, i), used)
  }

  /** choose_project_subnet; `seed` is the integer read from the hash of the project id. */
  method ChooseProjectSubnet(pool: Network, prefix: nat, projectId: string, used: seq<Network>, seed: nat)
      returns (choice: Choice)
    requires FitsPool(pool, prefix) && forall u :: u in used ==> u.prefix <= ADDRESS_BITS
    ensures choice.Chosen? ==>
      IsFirstFree(pool, prefix, seed % BlockCount(pool, prefix), used, choice.subnet)
    ensures choice.Chosen? ==>
      && IsNetwork(choice.subnet) && choice.subnet.prefix == prefix
      && pool.address <= choice.subnet.address && Broadcast(choice.subnet) <= Broadcast(pool)
      && !IsTaken(choice.subnet, used)
    ensures choice.Failed? <==> projectId == "" || IsExhausted(pool, prefix, used)
  {
    if projectId == "" {
      return Failed;
    }
    var total := BlockCount(pool, prefix);
    var start := seed % total;
    for offset := 0 to total
      invariant forall o: nat :: o < offset ==> IsTaken(Block(pool, prefix, ProbeIndex(start, o, total)), used)
    {
      var index := ProbeIndex(start, offset, total);
      var candidate := Block(pool, prefix, index);
      if !IsTaken(candidate, used) {
        BlockIsInside(pool, prefix, index);
        return Chosen(candidate);
      }
    }
    forall i: nat | i < total ensures IsTaken(Block(pool, prefix, i), used) {
      var o := ProbeVisitsEachOnce(start, total, i);
    }
    choice := Failed;
  }

  // ----- Runs of allocations -----

  /** Networks that choose_project_subnet returned one after another, each time with all earlier ones in use; `seeds`
      are the hashes of the projects. */
  ghost predicate IsRun(pool: Network, prefix: nat, used: seq<Network>, seeds: seq<nat>, run: seq<Network>)
    requires FitsPool(pool, prefix)
    requires forall u :: u in used ==> u.prefix <= ADDRESS_BITS
  {
    && |seeds| == |run|
    && forall k :: 0 <= k < |run| ==>
         && (forall j :: 0 <= j < k ==> run[j].prefix <= ADDRESS_BITS)
         && IsFirstFree(pool, prefix, seeds[k] % BlockCount(pool, prefix), used + run[..k], run[k])
  }

  /** Each allocation of a run is a block of the pool that met no network in use. */
  lemma RunTakesFreeBlocks(pool: Network, prefix: nat, used: seq<Network>, seeds: seq<nat>, run: seq<Network>, k: nat)
      returns (index: nat)
    requires FitsPool(pool, prefix) && forall u :: u in used ==> u.prefix <= ADDRESS_BITS
    requires IsRun(pool, prefix, used, seeds, run) && k < |run|
    ensures index < BlockCount(pool, prefix) && run[k] == Block(pool, prefix, index)
    ensures forall u :: u in used + run[..k] ==> u.prefix <= ADDRESS_BITS && !Overlaps(run[k], u)
  {
    var total, start := BlockCount(pool, prefix), seeds[k] % BlockCount(pool, prefix);
    var offset: nat :| offset < total && run[k] == Block(pool, prefix, ProbeIndex(start, offset, total))
      && !IsTaken(run[k], used + run[..k]);
    index := ProbeIndex(start, offset, total);
    forall u | u in used + run[..k] ensures !Overlaps(run[k], u) {
      var i :| 0 <= i < |used + run[..k]| && (used + run[..k])[i] == u;
    }
  }

  /** No two allocations of a run share an address, and none shares one with a network in use at the start. */
  lemma RunIsDisjoint(pool: Network, prefix: nat, used: seq<Network>, seeds: seq<nat>, run: seq<Network>, i: nat, j: nat)
    requires FitsPool(pool, prefix) && forall u :: u in used ==> u.prefix <= ADDRESS_BITS
    requires IsRun(pool, prefix, used, seeds, run) && i < j < |run|
    ensures run[i].prefix == run[j].prefix == prefix && !Overlaps(run[i], run[j])
    ensures forall u :: u in used ==> !Overlaps(u, run[j])
  {
    var first := RunTakesFreeBlocks(pool, prefix, used, seeds, run, i);
    var second := RunTakesFreeBlocks(pool, prefix, used, seeds, run, j);
    assert run[..j][i] == run[i];
    assert run[i] in used + run[..j];
  }

  /** From an unused pool, exactly BlockCount allocations succeed: a shorter run never exhausts it, a full one does. */
  lemma RunExhaustsPool(pool: Network, prefix: nat, seeds: seq<nat>, run: seq<Network>)
    requires FitsPool(pool, prefix) && IsRun(pool, prefix, [], seeds, run)
    ensures |run| <= BlockCount(pool, prefix)
    ensures forall u :: u in run ==> u.prefix <= ADDRESS_BITS
    ensures IsExhausted(pool, prefix, run) <==> |run| == BlockCount(pool, prefix)
  {
    var total := BlockCount(pool, prefix);
    var taken := RunIndices(pool, prefix, seeds, run);
    var all := Below(total);
    BelowCardinality(total);
    DistinctCardinality(taken);
    assert Elements(taken) <= all;
    SubsetCardinality(Elements(taken), all);
    if |run| == total {
      forall i: nat | i < total ensures IsTaken(Block(pool, prefix, i), run) {
        assert i in all;
        var k :| 0 <= k < |taken| && taken[k] == i;
        BlocksAreDisjoint(pool, prefix, i, i);
        assert Overlaps(Block(pool, prefix, i), run[k]);
      }
    } else {
      assert Elements(taken) != all;
      var i :| i in all && i !in Elements(taken);
      forall k | 0 <= k < |run| ensures !Overlaps(Block(pool, prefix, i), run[k]) {
        BlocksAreDisjoint(pool, prefix, i, taken[k]);
      }
      assert !IsTaken(Block(pool, prefix, i), run);
    }
  }

  /** The block indices of a run; all different. */
  lemma RunIndices(pool: Network, prefix: nat, seeds: seq<nat>, run: seq<Network>) returns (indices: seq<nat>)
    requires FitsPool(pool, prefix) && IsRun(pool, prefix, [], seeds, run)
    ensures |indices| == |run| && Distinct(indices)
    ensures forall k :: 0 <= k < |run| ==> indices[k] < BlockCount(pool, prefix) && run[k] == Block(pool, prefix, indices[k])
  {
    indices := [];
    for n := 0 to |run|
      invariant |indices| == n && Distinct(indices)
      invariant forall k :: 0 <= k < n ==> indices[k] < BlockCount(pool, prefix) && run[k] == Block(pool, prefix, indices[k])
    {
      var i := RunTakesFreeBlocks(pool, prefix, [], seeds, run, n);
      forall k | 0 <= k < n ensures indices[k] != i {
        RunIsDisjoint(pool, prefix, [], seeds, run, k, n);
        BlocksAreDisjoint(pool, prefix, indices[k], i);
      }
      indices := indices + [i];
    }
  }
}
