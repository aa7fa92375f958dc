/** The ring_output stage and the input ring over the shared ring namespace, in place: every
    call does to the namespace what RingSpace says. */
module RingStage {
  import opened Machine
  import opened Options
  import opened PipelineSpec
  import opened PipelineRun
  import opened RecordFormat
  import opened HandOff
  import opened RingSpace

  /** The rings and blobs that every process of one --file-prefix shares, with the FIFO, the
      allocator and the namespace of DPDK as its operations. */
  class RingHost {
    var rings: seq<Ring>
    var handles: seq<Handle>
    var held: multiset<nat>
    var freed: multiset<nat>
    var next: nat
    var memory: map<nat, seq<Byte>>

    constructor ()
      ensures View() == EMPTY && memory == map[]
    {
      rings, handles, held, freed, next, memory := [], [], multiset{}, multiset{}, 0, map[];
    }

    function View(): Space
      reads this
    {
      Space(rings, handles, held, freed, next)
    }

    /** rte_ring_create(): None with EEXIST when the name is taken. */
    method RteRingCreate(name: string, capacity: nat, createOk: bool) returns (r: Option<nat>, eexist: bool)
      modifies this`rings
      ensures eexist <==> createOk && Lookup(old(rings), name).Some?
      ensures r.Some? <==> createOk && Lookup(old(rings), name).None?
      ensures r.None? ==> rings == old(rings)
      ensures r.Some? ==> r.value == |old(rings)| && rings == old(rings) + [Ring(name, true, [], capacity, |handles|)]
    {
      eexist := createOk && Lookup(rings, name).Some?;
      if !createOk || eexist {
        return None, eexist;
      }
      r := Some(|rings|);
      rings := rings + [Ring(name, true, [], capacity, |handles|)];
    }

    method RteRingEnqueue(r: nat, blob: nat) returns (ok: bool)
      requires r < |rings|
      modifies this`rings
      ensures ok <==> |old(rings)[r].items| < old(rings)[r].capacity
      ensures rings == if ok then old(rings)[r := old(rings)[r].(items := old(rings)[r].items + [blob])] else old(rings)
    {
      ok := |rings[r].items| < rings[r].capacity;
      if ok {
        rings := rings[r := rings[r].(items := rings[r].items + [blob])];
      }
    }

    method RteRingDequeue(r: nat) returns (blob: Option<nat>)
      requires r < |rings|
      modifies this`rings
      ensures var items := old(rings)[r].items;
        && (blob.None? <==> items == []) && (blob.None? ==> rings == old(rings))
        && (blob.Some? ==> blob.value == items[0] && rings == old(rings)[r := old(rings)[r].(items := items[1..])])
    {
      if rings[r].items == [] {
        return None;
      }
      blob := Some(rings[r].items[0]);
      rings := rings[r := rings[r].(items := rings[r].items[1..])];
    }

    method RteMalloc(content: seq<Byte>) returns (blob: nat)
      modifies this`next, this`memory
      ensures blob == old(next) && next == blob + 1 && memory == old(memory)[blob := content]
    {
      blob := next;
      memory := memory[blob := content];
      next := next + 1;
    }

    method RteFree(blob: nat)
      modifies this`freed
      ensures freed == old(freed) + multiset{blob}
    {
      freed := freed + multiset{blob};
    }

    /** A new blob with this content goes onto the ring, or is freed at once when there is no room. */
    method Submit(r: nat, content: seq<Byte>) returns (ok: bool)
      requires r < |rings|
      modifies this
      ensures View() == Enqueued(old(View()), r) && memory == old(memory)[old(next) := content]
      ensures ok <==> |old(rings)[r].items| < old(rings)[r].capacity
    {
      var blob := RteMalloc(content);
      ok := RteRingEnqueue(r, blob);
      if !ok {
        RteFree(blob);
      }
    }

    /** The loop that frees what is left in a ring, in the stage and at the end of main(). */
    method Drain(r: nat)
      requires r < |rings|
      modifies this`rings, this`freed
      ensures rings == old(rings)[r := old(rings)[r].(items := [])]
      ensures freed == old(freed) + multiset(old(rings)[r].items)
    {
      ghost var start, total := rings, freed + multiset(rings[r].items);
      var more := true;
      while more
        invariant r < |rings| && Rest(start, rings, r) && freed + multiset(rings[r].items) == total
        invariant more || rings[r].items == []
        decreases |rings[r].items|, more
      {
        more := FreeNext(r);
      }
    }

    /** One turn of the loop: dequeue and free, or find the ring empty. */
    method FreeNext(r: nat) returns (more: bool)
      requires r < |rings|
      modifies this`rings, this`freed
      ensures |rings| == |old(rings)| && Rest(old(rings), rings, r)
      ensures freed + multiset(rings[r].items) == old(freed) + multiset(old(rings)[r].items)
      ensures more <==> old(rings)[r].items != []
      ensures if more then |rings[r].items| < |old(rings)[r].items| else rings == old(rings)
    {
      FirstAndRest(rings[r].items);
      var leftover := RteRingDequeue(r);
      more := leftover.Some?;
      if more {
        RteFree(leftover.value);
      }
    }

    /** ring_input_create(): looks the ring up before it creates one. */
    method RingInputCreate(name: string, capacity: nat, createOk: bool) returns (h: Option<nat>)
      modifies this
      ensures View() == Opened(old(View()), name, capacity, createOk, true) && memory == old(memory)
      ensures h.Some? <==> View() != old(View())
      ensures h.Some? ==> h.value == |old(handles)| && handles[h.value].live
    {
      var existing := Lookup(rings, name);
      if existing.Some? {
        handles := handles + [Handle(existing.value, false, true)];
        return Some(|handles| - 1);
      }
      var created, eexist := RteRingCreate(name, capacity, createOk);
      if created.None? {
        return None;
      }
      handles := handles + [Handle(created.value, true, true)];
      return Some(|handles| - 1);
    }

    /** What remains of a ring that this process opened: freed by its creator, else untouched. */
    method Close(h: nat)
      requires Allowed(View(), Teardown(h))
      modifies this
      ensures View() == TornDown(old(View()), h) && memory == old(memory)
    {
      var handle := handles[h];
      if handle.owns {
        Drain(handle.ring);
        rings := rings[handle.ring := rings[handle.ring].(alive := false)];
      }
      handles := handles[h := handle.(live := false)];
    }
  }

  /** All rings as they were, except for what this one holds. */
  ghost predicate Rest(before: seq<Ring>, rings: seq<Ring>, r: nat)
    requires r < |before|
  {
    |rings| == |before| && rings == before[r := before[r].(items := rings[r].items)]
  }

  lemma FirstAndRest(items: seq<nat>)
    ensures items != [] ==> multiset(items) == multiset{items[0]} + multiset(items[1..])
  {
    assert items != [] ==> items == [items[0]] + items[1..];
  }

  class RingOutput {
    const handle: nat
    const ring: nat
    var nextSeq: nat
    var recordsEnqueued: nat
    var recordsDropped: nat
    var bytesEnqueued: nat

    constructor (handle: nat, ring: nat)
      ensures this.handle == handle && this.ring == ring
      ensures nextSeq == recordsEnqueued == recordsDropped == bytesEnqueued == 0
    {
      this.handle, this.ring := handle, ring;
      nextSeq, recordsEnqueued, recordsDropped, bytesEnqueued := 0, 0, 0, 0;
    }

    /** The instance is the owner of its handle, and its ring has not been freed. */
    ghost predicate Attached(host: RingHost)
      reads host
    {
      Usable(host.View(), handle) && host.handles[handle].ring == ring
    }

    /** ring_output_stage_init(): creates before it looks up; no ring name, no instance. */
    static method Init(host: RingHost, ringName: Option<string>, capacity: nat, createOk: bool)
      returns (st: RingOutput?)
      modifies host
      ensures host.View() ==
        if ringName.None? then old(host.View()) else Opened(old(host.View()), ringName.value, capacity, createOk, false)
      ensures st == null <==> host.View() == old(host.View())
      ensures st != null ==> fresh(st) && st.handle == |old(host.handles)| && st.Attached(host)
    {
      if ringName.None? {
        return null;
      }
      var created, eexist := host.RteRingCreate(ringName.value, capacity, createOk);
      if created.Some? {
        host.handles := host.handles + [Handle(created.value, true, true)];
        st := new RingOutput(|host.handles| - 1, created.value);
      } else if eexist {
        var r := Lookup(host.rings, ringName.value);
        host.handles := host.handles + [Handle(r.value, false, true)];
        st := new RingOutput(|host.handles| - 1, r.value);
      } else {
        st := null;
      }
    }

    /** Puts the record on the ring under a fresh header, with its own sequence number; a blob
        that does not fit is freed at once. */
    method Process(host: RingHost, cur: StageRecord, mallocOk: bool, ghost input: Record) returns (ok: bool)
      requires Attached(host) && Holds(cur, input)
      modifies host, this
      ensures ok <==> mallocOk && |old(host.rings)[ring].items| < old(host.rings)[ring].capacity
      ensures !mallocOk ==> host.View() == old(host.View()) && host.memory == old(host.memory) && nextSeq == old(nextSeq)
      ensures mallocOk ==> host.View() == Enqueued(old(host.View()), ring) && nextSeq == Inc(old(nextSeq))
      ensures ok ==>
        && host.freed == old(host.freed)
        && host.rings == old(host.rings)[ring := old(host.rings)[ring].(items := old(host.rings)[ring].items + [old(host.next)])]
      ensures mallocOk && !ok ==>
        host.rings == old(host.rings) && host.freed == old(host.freed) + multiset{old(host.next)}
      ensures mallocOk ==> host.memory == old(host.memory)[old(host.next) := RingRecord(old(nextSeq), input)]
      ensures recordsEnqueued == if ok then Inc(old(recordsEnqueued)) else old(recordsEnqueued)
      ensures recordsDropped == if ok then old(recordsDropped) else Inc(old(recordsDropped))
      ensures bytesEnqueued == if ok then (old(bytesEnqueued) + |input.bytes|) % U64 else old(bytesEnqueued)
      ensures Attached(host)
    {
      if !mallocOk {
        recordsDropped := Inc(recordsDropped);
        return false;
      }
      var content := Header(MAGIC, nextSeq, cur.tsc, cur.len) + cur.data[..cur.len];
      nextSeq := Inc(nextSeq);
      ok := host.Submit(ring, content);
      if !ok {
        recordsDropped := Inc(recordsDropped);
        return;
      }
      recordsEnqueued := Inc(recordsEnqueued);
      bytesEnqueued := (bytesEnqueued + cur.len) % U64;
    }

    method Teardown(host: RingHost)
      requires Allowed(host.View(), RingSpace.Teardown(handle))
      modifies host
      ensures host.View() == TornDown(old(host.View()), handle) && host.memory == old(host.memory)
    {
      host.Close(handle);
    }
  }
}
