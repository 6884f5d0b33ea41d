/**
 src/client/shmpool.cpp and src/client/buffer.cpp: buffers are views at
 increasing offsets of one mapped file that is reallocated when it grows.
 */
module ShmPool {
  import opened Sequences
  import opened PoolModel

  // ----- How the bytes of one file stand for independent arrays -----

  /** Where a buffer lies, and its flags. */
  datatype Place = Place(request: Request, offset: int, released: bool, used: bool) {
    function End(): int { offset + request.Bytes() }
  }

  ghost predicate SlotAt(mem: seq<Byte>, p: Place, s: Slot) {
    && 0 <= p.offset <= p.End() <= |mem|
    && s.request == p.request && s.released == p.released && s.used == p.used
    && |s.bytes| == p.request.Bytes()
    && forall i :: 0 <= i < |s.bytes| ==> s.bytes[i] == mem[p.offset + i]
  }

  /**
   File contents `mem` with the first n places mean the first n arrays: the
   ranges follow each other without gap from 0 to `offset`, and what a slot
   holds is what lies in its range.
   */
  ghost predicate RepresentsUpTo(mem: seq<Byte>, places: seq<Place>, n: nat, offset: int, slots: seq<Slot>)
    requires n <= |places| == |slots|
  {
    if n == 0 then offset == 0
    else
      && SlotAt(mem, places[n - 1], slots[n - 1])
      && places[n - 1].End() == offset
      && RepresentsUpTo(mem, places, n - 1, places[n - 1].offset, slots)
  }

  ghost predicate Represents(mem: seq<Byte>, places: seq<Place>, offset: int, slots: seq<Slot>) {
    |places| == |slots| && RepresentsUpTo(mem, places, |places|, offset, slots)
  }

  /** What is not allocated is zero. */
  ghost predicate ZeroFrom(mem: seq<Byte>, offset: int) {
    0 <= offset <= |mem| && forall i :: offset <= i < |mem| ==> mem[i] == 0
  }

  lemma {:induction false} SlotUpTo(mem: seq<Byte>, places: seq<Place>, n: nat, offset: int, slots: seq<Slot>, k: nat)
    requires k < n <= |places| == |slots| && RepresentsUpTo(mem, places, n, offset, slots)
    ensures SlotAt(mem, places[k], slots[k]) && places[k].End() <= offset
  {
    if k == n - 1 {
    } else {
      SlotUpTo(mem, places, n - 1, places[n - 1].offset, slots, k);
    }
  }

  lemma SlotOf(mem: seq<Byte>, places: seq<Place>, offset: int, slots: seq<Slot>, k: nat)
    requires Represents(mem, places, offset, slots) && k < |places|
    ensures SlotAt(mem, places[k], slots[k]) && places[k].End() <= offset
  {
    SlotUpTo(mem, places, |places|, offset, slots, k);
  }

  /** The sizes of the first k buffers together. */
  function SizeSum(places: seq<Place>, k: nat): int
    requires k <= |places|
  {
    if k == 0 then 0 else SizeSum(places, k - 1) + places[k - 1].request.Bytes()
  }

  lemma {:induction false} StartsUpTo(mem: seq<Byte>, places: seq<Place>, n: nat, offset: int, slots: seq<Slot>, k: nat)
    requires k <= n <= |places| == |slots| && RepresentsUpTo(mem, places, n, offset, slots)
    ensures SizeSum(places, k) == if k < n then places[k].offset else offset
  {
    if n == 0 {
    } else {
      StartsUpTo(mem, places, n - 1, places[n - 1].offset, slots, if k == n then n - 1 else k);
    }
  }

  /** Buffer k starts where the sizes of the buffers before it end. */
  lemma StartsAtPrefixSum(mem: seq<Byte>, places: seq<Place>, offset: int, slots: seq<Slot>, k: nat)
    requires Represents(mem, places, offset, slots) && k <= |places|
    ensures SizeSum(places, k) == if k < |places| then places[k].offset else offset
  {
    StartsUpTo(mem, places, |places|, offset, slots, k);
  }

  lemma {:induction false} DisjointUpTo(mem: seq<Byte>, places: seq<Place>, n: nat, offset: int, slots: seq<Slot>, j: nat, k: nat)
    requires j < k < n <= |places| == |slots| && RepresentsUpTo(mem, places, n, offset, slots)
    ensures places[j].End() <= places[k].offset
  {
    if k == n - 1 {
      SlotUpTo(mem, places, k, places[k].offset, slots, j);
    } else {
      DisjointUpTo(mem, places, n - 1, places[n - 1].offset, slots, j, k);
    }
  }

  /** No two buffers overlap. */
  lemma RangesDisjoint(mem: seq<Byte>, places: seq<Place>, offset: int, slots: seq<Slot>, j: nat, k: nat)
    requires Represents(mem, places, offset, slots) && j < k < |places|
    ensures places[j].End() <= places[k].offset
  {
    DisjointUpTo(mem, places, |places|, offset, slots, j, k);
  }

  /** Only the bytes below `offset` and the first n places matter. */
  lemma {:induction false} RepresentsFrame(mem: seq<Byte>, mem': seq<Byte>, places: seq<Place>, places': seq<Place>,
                                           n: nat, offset: int, slots: seq<Slot>, slots': seq<Slot>)
    requires n <= |places| == |slots| && n <= |places'| == |slots'|
    requires RepresentsUpTo(mem, places, n, offset, slots)
    requires offset <= |mem'| && forall i :: 0 <= i < offset && i < |mem| ==> mem'[i] == mem[i]
    requires forall k :: 0 <= k < n ==> places'[k] == places[k] && slots'[k] == slots[k]
    ensures RepresentsUpTo(mem', places', n, offset, slots')
  {
    if n == 0 {
    } else {
      RepresentsFrame(mem, mem', places, places', n - 1, places[n - 1].offset, slots, slots');
    }
  }

  lemma {:induction false} BytesWritten(mem: seq<Byte>, mem': seq<Byte>, places: seq<Place>, n: nat, offset: int,
                                        slots: seq<Slot>, k: nat, source: seq<Byte>)
    requires k < n <= |places| == |slots| && RepresentsUpTo(mem, places, n, offset, slots)
    requires |source| == places[k].request.Bytes() && |mem'| == |mem|
    requires forall i :: 0 <= i < |mem| ==>
               mem'[i] == if places[k].offset <= i < places[k].End() then source[i - places[k].offset] else mem[i]
    ensures RepresentsUpTo(mem', places, n, offset, Apply(slots, Write(k, source)))
  {
    var slots' := Apply(slots, Write(k, source));
    if k == n - 1 {
      RepresentsFrame(mem, mem', places, places, n - 1, places[k].offset, slots, slots');
    } else {
      DisjointUpTo(mem, places, n, offset, slots, k, n - 1);
      BytesWritten(mem, mem', places, n - 1, places[n - 1].offset, slots, k, source);
    }
  }

  lemma {:induction false} FlagsChanged(mem: seq<Byte>, places: seq<Place>, n: nat, offset: int, slots: seq<Slot>,
                                        places': seq<Place>, slots': seq<Slot>)
    requires n <= |places| == |slots| == |places'| == |slots'| && RepresentsUpTo(mem, places, n, offset, slots)
    requires forall k :: 0 <= k < n ==>
               && places'[k] == places[k].(released := places'[k].released, used := places'[k].used)
               && slots'[k] == slots[k].(released := places'[k].released, used := places'[k].used)
    ensures RepresentsUpTo(mem, places', n, offset, slots')
  {
    if n == 0 {
    } else {
      FlagsChanged(mem, places, n - 1, places[n - 1].offset, slots, places', slots');
    }
  }

  /** The buffers as places, the arrays they stand for, and what happened to them. */
  datatype History = History(places: seq<Place>, offset: int, slots: seq<Slot>, log: seq<Op>)

  ghost predicate Good(mem: seq<Byte>, h: History) {
    && Represents(mem, h.places, h.offset, h.slots) && ZeroFrom(mem, h.offset)
    && LegalLog(h.log) && h.slots == Replay(h.log)
  }

  function Recorded(h: History, op: Op): History {
    var slots, log := Apply(h.slots, op), h.log + [op];
    match op
    case Fresh(r) => History(h.places + [Place(r, h.offset, false, false)], h.offset + r.Bytes(), slots, log)
    case Write(_, _) => h.(slots := slots, log := log)
    case Reuse(_, k) =>
      h.(slots := slots, log := log, places := if k < |h.places| then h.places[k := h.places[k].(released := false)] else h.places)
    case SetReleased(k, v) =>
      h.(slots := slots, log := log, places := if k < |h.places| then h.places[k := h.places[k].(released := v)] else h.places)
    case SetUsed(k, v) =>
      h.(slots := slots, log := log, places := if k < |h.places| then h.places[k := h.places[k].(used := v)] else h.places)
  }

  lemma FlagRecorded(mem: seq<Byte>, h: History, op: Op, k: nat)
    requires Good(mem, h) && Legal(h.slots, op)
    requires (op.Reuse? || op.SetReleased? || op.SetUsed?) && op.k == k
    ensures Good(mem, Recorded(h, op))
  {
    var h' := Recorded(h, op);
    forall j | 0 <= j < |h.places|
      ensures && h'.places[j] == h.places[j].(released := h'.places[j].released, used := h'.places[j].used)
              && h'.slots[j] == h.slots[j].(released := h'.places[j].released, used := h'.places[j].used)
    {
      SlotOf(mem, h.places, h.offset, h.slots, j);
    }
    FlagsChanged(mem, h.places, |h.places|, h.offset, h.slots, h'.places, h'.slots);
    ReplayExtend(h.log, op);
  }

  /** Setting a flag is legal for any buffer of the pool. */
  lemma FlagSet(mem: seq<Byte>, h: History, op: Op)
    requires Good(mem, h) && (op.SetReleased? || op.SetUsed?) && op.k < |h.places|
    ensures Good(mem, Recorded(h, op)) && Recorded(h, op).offset == h.offset
  {
    FlagRecorded(mem, h, op, op.k);
  }

  lemma WriteRecorded(mem: seq<Byte>, mem': seq<Byte>, h: History, k: nat, source: seq<Byte>)
    requires Good(mem, h) && k < |h.places| && |source| == h.places[k].request.Bytes() && |mem'| == |mem|
    requires forall i :: 0 <= i < |mem| ==>
               mem'[i] == if h.places[k].offset <= i < h.places[k].End() then source[i - h.places[k].offset] else mem[i]
    ensures Good(mem', Recorded(h, Write(k, source)))
  {
    SlotOf(mem, h.places, h.offset, h.slots, k);
    BytesWritten(mem, mem', h.places, |h.places|, h.offset, h.slots, k, source);
    ReplayExtend(h.log, Write(k, source));
  }

  lemma FreshRecorded(mem: seq<Byte>, h: History, r: Request)
    requires Good(mem, h) && Legal(h.slots, Fresh(r))
    requires r.Bytes() >= 0 && h.offset + r.Bytes() <= |mem|
    ensures Good(mem, Recorded(h, Fresh(r)))
  {
    var h', n := Recorded(h, Fresh(r)), |h.places|;
    assert SlotAt(mem, h'.places[n], h'.slots[n]);
    RepresentsFrame(mem, mem, h.places, h'.places, n, h.offset, h.slots, h'.slots);
    ReplayExtend(h.log, Fresh(r));
  }

  lemma FileGrown(mem: seq<Byte>, mem': seq<Byte>, h: History)
    requires Good(mem, h)
    requires mem <= mem' && forall i :: |mem| <= i < |mem'| ==> mem'[i] == 0
    ensures Good(mem', h)
  {
    RepresentsFrame(mem, mem', h.places, h.places, |h.places|, h.offset, h.slots, h.slots);
  }

  // ----- Requests -----

  /** The bytes memcpy reads from a source at least as long as the buffer. */
  function Prefix(source: seq<Byte>, n: int): seq<Byte> {
    if 0 <= n <= |source| then source[..n] else source
  }

  /** How buffer k got to a client when the pool had n buffers. */
  function HandOut(r: Request, k: nat, n: nat): Op {
    if k < n then Reuse(r, k) else Fresh(r)
  }

  /** How the system calls of one request turn out. */
  datatype System = System(truncates: bool, maps: bool, createsNative: bool)

  // ----- How the file grows -----

  /** A request of `bytes` bytes; `reused`: a released buffer fits. */
  datatype Call = Call(bytes: int, reused: bool, system: System)

  /** Size of the file, bytes allocated in it, and bytes grown for buffers that were then refused. */
  datatype Extent = Extent(size: int, offset: int, lost: int) {
    function Slack(): int { size - offset }
  }

  function AfterCall(e: Extent, c: Call): Extent {
    var grows := e.offset + c.bytes > e.size;
    if c.reused || (grows && !(c.system.truncates && c.system.maps)) then e
    else
      var size := if grows then e.size + c.bytes else e.size;
      if c.system.createsNative then Extent(size, e.offset + c.bytes, e.lost)
      else Extent(size, e.offset, e.lost + size - e.size)
  }

  /** The request gets no buffer. */
  predicate Refused(e: Extent, c: Call) {
    && !c.reused
    && ((e.offset + c.bytes > e.size && !(c.system.truncates && c.system.maps)) || !c.system.createsNative)
  }

  /** The file has to grow and can be truncated but not mapped again. */
  predicate Unmapped(e: Extent, c: Call) {
    !c.reused && e.offset + c.bytes > e.size && c.system.truncates && !c.system.maps
  }

  /** The extent after the first n calls. */
  function AfterUpTo(initialSize: int, calls: seq<Call>, n: nat): Extent
    requires n <= |calls|
  {
    if n == 0 then Extent(initialSize, 0, 0) else AfterCall(AfterUpTo(initialSize, calls, n - 1), calls[n - 1])
  }

  function AfterCalls(initialSize: int, calls: seq<Call>): Extent { AfterUpTo(initialSize, calls, |calls|) }

  /** What the calls from the i-th to before the n-th asked for and did not get because the native buffer was refused. */
  function RefusedBytes(calls: seq<Call>, i: nat, n: nat): int
    requires n <= |calls|
  {
    if n <= i then 0
    else
      var last := calls[n - 1];
      RefusedBytes(calls, i, n - 1) + if last.reused || last.system.createsNative || last.bytes < 0 then 0 else last.bytes
  }

  /** A negative byte count does no harm if the server refuses it. */
  predicate Harmless(c: Call) {
    c.bytes >= 0 || !c.system.createsNative
  }

  ghost predicate AllHarmless(calls: seq<Call>) {
    forall i :: 0 <= i < |calls| ==> Harmless(calls[i])
  }

  lemma {:induction false} SameCalls(initialSize: int, calls: seq<Call>, more: seq<Call>, n: nat)
    requires n <= |calls| <= |more| && forall i :: 0 <= i < |calls| ==> more[i] == calls[i]
    ensures AfterUpTo(initialSize, more, n) == AfterUpTo(initialSize, calls, n)
  {
    if n == 0 {
    } else {
      SameCalls(initialSize, calls, more, n - 1);
    }
  }

  lemma CallsExtend(initialSize: int, calls: seq<Call>, c: Call)
    ensures AfterCalls(initialSize, calls + [c]) == AfterCall(AfterCalls(initialSize, calls), c)
    ensures AllHarmless(calls) && Harmless(c) ==> AllHarmless(calls + [c])
  {
    SameCalls(initialSize, calls, calls + [c], |calls|);
  }

  lemma OneCall(e: Extent, c: Call)
    requires Harmless(c) && e.offset <= e.size
    ensures var f := AfterCall(e, c);
            && e.offset <= f.offset <= f.size && e.size <= f.size && e.lost <= f.lost
            && f.Slack() - f.lost <= e.Slack() - e.lost
            && f.lost <= e.lost + (if c.reused || c.system.createsNative || c.bytes < 0 then 0 else c.bytes)
  {
  }

  lemma {:induction false} OffsetInside(initialSize: nat, calls: seq<Call>, n: nat)
    requires n <= |calls| && AllHarmless(calls)
    ensures AfterUpTo(initialSize, calls, n).offset <= AfterUpTo(initialSize, calls, n).size
  {
    if n == 0 {
    } else {
      OffsetInside(initialSize, calls, n - 1);
      OneCall(AfterUpTo(initialSize, calls, n - 1), calls[n - 1]);
    }
  }

  /**
   From call i to call n, the slack grows by no more than what the native
   buffers refused in them asked for: not at all as long as their creation
   succeeds.
   */
  lemma {:induction false} SlackOverCalls(initialSize: nat, calls: seq<Call>, i: nat, n: nat)
    requires i <= n <= |calls| && AllHarmless(calls)
    ensures var e, f := AfterUpTo(initialSize, calls, i), AfterUpTo(initialSize, calls, n);
            && f.Slack() - f.lost <= e.Slack() - e.lost
            && e.lost <= f.lost <= e.lost + RefusedBytes(calls, i, n)
            && e.offset <= f.offset && e.size <= f.size
  {
    if i == n {
    } else {
      SlackOverCalls(initialSize, calls, i, n - 1);
      OffsetInside(initialSize, calls, n - 1);
      OneCall(AfterUpTo(initialSize, calls, n - 1), calls[n - 1]);
    }
  }

  lemma {:induction false} NothingRefused(calls: seq<Call>, i: nat, n: nat)
    requires n <= |calls| && forall j :: i <= j < n ==> calls[j].system.createsNative
    ensures RefusedBytes(calls, i, n) == 0
  {
    if n <= i {
    } else {
      NothingRefused(calls, i, n - 1);
    }
  }

  /** While native buffers are created, what is free in the file never grows. */
  lemma SlackNeverGrows(initialSize: nat, calls: seq<Call>, i: nat, n: nat)
    requires i <= n <= |calls| && AllHarmless(calls)
    requires forall j :: i <= j < n ==> calls[j].system.createsNative
    ensures AfterUpTo(initialSize, calls, n).Slack() <= AfterUpTo(initialSize, calls, i).Slack()
  {
    SlackOverCalls(initialSize, calls, i, n);
    NothingRefused(calls, i, n);
  }

  /** The bound for a whole history: initial size, and what was asked for and refused. */
  lemma SlackBounded(initialSize: nat, calls: seq<Call>)
    requires AllHarmless(calls)
    ensures var e := AfterCalls(initialSize, calls);
            e.Slack() <= initialSize + e.lost && 0 <= e.lost <= RefusedBytes(calls, 0, |calls|)
  {
    SlackOverCalls(initialSize, calls, 0, |calls|);
  }

  /** After a negative request the server did not refuse, the next buffer lies in the range of an earlier one. */
  lemma NegativeOverlaps(served: System)
    requires served == System(true, true, true)
    ensures var e := AfterCalls(100, [Call(100, false, served), Call(-50, false, served)]);
            e.offset == 50 && AfterCall(e, Call(50, false, served)) == Extent(100, 100, 0)
  {
    var calls := [Call(100, false, served), Call(-50, false, served)];
    assert AfterUpTo(100, calls, 1) == Extent(100, 100, 0);
  }

  // ----- The classes -----

  class Buffer {
    const request: Request
    const offset: int
    var released: bool
    var used: bool
    ghost const index: nat  // its position in the pool

    constructor (request: Request, offset: int, ghost index: nat)
      ensures this.request == request && this.offset == offset && this.index == index
      ensures !released && !used
    {
      this.request, this.offset, this.index := request, offset, index;
      released, used := false, false;
    }

    ghost function At(): Place
      reads this
    {
      Place(request, offset, released, used)
    }

    method SetReleased(released: bool)
      modifies `released
      ensures this.released == released
    {
      if this.released == released {
        return;
      }
      this.released := released;
    }

    method SetUsed(used: bool)
      modifies `used
      ensures this.used == used
    {
      if this.used == used {
        return;
      }
      this.used := used;
    }

    /** memcpy of this buffer's bytes to its address in the mapping of the pool. */
    method Copy(data: array<Byte>, source: seq<Byte>)
      requires 0 <= offset <= offset + request.Bytes() <= data.Length
      requires |source| >= request.Bytes()
      modifies data
      ensures forall j :: 0 <= j < data.Length ==>
                data[j] == if offset <= j < offset + request.Bytes() then source[j - offset] else old(data[j])
    {
      var i := 0;
      while i < request.Bytes()
        invariant 0 <= i <= request.Bytes()
        invariant forall j :: 0 <= j < data.Length ==>
                    data[j] == if offset <= j < offset + i then source[j - offset] else old(data[j])
      {
        data[offset + i] := source[i];
        i := i + 1;
      }
    }
  }

  /** The file, extended with zeros and mapped anew. */
  method Remap(previous: array<Byte>, newSize: int) returns (mapped: array<Byte>)
    requires newSize >= previous.Length
    ensures fresh(mapped) && mapped.Length == newSize
    ensures previous[..] <= mapped[..]
    ensures forall j :: previous.Length <= j < newSize ==> mapped[j] == 0
  {
    mapped := new Byte[newSize](i => 0);
    var i := 0;
    while i < previous.Length
      invariant 0 <= i <= previous.Length
      invariant forall j :: 0 <= j < i ==> mapped[j] == previous[j]
      invariant forall j :: previous.Length <= j < newSize ==> mapped[j] == 0
      modifies mapped
    {
      mapped[i] := previous[i];
      i := i + 1;
    }
  }

  class ShmPool {
    var data: array?<Byte>  // the mapping of the pool's file; null once a remap failed
    var size: int
    var offset: int
    var buffers: seq<Buffer>
    ghost var history: History  // the independent arrays the pool stands for
    ghost const initialSize: nat
    ghost var lost: int         // bytes grown for native buffers that were then refused
    ghost var calls: seq<Call>  // the requests so far

    /** What a request amounts to in the present state. */
    ghost function Asked(r: Request, system: System): Call
      reads `history
    {
      Call(r.Bytes(), !Legal(history.slots, Fresh(r)), system)
    }

    ghost predicate BuffersAgree()
      reads `history, `buffers, buffers
    {
      && |history.places| == |buffers|
      && forall k :: 0 <= k < |buffers| ==> buffers[k].index == k && buffers[k].At() == history.places[k]
    }

    /** The mapping and the buffers stand for the arrays. */
    ghost predicate Mapped()
      reads `data, `size, `offset, `buffers, `history, data, buffers
    {
      && data != null && data.Length == size
      && BuffersAgree()
      && Good(data[..], history) && history.offset == offset
    }

    ghost predicate Accounted()
      reads `size, `offset, `lost, `calls
    {
      AllHarmless(calls) && Extent(size, offset, lost) == AfterCalls(initialSize, calls)
    }

    ghost predicate Valid()
      reads this, data, buffers
    {
      Mapped() && Accounted()
    }

    /** A pool whose file was opened, truncated and mapped. */
    constructor (createSize: nat)
      ensures Valid() && fresh(data) && history.log == [] && buffers == [] && calls == []
      ensures size == createSize == initialSize && offset == 0 && lost == 0
    {
      data := new Byte[createSize](i => 0);
      size, offset, buffers := createSize, 0, [];
      history, initialSize, lost, calls := History([], 0, [], []), createSize, 0, [];
    }

    method ResizePool(newSize: int, truncates: bool, maps: bool) returns (ok: bool)
      requires Mapped() && newSize >= size
      modifies `data, `size, `lost
      ensures ok == (truncates && maps)
      ensures data == null <==> truncates && !maps
      ensures data != null ==> Mapped() && (data == old(data) || fresh(data))
      ensures !truncates ==> data == old(data)
      ensures size == if ok then newSize else old(size)
      ensures lost == old(lost) + size - old(size)
    {
      ok := truncates && maps;
      if !truncates {
        return;
      }
      if !maps {
        data := null;
        return;
      }
      var previous := data;
      var mapped := Remap(previous, newSize);
      FileGrown(previous[..], mapped[..], history);
      lost := lost + (newSize - size);
      data := mapped;
      size := newSize;
    }

    /** The first buffer that fits. */
    method FindReleased(r: Request) returns (k: nat)
      requires Mapped()
      ensures k <= |buffers| == |history.slots|
      ensures k < |buffers| ==> buffers[k].request == r && Legal(history.slots, Reuse(r, k))
      ensures k == |buffers| ==> Legal(history.slots, Fresh(r))
    {
      k := 0;
      while k < |buffers|
        invariant 0 <= k <= |buffers| == |history.slots|
        invariant forall j :: 0 <= j < k ==> !Reusable(history.slots[j], r)
      {
        var buffer := buffers[k];
        SlotOf(data[..], history.places, history.offset, history.slots, k);
        if buffer.released && !buffer.used && buffer.request == r {
          return;
        }
        k := k + 1;
      }
    }

    /** The first buffer that fits is taken. */
    method TakeReleased(r: Request) returns (found: bool, k: nat)
      requires Mapped()
      modifies `history, buffers
      ensures Mapped()
      ensures found ==> k < |buffers| && buffers[k].request == r && history.log == old(history.log) + [Reuse(r, k)]
      ensures !found ==> history == old(history)
      ensures found <==> !Legal(old(history.slots), Fresh(r))
      ensures found ==> r.Bytes() >= 0
    {
      k := FindReleased(r);
      found := k < |buffers|;
      assert found ==> Reusable(history.slots[k], r);
      if found {
        SlotOf(data[..], history.places, history.offset, history.slots, k);
        FlagRecorded(data[..], history, Reuse(r, k), k);
        buffers[k].SetReleased(false);
        history := Recorded(history, Reuse(r, k));
      }
    }

    /** A new buffer at the end, in a file that is large enough.  A negative size makes it overlap the others. */
    method Append(r: Request)
      requires Mapped() && Legal(history.slots, Fresh(r)) && offset + r.Bytes() <= size
      modifies `offset, `buffers, `history
      ensures Mapped() <==> r.Bytes() >= 0
      ensures r.Bytes() >= 0 ==> history.log == old(history.log) + [Fresh(r)]
      ensures |buffers| == |old(buffers)| + 1 && old(buffers) <= buffers
      ensures buffers[|old(buffers)|].request == r && offset == old(offset) + r.Bytes()
    {
      var buffer := new Buffer(r, offset, |buffers|);
      if r.Bytes() >= 0 {
        FreshRecorded(data[..], history, r);
        history := Recorded(history, Fresh(r));
      }
      offset := offset + r.Bytes();
      buffers := buffers + [buffer];
    }

    /** Whatever arrays a pool stands for, none of its buffers has a negative size. */
    lemma SizesNonNegative(k: nat)
      requires Mapped() && k < |buffers|
      ensures buffers[k].request.Bytes() >= 0
    {
      SlotOf(data[..], history.places, history.offset, history.slots, k);
    }

    /**
     reuseBuffer.  The iterator it returns on failure is read as `no buffer`,
     the meaning its callers give it.
     */
    method ReuseBuffer(r: Request, system: System) returns (found: Option<nat>)
      requires Valid()
      modifies this, buffers
      ensures data != null ==> (data == old(data) || fresh(data)) && (Valid() <==> r.Bytes() >= 0 || found.None?)
      ensures old(buffers) <= buffers
      ensures calls == old(calls) + [old(Asked(r, system))]
      // a first-fit reuse, or a fresh buffer at the end of the pool (see Legal)
      ensures found.Some? ==>
                && data != null && found.value < |buffers| && buffers[found.value].request == r
                && (r.Bytes() >= 0 ==> history.log == old(history.log) + [HandOut(r, found.value, |old(buffers)|)])
                && found.value <= |old(buffers)| && |buffers| == |old(buffers)| + (if found.value < |old(buffers)| then 0 else 1)
      ensures found.None? ==> history == old(history) && buffers == old(buffers)
      ensures found.None? <==> Refused(old(Extent(size, offset, lost)), old(Asked(r, system)))
      ensures Extent(size, offset, lost) == AfterCall(old(Extent(size, offset, lost)), old(Asked(r, system)))
      // the mapping is lost only when the pool had to grow and could not be mapped again
      ensures data == null <==> Unmapped(old(Extent(size, offset, lost)), old(Asked(r, system)))
    {
      ghost var call := Asked(r, system);
      found := Provide(r, system);
      CallsExtend(initialSize, calls, call);
      calls := calls + [call];
    }

    /** reuseBuffer, but for the account of the requests. */
    method Provide(r: Request, system: System) returns (found: Option<nat>)
      requires Mapped()
      modifies `data, `size, `offset, `buffers, `history, `lost, buffers
      ensures data != null ==> (data == old(data) || fresh(data)) && (Mapped() <==> r.Bytes() >= 0 || found.None?)
      ensures old(buffers) <= buffers
      // a first-fit reuse, or a fresh buffer at the end of the pool (see Legal)
      ensures found.Some? ==>
                && data != null && found.value < |buffers| && buffers[found.value].request == r
                && (r.Bytes() >= 0 ==> history.log == old(history.log) + [HandOut(r, found.value, |old(buffers)|)])
                && found.value <= |old(buffers)| && |buffers| == |old(buffers)| + (if found.value < |old(buffers)| then 0 else 1)
      ensures found.None? ==> history == old(history) && buffers == old(buffers)
      ensures found.None? <==> Refused(old(Extent(size, offset, lost)), old(Asked(r, system)))
      ensures Extent(size, offset, lost) == AfterCall(old(Extent(size, offset, lost)), old(Asked(r, system)))
      // the mapping is lost only when the pool had to grow and could not be mapped again
      ensures data == null <==> Unmapped(old(Extent(size, offset, lost)), old(Asked(r, system)))
    {
      var reused, k := TakeReleased(r);
      if reused {
        return Some(k);
      }
      found := MakeFresh(r, system);
    }

    /** The part of reuseBuffer that makes a new buffer. */
    method MakeFresh(r: Request, system: System) returns (found: Option<nat>)
      requires Mapped() && Legal(history.slots, Fresh(r))
      modifies `data, `size, `offset, `buffers, `history, `lost
      ensures data != null ==> (data == old(data) || fresh(data)) && (Mapped() <==> r.Bytes() >= 0 || found.None?)
      ensures old(buffers) <= buffers
      ensures found.Some? ==>
                && data != null && (r.Bytes() >= 0 ==> history.log == old(history.log) + [Fresh(r)])
                && found.value == |old(buffers)| && |buffers| == |old(buffers)| + 1 && buffers[found.value].request == r
      ensures found.None? ==> history == old(history) && buffers == old(buffers)
      ensures found.None? <==> Refused(old(Extent(size, offset, lost)), Call(r.Bytes(), false, system))
      ensures Extent(size, offset, lost) == AfterCall(old(Extent(size, offset, lost)), Call(r.Bytes(), false, system))
      ensures data == null <==> Unmapped(old(Extent(size, offset, lost)), Call(r.Bytes(), false, system))
    {
      ghost var before := lost;
      var ok := MakeRoom(r.Bytes(), system);
      if !ok {
        return None;
      }
      if !system.createsNative {
        return None;
      }
      Append(r);
      lost := before;
      return Some(|buffers| - 1);
    }

    /** The pool is resized if the bytes do not fit behind the offset. */
    method MakeRoom(bytesCount: int, system: System) returns (ok: bool)
      requires Mapped()
      modifies `data, `size, `lost
      ensures ok == (old(offset) + bytesCount <= old(size) || (system.truncates && system.maps))
      ensures data == null <==> !ok && system.truncates
      ensures data != null ==> Mapped() && (data == old(data) || fresh(data))
      ensures size == old(size) + (if ok && offset + bytesCount > old(size) then bytesCount else 0)
      ensures lost == old(lost) + size - old(size)
    {
      if offset + bytesCount > size {
        ok := ResizePool(bytesCount + size, system.truncates, system.maps);
      } else {
        ok := true;
      }
    }

    method SetReleased(k: nat, released: bool)
      requires Valid() && k < |buffers|
      modifies `history, buffers[k]
      ensures Valid() && history.log == old(history.log) + [Op.SetReleased(k, released)]
    {
      FlagSet(data[..], history, Op.SetReleased(k, released));
      buffers[k].SetReleased(released);
      history := Recorded(history, Op.SetReleased(k, released));
    }

    method SetUsed(k: nat, used: bool)
      requires Valid() && k < |buffers|
      modifies `history, buffers[k]
      ensures Valid() && history.log == old(history.log) + [Op.SetUsed(k, used)]
    {
      FlagSet(data[..], history, Op.SetUsed(k, used));
      buffers[k].SetUsed(used);
      history := Recorded(history, Op.SetUsed(k, used));
    }

    method Copy(k: nat, source: seq<Byte>)
      requires Valid() && k < |buffers|
      requires |source| >= buffers[k].request.Bytes()
      modifies `history, data
      ensures Valid()
      ensures history.log == old(history.log) + [Write(k, Prefix(source, buffers[k].request.Bytes()))]
    {
      ghost var mem := data[..];
      ghost var bytes := Prefix(source, buffers[k].request.Bytes());
      SlotOf(mem, history.places, history.offset, history.slots, k);
      buffers[k].Copy(data, source);
      WriteRecorded(mem, data[..], history, k, bytes);
      history := Recorded(history, Write(k, bytes));
    }

    /** What a client sees at a buffer's address are the bytes of its own array. */
    method Read(k: nat) returns (bytes: seq<Byte>)
      requires Valid() && k < |buffers|
      ensures bytes == Replay(history.log)[k].bytes
    {
      SlotOf(data[..], history.places, history.offset, history.slots, k);
      bytes := data[buffers[k].offset..buffers[k].offset + buffers[k].request.Bytes()];
    }

    /** createBuffer: an empty size gets no buffer, and a source is copied into the buffer found. */
    method CreateBuffer(r: Request, source: Option<seq<Byte>>, system: System) returns (found: Option<nat>)
      requires Valid()
      requires source.Some? && r.width > 0 && r.height > 0 ==> 0 <= r.Bytes() <= |source.value|
      modifies this, data, buffers
      ensures data != null ==> (Valid() <==> r.Bytes() >= 0 || found.None?)
      ensures found.None? ==> history == old(history)
      ensures found.Some? ==> data != null && found.value < |buffers| && buffers[found.value].request == r
      ensures found.Some? && source.None? && r.Bytes() >= 0 ==>
                history.log == old(history.log) + [HandOut(r, found.value, |old(buffers)|)]
      ensures found.Some? && source.Some? ==>
                history.log == old(history.log) + [HandOut(r, found.value, |old(buffers)|)]
                               + [Write(found.value, Prefix(source.value, r.Bytes()))]
      // when a buffer is found, and what becomes of the file
      ensures r.width <= 0 || r.height <= 0 ==>
                found.None? && data == old(data) && calls == old(calls) && Extent(size, offset, lost) == old(Extent(size, offset, lost))
      ensures r.width > 0 && r.height > 0 ==>
                && (found.None? <==> Refused(old(Extent(size, offset, lost)), old(Asked(r, system))))
                && calls == old(calls) + [old(Asked(r, system))]
                && Extent(size, offset, lost) == AfterCall(old(Extent(size, offset, lost)), old(Asked(r, system)))
                && (data == null <==> Unmapped(old(Extent(size, offset, lost)), old(Asked(r, system))))
      // the slack does not grow when a buffer is found, and grows by the refused buffer at most
      ensures found.Some? && r.Bytes() >= 0 ==> size - offset <= old(size - offset) && lost == old(lost)
      ensures found.None? ==> old(lost) <= lost && (lost == old(lost) || lost <= old(lost) + r.Bytes())
      ensures found.None? && r.width > 0 && r.height > 0 ==> !(system.truncates && system.maps && system.createsNative)
    {
      if r.width <= 0 || r.height <= 0 {
        return None;
      }
      SlackOf(r, system);
      found := ReuseBuffer(r, system);
      if found.Some? && source.Some? {
        Copy(found.value, source.value);
      }
    }

    /** findBuffer: as reuseBuffer, with no copy and no check for an empty size. */
    method FindBuffer(r: Request, system: System) returns (found: Option<nat>)
      requires Valid()
      modifies this, buffers
      ensures data != null ==> (data == old(data) || fresh(data)) && (Valid() <==> r.Bytes() >= 0 || found.None?)
      ensures found.None? ==> history == old(history)
      ensures found.Some? ==>
                && data != null && found.value < |buffers| && buffers[found.value].request == r
                && (r.Bytes() >= 0 ==> history.log == old(history.log) + [HandOut(r, found.value, |old(buffers)|)])
      ensures found.None? <==> Refused(old(Extent(size, offset, lost)), old(Asked(r, system)))
      ensures calls == old(calls) + [old(Asked(r, system))]
      ensures Extent(size, offset, lost) == AfterCall(old(Extent(size, offset, lost)), old(Asked(r, system)))
      ensures data == null <==> Unmapped(old(Extent(size, offset, lost)), old(Asked(r, system)))
      ensures found.Some? && r.Bytes() >= 0 ==> size - offset <= old(size - offset) && lost == old(lost)
      ensures found.None? ==> old(lost) <= lost && (lost == old(lost) || lost <= old(lost) + r.Bytes())
      ensures found.None? ==> !(system.truncates && system.maps && system.createsNative)
    {
      SlackOf(r, system);
      found := ReuseBuffer(r, system);
    }

    lemma SlackOf(r: Request, system: System)
      requires Valid()
      ensures var e, c := Extent(size, offset, lost), Asked(r, system); var f := AfterCall(e, c);
              Harmless(c) ==>
                && f.Slack() - f.lost <= e.Slack() - e.lost
                && e.lost <= f.lost <= e.lost + (if c.reused || c.system.createsNative || c.bytes < 0 then 0 else c.bytes)
    {
      OffsetInside(initialSize, calls, |calls|);
      if Harmless(Asked(r, system)) {
        OneCall(Extent(size, offset, lost), Asked(r, system));
      }
    }

    /** The slack of a pool, after any requests, is bounded by its initial size and what it refused. */
    lemma SlackFits()
      requires Valid()
      ensures size - offset <= initialSize + lost && 0 <= lost <= RefusedBytes(calls, 0, |calls|)
      ensures (forall i :: 0 <= i < |calls| ==> calls[i].system.createsNative) ==> lost == 0
    {
      SlackBounded(initialSize, calls);
      if forall i :: 0 <= i < |calls| ==> calls[i].system.createsNative {
        NothingRefused(calls, 0, |calls|);
      }
    }

    /** No sum computed for a request exceeds a limit that initial size plus requested bytes keeps. */
    lemma SumsFit(r: Request, limit: int)
      requires Valid() && r.Bytes() >= 0
      requires initialSize + lost + offset + r.Bytes() <= limit
      ensures offset + r.Bytes() <= limit && r.Bytes() + size <= limit
    {
      SlackFits();
    }
  }

  /** Shm::createPool: a pool exactly when every call it needs succeeds. */
  method CreatePool(createSize: nat, opens: bool, unlinks: bool, system: System) returns (pool: Option<ShmPool>)
    ensures pool.Some? <==> opens && unlinks && system.truncates && system.maps && system.createsNative
    ensures pool.Some? ==>
              && fresh(pool.value) && pool.value.Valid() && fresh(pool.value.data)
              && pool.value.history.log == [] && pool.value.buffers == []
              && pool.value.size == createSize == pool.value.initialSize && pool.value.offset == 0
  {
    if !opens || !unlinks {
      return None;
    }
    if !system.truncates || !system.maps || !system.createsNative {
      return None;
    }
    var created := new ShmPool(createSize);
    return Some(created);
  }
}
