/**
 What a client of the shared-memory pool may rely on: a growing list of
 independent byte arrays that are handed out, written and given back.
 */
module PoolModel {

  type Byte = b: nat | b < 256

  /** The geometry a client asks for; `bytes` is what a buffer of it occupies. */
  datatype Request = Request(width: int, height: int, stride: int, format: int) {
    function Bytes(): int { height * stride }
  }

  datatype Slot = Slot(request: Request, released: bool, used: bool, bytes: seq<Byte>)

  datatype Op =
    | Reuse(request: Request, k: nat)    // buffer k handed out again
    | Fresh(request: Request)            // a new buffer handed out
    | Write(k: nat, source: seq<Byte>)
    | SetReleased(k: nat, value: bool)
    | SetUsed(k: nat, value: bool)

  function Zeros(n: int): (z: seq<Byte>)
    ensures |z| == if n < 0 then 0 else n
    ensures forall i :: 0 <= i < |z| ==> z[i] == 0
  {
    seq(if n < 0 then 0 else n, i => 0)
  }

  predicate Reusable(s: Slot, r: Request) {
    s.released && !s.used && s.request == r
  }

  /** Hand-outs are first-fit, and a fresh buffer is made only when nothing fits. */
  ghost predicate Legal(p: seq<Slot>, op: Op) {
    match op
    case Reuse(r, k) => k < |p| && Reusable(p[k], r) && forall j :: 0 <= j < k ==> !Reusable(p[j], r)
    case Fresh(r) => forall j :: 0 <= j < |p| ==> !Reusable(p[j], r)
    case Write(k, source) => k < |p| && |source| == |p[k].bytes|
    case SetReleased(k, _) => k < |p|
    case SetUsed(k, _) => k < |p|
  }

  function Apply(p: seq<Slot>, op: Op): seq<Slot> {
    match op
    case Reuse(_, k) => if k < |p| then p[k := p[k].(released := false)] else p
    case Fresh(r) => p + [Slot(r, false, false, Zeros(r.Bytes()))]
    case Write(k, source) => if k < |p| then p[k := p[k].(bytes := source)] else p
    case SetReleased(k, v) => if k < |p| then p[k := p[k].(released := v)] else p
    case SetUsed(k, v) => if k < |p| then p[k := p[k].(used := v)] else p
  }

  /** The arrays after the first n operations. */
  function ReplayAt(log: seq<Op>, n: nat): seq<Slot>
    requires n <= |log|
  {
    if n == 0 then [] else Apply(ReplayAt(log, n - 1), log[n - 1])
  }

  function Replay(log: seq<Op>): seq<Slot> { ReplayAt(log, |log|) }

  ghost predicate LegalUpTo(log: seq<Op>, n: nat)
    requires n <= |log|
  {
    n == 0 || (LegalUpTo(log, n - 1) && Legal(ReplayAt(log, n - 1), log[n - 1]))
  }

  ghost predicate LegalLog(log: seq<Op>) { LegalUpTo(log, |log|) }

  lemma {:induction false} SamePrefix(log: seq<Op>, more: seq<Op>, n: nat)
    requires n <= |log| <= |more|
    requires forall i :: 0 <= i < |log| ==> more[i] == log[i]
    ensures ReplayAt(more, n) == ReplayAt(log, n) && (LegalUpTo(more, n) <==> LegalUpTo(log, n))
  {
    if n == 0 {
    } else {
      SamePrefix(log, more, n - 1);
    }
  }

  lemma ReplayExtend(log: seq<Op>, op: Op)
    ensures Replay(log + [op]) == Apply(Replay(log), op)
    ensures LegalLog(log + [op]) <==> LegalLog(log) && Legal(Replay(log), op)
  {
    SamePrefix(log, log + [op], |log|);
  }

  /** Every operation of a legal log was legal at its time. */
  lemma {:induction false} LegalAt(log: seq<Op>, i: nat, n: nat)
    requires i <= n <= |log| && LegalUpTo(log, n)
    ensures LegalUpTo(log, i) && (i < n ==> Legal(ReplayAt(log, i), log[i]))
  {
    if i == n {
    } else if i < n - 1 {
      LegalAt(log, i, n - 1);
    }
  }

  /** Buffers stay in the pool. */
  lemma {:induction false} ReplayGrows(log: seq<Op>, i: nat, n: nat)
    requires i <= n <= |log|
    ensures |ReplayAt(log, i)| <= |ReplayAt(log, n)|
  {
    if i == n {
    } else {
      ReplayGrows(log, i, n - 1);
    }
  }

  lemma {:induction false} HoldsWriteAt(log: seq<Op>, k: nat, i: nat, source: seq<Byte>, n: nat)
    requires i < n <= |log| && LegalUpTo(log, n) && log[i] == Write(k, source)
    requires forall j :: i < j < n ==> !(log[j].Write? && log[j].k == k)
    ensures k < |ReplayAt(log, n)| && ReplayAt(log, n)[k].bytes == source
  {
    if i == n - 1 {
    } else {
      HoldsWriteAt(log, k, i, source, n - 1);
    }
  }

  /** Every buffer holds the bytes last copied into it, whatever happened to it or to others since. */
  lemma HoldsLastWrite(log: seq<Op>, k: nat, i: nat, source: seq<Byte>)
    requires LegalLog(log) && i < |log| && log[i] == Write(k, source)
    requires forall j :: i < j < |log| ==> !(log[j].Write? && log[j].k == k)
    ensures k < |Replay(log)| && Replay(log)[k].bytes == source
  {
    HoldsWriteAt(log, k, i, source, |log|);
  }

  lemma {:induction false} UnwrittenIsZeroAt(log: seq<Op>, k: nat, n: nat)
    requires n <= |log| && LegalUpTo(log, n) && k < |ReplayAt(log, n)|
    requires forall j :: 0 <= j < n ==> !(log[j].Write? && log[j].k == k)
    ensures ReplayAt(log, n)[k].bytes == Zeros(ReplayAt(log, n)[k].request.Bytes())
  {
    if k < |ReplayAt(log, n - 1)| {
      UnwrittenIsZeroAt(log, k, n - 1);
    }
  }

  /** A buffer never copied into since it was made is all zero. */
  lemma UnwrittenIsZero(log: seq<Op>, k: nat)
    requires LegalLog(log) && k < |Replay(log)|
    requires forall j :: 0 <= j < |log| ==> !(log[j].Write? && log[j].k == k)
    ensures Replay(log)[k].bytes == Zeros(Replay(log)[k].request.Bytes())
  {
    UnwrittenIsZeroAt(log, k, |log|);
  }

  /** Operation i of the log gives buffer k to a client. */
  predicate HandsOut(log: seq<Op>, i: nat, k: nat)
    requires i < |log|
  {
    match log[i]
    case Reuse(_, b) => b == k
    case Fresh(_) => |ReplayAt(log, i)| == k
    case _ => false
  }

  lemma {:induction false} StaysTaken(log: seq<Op>, i: nat, k: nat, n: nat)
    requires i < n <= |log| && LegalUpTo(log, n) && HandsOut(log, i, k)
    requires forall m :: i < m < n ==> log[m] != SetReleased(k, true)
    ensures k < |ReplayAt(log, n)| && !ReplayAt(log, n)[k].released
  {
    if i == n - 1 {
    } else {
      StaysTaken(log, i, k, n - 1);
    }
  }

  /** A buffer once handed out stays in the pool. */
  lemma HandedOutExists(log: seq<Op>, i: nat, k: nat, n: nat)
    requires i < n <= |log| && LegalUpTo(log, n) && HandsOut(log, i, k)
    ensures k < |ReplayAt(log, n)|
  {
    LegalAt(log, i, n);
    assert k < |ReplayAt(log, i + 1)|;
    ReplayGrows(log, i + 1, n);
  }

  /**
   Exclusive hand-out: a buffer given out twice was released in between, was
   not in use at the second hand-out, and has the geometry asked for.
   */
  lemma ExclusiveHandOut(log: seq<Op>, i: nat, j: nat, k: nat)
    requires LegalLog(log) && i < j < |log| && HandsOut(log, i, k) && HandsOut(log, j, k)
    ensures exists m :: i < m < j && log[m] == SetReleased(k, true)
    ensures log[j].Reuse? && k < |ReplayAt(log, j)|
    ensures !ReplayAt(log, j)[k].used && ReplayAt(log, j)[k].request == log[j].request
  {
    LegalAt(log, j, |log|);
    HandedOutExists(log, i, k, j);
    if forall m :: i < m < j ==> log[m] != SetReleased(k, true) {
      StaysTaken(log, i, k, j);
    }
  }
}
