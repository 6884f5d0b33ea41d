/** When the pool's file grows, and by how much. */
module PoolGrowth {
  import opened ShmPool

  /** What the calls from the i-th to before the n-th asked for that no released buffer could serve. */
  function AskedBytes(calls: seq<Call>, i: nat, n: nat): int
    requires n <= |calls|
  {
    if n <= i then 0
    else if calls[n - 1].reused then AskedBytes(calls, i, n - 1)
    else AskedBytes(calls, i, n - 1) + calls[n - 1].bytes
  }

  /** The file stays as it is as long as what is asked for fits into the slack. */
  lemma {:induction false} GrowsOnlyIfNeeded(initialSize: nat, calls: seq<Call>, i: nat, n: nat)
    requires i <= n <= |calls| && forall j :: i <= j < n ==> calls[j].bytes >= 0
    requires AskedBytes(calls, i, n) <= AfterUpTo(initialSize, calls, i).Slack()
    ensures var e, f := AfterUpTo(initialSize, calls, i), AfterUpTo(initialSize, calls, n);
            && f.size == e.size && f.lost == e.lost
            && f.offset <= e.offset + AskedBytes(calls, i, n)
            && ((forall j :: i <= j < n ==> calls[j].system.createsNative) ==> f.offset == e.offset + AskedBytes(calls, i, n))
  {
    if i == n {
    } else {
      GrowsOnlyIfNeeded(initialSize, calls, i, n - 1);
    }
  }

  /** A file that grows grows by the whole request: the slack stays as it is while every request exceeds it. */
  lemma {:induction false} GrowthKeepsSlack(initialSize: nat, calls: seq<Call>, i: nat, n: nat)
    requires i <= n <= |calls|
    requires forall j :: i <= j < n ==> calls[j].system == System(true, true, true)
    requires forall j :: i <= j < n && !calls[j].reused ==> calls[j].bytes > AfterUpTo(initialSize, calls, i).Slack()
    ensures var e, f := AfterUpTo(initialSize, calls, i), AfterUpTo(initialSize, calls, n);
            f.Slack() == e.Slack() && f.offset == e.offset + AskedBytes(calls, i, n)
  {
    if i == n {
    } else {
      GrowthKeepsSlack(initialSize, calls, i, n - 1);
    }
  }

  /** A request is served if a released buffer fits, or the server takes a new one for which there is room or can be made. */
  lemma ServedIff(e: Extent, c: Call)
    ensures !Refused(e, c) <==>
              c.reused || (c.system.createsNative && (c.bytes <= e.Slack() || (c.system.truncates && c.system.maps)))
    ensures AfterCall(e, c).offset == if Refused(e, c) || c.reused then e.offset else e.offset + c.bytes
  {
  }
}
