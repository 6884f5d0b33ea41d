/** When a buffer of the pool is handed out again, told from what clients did with it. */
module PoolHandOut {
  import opened PoolModel

  /** How many buffers the first n operations made. */
  function Made(log: seq<Op>, n: nat): nat
    requires n <= |log|
  {
    if n == 0 then 0 else if log[n - 1].Fresh? then Made(log, n - 1) + 1 else Made(log, n - 1)
  }

  lemma {:induction false} MadeIsSize(log: seq<Op>, n: nat)
    requires n <= |log|
    ensures |ReplayAt(log, n)| == Made(log, n)
  {
    if n == 0 {
    } else {
      MadeIsSize(log, n - 1);
    }
  }

  /** Buffer k was made for this geometry. */
  ghost predicate MadeFor(log: seq<Op>, n: nat, k: nat, r: Request)
    requires n <= |log|
  {
    exists m :: 0 <= m < n && log[m] == Fresh(r) && Made(log, m) == k
  }

  /** The client gave buffer k back, and nobody has taken it since. */
  ghost predicate GivenBack(log: seq<Op>, n: nat, k: nat)
    requires n <= |log|
  {
    exists m :: 0 <= m < n && log[m] == SetReleased(k, true)
      && forall j :: m < j < n ==> !((log[j].Reuse? || log[j].SetReleased?) && log[j].k == k)
  }

  /** The compositor took buffer k into use and has not ended that. */
  ghost predicate InUse(log: seq<Op>, n: nat, k: nat)
    requires n <= |log|
  {
    exists m :: 0 <= m < n && log[m] == SetUsed(k, true)
      && forall j :: m < j < n ==> !(log[j].SetUsed? && log[j].k == k)
  }

  /** Nothing is done to a buffer before it is made. */
  lemma NotYetMade(log: seq<Op>, n: nat, k: nat)
    requires n <= |log| && LegalUpTo(log, n) && k >= |ReplayAt(log, n)|
    ensures forall m :: 0 <= m < n && (log[m].SetReleased? || log[m].SetUsed? || log[m].Reuse?) ==> log[m].k != k
  {
    forall m | 0 <= m < n && (log[m].SetReleased? || log[m].SetUsed? || log[m].Reuse?) ensures log[m].k != k {
      LegalAt(log, m, n);
      ReplayGrows(log, m, n);
    }
  }

  lemma {:induction false} ReleasedIff(log: seq<Op>, n: nat, k: nat)
    requires n <= |log| && LegalUpTo(log, n) && k < |ReplayAt(log, n)|
    ensures ReplayAt(log, n)[k].released <==> GivenBack(log, n, k)
  {
    var op := log[n - 1];
    if k >= |ReplayAt(log, n - 1)| {
      NotYetMade(log, n - 1, k);
    } else {
      ReleasedIff(log, n - 1, k);
      if op == SetReleased(k, true) {
        assert GivenBack(log, n, k);
      } else if !((op.Reuse? || op.SetReleased?) && op.k == k) {
        assert GivenBack(log, n, k) <==> GivenBack(log, n - 1, k);
      }
    }
  }

  lemma {:induction false} UsedIff(log: seq<Op>, n: nat, k: nat)
    requires n <= |log| && LegalUpTo(log, n) && k < |ReplayAt(log, n)|
    ensures ReplayAt(log, n)[k].used <==> InUse(log, n, k)
  {
    var op := log[n - 1];
    if k >= |ReplayAt(log, n - 1)| {
      NotYetMade(log, n - 1, k);
    } else {
      UsedIff(log, n - 1, k);
      if op == SetUsed(k, true) {
        assert InUse(log, n, k);
      } else if !(op.SetUsed? && op.k == k) {
        assert InUse(log, n, k) <==> InUse(log, n - 1, k);
      }
    }
  }

  lemma MadeForOneMore(log: seq<Op>, n: nat, k: nat, r: Request)
    requires n < |log|
    ensures MadeFor(log, n + 1, k, r) <==> MadeFor(log, n, k, r) || (log[n] == Fresh(r) && Made(log, n) == k)
  {
  }

  /** A buffer keeps its geometry. */
  lemma RequestStays(p: seq<Slot>, op: Op, k: nat)
    requires k < |p|
    ensures k < |Apply(p, op)| && Apply(p, op)[k].request == p[k].request
  {
  }

  lemma {:induction false} RequestIff(log: seq<Op>, n: nat, k: nat, r: Request)
    requires n <= |log|
    ensures k < |ReplayAt(log, n)| && ReplayAt(log, n)[k].request == r <==> MadeFor(log, n, k, r)
  {
    if n == 0 {
    } else {
      RequestIff(log, n - 1, k, r);
      MadeIsSize(log, n - 1);
      MadeForOneMore(log, n - 1, k, r);
      var p := ReplayAt(log, n - 1);
      if k < |p| {
        RequestStays(p, log[n - 1], k);
      } else {
        assert |ReplayAt(log, n)| == if log[n - 1].Fresh? then |p| + 1 else |p|;
      }
    }
  }

  /** Buffer k can serve a request: made for its geometry, given back, and out of use. */
  ghost predicate Available(log: seq<Op>, n: nat, k: nat, r: Request)
    requires n <= |log|
  {
    MadeFor(log, n, k, r) && GivenBack(log, n, k) && !InUse(log, n, k)
  }

  lemma ReusableIff(log: seq<Op>, n: nat, k: nat, r: Request)
    requires n <= |log| && LegalUpTo(log, n)
    ensures k < |ReplayAt(log, n)| && Reusable(ReplayAt(log, n)[k], r) <==> Available(log, n, k, r)
  {
    RequestIff(log, n, k, r);
    if k < |ReplayAt(log, n)| {
      ReleasedIff(log, n, k);
      UsedIff(log, n, k);
    }
  }

  /** A new buffer is made exactly when none is available. */
  lemma FreshIff(log: seq<Op>, n: nat, r: Request)
    requires LegalLog(log) && n < |log| && (log[n].Reuse? || log[n].Fresh?) && log[n].request == r
    ensures log[n] == Fresh(r) <==> forall k: nat :: !Available(log, n, k, r)
  {
    LegalAt(log, n, |log|);
    if log[n].Reuse? {
      ReusableIff(log, n, log[n].k, r);
    } else {
      forall k: nat ensures !Available(log, n, k, r) {
        ReusableIff(log, n, k, r);
      }
    }
  }

  /** Otherwise the first one available is handed out again. */
  lemma ReuseIff(log: seq<Op>, n: nat, r: Request, k: nat)
    requires LegalLog(log) && n < |log| && (log[n].Reuse? || log[n].Fresh?) && log[n].request == r
    ensures log[n] == Reuse(r, k) <==> Available(log, n, k, r) && forall j: nat :: j < k ==> !Available(log, n, j, r)
  {
    LegalAt(log, n, |log|);
    ReusableIff(log, n, k, r);
    if log[n] == Reuse(r, k) {
      forall j: nat | j < k ensures !Available(log, n, j, r) {
        ReusableIff(log, n, j, r);
      }
    } else if log[n].Reuse? {
      ReusableIff(log, n, log[n].k, r);
    }
  }

  /** So a buffer that was given back and is not in use, or one before it, serves the next request of its geometry. */
  lemma ReleasedComesBack(log: seq<Op>, m: nat, n: nat, k: nat, r: Request)
    requires LegalLog(log) && m < n < |log| && log[m] == SetReleased(k, true)
    requires forall j :: m < j < n ==> !((log[j].Reuse? || log[j].SetReleased?) && log[j].k == k)
    requires !InUse(log, n, k) && MadeFor(log, n, k, r)
    requires (log[n].Reuse? || log[n].Fresh?) && log[n].request == r
    ensures log[n].Reuse? && log[n].k <= k
  {
    assert Available(log, n, k, r);
    FreshIff(log, n, r);
    ReuseIff(log, n, r, log[n].k);
  }

  /** A buffer keeps the bytes of `height` rows of `stride`, whatever happens. */
  lemma {:induction false} ArraySize(log: seq<Op>, n: nat, k: nat, r: Request)
    requires n <= |log| && LegalUpTo(log, n) && MadeFor(log, n, k, r)
    ensures k < |ReplayAt(log, n)|
    ensures |ReplayAt(log, n)[k].bytes| == if r.height * r.stride < 0 then 0 else r.height * r.stride
  {
    RequestIff(log, n, k, r);
    MadeIsSize(log, n - 1);
    if k < |ReplayAt(log, n - 1)| {
      RequestIff(log, n - 1, k, r);
      ArraySize(log, n - 1, k, r);
    }
  }
}
