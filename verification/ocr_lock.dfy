/** Two busy flags of the OCR extension: `globalOcrLock` of the streamed-dock
    content script, which lets one OCR run at a time and releases itself ten
    seconds after each acquisition, and the per-tab `activeProcessing` set of the
    background script.

    The ten-second `setTimeout` is modelled as a pending deadline that fires when
    time is advanced past it. */
module OcrLock {

  /** The delay of the automatic release. */
  const AutoRelease: int := 10000

  /** `isLocked`, and the deadlines of the auto-release timers still pending. */
  datatype Lock = Lock(locked: bool, timers: seq<int>)

  const Unlocked: Lock := Lock(false, [])

  /** `acquire()` at time `now`: refused, changing nothing, while locked; otherwise
      the lock is taken and a release is scheduled ten seconds later. */
  function Acquire(l: Lock, now: int): (r: (Lock, bool))
    ensures l.locked ==> r == (l, false)
    ensures !l.locked ==> r.1 && r.0.locked && r.0.timers == l.timers + [now + AutoRelease]
  {
    if l.locked then (l, false) else (Lock(true, l.timers + [now + AutoRelease]), true)
  }

  /** `release()`: unlocks; pending timers stay scheduled. */
  function Release(l: Lock): (r: Lock)
    ensures !r.locked && r.timers == l.timers
  {
    Lock(false, l.timers)
  }

  /** `isProcessing()`. */
  predicate IsProcessing(l: Lock) { l.locked }

  /** Releasing is idempotent. */
  lemma {:induction false} ReleaseIdempotent(l: Lock)
    ensures Release(Release(l)) == Release(l)
  {
  }

  /** After a successful acquire a second one fails until a release. */
  lemma {:induction false} AcquireExclusive(l: Lock, now: int, later: int)
    requires Acquire(l, now).1
    ensures Acquire(Acquire(l, now).0, later) == (Acquire(l, now).0, false)
    ensures Acquire(Release(Acquire(l, now).0), later).1
  {
  }

  /** Time moves on to `now`: each timer whose deadline has passed fires and calls
      `release()` if the lock is held, then is gone. */
  function Advance(l: Lock, now: int): (r: Lock)
    ensures forall d :: d in r.timers ==> d in l.timers && d > now
    ensures r.locked ==> l.locked
    ensures (exists i :: 0 <= i < |l.timers| && l.timers[i] <= now) ==> !r.locked
    ensures (forall i :: 0 <= i < |l.timers| ==> l.timers[i] > now) ==> r == l
    decreases |l.timers|
  {
    if |l.timers| == 0 then l
    else
      var rest := Advance(Lock(l.locked, l.timers[1..]), now);
      assert forall i :: 0 < i < |l.timers| ==> l.timers[i] == l.timers[1..][i - 1];
      if l.timers[0] <= now then Release(rest)
      else Lock(rest.locked, [l.timers[0]] + rest.timers)
  }

  /** No acquisition is held past its deadline: ten seconds after a successful
      acquire the lock is free, whatever happened in between. */
  lemma {:induction false} HeldAtMostTenSeconds(l: Lock, now: int, later: int)
    requires Acquire(l, now).1 && later >= now + AutoRelease
    ensures !Advance(Acquire(l, now).0, later).locked
  {
    var a := Acquire(l, now).0;
    assert a.timers[|a.timers| - 1] <= later;
  }

  /** A timer outlives the acquisition that scheduled it: after acquire, release and
      a second acquire, the first timer frees the second holder when it fires, even
      though that holder has had the lock for less than ten seconds. */
  lemma {:induction false} StaleTimerReleasesLaterHolder(t1: int, t2: int)
    requires t1 < t2 < t1 + AutoRelease
    ensures Acquire(Release(Acquire(Unlocked, t1).0), t2).1
    ensures !Advance(Acquire(Release(Acquire(Unlocked, t1).0), t2).0, t1 + AutoRelease).locked
    ensures t1 + AutoRelease - t2 < AutoRelease
  {
    var l := Acquire(Release(Acquire(Unlocked, t1).0), t2).0;
    assert l.timers[0] == t1 + AutoRelease;
  }

  // ---------------------------------------------------------------- activeProcessing

  /** `isTabProcessing(tabId)`. */
  predicate IsTabProcessing(active: set<int>, tab: int) { tab in active }

  /** `setTabProcessing(tabId, processing)`. */
  function SetTabProcessing(active: set<int>, tab: int, processing: bool): (r: set<int>)
    ensures IsTabProcessing(r, tab) == processing
    ensures forall t :: t != tab ==> (IsTabProcessing(r, t) <==> IsTabProcessing(active, t))
  {
    if processing then active + {tab} else active - {tab}
  }

  /** The start of an OCR request for a tab: a tab already marked busy is forced
      free and then marked again, so the request always proceeds. */
  function BeginTab(active: set<int>, tab: int): (r: set<int>)
  {
    var cleared := if IsTabProcessing(active, tab) then SetTabProcessing(active, tab, false) else active;
    SetTabProcessing(cleared, tab, true)
  }

  /** The busy check guards nothing: beginning marks the tab whether it was busy or
      not, and touches no other tab. */
  lemma {:induction false} BeginTabIgnoresBusy(active: set<int>, tab: int)
    ensures BeginTab(active, tab) == active + {tab}
    ensures BeginTab(active, tab) == BeginTab(active - {tab}, tab)
  {
  }

  /** The `finally` of the request and the tab-removed listener both unmark the tab,
      so a finished or closed tab is never left busy. */
  lemma {:induction false} FinishClears(active: set<int>, tab: int)
    ensures !IsTabProcessing(SetTabProcessing(BeginTab(active, tab), tab, false), tab)
    ensures SetTabProcessing(BeginTab(active, tab), tab, false) == active - {tab}
  {
  }
}
