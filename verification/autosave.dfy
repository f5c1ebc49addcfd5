/** The debounced save: `saveTimeout`, the browser's queue of pending timers, and the
    save-status text. */
module Autosave {
  import opened Wrappers

  /** What the save-status element shows. `Untouched` is whatever the page markup
      put there before the first edit. */
  datatype Status = Untouched | Unsaved | Saving | Saved | SaveFailed

  function Label(s: Status): string
  {
    match s
    case Untouched => ""
    case Unsaved => "Cambios sin guardar..."
    case Saving => "Guardando..."
    case Saved => "Guardado"
    case SaveFailed => "Error al guardar"
  }

  /** `saveTimeout` (the last handle `setTimeout` returned, or `null`), the handles of
      save timers that are scheduled and have neither fired nor been cleared, and
      the next handle the browser will hand out. */
  datatype Timer = Timer(saveTimeout: Option<nat>, scheduled: set<nat>, nextHandle: nat)

  /** Only the timer `saveTimeout` names can still be pending, and handles are never
      reused. */
  predicate Valid(t: Timer)
  {
    (forall h :: h in t.scheduled ==> t.saveTimeout == Some(h))
    && (t.saveTimeout.Some? ==> t.saveTimeout.value < t.nextHandle)
  }

  const Initial: Timer := Timer(None, {}, 1)

  /** At most one save is ever pending. */
  lemma AtMostOnePending(t: Timer)
    requires Valid(t)
    ensures |t.scheduled| <= 1
  {
    if t.scheduled != {} {
      assert t.scheduled == {t.saveTimeout.value};
    }
  }

  /** `debounceSave`: `clearTimeout(saveTimeout)` cancels the pending save, if any,
      and `setTimeout` schedules exactly one new one under a fresh handle. */
  function Debounce(t: Timer): (r: Timer)
    ensures Valid(t) ==> Valid(r)
    ensures Valid(t) ==> r.saveTimeout.Some? && r.scheduled == {r.saveTimeout.value}
    ensures Valid(t) ==> r.scheduled !! t.scheduled
  {
    var live := if t.saveTimeout.Some? then t.scheduled - {t.saveTimeout.value} else t.scheduled;
    Timer(Some(t.nextHandle), live + {t.nextHandle}, t.nextHandle + 1)
  }

  /** The browser runs the scheduled timer `h`: it leaves the queue; `saveTimeout`
      keeps its now stale value (clearing it later does nothing). */
  function Fire(t: Timer, h: nat): (r: Timer)
    requires h in t.scheduled
    ensures Valid(t) ==> Valid(r) && r.scheduled == {}
  {
    Timer(t.saveTimeout, t.scheduled - {h}, t.nextHandle)
  }

  /** `n` consecutive calls of `debounceSave` with no timer firing in between. */
  function Debounced(t: Timer, n: nat): Timer
  {
    if n == 0 then t else Debounce(Debounced(t, n - 1))
  }

  /** The number of saves that run when the browser reaches the expiry times of the
      timers `hs`, in order; a timer that was cleared or already ran does nothing. */
  function Saves(t: Timer, hs: seq<nat>): nat
    decreases |hs|
  {
    if hs == [] then 0
    else if hs[0] in t.scheduled then 1 + Saves(Fire(t, hs[0]), hs[1..])
    else Saves(t, hs[1..])
  }

  /** A burst of `n >= 1` calls leaves exactly one save pending, under the handle of
      the last call; every earlier one has been cancelled. */
  lemma {:induction false} BurstLeavesOnePending(t: Timer, n: nat)
    requires Valid(t) && n >= 1
    ensures Valid(Debounced(t, n))
    ensures Debounced(t, n).saveTimeout.Some?
    ensures Debounced(t, n).scheduled == {Debounced(t, n).saveTimeout.value}
    ensures Debounced(t, n).scheduled !! t.scheduled
  {
    if n > 1 {
      BurstLeavesOnePending(t, n - 1);
      var u := Debounced(t, n - 1);
      assert Debounced(t, n) == Debounce(u);
      assert Debounce(u).saveTimeout.value == u.nextHandle;
      forall h | h in t.scheduled ensures h < u.nextHandle {
        assert t.saveTimeout == Some(h);
        DebouncedGrows(t, n - 1);
      }
    }
  }

  lemma {:induction false} DebouncedGrows(t: Timer, n: nat)
    ensures Debounced(t, n).nextHandle == t.nextHandle + n
  {
    if n > 0 {
      DebouncedGrows(t, n - 1);
    }
  }

  /** With nothing pending, no expiry runs a save. */
  lemma {:induction false} NothingPendingNoSave(t: Timer, hs: seq<nat>)
    requires t.scheduled == {}
    ensures Saves(t, hs) == 0
    decreases |hs|
  {
    if hs != [] {
      NothingPendingNoSave(t, hs[1..]);
    }
  }

  /** With one timer pending, the expiries run one save if they include it and none
      otherwise. */
  lemma {:induction false} OnePendingOneSave(t: Timer, hs: seq<nat>)
    requires Valid(t) && t.saveTimeout.Some? && t.scheduled == {t.saveTimeout.value}
    ensures Saves(t, hs) == if t.saveTimeout.value in hs then 1 else 0
    decreases |hs|
  {
    if hs != [] {
      if hs[0] in t.scheduled {
        NothingPendingNoSave(Fire(t, hs[0]), hs[1..]);
      } else {
        OnePendingOneSave(t, hs[1..]);
        assert t.saveTimeout.value in hs <==> t.saveTimeout.value in hs[1..];
      }
    }
  }

  /** A burst of edits yields one save: whatever timer expiries follow, at most one
      save runs, and exactly one once the last call's quiet period has elapsed. */
  lemma BurstYieldsOneSave(t: Timer, n: nat, hs: seq<nat>)
    requires Valid(t) && n >= 1
    ensures Saves(Debounced(t, n), hs) <= 1
    ensures Debounced(t, n).saveTimeout.value in hs ==> Saves(Debounced(t, n), hs) == 1
  {
    BurstLeavesOnePending(t, n);
    OnePendingOneSave(Debounced(t, n), hs);
  }
}
