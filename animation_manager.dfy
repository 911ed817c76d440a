/**
 * The hover/idle state machine of the portfolio list (class AnimationManager).
 *
 * The DOM is replaced by sequences indexed by item: the `active` and `counter-hidden`
 * classes of each `.project-item`, the opacity of each of its five data cells, the text of
 * each of its `.hover-text` slots, and whether a scramble tween is playing on a slot. The
 * browser's timers, the idle timeline's progress and the scramble tween's frames are
 * explicit event methods (DebounceFires, IdleTimerFires, IdleStepFires, ScrambleTick,
 * ScrambleCompletes) instead of real time. Timer handles are positive integers drawn from
 * one counter, as the browser's are; a handle kept in a field is not cleared when its timer
 * fires, and cancelling a timer that already fired does nothing.
 */
module AnimationManagement {
  import opened Options
  import opened IdleSchedule

  type TimerId = nat

  /** What the page holds for one `.project-item`: the texts of its `.hover-text` slots and its `data-image`. */
  datatype ItemMarkup = ItemMarkup(hoverTexts: seq<string>, image: Option<string>)

  function Repeat<T>(n: nat, x: T): (s: seq<T>)
    ensures |s| == n
  {
    seq(n, _ => x)
  }

  /** Step `k` of the idle timeline built for `rows` items, which touches an existing row and column. */
  function StepOf(timeline: seq<Step>, rows: nat, k: nat): (s: Step)
    requires timeline == IdleTimeline(rows) && k < |timeline|
    ensures s == timeline[k] && Scheduled(s, rows)
  {
    IdleTimelineScheduled(rows);
    timeline[k]
  }

  /** `clearTimeout(slot)` on the pending debounce timers: only the timer whose handle is in the slot goes. */
  function Cancel(pending: map<TimerId, nat>, slot: Option<TimerId>): map<TimerId, nat>
  {
    if slot.Some? then pending - {slot.value} else pending
  }

  /** One `false` per `.hover-text` slot of every item. */
  function NoScrambles(texts: seq<seq<string>>): (none: seq<seq<bool>>)
    ensures |none| == |texts|
    ensures forall i :: 0 <= i < |texts| ==> none[i] == Repeat(|texts[i]|, false)
  {
    seq(|texts|, i requires 0 <= i < |texts| => Repeat(|texts[i]|, false))
  }

  /** Reads the `.hover-text` contents and the `data-image` of every item, in document order. */
  method CaptureMarkup(items: seq<ItemMarkup>) returns (captured: seq<seq<string>>, urls: seq<Option<string>>)
    ensures |captured| == |items| && |urls| == |items|
    ensures forall i :: 0 <= i < |items| ==> captured[i] == items[i].hoverTexts && urls[i] == items[i].image
  {
    captured := [];
    urls := [];
    var k := 0;
    while k < |items|
      invariant k <= |items| && |captured| == k && |urls| == k
      invariant forall i :: 0 <= i < k ==> captured[i] == items[i].hoverTexts && urls[i] == items[i].image
    {
      captured := captured + [items[k].hoverTexts];
      urls := urls + [items[k].image];
      k := k + 1;
    }
  }

  class AnimationManager {
    /** The `.hover-text` contents of every item, read once by the constructor. */
    const originalTexts: seq<seq<string>>
    /** The `data-image` attribute of every item. */
    const imageUrls: seq<Option<string>>
    /** Whether the page has the `#backgroundImage` panel. */
    const hasBackground: bool

    var currentActiveIndex: int
    var isIdle: bool
    /** The container's `has-active` class. */
    var hasActive: bool
    /** Each item's `active` class. */
    var active: seq<bool>
    /** Each item's `counter-hidden` class. */
    var counterHidden: seq<bool>
    /** The opacity, in hundredths, of each item's five data cells. */
    var cellOpacity: seq<seq<int>>
    /** The current text of each `.hover-text` slot of each item. */
    var texts: seq<seq<string>>
    /** Whether a scramble tween is playing on a slot. */
    var scrambling: seq<seq<bool>>
    var backgroundUrl: Option<string>
    /** The panel's opacity, in hundredths. */
    var backgroundOpacity: nat
    /** The handle field `idleTimer` and the idle timers the browser still holds. */
    var idleTimer: Option<TimerId>
    var pendingIdleTimers: set<TimerId>
    /** The handle field `debounceTimeout` and the debounce timers the browser still holds, each with its item. */
    var debounceTimeout: Option<TimerId>
    var pendingDebounces: map<TimerId, nat>
    /** The idle timeline, when one exists. */
    var idleAnimation: Option<seq<Step>>
    /** The handle the browser gives the next timer. */
    var nextTimerId: TimerId

    /** No scramble tween on any slot. */
    function Unscrambled(): (none: seq<seq<bool>>)
      ensures |none| == |originalTexts|
      ensures forall i :: 0 <= i < |originalTexts| ==> none[i] == Repeat(|originalTexts[i]|, false)
    {
      NoScrambles(originalTexts)
    }

    /** Every per-item sequence has one entry per item, and every per-slot sequence one per slot. */
    ghost predicate Shaped()
      reads this`active, this`counterHidden, this`cellOpacity, this`texts, this`scrambling
    {
      var n := |originalTexts|;
      && |imageUrls| == n && |active| == n && |counterHidden| == n
      && |cellOpacity| == n && |texts| == n && |scrambling| == n
      && (forall i :: 0 <= i < n ==> |cellOpacity[i]| == COLUMNS)
      && (forall i :: 0 <= i < n ==> |texts[i]| == |originalTexts[i]| && |scrambling[i]| == |originalTexts[i]|)
    }

    /** No counter is hidden and every data cell is fully opaque. */
    ghost predicate NothingHidden()
      reads this`counterHidden, this`cellOpacity
    {
      && (forall i :: 0 <= i < |counterHidden| ==> !counterHidden[i])
      && (forall i, c :: 0 <= i < |cellOpacity| && 0 <= c < |cellOpacity[i]| ==> cellOpacity[i][c] == OPAQUE)
    }

    ghost predicate TimersValid()
      reads this`nextTimerId, this`idleTimer, this`pendingIdleTimers, this`debounceTimeout, this`pendingDebounces
    {
      && 0 < nextTimerId
      // at most one idle timer is pending, and it is the one the field holds
      && (forall id :: id in pendingIdleTimers ==> idleTimer == Some(id))
      && (idleTimer.Some? ==> 0 < idleTimer.value < nextTimerId)
      && (debounceTimeout.Some? ==> 0 < debounceTimeout.value < nextTimerId)
      && (forall id :: id in pendingDebounces ==> 0 < id < nextTimerId && pendingDebounces[id] < |originalTexts|)
    }

    /** The object invariant; the background panel's fields are not part of it. */
    ghost predicate Valid()
      reads this`active, this`counterHidden, this`cellOpacity, this`texts, this`scrambling
      reads this`nextTimerId, this`idleTimer, this`pendingIdleTimers, this`debounceTimeout, this`pendingDebounces
      reads this`currentActiveIndex, this`hasActive, this`isIdle, this`idleAnimation
    {
      && Shaped()
      && TimersValid()
      && -1 <= currentActiveIndex < |originalTexts|
      // exactly the item under currentActiveIndex carries `active`
      && (forall i :: 0 <= i < |active| ==> (active[i] <==> i == currentActiveIndex))
      && (hasActive <==> currentActiveIndex != -1)
      // a slot shows its original text unless a scramble tween is playing on it
      && (forall i, j :: 0 <= i < |texts| && 0 <= j < |texts[i]| && !scrambling[i][j] ==> texts[i][j] == originalTexts[i][j])
      // the idle timeline is the one built for these items and exists only while nothing is active
      && (idleAnimation.Some? ==> currentActiveIndex == -1 && isIdle && idleAnimation.value == IdleTimeline(|originalTexts|))
      // while an item is active no idle timer is armed
      && (currentActiveIndex != -1 ==> idleTimer == None && pendingIdleTimers == {} && !isIdle)
      // without an idle timeline nothing is left hidden
      && (idleAnimation == None ==> NothingHidden())
    }

    /**
     * While no item is active the background panel, when the page has one, is transparent.
     * It is kept by every event; `clearActiveStates` alone breaks it for a moment, until the
     * container's `mouseleave` handler hides the panel right after it.
     */
    ghost predicate PanelHiddenWhenNothingActive()
      reads this`currentActiveIndex, this`backgroundOpacity
    {
      currentActiveIndex == -1 && hasBackground ==> backgroundOpacity == 0
    }

    /** Captures every item's original texts; nothing is active, no timer is armed. */
    constructor (items: seq<ItemMarkup>, hasBackground: bool)
      ensures Valid()
      ensures |originalTexts| == |items| && |imageUrls| == |items|
      ensures forall i :: 0 <= i < |items| ==> originalTexts[i] == items[i].hoverTexts && imageUrls[i] == items[i].image
      ensures this.hasBackground == hasBackground
      ensures texts == originalTexts && currentActiveIndex == -1 && isIdle && !hasActive
      ensures idleTimer == None && pendingIdleTimers == {} && debounceTimeout == None && pendingDebounces == map[]
      ensures idleAnimation == None && NothingHidden()
      ensures scrambling == Unscrambled() && backgroundUrl == None && backgroundOpacity == 0
      ensures PanelHiddenWhenNothingActive()
    {
      var captured, urls := CaptureMarkup(items);
      originalTexts := captured;
      imageUrls := urls;
      this.hasBackground := hasBackground;
      currentActiveIndex := -1;
      isIdle := true;
      hasActive := false;
      active := Repeat(|items|, false);
      counterHidden := Repeat(|items|, false);
      cellOpacity := Repeat(|items|, Repeat(COLUMNS, OPAQUE));
      texts := captured;
      scrambling := NoScrambles(captured);
      backgroundUrl := None;
      backgroundOpacity := 0;
      idleTimer := None;
      pendingIdleTimers := {};
      debounceTimeout := None;
      pendingDebounces := map[];
      idleAnimation := None;
      nextTimerId := 1;
    }

    // -------------------------------------------------------------------------
    // Helpers of the source class
    // -------------------------------------------------------------------------

    /** Marks exactly item `activeIndex` active and the container `has-active`. */
    method UpdateActiveStates(activeIndex: nat)
      requires activeIndex < |active|
      modifies this`currentActiveIndex, this`hasActive, this`active
      ensures currentActiveIndex == activeIndex && hasActive
      ensures |active| == old(|active|)
      ensures forall i :: 0 <= i < |active| ==> (active[i] <==> i == activeIndex)
    {
      currentActiveIndex := activeIndex;
      hasActive := true;
      var k := 0;
      while k < |active|
        invariant k <= |active| == old(|active|)
        invariant currentActiveIndex == activeIndex && hasActive
        invariant forall i :: 0 <= i < k ==> (active[i] <==> i == activeIndex)
      {
        active := active[k := k == activeIndex];
        k := k + 1;
      }
    }

    /** Kills the tweens on every slot of `item` and writes its original texts back. */
    method RestoreTexts(item: nat)
      requires item < |texts| == |scrambling| == |originalTexts|
      requires |texts[item]| == |scrambling[item]| == |originalTexts[item]|
      modifies this`texts, this`scrambling
      ensures texts == old(texts)[item := originalTexts[item]]
      ensures scrambling == old(scrambling)[item := Repeat(|originalTexts[item]|, false)]
    {
      var slots := |originalTexts[item]|;
      var j := 0;
      while j < slots
        invariant j <= slots
        invariant |texts| == |scrambling| == |originalTexts|
        invariant |texts[item]| == |scrambling[item]| == slots
        invariant forall i :: 0 <= i < |texts| && i != item ==> texts[i] == old(texts[i]) && scrambling[i] == old(scrambling[i])
        invariant forall k :: 0 <= k < j ==> texts[item][k] == originalTexts[item][k] && !scrambling[item][k]
      {
        scrambling := scrambling[item := scrambling[item][j := false]];
        texts := texts[item := texts[item][j := originalTexts[item][j]]];
        j := j + 1;
      }
      assert texts[item] == originalTexts[item];
      assert scrambling[item] == Repeat(slots, false);
    }

    /** Kills the tweens on every slot of `item` and starts a scramble towards its original text on each. */
    method StartScrambles(item: nat)
      requires item < |scrambling|
      modifies this`scrambling
      ensures scrambling == old(scrambling)[item := Repeat(|old(scrambling)[item]|, true)]
    {
      var slots := |scrambling[item]|;
      var j := 0;
      while j < slots
        invariant j <= slots
        invariant |scrambling| == |old(scrambling)| && |scrambling[item]| == slots
        invariant forall i :: 0 <= i < |scrambling| && i != item ==> scrambling[i] == old(scrambling[i])
        invariant forall k :: 0 <= k < j ==> scrambling[item][k]
      {
        scrambling := scrambling[item := scrambling[item][j := true]];
        j := j + 1;
      }
      assert scrambling[item] == Repeat(slots, true);
    }

    method ShowBackgroundImage(url: string)
      requires Valid()
      modifies this`backgroundUrl, this`backgroundOpacity
      ensures Valid()
      ensures hasBackground ==> backgroundUrl == Some(url) && backgroundOpacity == OPAQUE
      ensures !hasBackground ==> backgroundUrl == old(backgroundUrl) && backgroundOpacity == old(backgroundOpacity)
    {
      if !hasBackground {
        return;
      }
      backgroundUrl := Some(url);
      backgroundOpacity := OPAQUE;
    }

    method HideBackgroundImage()
      requires Valid()
      modifies this`backgroundOpacity
      ensures Valid()
      ensures backgroundOpacity == if hasBackground then 0 else old(backgroundOpacity)
    {
      if hasBackground {
        backgroundOpacity := 0;
      }
    }

    method StopIdleTimer()
      modifies this`idleTimer, this`pendingIdleTimers
      ensures idleTimer == None
      ensures pendingIdleTimers == if old(idleTimer).Some? then old(pendingIdleTimers) - {old(idleTimer).value} else old(pendingIdleTimers)
    {
      if idleTimer.Some? {
        pendingIdleTimers := pendingIdleTimers - {idleTimer.value};
        idleTimer := None;
      }
    }

    /** Cancels the armed idle timer, if any, and arms a new one. */
    method StartIdleTimer()
      requires Valid() && currentActiveIndex == -1
      modifies this`idleTimer, this`pendingIdleTimers, this`nextTimerId
      ensures Valid()
      ensures nextTimerId == old(nextTimerId) + 1
      ensures idleTimer == Some(old(nextTimerId)) && pendingIdleTimers == {old(nextTimerId)}
    {
      StopIdleTimer();
      idleTimer := Some(nextTimerId);
      pendingIdleTimers := pendingIdleTimers + {nextTimerId};
      nextTimerId := nextTimerId + 1;
    }

    /** Builds the idle timeline unless one already exists (a single instance at a time). */
    method StartIdleAnimation()
      modifies this`idleAnimation
      ensures old(idleAnimation).Some? ==> idleAnimation == old(idleAnimation)
      ensures old(idleAnimation).None? ==> idleAnimation == Some(IdleTimeline(|originalTexts|))
    {
      if idleAnimation.Some? {
        return;
      }
      var timeline := BuildIdleTimeline(|originalTexts|);
      idleAnimation := Some(timeline);
    }

    /** Kills the idle timeline, if any, and then makes every data cell opaque and every counter visible. */
    method StopIdleAnimation()
      requires Shaped()
      modifies this`idleAnimation, this`cellOpacity, this`counterHidden
      ensures Shaped() && idleAnimation == None
      ensures old(idleAnimation).Some? ==> NothingHidden()
      ensures old(idleAnimation).None? ==> cellOpacity == old(cellOpacity) && counterHidden == old(counterHidden)
    {
      if idleAnimation.Some? {
        idleAnimation := None;
        cellOpacity := Repeat(|originalTexts|, Repeat(COLUMNS, OPAQUE));
        var k := 0;
        while k < |counterHidden|
          invariant k <= |counterHidden| == |originalTexts|
          invariant Shaped() && idleAnimation == None
          invariant cellOpacity == Repeat(|originalTexts|, Repeat(COLUMNS, OPAQUE))
          invariant forall i :: 0 <= i < k ==> !counterHidden[i]
        {
          counterHidden := counterHidden[k := false];
          k := k + 1;
        }
      }
    }

    /**
     * Clears every `active` class and the container's `has-active`, restores every slot's
     * original text and re-arms the idle timer.
     */
    method ClearActiveStates()
      requires Valid()
      modifies this`currentActiveIndex, this`hasActive, this`active, this`texts, this`scrambling
      modifies this`idleTimer, this`pendingIdleTimers, this`nextTimerId
      ensures Valid()
      ensures currentActiveIndex == -1 && !hasActive
      ensures active == Repeat(|originalTexts|, false)
      ensures texts == originalTexts && scrambling == Unscrambled()
      ensures nextTimerId == old(nextTimerId) + 1
      ensures idleTimer == Some(old(nextTimerId)) && pendingIdleTimers == {old(nextTimerId)}
    {
      currentActiveIndex := -1;
      hasActive := false;
      var n := |originalTexts|;
      var k := 0;
      while k < n
        modifies this`active, this`texts, this`scrambling
        invariant k <= n
        invariant Shaped()
        invariant forall i :: 0 <= i < k ==> !active[i] && texts[i] == originalTexts[i] && scrambling[i] == Unscrambled()[i]
      {
        active := active[k := false];
        RestoreTexts(k);
        k := k + 1;
      }
      assert active == Repeat(n, false);
      assert texts == originalTexts && scrambling == Unscrambled();
      StartIdleTimer();
    }

    // -------------------------------------------------------------------------
    // Events
    // -------------------------------------------------------------------------

    /** `initializeAnimations`, run once right after construction: arms the first idle timer. */
    method InitializeAnimations()
      requires Valid() && currentActiveIndex == -1
      requires PanelHiddenWhenNothingActive()
      modifies this`idleTimer, this`pendingIdleTimers, this`nextTimerId
      ensures Valid()
      ensures PanelHiddenWhenNothingActive()
      ensures idleTimer == Some(old(nextTimerId)) && pendingIdleTimers == {old(nextTimerId)}
    {
      StartIdleTimer();
    }

    /**
     * The pointer enters item `index`. Idle mode always ends and the debounce timer in the
     * slot is cancelled; re-entering the active item stops there, otherwise the item becomes
     * the only active one, its slots start scrambling and its image, if any, is shown.
     */
    method MouseEnter(index: nat)
      requires Valid() && index < |originalTexts|
      requires PanelHiddenWhenNothingActive()
      modifies this`idleAnimation, this`cellOpacity, this`counterHidden, this`idleTimer, this`pendingIdleTimers
      modifies this`isIdle, this`pendingDebounces, this`currentActiveIndex, this`hasActive, this`active
      modifies this`scrambling, this`backgroundUrl, this`backgroundOpacity
      ensures Valid()
      ensures PanelHiddenWhenNothingActive()
      ensures idleAnimation == None && idleTimer == None && pendingIdleTimers == {} && !isIdle && NothingHidden()
      ensures pendingDebounces == Cancel(old(pendingDebounces), debounceTimeout)
      ensures currentActiveIndex == index && hasActive
      ensures forall i :: 0 <= i < |active| ==> (active[i] <==> i == index)
      ensures old(currentActiveIndex) == index ==>
        && active == old(active) && scrambling == old(scrambling)
        && backgroundUrl == old(backgroundUrl) && backgroundOpacity == old(backgroundOpacity)
        && cellOpacity == old(cellOpacity) && counterHidden == old(counterHidden)
      ensures old(currentActiveIndex) != index ==>
        && scrambling == old(scrambling)[index := Repeat(|originalTexts[index]|, true)]
        && (if Truthy(imageUrls[index]) && hasBackground
            then backgroundUrl == imageUrls[index] && backgroundOpacity == OPAQUE
            else backgroundUrl == old(backgroundUrl) && backgroundOpacity == old(backgroundOpacity))
    {
      EndIdleMode();
      if currentActiveIndex == index {
        return;
      }
      Activate(index);
    }

    /** The first half of `mouseenter`: stops the idle timeline and timer and cancels the debounce timer in the slot. */
    method EndIdleMode()
      requires Valid()
      modifies this`idleAnimation, this`cellOpacity, this`counterHidden, this`idleTimer, this`pendingIdleTimers
      modifies this`isIdle, this`pendingDebounces
      ensures Valid()
      ensures idleAnimation == None && idleTimer == None && pendingIdleTimers == {} && !isIdle && NothingHidden()
      ensures pendingDebounces == Cancel(old(pendingDebounces), debounceTimeout)
      ensures old(idleAnimation).None? ==> cellOpacity == old(cellOpacity) && counterHidden == old(counterHidden)
    {
      StopIdleAnimation();
      StopIdleTimer();
      isIdle := false;
      CancelDebounce();
    }

    /** `if (this.debounceTimeout) clearTimeout(this.debounceTimeout)`: the slot itself is left as it is. */
    method CancelDebounce()
      requires Valid()
      modifies this`pendingDebounces
      ensures Valid()
      ensures pendingDebounces == Cancel(old(pendingDebounces), debounceTimeout)
    {
      if debounceTimeout.Some? {
        pendingDebounces := pendingDebounces - {debounceTimeout.value};
      }
    }

    /** The second half of `mouseenter` for an item that is not the active one. */
    method Activate(index: nat)
      requires Valid() && index < |originalTexts| && currentActiveIndex != index
      requires idleAnimation == None && idleTimer == None && pendingIdleTimers == {} && !isIdle
      modifies this`currentActiveIndex, this`hasActive, this`active
      modifies this`scrambling, this`backgroundUrl, this`backgroundOpacity
      ensures Valid()
      ensures currentActiveIndex == index && hasActive
      ensures forall i :: 0 <= i < |active| ==> (active[i] <==> i == index)
      ensures scrambling == old(scrambling)[index := Repeat(|originalTexts[index]|, true)]
      ensures if Truthy(imageUrls[index]) && hasBackground
              then backgroundUrl == imageUrls[index] && backgroundOpacity == OPAQUE
              else backgroundUrl == old(backgroundUrl) && backgroundOpacity == old(backgroundOpacity)
    {
      UpdateActiveStates(index);
      StartScrambles(index);
      if Truthy(imageUrls[index]) {
        ShowBackgroundImage(imageUrls[index].value);
      }
    }

    /**
     * The pointer leaves item `index`: a 50 ms debounce timer is armed to restore the item's
     * texts and its handle overwrites the slot. An earlier debounce timer is not cancelled.
     */
    method MouseLeave(index: nat)
      requires Valid() && index < |originalTexts|
      requires PanelHiddenWhenNothingActive()
      modifies this`debounceTimeout, this`pendingDebounces, this`nextTimerId
      ensures Valid()
      ensures PanelHiddenWhenNothingActive()
      ensures old(nextTimerId) !in old(pendingDebounces)
      ensures pendingDebounces == old(pendingDebounces)[old(nextTimerId) := index]
      ensures debounceTimeout == Some(old(nextTimerId)) && nextTimerId == old(nextTimerId) + 1
    {
      debounceTimeout := Some(nextTimerId);
      pendingDebounces := pendingDebounces[nextTimerId := index];
      nextTimerId := nextTimerId + 1;
    }

    /** A debounce timer fires: the tweens on its item's slots are killed and their original texts written back. */
    method DebounceFires(id: TimerId)
      requires Valid() && id in pendingDebounces
      requires PanelHiddenWhenNothingActive()
      modifies this`pendingDebounces, this`texts, this`scrambling
      ensures Valid()
      ensures PanelHiddenWhenNothingActive()
      ensures pendingDebounces == old(pendingDebounces) - {id}
      ensures var item := old(pendingDebounces)[id];
        && texts == old(texts)[item := originalTexts[item]]
        && scrambling == old(scrambling)[item := Repeat(|originalTexts[item]|, false)]
    {
      var item := pendingDebounces[id];
      pendingDebounces := pendingDebounces - {id};
      RestoreTexts(item);
    }

    /**
     * The pointer leaves the whole container: the debounce timer in the slot is cancelled,
     * every state is cleared and every text restored, the panel is hidden and the idle timer
     * is re-armed, leaving exactly one idle timer pending.
     */
    method ContainerMouseLeave()
      requires Valid()
      requires PanelHiddenWhenNothingActive()
      modifies this`pendingDebounces, this`currentActiveIndex, this`hasActive, this`active, this`texts
      modifies this`scrambling, this`idleTimer, this`pendingIdleTimers, this`nextTimerId, this`backgroundOpacity
      ensures Valid()
      ensures PanelHiddenWhenNothingActive()
      ensures pendingDebounces == Cancel(old(pendingDebounces), debounceTimeout)
      ensures currentActiveIndex == -1 && !hasActive
      ensures active == Repeat(|originalTexts|, false)
      ensures texts == originalTexts && scrambling == Unscrambled()
      ensures backgroundOpacity == if hasBackground then 0 else old(backgroundOpacity)
      ensures nextTimerId == old(nextTimerId) + 2
      ensures idleTimer == Some(old(nextTimerId) + 1) && pendingIdleTimers == {old(nextTimerId) + 1}
    {
      CancelDebounce();
      ClearActiveStates();
      HideBackgroundImage();
      StartIdleTimer();
    }

    /**
     * The idle timer fires: when nothing is active, idle mode begins and the idle timeline
     * is started (or the existing one kept). A pending idle timer implies that nothing is
     * active, so the callback's other branch, kept here as the source has it, never runs.
     */
    method IdleTimerFires(id: TimerId)
      requires Valid() && id in pendingIdleTimers
      requires PanelHiddenWhenNothingActive()
      modifies this`pendingIdleTimers, this`isIdle, this`idleAnimation
      ensures Valid()
      ensures PanelHiddenWhenNothingActive()
      ensures pendingIdleTimers == {}
      ensures old(currentActiveIndex) == -1
      ensures old(currentActiveIndex) == -1 ==>
        && isIdle
        && idleAnimation == (if old(idleAnimation).Some? then old(idleAnimation) else Some(IdleTimeline(|originalTexts|)))
      ensures old(currentActiveIndex) != -1 ==> isIdle == old(isIdle) && idleAnimation == old(idleAnimation)
    {
      pendingIdleTimers := pendingIdleTimers - {id};
      if currentActiveIndex == -1 {
        isIdle := true;
        StartIdleAnimation();
      }
    }

    /** Step `k` of the running idle timeline takes effect (a tween is represented by its end value). */
    method IdleStepFires(k: nat)
      requires Valid() && idleAnimation.Some? && k < |idleAnimation.value|
      requires PanelHiddenWhenNothingActive()
      modifies this`counterHidden, this`cellOpacity
      ensures Valid()
      ensures PanelHiddenWhenNothingActive()
      ensures var s := StepOf(idleAnimation.value, |originalTexts|, k);
        if s.CounterToggle?
        then counterHidden == old(counterHidden)[s.row := s.hidden] && cellOpacity == old(cellOpacity)
        else
          && counterHidden == old(counterHidden)
          && cellOpacity == old(cellOpacity)[s.row := old(cellOpacity)[s.row][s.column := s.opacity]]
    {
      var s := StepOf(idleAnimation.value, |originalTexts|, k);
      if s.CounterToggle? {
        counterHidden := counterHidden[s.row := s.hidden];
      } else {
        cellOpacity := cellOpacity[s.row := cellOpacity[s.row][s.column := s.opacity]];
      }
    }

    /** A frame of the scramble tween on a slot shows an interim string. */
    method ScrambleTick(item: nat, slot: nat, interim: string)
      requires Valid() && item < |texts| && slot < |texts[item]| && scrambling[item][slot]
      requires PanelHiddenWhenNothingActive()
      modifies this`texts
      ensures Valid()
      ensures PanelHiddenWhenNothingActive()
      ensures texts == old(texts)[item := old(texts)[item][slot := interim]]
    {
      texts := texts[item := texts[item][slot := interim]];
    }

    /** The scramble tween on a slot completes on its target, the slot's original text. */
    method ScrambleCompletes(item: nat, slot: nat)
      requires Valid() && item < |texts| && slot < |texts[item]| && scrambling[item][slot]
      requires PanelHiddenWhenNothingActive()
      modifies this`texts, this`scrambling
      ensures Valid()
      ensures PanelHiddenWhenNothingActive()
      ensures texts == old(texts)[item := old(texts)[item][slot := originalTexts[item][slot]]]
      ensures scrambling == old(scrambling)[item := old(scrambling)[item][slot := false]]
    {
      texts := texts[item := texts[item][slot := originalTexts[item][slot]]];
      scrambling := scrambling[item := scrambling[item][slot := false]];
    }
  }

  /**
   * The idle timer is never armed or pending while an item is active, so when it fires the
   * callback's `currentActiveIndex === -1` test always passes.
   */
  lemma NoIdleTimerWhileActive(m: AnimationManager)
    requires m.Valid()
    ensures m.idleTimer.Some? || m.pendingIdleTimers != {} ==> m.currentActiveIndex == -1
  {
  }

  /** While the idle timeline runs or an idle timer is armed, the background panel is transparent. */
  lemma PanelHiddenWhileIdle(m: AnimationManager)
    requires m.Valid() && m.PanelHiddenWhenNothingActive() && m.hasBackground
    ensures m.idleAnimation.Some? || m.idleTimer.Some? || m.pendingIdleTimers != {} ==> m.backgroundOpacity == 0
  {
    NoIdleTimerWhileActive(m);
  }

  /**
   * Two `mouseleave` events in a row overwrite the debounce handle: the later `mouseenter`
   * cancels only the second timer, and the first one is still pending.
   */
  method OverwrittenDebounceSurvives()
  {
    var m := new AnimationManager([ItemMarkup(["Artist A"], None), ItemMarkup(["Artist B"], Some("b.jpg"))], true);
    m.InitializeAnimations();
    var first := m.nextTimerId;
    m.MouseLeave(0);
    var second := m.nextTimerId;
    m.MouseLeave(1);
    m.MouseEnter(1);
    assert first in m.pendingDebounces && second !in m.pendingDebounces;
    assert m.active == [false, true] && m.backgroundUrl == Some("b.jpg");
  }
}
