/**
 The display module's rotation: on each UI tick it shows the item under a
 cursor into the last received feed and moves the cursor on, resetting it when
 it runs past the end or lands on a stale item; `NEW_FEED` and
 `SERVICE_FAILURE` notifications replace the feed or record a failure.
 */
module Rotator {
  import opened Feed

  /** The display module's fields: `loaded`, `currentFeed`,
      `currentFeedIndex` and `failure`. */
  datatype RotatorState = RotatorState(
    loaded: bool,
    feed: seq<Item>,
    index: nat,
    failure: Option<FailurePayload>)

  /** The state `start` leaves: nothing loaded, cursor at 0, no failure. */
  const Initial := RotatorState(false, [], 0, None)

  /** What a tick puts on screen: the loading text, the item at a position,
      or nothing. The "no messages younger than N days" text is built when the
      first item is stale but never attached to the returned element, so such
      a tick shows nothing, whatever `silent` says. */
  datatype Content = Loading | ShowItem(position: nat) | Blank

  /** One rendering: the content and the failure banner, if one is shown. */
  datatype Frame = Frame(content: Content, banner: Option<FailurePayload>)

  /** One tick: the state after it and what it rendered. */
  datatype Step = Step(next: RotatorState, frame: Frame)

  const MsPerDay := 24 * 60 * 60 * 1000

  /** An item is too old when both its publication and its last update lie
      strictly more than `oldest` days before `now`. */
  predicate Stale(item: Item, now: int, oldest: int) {
    now - item.published > oldest * MsPerDay && now - item.updated > oldest * MsPerDay
  }

  /** The cursor after the bounds reset at the start of a tick. */
  function Cursor(s: RotatorState): nat {
    if s.index >= |s.feed| then 0 else s.index
  }

  /** One call of `getDom` at time `now` (milliseconds). */
  function Tick(s: RotatorState, cfg: Config, now: int): (r: Step)
    ensures !s.loaded ==> r == Step(s, Frame(Loading, None))
    ensures s.loaded ==> r.frame.banner == s.failure && r.frame.content != Loading
    ensures r.next == s.(index := r.next.index)
    ensures s.loaded && |s.feed| == 0 ==> r.next.index == 0 && r.frame.content == Blank
    ensures s.loaded && |s.feed| > 0 ==> r.next.index <= |s.feed|
    ensures r.frame.content.ShowItem? ==>
              r.frame.content.position < |s.feed| && r.next.index == r.frame.content.position + 1
    ensures r.frame.content.ShowItem? && r.frame.content.position > 0 ==>
              r.frame.content.position == s.index && !Stale(s.feed[s.index], now, cfg.oldest)
    ensures s.loaded && |s.feed| > 0 && !r.frame.content.ShowItem? ==>
              r.next.index == 0 && Cursor(s) == 0 && Stale(s.feed[0], now, cfg.oldest)
  {
    if !s.loaded then Step(s, Frame(Loading, None))
    else
      var i := Cursor(s);
      if |s.feed| == 0 then Step(s.(index := 0), Frame(Blank, s.failure))
      else
        var tooOld := Stale(s.feed[i], now, cfg.oldest);
        var noFeedsToDisplay := tooOld && i == 0;
        var shown := if tooOld then 0 else i;
        if noFeedsToDisplay then Step(s.(index := 0), Frame(Blank, s.failure))
        else Step(s.(index := shown + 1), Frame(ShowItem(shown), s.failure))
  }

  /** `socketNotificationReceived` of the display module. */
  function Receive(s: RotatorState, n: Notification): (r: RotatorState)
    ensures n.NewFeed? ==> r == RotatorState(true, n.items, s.index, None)
    ensures n.ServiceFailure? ==> r == s.(failure := Some(n.failure))
    ensures !n.NewFeed? && !n.ServiceFailure? ==> r == s
  {
    match n
    case NewFeed(items) => s.(loaded := true, failure := None, feed := items)
    case ServiceFailure(f) => s.(failure := Some(f))
    case _ => s
  }

  // ---------------------------------------------------------------- single ticks

  /** A cursor at or past the end behaves exactly like a cursor at 0. */
  lemma BoundsReset(s: RotatorState, cfg: Config, now: int)
    requires s.loaded && s.index >= |s.feed|
    ensures Tick(s, cfg, now) == Tick(s.(index := 0), cfg, now)
  {
  }

  /** A stale item under a cursor at 0 shows no item (the unattached
      placeholder leaves the screen empty) and leaves the cursor at 0. */
  lemma StaleAtStartShowsNothing(s: RotatorState, cfg: Config, now: int)
    requires s.loaded && |s.feed| > 0 && Cursor(s) == 0
    requires Stale(s.feed[0], now, cfg.oldest)
    ensures Tick(s, cfg, now) == Step(s.(index := 0), Frame(Blank, s.failure))
  {
  }

  /** The `silent` setting changes nothing a tick does: the only text it
      guards is never attached. */
  lemma SilentHasNoEffect(s: RotatorState, cfg: Config, now: int)
    ensures Tick(s, cfg.(silent := true), now) == Tick(s, cfg.(silent := false), now)
  {
  }

  /** A stale item under a cursor past 0 sends the cursor back to 0 and shows
      item 0 in the same tick, without looking at item 0's age. */
  lemma StaleElsewhereShowsFirst(s: RotatorState, cfg: Config, now: int)
    requires s.loaded && 0 < s.index < |s.feed|
    requires Stale(s.feed[s.index], now, cfg.oldest)
    ensures Tick(s, cfg, now) == Step(s.(index := 1), Frame(ShowItem(0), s.failure))
  {
  }

  /** A fresh item under the cursor is shown and the cursor moves past it. */
  lemma FreshAdvances(s: RotatorState, cfg: Config, now: int)
    requires s.loaded && |s.feed| > 0
    requires !Stale(s.feed[Cursor(s)], now, cfg.oldest)
    ensures Tick(s, cfg, now) == Step(s.(index := Cursor(s) + 1), Frame(ShowItem(Cursor(s)), s.failure))
  {
  }

  // ---------------------------------------------------------------- many ticks

  /** The ticks at the times `nows`: the final state and the frames rendered. */
  function Run(s: RotatorState, cfg: Config, nows: seq<int>): (RotatorState, seq<Frame>)
    decreases |nows|
  {
    if |nows| == 0 then (s, [])
    else
      var step := Tick(s, cfg, nows[0]);
      var rest := Run(step.next, cfg, nows[1..]);
      (rest.0, [step.frame] + rest.1)
  }

  /** Every item is fresh at every one of the times. */
  predicate AllFresh(feed: seq<Item>, cfg: Config, nows: seq<int>) {
    forall t, j :: 0 <= t < |nows| && 0 <= j < |feed| ==> !Stale(feed[j], nows[t], cfg.oldest)
  }

  lemma RunLength(s: RotatorState, cfg: Config, nows: seq<int>)
    ensures |Run(s, cfg, nows).1| == |nows|
    decreases |nows|
  {
    if |nows| > 0 {
      RunLength(Tick(s, cfg, nows[0]).next, cfg, nows[1..]);
    }
  }

  /** With every item fresh, the ticks show the items cyclically in feed
      order, starting at the cursor. */
  lemma {:induction false} RotationInOrder(s: RotatorState, cfg: Config, nows: seq<int>)
    requires s.loaded && |s.feed| > 0 && s.index <= |s.feed|
    requires AllFresh(s.feed, cfg, nows)
    ensures |Run(s, cfg, nows).1| == |nows|
    ensures forall k :: 0 <= k < |nows| ==>
              Run(s, cfg, nows).1[k].content == ShowItem((s.index + k) % |s.feed|)
    decreases |nows|
  {
    RunLength(s, cfg, nows);
    if |nows| > 0 {
      var n := |s.feed|;
      var step := Tick(s, cfg, nows[0]);
      FreshAdvances(s, cfg, nows[0]);
      var s' := step.next;
      assert Cursor(s) == s.index % n;
      assert AllFresh(s'.feed, cfg, nows[1..]);
      RotationInOrder(s', cfg, nows[1..]);
      var frames := Run(s, cfg, nows).1;
      assert frames == [step.frame] + Run(s', cfg, nows[1..]).1;
      forall k | 0 < k < |nows|
        ensures frames[k].content == ShowItem((s.index + k) % n)
      {
        assert frames[k] == Run(s', cfg, nows[1..]).1[k - 1];
        ShiftMod(s.index, k, n);
      }
    }
  }

  /** `(i % n + 1 + (k - 1)) % n == (i + k) % n`. */
  lemma ShiftMod(i: nat, k: nat, n: nat)
    requires n > 0 && i <= n && k > 0
    ensures (i % n + 1 + (k - 1)) % n == (i + k) % n
  {
    if i == n {
      assert i % n == 0;
      AddPeriodMod(k, n);
    } else {
      assert i % n == i;
    }
  }

  lemma AddPeriodMod(k: nat, n: nat)
    requires n > 0
    ensures (n + k) % n == k % n
  {
    var q, r := k / n, k % n;
    assert k == q * n + r;
    assert n + k == (q + 1) * n + r;
    LemmaModUnique(n + k, n, q + 1, r);
  }

  /** The remainder is the only `r` in `0..n` with `a == q * n + r`. */
  lemma LemmaModUnique(a: int, n: int, q: int, r: int)
    requires n > 0 && 0 <= r < n && a == q * n + r
    ensures a % n == r
  {
    var q', r' := a / n, a % n;
    assert a == q' * n + r';
    var d := q - q';
    assert d * n == r' - r by {
      assert q * n - q' * n == (q - q') * n;
    }
    if d >= 1 {
      MulAtLeast(d, n);
    } else if d <= -1 {
      MulAtLeast(-d, n);
    }
  }

  lemma MulAtLeast(d: int, n: int)
    requires d >= 1 && n > 0
    ensures d * n >= n
  {
    assert d * n == (d - 1) * n + n;
  }

  /** With every item fresh and the cursor at 0, as many ticks as there are
      items show each item exactly once, in feed order. */
  lemma FullPassVisitsEachOnce(s: RotatorState, cfg: Config, nows: seq<int>)
    requires s.loaded && |s.feed| > 0 && s.index == 0
    requires |nows| == |s.feed|
    requires AllFresh(s.feed, cfg, nows)
    ensures |Run(s, cfg, nows).1| == |s.feed|
    ensures forall k :: 0 <= k < |nows| ==> Run(s, cfg, nows).1[k].content == ShowItem(k)
    ensures Run(s, cfg, nows).0.index == |s.feed|
  {
    RotationInOrder(s, cfg, nows);
    FullPassEndsAtLength(s, cfg, nows);
    forall k | 0 <= k < |nows|
      ensures Run(s, cfg, nows).1[k].content == ShowItem(k)
    {
      LemmaModUnique(k, |s.feed|, 0, k);
    }
  }

  lemma {:induction false} FullPassEndsAtLength(s: RotatorState, cfg: Config, nows: seq<int>)
    requires s.loaded && s.index + |nows| == |s.feed| && |nows| > 0
    requires AllFresh(s.feed, cfg, nows)
    ensures Run(s, cfg, nows).0.index == |s.feed|
    decreases |nows|
  {
    FreshAdvances(s, cfg, nows[0]);
    var s' := Tick(s, cfg, nows[0]).next;
    if |nows| > 1 {
      assert AllFresh(s'.feed, cfg, nows[1..]);
      FullPassEndsAtLength(s', cfg, nows[1..]);
    }
  }

  /** Once the cursor sits at 0 on a stale first item, every later tick shows
      no item and the cursor never moves. */
  lemma {:induction false} StaleFirstItemHoldsBlank(s: RotatorState, cfg: Config, nows: seq<int>)
    requires s.loaded && |s.feed| > 0 && s.index == 0
    requires forall t :: 0 <= t < |nows| ==> Stale(s.feed[0], nows[t], cfg.oldest)
    ensures Run(s, cfg, nows).0 == s
    ensures forall k :: 0 <= k < |Run(s, cfg, nows).1| ==>
              Run(s, cfg, nows).1[k] == Frame(Blank, s.failure)
    decreases |nows|
  {
    if |nows| > 0 {
      StaleAtStartShowsNothing(s, cfg, nows[0]);
      StaleFirstItemHoldsBlank(s, cfg, nows[1..]);
    }
  }

  /** The stale-cursor reset does not check item 0: with a stale item at
      position 1, a cursor at 1 shows item 0 and returns to 1 on every tick,
      even when item 0 is stale too, so a stale item stays on screen. */
  lemma {:induction false} StaleSecondItemRepeatsFirst(s: RotatorState, cfg: Config, nows: seq<int>)
    requires s.loaded && |s.feed| >= 2 && s.index == 1
    requires forall t :: 0 <= t < |nows| ==> Stale(s.feed[1], nows[t], cfg.oldest)
    ensures Run(s, cfg, nows).0 == s
    ensures forall k :: 0 <= k < |Run(s, cfg, nows).1| ==>
              Run(s, cfg, nows).1[k] == Frame(ShowItem(0), s.failure)
    decreases |nows|
  {
    if |nows| > 0 {
      StaleElsewhereShowsFirst(s, cfg, nows[0]);
      StaleSecondItemRepeatsFirst(s, cfg, nows[1..]);
    }
  }

  /** Until the first `NEW_FEED`, every tick from the state `start` leaves
      shows the loading text, without a banner, and the state stays put. */
  lemma {:induction false} InitialShowsLoading(cfg: Config, nows: seq<int>)
    ensures Run(Initial, cfg, nows).0 == Initial
    ensures forall k :: 0 <= k < |Run(Initial, cfg, nows).1| ==>
              Run(Initial, cfg, nows).1[k] == Frame(Loading, None)
    decreases |nows|
  {
    if |nows| > 0 {
      InitialShowsLoading(cfg, nows[1..]);
    }
  }

  // ---------------------------------------------------------------- notifications

  /** A failure notification changes only the banner: the next tick renders
      the same content and leaves the same cursor as without it. */
  lemma FailureKeepsRotation(s: RotatorState, cfg: Config, f: FailurePayload, now: int)
    ensures Tick(Receive(s, ServiceFailure(f)), cfg, now).frame.content == Tick(s, cfg, now).frame.content
    ensures Tick(Receive(s, ServiceFailure(f)), cfg, now).next
         == Tick(s, cfg, now).next.(failure := Some(f))
  {
  }

  /** The banner is shown exactly when a feed has arrived and a failure has
      been recorded; a failure before the first feed is never shown. */
  lemma BannerIffLoadedAndFailed(s: RotatorState, cfg: Config, now: int)
    ensures Tick(s, cfg, now).frame.banner.Some? <==> s.loaded && s.failure.Some?
  {
  }

  /** After a `NEW_FEED` the next tick shows no banner and no loading
      placeholder. */
  lemma NewFeedClearsBanner(s: RotatorState, cfg: Config, items: seq<Item>, now: int)
    ensures Tick(Receive(s, NewFeed(items)), cfg, now).frame.banner == None
    ensures Tick(Receive(s, NewFeed(items)), cfg, now).frame.content != Loading
  {
  }
}
