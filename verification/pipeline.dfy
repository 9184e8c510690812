/**
 The two halves together: a poll outcome the helper turns into a notification,
 which the display module receives before its next tick.
 */
module Pipeline {
  import opened Feed
  import AreaFilter
  import Helper
  import Rotator

  /** A failed poll leaves the rotation alone: the next tick shows what it
      would have shown without the poll, and only the banner changes. */
  lemma FailedPollKeepsRotation(s: Rotator.RotatorState, cfg: Config, outcome: Helper.FetchOutcome, now: int)
    requires !(outcome.Responded? && Helper.StatusOk(outcome.status) && outcome.body.Parsed?)
    ensures Rotator.Receive(s, Helper.GetFeed(cfg, outcome)).feed == s.feed
    ensures Rotator.Tick(Rotator.Receive(s, Helper.GetFeed(cfg, outcome)), cfg, now).frame.content
         == Rotator.Tick(s, cfg, now).frame.content
    ensures Rotator.Tick(Rotator.Receive(s, Helper.GetFeed(cfg, outcome)), cfg, now).next.index
         == Rotator.Tick(s, cfg, now).next.index
  {
    var n := Helper.GetFeed(cfg, outcome);
    Rotator.FailureKeepsRotation(s, cfg, n.failure, now);
  }

  /** After a successful poll, every item the display shows is one of the
      polled items that the area filter admits. */
  lemma ShownItemPassedFilter(s: Rotator.RotatorState, cfg: Config, status: nat, items: seq<Item>, now: int)
    requires Helper.StatusOk(status)
    ensures
      var s' := Rotator.Receive(s, Helper.GetFeed(cfg, Helper.Responded(status, Helper.Parsed(items))));
      var c := Rotator.Tick(s', cfg, now).frame.content;
      s'.loaded && s'.failure == None &&
      (c.ShowItem? ==> c.position < |s'.feed| && s'.feed[c.position] in items
                       && AreaFilter.Admitted(s'.feed[c.position], cfg))
  {
    var s' := Rotator.Receive(s, Helper.GetFeed(cfg, Helper.Responded(status, Helper.Parsed(items))));
    var c := Rotator.Tick(s', cfg, now).frame.content;
    if c.ShowItem? {
      AreaFilter.FilterMembership(items, cfg, s'.feed[c.position]);
    }
  }
}
