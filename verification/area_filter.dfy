/**
 The helper's area filter (`filterFeed`): an order-preserving selection of the
 feed items aimed at one of the configured counties, at no area at all, or (when
 `alwaysNational` is set) at the whole country.
 */
module AreaFilter {
  import opened Feed

  /** The fixed `Description` of the national-scope area. */
  const National := "Sverige"

  /** True when the configuration places no area restriction at all. */
  predicate Unrestricted(cfg: Config) {
    cfg.areas.None? || |cfg.areas.value| < 1
  }

  /** One area admits its item: a listed county, or the nation when
      `alwaysNational` is set. */
  predicate AreaMatches(a: Area, allow: seq<string>, alwaysNational: bool) {
    || (a.kind == "County" && a.description in allow)
    || (alwaysNational && a.kind == "Country" && a.description == National)
  }

  /** An item passes a non-empty allowlist: it has no areas, or one of its
      areas matches. */
  predicate Keep(item: Item, allow: seq<string>, alwaysNational: bool) {
    match item.areas
    case None => true
    case Some(targets) =>
      |targets| == 0 || exists j :: 0 <= j < |targets| && AreaMatches(targets[j], allow, alwaysNational)
  }

  /** The items of `items` that `Keep` admits, in their original order. */
  function Select(items: seq<Item>, allow: seq<string>, alwaysNational: bool): (r: seq<Item>)
    ensures |r| <= |items|
    ensures forall i :: 0 <= i < |r| ==> Keep(r[i], allow, alwaysNational)
  {
    if |items| == 0 then []
    else
      var last := items[|items| - 1];
      Select(items[..|items| - 1], allow, alwaysNational)
        + (if Keep(last, allow, alwaysNational) then [last] else [])
  }

  /** The admission rule as the item sees it, for either kind of configuration. */
  predicate Admitted(item: Item, cfg: Config) {
    Unrestricted(cfg) || Keep(item, cfg.areas.value, cfg.alwaysNational)
  }

  /** `filterFeed`: the whole feed when there is no allowlist, else the
      selection `Select` makes. */
  function FilterFeed(items: seq<Item>, cfg: Config): (r: seq<Item>)
    ensures Unrestricted(cfg) ==> r == items
    ensures |r| <= |items|
    ensures forall i :: 0 <= i < |r| ==> Admitted(r[i], cfg)
  {
    if Unrestricted(cfg) then items
    else Select(items, cfg.areas.value, cfg.alwaysNational)
  }

  /** `s` occurs in `t` in order, possibly with gaps (greedy match from the back). */
  predicate SubsequenceOf<T(==)>(s: seq<T>, t: seq<T>)
    decreases |t|
  {
    if |t| == 0 then |s| == 0
    else if |s| > 0 && s[|s| - 1] == t[|t| - 1] then SubsequenceOf(s[..|s| - 1], t[..|t| - 1])
    else SubsequenceOf(s, t[..|t| - 1])
  }

  lemma {:induction false} SelectIsSubsequence(items: seq<Item>, allow: seq<string>, alwaysNational: bool)
    ensures SubsequenceOf(Select(items, allow, alwaysNational), items)
    decreases |items|
  {
    if |items| > 0 {
      var init := items[..|items| - 1];
      var last := items[|items| - 1];
      SelectIsSubsequence(init, allow, alwaysNational);
      var r := Select(items, allow, alwaysNational);
      if Keep(last, allow, alwaysNational) {
        assert r[..|r| - 1] == Select(init, allow, alwaysNational);
      } else {
        assert r == Select(init, allow, alwaysNational);
        SubsequenceOfNotLast(r, init, last);
      }
    }
  }

  /** A subsequence of `t` that does not end in `last` stays one of `t + [last]`. */
  lemma {:induction false} SubsequenceOfNotLast<T>(s: seq<T>, t: seq<T>, last: T)
    requires SubsequenceOf(s, t)
    requires |s| == 0 || s[|s| - 1] != last
    ensures SubsequenceOf(s, t + [last])
  {
    assert (t + [last])[..|t|] == t;
  }

  /** The output of the filter is the input with some items removed, in order. */
  lemma FilterIsSubsequence(items: seq<Item>, cfg: Config)
    ensures SubsequenceOf(FilterFeed(items, cfg), items)
  {
    if Unrestricted(cfg) {
      SubsequenceReflexive(items);
    } else {
      SelectIsSubsequence(items, cfg.areas.value, cfg.alwaysNational);
    }
  }

  lemma {:induction false} SubsequenceReflexive<T>(s: seq<T>)
    ensures SubsequenceOf(s, s)
    decreases |s|
  {
    if |s| > 0 {
      SubsequenceReflexive(s[..|s| - 1]);
    }
  }

  /** Every occurrence of an admitted item is kept and every occurrence of
      another item is dropped: counted with multiplicity. */
  lemma {:induction false} SelectCounts(items: seq<Item>, allow: seq<string>, alwaysNational: bool, x: Item)
    ensures multiset(Select(items, allow, alwaysNational))[x]
         == if Keep(x, allow, alwaysNational) then multiset(items)[x] else 0
    decreases |items|
  {
    if |items| > 0 {
      var init := items[..|items| - 1];
      var last := items[|items| - 1];
      SelectCounts(init, allow, alwaysNational, x);
      assert items == init + [last];
    }
  }

  /** An item is in the filter's output exactly when it is in the input and
      the configuration admits it. */
  lemma FilterMembership(items: seq<Item>, cfg: Config, x: Item)
    ensures x in FilterFeed(items, cfg) <==> x in items && Admitted(x, cfg)
  {
    if !Unrestricted(cfg) {
      SelectCounts(items, cfg.areas.value, cfg.alwaysNational, x);
    }
  }

  /** The filter keeps every admitted item as many times as it occurs, and
      drops every other item. */
  lemma FilterCounts(items: seq<Item>, cfg: Config, x: Item)
    ensures multiset(FilterFeed(items, cfg))[x] == if Admitted(x, cfg) then multiset(items)[x] else 0
  {
    if !Unrestricted(cfg) {
      SelectCounts(items, cfg.areas.value, cfg.alwaysNational, x);
    }
  }

  /** Selecting from a selection changes nothing. */
  lemma {:induction false} SelectIdempotent(items: seq<Item>, allow: seq<string>, alwaysNational: bool)
    ensures Select(Select(items, allow, alwaysNational), allow, alwaysNational)
         == Select(items, allow, alwaysNational)
    decreases |items|
  {
    if |items| > 0 {
      var init, last := items[..|items| - 1], items[|items| - 1];
      var sel := Select(init, allow, alwaysNational);
      SelectIdempotent(init, allow, alwaysNational);
      if Keep(last, allow, alwaysNational) {
        assert Select(items, allow, alwaysNational) == sel + [last];
        SelectAppend(sel, last, allow, alwaysNational);
      } else {
        assert Select(items, allow, alwaysNational) == sel;
      }
    }
  }

  /** Selecting from a sequence extended by one item extends the selection
      by that item exactly when it is admitted. */
  lemma SelectAppend(init: seq<Item>, last: Item, allow: seq<string>, alwaysNational: bool)
    ensures Select(init + [last], allow, alwaysNational)
         == Select(init, allow, alwaysNational) + (if Keep(last, allow, alwaysNational) then [last] else [])
  {
    assert (init + [last])[..|init|] == init;
  }

  /** Filtering twice with the same configuration is filtering once. */
  lemma FilterIdempotent(items: seq<Item>, cfg: Config)
    ensures FilterFeed(FilterFeed(items, cfg), cfg) == FilterFeed(items, cfg)
  {
    if !Unrestricted(cfg) {
      SelectIdempotent(items, cfg.areas.value, cfg.alwaysNational);
    }
  }

  /** An item without areas (undefined, null or empty) is never filtered out. */
  lemma NoAreaAlwaysKept(items: seq<Item>, cfg: Config, x: Item)
    requires x in items
    requires x.areas.None? || |x.areas.value| == 0
    ensures x in FilterFeed(items, cfg)
  {
    FilterMembership(items, cfg, x);
  }

  /** Under a non-empty allowlist, an item aimed at areas is kept exactly when
      one area is a listed county or, with `alwaysNational`, the nation. */
  lemma RestrictedMembership(items: seq<Item>, cfg: Config, x: Item)
    requires !Unrestricted(cfg)
    requires x in items && x.areas.Some? && |x.areas.value| > 0
    ensures x in FilterFeed(items, cfg) <==>
      exists j :: 0 <= j < |x.areas.value| &&
        (|| (x.areas.value[j].kind == "County" && x.areas.value[j].description in cfg.areas.value)
         || (cfg.alwaysNational && x.areas.value[j] == Area("Country", National)))
  {
    FilterMembership(items, cfg, x);
  }

  /** An item aimed only at the nation passes a non-empty allowlist exactly
      when `alwaysNational` is set, whatever counties are listed. */
  lemma NationalOnlyItem(items: seq<Item>, cfg: Config, x: Item)
    requires !Unrestricted(cfg)
    requires x in items && x.areas == Some([Area("Country", National)])
    ensures x in FilterFeed(items, cfg) <==> cfg.alwaysNational
  {
    FilterMembership(items, cfg, x);
    assert AreaMatches(x.areas.value[0], cfg.areas.value, cfg.alwaysNational) <==> cfg.alwaysNational;
  }

  /** The module's default configuration (an empty allowlist) keeps every
      item of every feed. */
  lemma DefaultConfigKeepsAll(items: seq<Item>)
    ensures FilterFeed(items, DefaultConfig) == items
  {
  }

  /** With the allowlist ["Stockholm"] and `alwaysNational` set, a Stockholm
      item and a national item are kept and an Uppsala item is dropped. */
  lemma StockholmScenario()
    ensures
      var a := Item("A", "", "", 0, 0, None, Some([Area("County", "Stockholm")]));
      var b := Item("B", "", "", 0, 0, None, Some([Area("County", "Uppsala")]));
      var c := Item("C", "", "", 0, 0, None, Some([Area("Country", National)]));
      FilterFeed([a, b, c], Config(Some(["Stockholm"]), true, 7, false)) == [a, c]
  {
    var a := Item("A", "", "", 0, 0, None, Some([Area("County", "Stockholm")]));
    var b := Item("B", "", "", 0, 0, None, Some([Area("County", "Uppsala")]));
    var c := Item("C", "", "", 0, 0, None, Some([Area("Country", National)]));
    var allow := ["Stockholm"];
    assert AreaMatches(a.areas.value[0], allow, true);
    assert !Keep(b, allow, true) by {
      assert "Uppsala" != "Stockholm";
    }
    assert AreaMatches(c.areas.value[0], allow, true);
    assert [a, b, c][..2] == [a, b];
    assert [a, b][..1] == [a];
    assert [a][..0] == [];
    assert Select([a], allow, true) == [a];
    assert Select([a, b], allow, true) == [a];
    assert Select([a, b, c], allow, true) == [a, c];
  }

  /** The loop `filterFeed` runs, kept in its original shape: for each item an
      `inc` flag raised by any (area, allowlist entry) pair that matches. */
  method FilterFeedLoop(resp: seq<Item>, cfg: Config) returns (feeds: seq<Item>)
    ensures feeds == FilterFeed(resp, cfg)
  {
    if cfg.areas.None? || |cfg.areas.value| < 1 {
      return resp;
    }
    var allow := cfg.areas.value;
    feeds := [];
    for ix := 0 to |resp|
      invariant feeds == Select(resp[..ix], allow, cfg.alwaysNational)
    {
      var inc := false;
      var feed := resp[ix];
      if feed.areas.None? || |feed.areas.value| == 0 {
        inc := true;
      } else {
        var areas := feed.areas.value;
        for ia := 0 to |areas|
          invariant inc <==> exists j :: 0 <= j < ia && AreaMatches(areas[j], allow, cfg.alwaysNational)
        {
          ghost var before := inc;
          for iad := 0 to |allow|
            invariant inc <==> before || (areas[ia].kind == "County" && areas[ia].description in allow[..iad])
          {
            assert allow[..iad + 1] == allow[..iad] + [allow[iad]];
            if areas[ia].kind == "County" && areas[ia].description == allow[iad] {
              inc := true;
            }
          }
          assert allow[..|allow|] == allow;
          if cfg.alwaysNational && areas[ia].kind == "Country" && areas[ia].description == National {
            inc := true;
          }
        }
      }
      assert resp[..ix + 1][..ix] == resp[..ix];
      if inc {
        feeds := feeds + [feed];
      }
    }
    assert resp[..|resp|] == resp;
  }
}
