/** The forbet adapter (scrape/forbet.py): category ids from the tennis menu,
    winner-market tags from the category pages, single-contender odds from
    those tags, and the re-pairing of those odds into home/away pairs. */
module Forbet {
  import opened Wrappers
  import opened Seqs
  import opened Text
  import opened Scrape

  const CategoryUrlPrefix := "https://www.iforbet.pl/oferta/8/"
  const IdSeparator := "-"
  /** Menu blocks whose title mentions one of these contribute category ids. */
  const Tours: seq<string> := ["ATP", "WTA"]
  /** A category page whose third breadcrumb mentions one of these is skipped. */
  const PageExcluded: seq<string> := ["ITF", "Challenger", "Klasyfikacja"]
  /** The `data-gamename` of the match-winner market ("Zwycięzca"). */
  const WinnerGame := "Zwyci\U{0119}zca"

  // ---------------------------------------------------------------- category ids

  /** A "cat2 hide" block of the tennis menu: the text of its title span and
      the `id` attributes of its "cat3 hide" sub-blocks, in document order. */
  datatype CategoryBlock = CategoryBlock(title: string, subIds: seq<string>)

  predicate IsTourBlock(c: CategoryBlock) {
    ContainsAny(c.title, Tours)
  }

  function SubIds(c: CategoryBlock): seq<string> {
    c.subIds
  }

  /** The sub-block ids of the ATP and WTA blocks, in document order. */
  function TourSubIds(blocks: seq<CategoryBlock>): (r: seq<string>)
    ensures forall id :: id in r ==> exists k :: 0 <= k < |blocks| && IsTourBlock(blocks[k]) && id in blocks[k].subIds
    ensures forall k, id :: 0 <= k < |blocks| && IsTourBlock(blocks[k]) && id in blocks[k].subIds ==> id in r
  {
    var tours := Filter(blocks, IsTourBlock);
    var r := Concat(Map(tours, SubIds));
    assert forall k :: 0 <= k < |tours| ==> Map(tours, SubIds)[k] == tours[k].subIds;
    forall id | id in r
      ensures exists k :: 0 <= k < |blocks| && IsTourBlock(blocks[k]) && id in blocks[k].subIds
    {
      var t :| 0 <= t < |tours| && id in Map(tours, SubIds)[t];
      var k :| 0 <= k < |blocks| && blocks[k] == tours[t];
    }
    forall k, id | 0 <= k < |blocks| && IsTourBlock(blocks[k]) && id in blocks[k].subIds
      ensures id in r
    {
      var t :| 0 <= t < |tours| && tours[t] == blocks[k];
      assert id in Map(tours, SubIds)[t];
    }
    r
  }

  /** Collecting the ids block by block: the ids of two consecutive runs of
      blocks are those of the first run followed by those of the second. */
  lemma TourSubIdsOrder(a: seq<CategoryBlock>, b: seq<CategoryBlock>)
    ensures TourSubIds(a + b) == TourSubIds(a) + TourSubIds(b)
  {
    var ta, tb := Filter(a, IsTourBlock), Filter(b, IsTourBlock);
    FilterConcat(a, b, IsTourBlock);
    MapConcat(ta, tb, SubIds);
    ConcatAppend(Map(ta, SubIds), Map(tb, SubIds));
  }

  /** One block contributes all its sub-block ids, in order, if its title
      names a tour, and nothing otherwise. */
  lemma TourSubIdsSingle(c: CategoryBlock)
    ensures TourSubIds([c]) == if IsTourBlock(c) then c.subIds else []
  {
    assert [c][1..] == [];
    if IsTourBlock(c) {
      assert Filter([c], IsTourBlock) == [c];
      assert Map([c], SubIds) == [c.subIds];
      assert Concat([c.subIds]) == c.subIds + Concat([c.subIds][1..]);
      assert [c.subIds][1..] == [];
    } else {
      assert Filter([c], IsTourBlock) == [];
    }
  }

  /** `int(div_id.split("-")[-1])`. */
  function ParseCategoryId(divId: string): (r: Result<nat, Error>)
    ensures r.Success? <==> |LastSegment(divId, IdSeparator)| > 0 && AllDigits(LastSegment(divId, IdSeparator))
    ensures r.Success? ==> DigitsValue(LastSegment(divId, IdSeparator)) == r.value
    ensures r.Failure? ==> r.error == NotAnInteger(LastSegment(divId, IdSeparator))
  {
    var tail := LastSegment(divId, IdSeparator);
    match ParseNat(tail)
    case None => Failure(NotAnInteger(tail))
    case Some(n) => Success(n)
  }

  /** `_get_cat_ids` once the menu is decoded: the ids of the ATP and WTA
      sub-blocks in document order; a malformed id raises. */
  function CategoryIds(blocks: seq<CategoryBlock>): (r: Result<seq<nat>, Error>)
    ensures r.Success? ==> |r.value| == |TourSubIds(blocks)|
    ensures r.Success? ==> forall k :: 0 <= k < |r.value| ==>
      ParseCategoryId(TourSubIds(blocks)[k]) == Success(r.value[k])
    ensures r.Failure? <==> exists k :: 0 <= k < |TourSubIds(blocks)| && ParseCategoryId(TourSubIds(blocks)[k]).Failure?
    ensures r.Failure? ==> exists k :: 0 <= k < |TourSubIds(blocks)| && ParseCategoryId(TourSubIds(blocks)[k]) == Failure(r.error)
                                       && forall j :: 0 <= j < k ==> ParseCategoryId(TourSubIds(blocks)[j]).Success?
  {
    MapAll(TourSubIds(blocks), ParseCategoryId)
  }

  /** The ids of two consecutive runs of blocks come out run by run. */
  lemma CategoryIdsOrder(a: seq<CategoryBlock>, b: seq<CategoryBlock>)
    requires CategoryIds(a).Success? && CategoryIds(b).Success?
    ensures CategoryIds(a + b) == Success(CategoryIds(a).value + CategoryIds(b).value)
  {
    TourSubIdsOrder(a, b);
    MapAllConcat(TourSubIds(a), TourSubIds(b), ParseCategoryId);
  }

  /** Blocks outside the ATP and WTA tours contribute nothing. */
  lemma CategoryIdsIgnoreOtherBlocks(blocks: seq<CategoryBlock>)
    ensures CategoryIds(Filter(blocks, IsTourBlock)) == CategoryIds(blocks)
  {
    FilterIdempotent(blocks, IsTourBlock);
  }

  /** The url of a category page; the id can be read back from its end. */
  function CategoryUrl(id: nat): (u: string)
    ensures |u| > |CategoryUrlPrefix| && u[..|CategoryUrlPrefix|] == CategoryUrlPrefix
    ensures ParseNat(u[|CategoryUrlPrefix|..]) == Some(id)
  {
    var u := CategoryUrlPrefix + ShowNat(id);
    ParseShow(id);
    assert u[|CategoryUrlPrefix|..] == ShowNat(id);
    u
  }

  // ---------------------------------------------------------------- category pages

  /** An "event-rate" tag: the `data-gamename`, `data-outcomename`,
      `data-outcomeodds` and `data-eventname` attributes. */
  datatype RateTag = RateTag(gameName: string, outcomeName: string, outcomeOdds: Price, eventName: string)

  /** A category page: the anchor texts of each "left outcomes-menu uppercase tl"
      div, and the page's "event-rate" tags, in document order. */
  datatype Page = Page(menus: seq<seq<string>>, rates: seq<RateTag>)

  /** `validate_soup`: the page has a second menu with a third anchor
      (the tournament breadcrumb), and that anchor names no excluded competition. */
  function ValidPage(p: Page): (ok: bool)
    ensures ok <==> |p.menus| >= 2 && |p.menus[1]| >= 3
                    && forall k :: 0 <= k < |PageExcluded| ==> !Contains(p.menus[1][2], PageExcluded[k])
    ensures |p.menus| >= 2 && |p.menus[1]| >= 3 && |p.menus[1][2]| < 3 ==> ok
  {
    if |p.menus| < 2 then false
    else if |p.menus[1]| < 3 then false
    else !ContainsAny(p.menus[1][2], PageExcluded)
  }

  predicate IsWinnerTag(t: RateTag) {
    t.gameName == WinnerGame
  }

  function PageWinnerTags(p: Page): seq<RateTag> {
    if ValidPage(p) then Filter(p.rates, IsWinnerTag) else []
  }

  /** `_get_event_divs` once the pages are decoded: the winner-market tags of
      the valid pages, page by page in document order. */
  function WinnerTags(pages: seq<Page>): (r: seq<RateTag>)
    ensures forall t :: t in r ==> IsWinnerTag(t) && exists k :: 0 <= k < |pages| && ValidPage(pages[k]) && t in pages[k].rates
    ensures forall k, t :: 0 <= k < |pages| && ValidPage(pages[k]) && t in pages[k].rates && IsWinnerTag(t) ==> t in r
  {
    var perPage := Map(pages, PageWinnerTags);
    var r := Concat(perPage);
    forall t | t in r
      ensures IsWinnerTag(t) && exists k :: 0 <= k < |pages| && ValidPage(pages[k]) && t in pages[k].rates
    {
      var k :| 0 <= k < |perPage| && t in perPage[k];
    }
    forall k, t | 0 <= k < |pages| && ValidPage(pages[k]) && t in pages[k].rates && IsWinnerTag(t)
      ensures t in r
    {
      assert t in perPage[k];
    }
    r
  }

  /** The tags of one page are its winner tags, in document order. */
  lemma WinnerTagsSingle(p: Page)
    ensures WinnerTags([p]) == PageWinnerTags(p)
  {
    assert Map([p], PageWinnerTags) == [PageWinnerTags(p)];
  }

  /** The tags of consecutive pages come out page by page. */
  lemma WinnerTagsOrder(a: seq<Page>, b: seq<Page>)
    ensures WinnerTags(a + b) == WinnerTags(a) + WinnerTags(b)
  {
    MapConcat(a, b, PageWinnerTags);
    ConcatAppend(Map(a, PageWinnerTags), Map(b, PageWinnerTags));
  }

  // ---------------------------------------------------------------- single odds

  /** A `ForbetOdds`: one contender's price and the label of its event. */
  datatype Entry = Entry(contender: string, odds: Price, event: string)

  /** The shared odds record of an entry. */
  function ToOdds(e: Entry): Odds {
    Odds(Forbet, e.contender, e.odds, Some(e.event))
  }

  /** The record of an entry is what the intended `ForbetOdds` constructor
      builds from its contender, price and event label. */
  lemma ToOddsConstructs(e: Entry)
    ensures NewOdds(Concrete(Forbet), e.contender, e.odds, Some(e.event)) == Success(ToOdds(e))
  {
  }

  predicate IsSingles(t: RateTag) {
    '/' !in t.outcomeName
  }

  function EntryOf(t: RateTag): Entry {
    Entry(t.outcomeName, t.outcomeOdds, t.eventName)
  }

  /** `getodds` once the tags are collected: one entry per tag, doubles
      (a "/" in the contender) dropped, order kept. */
  function GetOdds(tags: seq<RateTag>): (r: seq<Entry>)
    ensures |r| <= |tags|
    ensures forall k :: 0 <= k < |r| ==> '/' !in r[k].contender
    ensures forall k :: 0 <= k < |r| ==> exists j :: 0 <= j < |tags| && r[k] == EntryOf(tags[j])
    ensures forall j :: 0 <= j < |tags| && '/' !in tags[j].outcomeName ==> EntryOf(tags[j]) in r
  {
    var singles := Filter(tags, IsSingles);
    var r := Map(singles, EntryOf);
    forall k | 0 <= k < |r|
      ensures exists j :: 0 <= j < |tags| && r[k] == EntryOf(tags[j])
    {
      var j :| 0 <= j < |tags| && tags[j] == singles[k];
    }
    forall j | 0 <= j < |tags| && '/' !in tags[j].outcomeName
      ensures EntryOf(tags[j]) in r
    {
      var k :| 0 <= k < |singles| && singles[k] == tags[j];
      assert r[k] == EntryOf(tags[j]);
    }
    r
  }

  /** The odds of consecutive tag lists come out list by list. */
  lemma GetOddsOrder(a: seq<RateTag>, b: seq<RateTag>)
    ensures GetOdds(a + b) == GetOdds(a) + GetOdds(b)
  {
    FilterConcat(a, b, IsSingles);
    MapConcat(Filter(a, IsSingles), Filter(b, IsSingles), EntryOf);
  }

  /** Pruning doubles is idempotent: tags already free of doubles give the same odds. */
  lemma GetOddsIdempotent(tags: seq<RateTag>)
    ensures GetOdds(Filter(tags, IsSingles)) == GetOdds(tags)
  {
    FilterIdempotent(tags, IsSingles);
  }

  // ---------------------------------------------------------------- re-pairing

  /** `c` may complement `o`: `o.contender in c.event and o.contender != c.contender`. */
  predicate Complements(o: Entry, c: Entry) {
    Contains(c.event, o.contender) && o.contender != c.contender
  }

  predicate Increasing(s: seq<nat>) {
    forall a, b :: 0 <= a < b < |s| ==> s[a] < s[b]
  }

  /** The positions `lo` to `n - 1` outside `used`, in list order: the odds
      list once the entries at the positions in `used` were removed. */
  function Pool(lo: nat, n: nat, used: set<nat>): seq<nat>
    decreases n - lo
  {
    if lo >= n then []
    else if lo in used then Pool(lo + 1, n, used)
    else [lo] + Pool(lo + 1, n, used)
  }

  /** The pool lists exactly the positions outside `used`, in increasing order. */
  lemma {:induction false} PoolFacts(lo: nat, n: nat, used: set<nat>)
    ensures Increasing(Pool(lo, n, used))
    ensures forall k :: k in Pool(lo, n, used) <==> lo <= k < n && k !in used
    decreases n - lo
  {
    if lo < n {
      PoolFacts(lo + 1, n, used);
      if lo !in used {
        var rest := Pool(lo + 1, n, used);
        var r := [lo] + rest;
        assert Pool(lo, n, used) == r;
        forall a, b | 0 <= a < b < |r|
          ensures r[a] < r[b]
        {
          assert r[b] == rest[b - 1] && rest[b - 1] in rest;
          if a > 0 {
            assert r[a] == rest[a - 1];
          }
        }
        forall k
          ensures k in r <==> lo <= k < n && k !in used
        {
          assert k in r <==> k == lo || k in rest;
        }
      }
    }
  }

  /** Two increasing sequences with the same elements are equal. */
  lemma {:induction false} IncreasingUnique(s: seq<nat>, t: seq<nat>)
    requires Increasing(s) && Increasing(t)
    requires forall k :: k in s <==> k in t
    ensures s == t
    decreases |s|
  {
    if |s| > 0 {
      assert s[0] in t;
    }
    if |t| > 0 {
      assert t[0] in s;
    }
    if |s| > 0 && |t| > 0 {
      assert s[0] == t[0] by {
        var a :| 0 <= a < |t| && t[a] == s[0];
        var b :| 0 <= b < |s| && s[b] == t[0];
      }
      forall k
        ensures k in s[1..] <==> k in t[1..]
      {
        if k in s[1..] {
          var a :| 0 <= a < |s| - 1 && s[1..][a] == k;
          assert s[a + 1] == k && s[0] < k;
          assert k in s;
          var b :| 0 <= b < |t| && t[b] == k;
          assert b != 0;
          assert t[1..][b - 1] == k;
        }
        if k in t[1..] {
          var a :| 0 <= a < |t| - 1 && t[1..][a] == k;
          assert t[a + 1] == k && t[0] < k;
          assert k in t;
          var b :| 0 <= b < |s| && s[b] == k;
          assert b != 0;
          assert s[1..][b - 1] == k;
        }
      }
      IncreasingUnique(s[1..], t[1..]);
      assert s == [s[0]] + s[1..] && t == [t[0]] + t[1..];
    }
  }

  /** Python's `list.remove(x)` on a list of positions: drops the first
      occurrence of `x` (which the caller knows to be present). */
  function RemoveFirst(s: seq<nat>, x: nat): (r: seq<nat>)
    ensures x in s ==> multiset(r) == multiset(s) - multiset{x}
    decreases |s|
  {
    if |s| == 0 then []
    else
      assert s == [s[0]] + s[1..];
      if s[0] == x then s[1..]
      else [s[0]] + RemoveFirst(s[1..], x)
  }

  /** `list.remove(x)` cuts out the first occurrence of `x`, at position `i`,
      and keeps the elements before and after it in order. */
  lemma {:induction false} RemoveFirstAt(s: seq<nat>, x: nat, i: nat)
    requires i < |s| && s[i] == x
    requires forall j :: 0 <= j < i ==> s[j] != x
    ensures RemoveFirst(s, x) == s[..i] + s[i + 1..]
    decreases i
  {
    if i > 0 {
      var tail := s[1..];
      RemoveFirstAt(tail, x, i - 1);
      assert RemoveFirst(s, x) == [s[0]] + (tail[..i - 1] + tail[i..]) by {
        assert s[0] != x;
      }
      CutAfterHead(s, i);
    }
  }

  /** Cutting position `i - 1` out of the tail and putting the head back is cutting position `i` out. */
  lemma CutAfterHead(s: seq<nat>, i: nat)
    requires 0 < i < |s|
    ensures [s[0]] + (s[1..][..i - 1] + s[1..][i..]) == s[..i] + s[i + 1..]
  {
    assert s[..i] == [s[0]] + s[1..][..i - 1];
    assert s[1..][i..] == s[i + 1..];
  }

  /** Removing keeps the other elements, and from an increasing list removes `x` entirely. */
  lemma {:induction false} RemoveFirstFacts(s: seq<nat>, x: nat)
    ensures forall k :: k in RemoveFirst(s, x) ==> k in s
    ensures forall k :: k in s && k != x ==> k in RemoveFirst(s, x)
    ensures Increasing(s) ==> Increasing(RemoveFirst(s, x)) && x !in RemoveFirst(s, x)
    decreases |s|
  {
    if |s| > 0 {
      var tail := s[1..];
      assert s == [s[0]] + tail;
      forall k
        ensures k in s <==> k == s[0] || k in tail
      {
      }
      if Increasing(s) {
        forall b | 0 <= b < |tail|
          ensures s[0] < tail[b]
        {
          assert tail[b] == s[b + 1];
        }
        assert Increasing(tail) by {
          forall a, b | 0 <= a < b < |tail|
            ensures tail[a] < tail[b]
          {
            assert tail[a] == s[a + 1] && tail[b] == s[b + 1];
          }
        }
      }
      if s[0] != x {
        RemoveFirstFacts(tail, x);
        var rest := RemoveFirst(tail, x);
        var r := [s[0]] + rest;
        assert RemoveFirst(s, x) == r;
        forall k
          ensures k in r <==> k == s[0] || k in rest
        {
        }
        if Increasing(s) {
          forall a, b | 0 <= a < b < |r|
            ensures r[a] < r[b]
          {
            assert r[b] == rest[b - 1] && rest[b - 1] in rest;
            if a > 0 {
              assert r[a] == rest[a - 1];
            }
          }
        }
      }
    }
  }

  /** Entry `i`, not yet removed, is in the pool, and removing it from the
      pool is adding its position to the removed ones. */
  lemma RemoveFromPool(n: nat, used: set<nat>, i: nat)
    requires i < n && i !in used
    ensures i in Pool(0, n, used)
    ensures RemoveFirst(Pool(0, n, used), i) == Pool(0, n, used + {i})
  {
    PoolFacts(0, n, used);
    PoolFacts(0, n, used + {i});
    RemoveFirstFacts(Pool(0, n, used), i);
    IncreasingUnique(RemoveFirst(Pool(0, n, used), i), Pool(0, n, used + {i}));
  }

  /** The first entry from position `k` on that is outside `used` and
      complements entry `h`: the complement `getpairs` finds for `h` once the
      entries in `used` have been removed from the list. */
  function NextComplement(entries: seq<Entry>, used: set<nat>, h: nat, k: nat): (r: Option<nat>)
    requires h < |entries| && k <= |entries|
    ensures r.Some? ==> k <= r.value < |entries| && r.value !in used && Complements(entries[h], entries[r.value])
    ensures r.Some? ==> forall m {:trigger Complements(entries[h], entries[m])} :: k <= m < r.value && m !in used ==> !Complements(entries[h], entries[m])
    ensures r.None? ==> forall m {:trigger Complements(entries[h], entries[m])} :: k <= m < |entries| && m !in used ==> !Complements(entries[h], entries[m])
    decreases |entries| - k
  {
    if k == |entries| then None
    else if k !in used && Complements(entries[h], entries[k]) then Some(k)
    else NextComplement(entries, used, h, k + 1)
  }

  /** The loop of `getpairs` from entry `i` on, once the entries in `used` have
      been removed: the (home, away) positions of the pairs it produces. */
  function RePairFrom(entries: seq<Entry>, i: nat, used: set<nat>): (r: seq<(nat, nat)>)
    requires i <= |entries|
    ensures forall n :: 0 <= n < |r| ==> i <= r[n].0 < |entries| && r[n].1 < |entries|
    decreases |entries| - i
  {
    if i == |entries| then []
    else match NextComplement(entries, used, i, 0)
      case None => RePairFrom(entries, i + 1, used)
      case Some(a) => [(i, a)] + RePairFrom(entries, i + 1, used + {i})
  }

  /** At most one pair per entry, homes in list order, and each away a complement of its home. */
  lemma {:induction false} RePairFromShape(entries: seq<Entry>, i: nat, used: set<nat>, r: seq<(nat, nat)>)
    requires i <= |entries| && r == RePairFrom(entries, i, used)
    ensures |r| <= |entries| - i
    ensures forall n :: 0 <= n < |r| ==> Complements(entries[r[n].0], entries[r[n].1])
    ensures forall m, n :: 0 <= m < n < |r| ==> r[m].0 < r[n].0
    decreases |entries| - i
  {
    if i < |entries| {
      match NextComplement(entries, used, i, 0)
      case None =>
        RePairFromShape(entries, i + 1, used, r);
      case Some(a) =>
        var rest := RePairFrom(entries, i + 1, used + {i});
        RePairFromShape(entries, i + 1, used + {i}, rest);
        assert r == [(i, a)] + rest;
        assert forall n :: 1 <= n < |r| ==> r[n] == rest[n - 1];
    }
  }

  /** The (home, away) positions of the pairs `getpairs` produces from the whole list. */
  function RePair(entries: seq<Entry>): (r: seq<(nat, nat)>)
    ensures |r| <= |entries|
    ensures forall n :: 0 <= n < |r| ==> r[n].0 < |entries| && r[n].1 < |entries|
    ensures forall n :: 0 <= n < |r| ==> Complements(entries[r[n].0], entries[r[n].1])
    ensures forall m, n :: 0 <= m < n < |r| ==> r[m].0 < r[n].0
  {
    RePairFromShape(entries, 0, {}, RePairFrom(entries, 0, {}));
    RePairFrom(entries, 0, {})
  }

  predicate IsHome(r: seq<(nat, nat)>, h: nat) {
    exists n :: 0 <= n < |r| && r[n].0 == h
  }

  /** Entry `k` is out of the list when entry `h` looks for its complement:
      it was removed beforehand (`used`) or was paired as a home before `h`. */
  predicate Removed(used: set<nat>, r: seq<(nat, nat)>, h: nat, k: nat) {
    k in used || (k < h && IsHome(r, k))
  }

  /** `a` is the first entry, in list order and still in the list, that complements entry `h`. */
  predicate FirstComplement(entries: seq<Entry>, used: set<nat>, r: seq<(nat, nat)>, h: nat, a: nat) {
    && h < |entries| && a < |entries| && !Removed(used, r, h, a)
    && Complements(entries[h], entries[a])
    && forall k {:trigger Complements(entries[h], entries[k])} ::
         0 <= k < a && !Removed(used, r, h, k) ==> !Complements(entries[h], entries[k])
  }

  /** No entry still in the list complements entry `h`. */
  predicate NoComplement(entries: seq<Entry>, used: set<nat>, r: seq<(nat, nat)>, h: nat) {
    && h < |entries|
    && forall k {:trigger Complements(entries[h], entries[k])} ::
         0 <= k < |entries| && !Removed(used, r, h, k) ==> !Complements(entries[h], entries[k])
  }

  /** Before the first home of `r`, only `used` is out of the list. */
  lemma RemovedBeforeFirstHome(entries: seq<Entry>, used: set<nat>, r: seq<(nat, nat)>, h: nat)
    requires forall n :: 0 <= n < |r| ==> r[n].0 >= h
    ensures forall k :: Removed(used, r, h, k) <==> Removed(used, [], h, k)
  {
  }

  /** Pairing entry `i` moves it from the pairs into the removed entries. */
  lemma RemovedCons(used: set<nat>, i: nat, a: nat, rest: seq<(nat, nat)>, h: nat)
    requires i < h
    ensures forall k :: Removed(used, [(i, a)] + rest, h, k) <==> Removed(used + {i}, rest, h, k)
  {
    var r := [(i, a)] + rest;
    forall k: nat
      ensures Removed(used, r, h, k) <==> Removed(used + {i}, rest, h, k)
    {
      if k == i {
        assert r[0].0 == i && IsHome(r, k);
      }
      if k < h && IsHome(rest, k) {
        var n :| 0 <= n < |rest| && rest[n].0 == k;
        assert r[n + 1] == rest[n];
        assert IsHome(r, k);
      }
      if k < h && IsHome(r, k) && k != i {
        var n :| 0 <= n < |r| && r[n].0 == k;
        assert n > 0 && rest[n - 1] == r[n];
        assert IsHome(rest, k);
      }
    }
  }

  /** From entry `i` on, with the entries in `used` already removed: each pair's
      away side is the first complement of its home still in the list, and an
      entry that is not a home had no complement left in the list. */
  predicate FirstAvailable(entries: seq<Entry>, used: set<nat>, r: seq<(nat, nat)>, i: nat) {
    && (forall n :: 0 <= n < |r| ==> FirstComplement(entries, used, r, r[n].0, r[n].1))
    && (forall h :: i <= h < |entries| && !IsHome(r, h) ==> NoComplement(entries, used, r, h))
  }

  /** Entry `i` found no complement: the property carries over from `i + 1`. */
  lemma FirstAvailableSkip(entries: seq<Entry>, used: set<nat>, i: nat, r: seq<(nat, nat)>)
    requires i < |entries|
    requires NoComplement(entries, used, [], i)
    requires forall n :: 0 <= n < |r| ==> r[n].0 > i
    requires FirstAvailable(entries, used, r, i + 1)
    ensures FirstAvailable(entries, used, r, i)
  {
    RemovedBeforeFirstHome(entries, used, r, i);
  }

  /** Entry `i` was paired with `a` and removed: the property for the rest, with
      `i` removed, extends to the pair followed by the rest. */
  lemma FirstAvailableCons(entries: seq<Entry>, used: set<nat>, i: nat, a: nat, rest: seq<(nat, nat)>)
    requires i < |entries|
    requires FirstComplement(entries, used, [], i, a)
    requires forall n :: 0 <= n < |rest| ==> rest[n].0 > i
    requires FirstAvailable(entries, used + {i}, rest, i + 1)
    ensures FirstAvailable(entries, used, [(i, a)] + rest, i)
  {
    var r := [(i, a)] + rest;
    RemovedBeforeFirstHome(entries, used, r, i);
    forall n | 0 <= n < |r|
      ensures FirstComplement(entries, used, r, r[n].0, r[n].1)
    {
      if n > 0 {
        assert r[n] == rest[n - 1];
        RemovedCons(used, i, a, rest, r[n].0);
      }
    }
    forall h | i <= h < |entries| && !IsHome(r, h)
      ensures NoComplement(entries, used, r, h)
    {
      assert r[0].0 == i;
      assert IsHome(r, i);
      assert h > i;
      forall n | 0 <= n < |rest|
        ensures rest[n].0 != h
      {
        assert r[n + 1] == rest[n];
      }
      assert NoComplement(entries, used + {i}, rest, h);
      RemovedCons(used, i, a, rest, h);
      forall k | 0 <= k < |entries| && !Removed(used, r, h, k)
        ensures !Complements(entries[h], entries[k])
      {
        assert !Removed(used + {i}, rest, h, k);
      }
    }
  }

  /** The loop from entry `i` on keeps `FirstAvailable`. */
  lemma {:induction false} RePairFromFirstAvailable(entries: seq<Entry>, i: nat, used: set<nat>)
    requires i <= |entries|
    ensures FirstAvailable(entries, used, RePairFrom(entries, i, used), i)
    decreases |entries| - i
  {
    if i < |entries| {
      match NextComplement(entries, used, i, 0)
      case None =>
        RePairFromFirstAvailable(entries, i + 1, used);
        FirstAvailableSkip(entries, used, i, RePairFrom(entries, i + 1, used));
      case Some(a) =>
        RePairFromFirstAvailable(entries, i + 1, used + {i});
        FirstAvailableCons(entries, used, i, a, RePairFrom(entries, i + 1, used + {i}));
    }
  }

  /** The positions `getpairs` produces: homes in list order, each used once;
      every away is the first complement of its home among the entries still
      in the list; an entry that is not a home had no complement left; and an
      entry removed as a home is never chosen as an away later. */
  lemma RePairSpec(entries: seq<Entry>)
    ensures var r := RePair(entries);
      && |r| <= |entries|
      && (forall m, n :: 0 <= m < n < |r| ==> r[m].0 < r[n].0)
      && (forall n :: 0 <= n < |r| ==> FirstComplement(entries, {}, r, r[n].0, r[n].1))
      && (forall h :: 0 <= h < |entries| && !IsHome(r, h) ==> NoComplement(entries, {}, r, h))
      && (forall m, n :: 0 <= m <= n < |r| ==> r[n].1 != r[m].0)
  {
    var r := RePair(entries);
    RePairFromShape(entries, 0, {}, r);
    RePairFromFirstAvailable(entries, 0, {});
    forall m, n | 0 <= m <= n < |r|
      ensures r[n].1 != r[m].0
    {
      if m < n {
        assert IsHome(r, r[m].0);
        assert Removed({}, r, r[n].0, r[m].0);
      }
    }
  }

  function PairOf(entries: seq<Entry>, p: (nat, nat)): OddsPair
    requires p.0 < |entries| && p.1 < |entries|
  {
    OddsPair(ToOdds(entries[p.0]), ToOdds(entries[p.1]), entries[p.0].event)
  }

  /** The odds pairs for a list of (home, away) positions. */
  function PairsOf(entries: seq<Entry>, r: seq<(nat, nat)>): (pairs: seq<OddsPair>)
    requires forall n :: 0 <= n < |r| ==> r[n].0 < |entries| && r[n].1 < |entries|
    decreases |r|
  {
    if |r| == 0 then [] else [PairOf(entries, r[0])] + PairsOf(entries, r[1..])
  }

  /** One pair per position, in the same order. */
  lemma {:induction false} PairsOfAt(entries: seq<Entry>, r: seq<(nat, nat)>)
    requires forall n :: 0 <= n < |r| ==> r[n].0 < |entries| && r[n].1 < |entries|
    ensures |PairsOf(entries, r)| == |r|
    ensures forall n :: 0 <= n < |r| ==> PairsOf(entries, r)[n] == PairOf(entries, r[n])
    decreases |r|
  {
    if |r| > 0 {
      PairsOfAt(entries, r[1..]);
    }
  }

  /** What the search of `getpairs` returns for `o` on the current list `pool`
      of positions: the first place in `pool` holding a complement of `o`, or
      nothing when there is none. */
  predicate FirstInPool(entries: seq<Entry>, pool: seq<nat>, o: Entry, r: Option<nat>) {
    match r
    case Some(j) =>
      && j < |pool| && pool[j] < |entries| && Complements(o, entries[pool[j]])
      && forall j' {:trigger Complements(o, entries[pool[j']])} :: 0 <= j' < j && pool[j'] < |entries| ==> !Complements(o, entries[pool[j']])
    case None =>
      forall j' {:trigger Complements(o, entries[pool[j']])} :: 0 <= j' < |pool| && pool[j'] < |entries| ==> !Complements(o, entries[pool[j']])
  }

  /** `next((odds for odds in odds_list if ...), None)`. */
  method FindComplement(entries: seq<Entry>, pool: seq<nat>, o: Entry) returns (r: Option<nat>)
    ensures FirstInPool(entries, pool, o, r)
  {
    var j := 0;
    while j < |pool|
      invariant j <= |pool|
      invariant forall j' {:trigger Complements(o, entries[pool[j']])} :: 0 <= j' < j && pool[j'] < |entries| ==> !Complements(o, entries[pool[j']])
    {
      if pool[j] < |entries| && Complements(o, entries[pool[j]]) {
        return Some(j);
      }
      j := j + 1;
    }
    return None;
  }

  /** Searching the list with the entries in `used` removed finds the
      complement the reference definition picks. */
  lemma PoolSearch(entries: seq<Entry>, used: set<nat>, i: nat, r: Option<nat>)
    requires i < |entries|
    requires FirstInPool(entries, Pool(0, |entries|, used), entries[i], r)
    ensures r.None? ==> NextComplement(entries, used, i, 0).None?
    ensures r.Some? ==> NextComplement(entries, used, i, 0) == Some(Pool(0, |entries|, used)[r.value])
  {
    var pool := Pool(0, |entries|, used);
    PoolFacts(0, |entries|, used);
    var next := NextComplement(entries, used, i, 0);
    if next.Some? {
      var b := next.value;
      assert b in pool;
      var jb :| 0 <= jb < |pool| && pool[jb] == b;
      assert r.Some?;
      var a := pool[r.value];
      assert a in pool;
      assert !(jb < r.value);
      assert !(a < b);
    }
    if r.Some? {
      assert pool[r.value] in pool;
    }
  }

  /** Entry `i` without a complement: the loop goes on with the next entry. */
  lemma StepUnpaired(entries: seq<Entry>, used: set<nat>, i: nat)
    requires i < |entries|
    requires NextComplement(entries, used, i, 0).None?
    ensures RePairFrom(entries, i, used) == RePairFrom(entries, i + 1, used)
  {
  }

  /** Entry `i` paired with `a`: its pair follows the pairs built so far,
      and the rest of the list is walked with `i` removed. */
  lemma StepPaired(entries: seq<Entry>, used: set<nat>, i: nat, a: nat, pairs: seq<OddsPair>)
    requires i < |entries|
    requires NextComplement(entries, used, i, 0) == Some(a)
    requires PairsOf(entries, RePair(entries)) == pairs + PairsOf(entries, RePairFrom(entries, i, used))
    ensures PairsOf(entries, RePair(entries))
         == (pairs + [OddsPair(ToOdds(entries[i]), ToOdds(entries[a]), entries[i].event)])
            + PairsOf(entries, RePairFrom(entries, i + 1, used + {i}))
  {
    var rest := RePairFrom(entries, i + 1, used + {i});
    assert RePairFrom(entries, i, used) == [(i, a)] + rest;
    assert ([(i, a)] + rest)[1..] == rest;
    assert PairsOf(entries, [(i, a)] + rest) == [PairOf(entries, (i, a))] + PairsOf(entries, rest);
  }

  /** The pairs built from the reference positions: a home and an away of
      different contenders, the away's event naming the home contender, the
      pair labelled with the home's event. */
  lemma PairsOfRePair(entries: seq<Entry>)
    ensures var pairs := PairsOf(entries, RePair(entries));
      && |pairs| <= |entries|
      && (forall n :: 0 <= n < |pairs| ==> pairs[n].home.contender != pairs[n].away.contender)
      && (forall n :: 0 <= n < |pairs| ==>
            pairs[n].away.event.Some? && Contains(pairs[n].away.event.value, pairs[n].home.contender))
      && (forall n :: 0 <= n < |pairs| ==> pairs[n].home.event == Some(pairs[n].event))
      && (forall n :: 0 <= n < |pairs| ==> pairs[n].home.provider == Forbet && pairs[n].away.provider == Forbet)
  {
    var r := RePair(entries);
    RePairFromShape(entries, 0, {}, r);
    PairsOfAt(entries, r);
    var pairs := PairsOf(entries, r);
    forall n | 0 <= n < |pairs|
      ensures pairs[n] == PairOf(entries, r[n])
      ensures Complements(entries[r[n].0], entries[r[n].1])
    {
    }
  }

  /** One turn of the `getpairs` loop on entry `i`, given what the search over
      the current list returned: the pair it appends (if any) and the list it
      leaves keep the loop in step with the reference definition. */
  lemma LoopStep(entries: seq<Entry>, used: set<nat>, i: nat, pool: seq<nat>, pairs: seq<OddsPair>, j: Option<nat>)
    requires i < |entries| && i !in used
    requires pool == Pool(0, |entries|, used)
    requires FirstInPool(entries, pool, entries[i], j)
    requires PairsOf(entries, RePair(entries)) == pairs + PairsOf(entries, RePairFrom(entries, i, used))
    ensures j.None? ==>
      PairsOf(entries, RePair(entries)) == pairs + PairsOf(entries, RePairFrom(entries, i + 1, used))
    ensures j.Some? ==> j.value < |pool| && pool[j.value] < |entries|
    ensures j.Some? ==> RemoveFirst(pool, i) == Pool(0, |entries|, used + {i})
    ensures j.Some? ==>
      PairsOf(entries, RePair(entries))
      == (pairs + [OddsPair(ToOdds(entries[i]), ToOdds(entries[pool[j.value]]), entries[i].event)])
         + PairsOf(entries, RePairFrom(entries, i + 1, used + {i}))
  {
    PoolSearch(entries, used, i, j);
    if j.Some? {
      StepPaired(entries, used, i, pool[j.value], pairs);
      RemoveFromPool(|entries|, used, i);
    } else {
      StepUnpaired(entries, used, i);
    }
  }

  /** `getpairs` once the odds are collected: walk the list in order, pair each
      entry with the first complement still in the list, and remove a paired
      entry from the list. */
  method GetPairs(entries: seq<Entry>) returns (pairs: seq<OddsPair>)
    ensures pairs == PairsOf(entries, RePair(entries))
  {
    var pool := Pool(0, |entries|, {});
    ghost var used: set<nat> := {};
    pairs := [];
    var i: nat := 0;
    while i < |entries|
      invariant i <= |entries|
      invariant pool == Pool(0, |entries|, used)
      invariant forall u :: u in used ==> u < i
      invariant PairsOf(entries, RePair(entries)) == pairs + PairsOf(entries, RePairFrom(entries, i, used))
    {
      var o := entries[i];
      var j := FindComplement(entries, pool, o);
      LoopStep(entries, used, i, pool, pairs, j);
      if j.Some? {
        var complement := entries[pool[j.value]];
        pairs := pairs + [OddsPair(ToOdds(o), ToOdds(complement), o.event)];
        pool := RemoveFirst(pool, i);
        used := used + {i};
      }
      i := i + 1;
    }
  }
}
