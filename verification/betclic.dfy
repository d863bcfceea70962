/** The betclic adapter (scrape/betclic.py): keep the pre-match events of the
    main tours that carry markets, and read each event's match-winner market
    as an odds pair. */
module Betclic {
  import opened Wrappers
  import opened Seqs
  import opened Text
  import opened Scrape

  /** A market selection: contender name and decimal price. */
  datatype Selection = Selection(name: string, odds: Price)

  datatype Market = Market(name: string, selections: seq<Selection>)

  /** One decoded event record; `competition` is the competition's name. */
  datatype Event = Event(isLive: bool, competition: string, markets: seq<Market>)

  /** Competition names containing any of these are skipped. */
  const Excluded: seq<string> := ["Challenger", "ITF", "Exhibition"]

  /** The Polish "match winner" market name, as the feed spells it. */
  const WinnerMarket := "Zwyci\U{0119}zca meczu"

  /** The same name as the source file spells it: the UTF-8 bytes of the
      letter e-ogonek read back as Windows-1252 text. */
  const WinnerMarketAsWritten := "Zwyci\U{00C4}\U{2122}zca meczu"

  predicate NotLive(e: Event) {
    !e.isLive
  }

  predicate MainTour(e: Event) {
    !ContainsAny(e.competition, Excluded)
  }

  predicate HasMarkets(e: Event) {
    |e.markets| > 0
  }

  predicate NotLiveMainTour(e: Event) {
    NotLive(e) && MainTour(e)
  }

  /** The three conditions `_get_events` filters by. */
  predicate Listed(e: Event) {
    NotLive(e) && MainTour(e) && HasMarkets(e)
  }

  /** The three successive filters keep what one filter on their conjunction keeps. */
  lemma FiltersCombine(data: seq<Event>)
    ensures Filter(Filter(Filter(data, NotLive), MainTour), HasMarkets) == Filter(data, Listed)
  {
    FilterFilter(data, NotLive, MainTour, NotLiveMainTour);
    FilterFilter(data, NotLiveMainTour, HasMarkets, Listed);
  }

  /** `_get_events` without the request: the listed events, in feed order. */
  function Events(data: seq<Event>): (r: seq<Event>)
    ensures forall k :: 0 <= k < |r| ==> Listed(r[k]) && r[k] in data
    ensures forall k :: 0 <= k < |data| && Listed(data[k]) ==> data[k] in r
  {
    FiltersCombine(data);
    Filter(Filter(Filter(data, NotLive), MainTour), HasMarkets)
  }

  /** Selecting events chunk by chunk gives the same list as selecting them from the whole feed. */
  lemma EventsOrder(a: seq<Event>, b: seq<Event>)
    ensures Events(a + b) == Events(a) + Events(b)
  {
    FiltersCombine(a + b);
    FiltersCombine(a);
    FiltersCombine(b);
    FilterConcat(a, b, Listed);
  }

  /** Selecting again from already selected events changes nothing. */
  lemma EventsIdempotent(data: seq<Event>)
    ensures Events(Events(data)) == Events(data)
  {
    FiltersCombine(data);
    FiltersCombine(Events(data));
    FilterIdempotent(data, Listed);
  }

  /** `k` is the first market of the list named `name`. */
  predicate FirstNamed(markets: seq<Market>, name: string, k: int) {
    IsFirst(markets, (m: Market) => m.name == name, k)
  }

  /** `home, away = selections` followed by the pair construction. */
  function PairOfSelections(sel: seq<Selection>): (r: Result<OddsPair, Error>)
    ensures r.Success? <==> |sel| == 2
    ensures r.Failure? ==> r.error == Unpack(2, |sel|)
    ensures r.Success? ==> SelectionsOf(r.value) == sel
  {
    if |sel| != 2 then Failure(Unpack(2, |sel|))
    else Success(OddsPair(Odds(Betclic, sel[0].name, sel[0].odds, None),
                          Odds(Betclic, sel[1].name, sel[1].odds, None), ""))
  }

  /** The selections a betclic pair was read from. */
  function SelectionsOf(p: OddsPair): seq<Selection> {
    [Selection(p.home.contender, p.home.odds), Selection(p.away.contender, p.away.odds)]
  }

  /** A betclic pair: both sides priced by betclic, no event label. */
  predicate IsBetclicPair(p: OddsPair) {
    p.home.provider == Betclic && p.away.provider == Betclic
    && p.home.event.None? && p.away.event.None? && p.event == ""
  }

  /** Reading the selections of a betclic pair gives the pair back. */
  lemma PairOfSelectionsInverse(p: OddsPair)
    requires IsBetclicPair(p)
    ensures PairOfSelections(SelectionsOf(p)) == Success(p)
  {
  }

  /** `_parse_event` with the winner-market name as a parameter: the first
      market with that name is unpacked into two selections; no such market
      is the explicit "Invalid input" error. */
  function ParseEventNamed(e: Event, name: string): (r: Result<OddsPair, Error>)
    ensures r == Failure(InvalidInput) <==> forall k :: 0 <= k < |e.markets| ==> e.markets[k].name != name
    ensures forall k :: FirstNamed(e.markets, name, k) ==> r == PairOfSelections(e.markets[k].selections)
    ensures r.Success? ==> IsBetclicPair(r.value)
  {
    match FirstIndex(e.markets, (m: Market) => m.name == name)
    case None => Failure(InvalidInput)
    case Some(k) =>
      assert FirstNamed(e.markets, name, k);
      assert forall k' :: FirstNamed(e.markets, name, k') ==> k' == k;
      PairOfSelections(e.markets[k].selections)
  }

  /** `_parse_event` looking for the market under its Polish name. */
  function ParseEvent(e: Event): (r: Result<OddsPair, Error>)
    ensures r == Failure(InvalidInput) <==> forall k :: 0 <= k < |e.markets| ==> e.markets[k].name != WinnerMarket
    ensures forall k :: FirstNamed(e.markets, WinnerMarket, k) ==> r == PairOfSelections(e.markets[k].selections)
    ensures r.Success? ==> IsBetclicPair(r.value)
  {
    ParseEventNamed(e, WinnerMarket)
  }

  /** `_parse_event` with the market name exactly as the source spells it. */
  function ParseEventAsWritten(e: Event): (r: Result<OddsPair, Error>)
    ensures r == Failure(InvalidInput) <==> forall k :: 0 <= k < |e.markets| ==> e.markets[k].name != WinnerMarketAsWritten
  {
    ParseEventNamed(e, WinnerMarketAsWritten)
  }

  /** An event whose only market is the properly spelt match-winner market:
      the spelling in the source rejects it, the Polish spelling reads it. */
  lemma AsWrittenRejectsWinnerMarket(home: Selection, away: Selection)
    ensures ParseEventAsWritten(Event(false, "ATP", [Market(WinnerMarket, [home, away])])) == Failure(InvalidInput)
    ensures ParseEvent(Event(false, "ATP", [Market(WinnerMarket, [home, away])])).Success?
  {
    var e := Event(false, "ATP", [Market(WinnerMarket, [home, away])]);
    assert |WinnerMarket| != |WinnerMarketAsWritten|;
    assert FirstNamed(e.markets, WinnerMarket, 0);
  }

  /** `_parse_event` for a given market name, as a function value. */
  function Parser(name: string): Event -> Result<OddsPair, Error> {
    (e: Event) => ParseEventNamed(e, name)
  }

  /** `getpairs` without the request, with the winner-market name as a
      parameter: every listed event parsed, in feed order; the first event
      that raises aborts the whole list. */
  function GetPairsNamed(data: seq<Event>, name: string): (r: Result<seq<OddsPair>, Error>)
    ensures r.Success? <==> forall k :: 0 <= k < |Events(data)| ==> ParseEventNamed(Events(data)[k], name).Success?
    ensures r.Success? ==> |r.value| == |Events(data)|
    ensures r.Success? ==> forall k :: 0 <= k < |r.value| ==> ParseEventNamed(Events(data)[k], name) == Success(r.value[k])
    ensures r.Failure? ==> exists k :: 0 <= k < |Events(data)| && ParseEventNamed(Events(data)[k], name) == Failure(r.error)
                                       && forall j :: 0 <= j < k ==> ParseEventNamed(Events(data)[j], name).Success?
    ensures r.Success? ==> forall k :: 0 <= k < |r.value| ==> IsBetclicPair(r.value[k])
  {
    MapAll(Events(data), Parser(name))
  }

  /** `getpairs` reading the market under its Polish name. */
  function GetPairs(data: seq<Event>): (r: Result<seq<OddsPair>, Error>)
    ensures r.Success? <==> forall k :: 0 <= k < |Events(data)| ==> ParseEvent(Events(data)[k]).Success?
    ensures r.Success? ==> |r.value| == |Events(data)|
    ensures r.Success? ==> forall k :: 0 <= k < |r.value| ==> ParseEvent(Events(data)[k]) == Success(r.value[k])
    ensures r.Failure? ==> exists k :: 0 <= k < |Events(data)| && ParseEvent(Events(data)[k]) == Failure(r.error)
                                       && forall j :: 0 <= j < k ==> ParseEvent(Events(data)[j]).Success?
    ensures r.Success? ==> forall k :: 0 <= k < |r.value| ==> IsBetclicPair(r.value[k])
  {
    GetPairsNamed(data, WinnerMarket)
  }

  /** `getpairs` with the market name exactly as the source spells it; an
      event without a market of that spelling raises "Invalid input". */
  function GetPairsAsWritten(data: seq<Event>): (r: Result<seq<OddsPair>, Error>)
    ensures r.Success? <==> forall k :: 0 <= k < |Events(data)| ==> ParseEventAsWritten(Events(data)[k]).Success?
    ensures r.Failure? ==> exists k :: 0 <= k < |Events(data)| && ParseEventAsWritten(Events(data)[k]) == Failure(r.error)
                                       && forall j :: 0 <= j < k ==> ParseEventAsWritten(Events(data)[j]).Success?
  {
    GetPairsNamed(data, WinnerMarketAsWritten)
  }

  /** A feed whose only listed event carries the properly spelt winner market:
      the source as written raises, the Polish spelling reads one pair. */
  lemma AsWrittenRejectsFeed(home: Selection, away: Selection)
    ensures GetPairsAsWritten([Event(false, "ATP", [Market(WinnerMarket, [home, away])])]) == Failure(InvalidInput)
    ensures GetPairs([Event(false, "ATP", [Market(WinnerMarket, [home, away])])]).Success?
  {
    var e := Event(false, "ATP", [Market(WinnerMarket, [home, away])]);
    assert !Contains("ATP", "ITF") by {
      assert "ATP"[0..3][0] != "ITF"[0];
      assert "ATP"[1..] == "TP";
    }
    assert Listed(e);
    assert Events([e]) == [e];
    AsWrittenRejectsWinnerMarket(home, away);
  }

  /** The pairs of two consecutive chunks of the feed come out chunk by chunk. */
  lemma GetPairsNamedOrder(a: seq<Event>, b: seq<Event>, name: string)
    requires GetPairsNamed(a, name).Success? && GetPairsNamed(b, name).Success?
    ensures GetPairsNamed(a + b, name) == Success(GetPairsNamed(a, name).value + GetPairsNamed(b, name).value)
  {
    EventsOrder(a, b);
    MapAllConcat(Events(a), Events(b), Parser(name));
  }

  lemma GetPairsOrder(a: seq<Event>, b: seq<Event>)
    requires GetPairs(a).Success? && GetPairs(b).Success?
    ensures GetPairs(a + b) == Success(GetPairs(a).value + GetPairs(b).value)
  {
    GetPairsNamedOrder(a, b, WinnerMarket);
  }
}
