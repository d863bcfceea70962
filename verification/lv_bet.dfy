/** The LV BET adapter (scrape/lv_bet.py): keep the tennis records of the
    offer feed, validate each match record and turn it into an odds pair. */
module LvBet {
  import opened Wrappers
  import opened Seqs
  import opened Text
  import opened Scrape

  /** A `sportsGroups` entry; the third one names the tournament. */
  datatype SportsGroup = SportsGroup(name: string)

  /** A market selection: contender name and its decimal rate (`rate.decimal`). */
  datatype Selection = Selection(name: string, rate: Price)

  /** A primary market: the string values among its fields, and its selections. */
  datatype Market = Market(values: seq<string>, selections: seq<Selection>)

  /** One decoded match record of the feed. `participants` maps the
      participant keys to contender names. */
  datatype Match = Match(groupLabel: string, sportsGroups: seq<SportsGroup>,
                         participants: map<string, string>, primaryMarkets: seq<Market>)

  const Tennis := "tennis"
  const EventSeparator := " - "
  const WinnerMarket := "match-winner"
  /** Tournament names containing any of these are skipped. */
  const Excluded: seq<string> := ["ITF", "Challenger", "UTR", "deble", "Pro Series", "Doubles"]

  predicate IsTennis(m: Match) {
    m.groupLabel == Tennis
  }

  /** `_get_matches` without the request: the tennis records, in feed order. */
  function TennisMatches(data: seq<Match>): (r: seq<Match>)
    ensures forall k :: 0 <= k < |r| ==> r[k].groupLabel == Tennis && r[k] in data
    ensures forall k :: 0 <= k < |data| && data[k].groupLabel == Tennis ==> data[k] in r
  {
    Filter(data, IsTennis)
  }

  /** Keeping the tennis records of two consecutive chunks of the feed is keeping them chunk by chunk. */
  lemma TennisMatchesOrder(a: seq<Match>, b: seq<Match>)
    ensures TennisMatches(a + b) == TennisMatches(a) + TennisMatches(b)
  {
    FilterConcat(a, b, IsTennis);
  }

  /** `event, _ = name.split(" - ")`: the text before the separator, or a
      ValueError when the name does not split into exactly two parts. */
  function EventLabel(name: string): (r: Result<string, Error>)
    ensures r.Success? <==> |Split(name, EventSeparator)| == 2
    ensures r.Failure? ==> r.error == Unpack(2, |Split(name, EventSeparator)|)
    ensures r.Success? ==>
      && |r.value| + |EventSeparator| <= |name|
      && name == r.value + EventSeparator + name[|r.value| + |EventSeparator|..]
      && !Contains(r.value, EventSeparator)
      && !Contains(name[|r.value| + |EventSeparator|..], EventSeparator)
    ensures r.Success? ==> FindFrom(name, EventSeparator, 0) == Some(|r.value|)
  {
    var parts := Split(name, EventSeparator);
    if |parts| != 2 then Failure(Unpack(2, |parts|))
    else
      SplitInTwo(name, EventSeparator, parts);
      Success(parts[0])
  }

  /** A tournament name without the separator always raises. */
  lemma EventLabelNeedsSeparator(name: string)
    requires !Contains(name, EventSeparator)
    ensures EventLabel(name).Failure?
  {
    SplitSingleton(name, EventSeparator);
  }

  predicate IsWinnerMarket(m: Market) {
    WinnerMarket in m.values
  }

  predicate NamesDoubles(name: string) {
    '/' in name
  }

  /** The tournament name passes the exclusion filter and yields an event label. */
  predicate TournamentAccepted(m: Match) {
    |m.sportsGroups| == 3 && !ContainsAny(m.sportsGroups[2].name, Excluded)
    && EventLabel(m.sportsGroups[2].name).Success?
  }

  /** `k` is the first market whose values include "match-winner". */
  predicate FirstWinner(markets: seq<Market>, k: int) {
    IsFirst(markets, IsWinnerMarket, k)
  }

  /** The selection loop of `_parse_match`: a pair of the two selections in
      order, provided there are exactly two and both name a participant. */
  function PairFromMarket(participants: map<string, string>, market: Market, event: string): (r: Option<OddsPair>)
    ensures r.Some? <==>
      |market.selections| == 2
      && forall j :: 0 <= j < |market.selections| ==> market.selections[j].name in participants.Values
    ensures r.Some? ==>
      && r.value.home == Odds(LvBet, market.selections[0].name, market.selections[0].rate, None)
      && r.value.away == Odds(LvBet, market.selections[1].name, market.selections[1].rate, None)
      && r.value.event == event
  {
    var sel := market.selections;
    if |sel| != 2 then None
    else if exists j :: 0 <= j < 2 && sel[j].name !in participants.Values then None
    else Some(OddsPair(Odds(LvBet, sel[0].name, sel[0].rate, None),
                       Odds(LvBet, sel[1].name, sel[1].rate, None), event))
  }

  /** The participant and market checks of `_parse_match`, once the event label is known. */
  function ParseContenders(m: Match, event: string): (r: Option<OddsPair>)
    ensures |m.participants| != 2 ==> r.None?
    ensures (exists n :: n in m.participants.Values && NamesDoubles(n)) ==> r.None?
    ensures (forall k :: 0 <= k < |m.primaryMarkets| ==> !IsWinnerMarket(m.primaryMarkets[k])) ==> r.None?
    ensures r.Some? ==>
      exists k :: FirstWinner(m.primaryMarkets, k) && r == PairFromMarket(m.participants, m.primaryMarkets[k], event)
    ensures forall k ::
      (|m.participants| == 2 && (forall n :: n in m.participants.Values ==> !NamesDoubles(n))
       && FirstWinner(m.primaryMarkets, k)) ==> r == PairFromMarket(m.participants, m.primaryMarkets[k], event)
  {
    if |m.participants| != 2 then None
    else if exists n :: n in m.participants.Values && NamesDoubles(n) then None
    else match FirstIndex(m.primaryMarkets, IsWinnerMarket)
      case None => None
      case Some(k) =>
        assert FirstWinner(m.primaryMarkets, k);
        assert forall k' :: FirstWinner(m.primaryMarkets, k') ==> k' == k;
        PairFromMarket(m.participants, m.primaryMarkets[k], event)
  }

  /** `_parse_match`: `Success(None)` for a record the adapter skips,
      a failure when the tournament name cannot be unpacked. */
  function ParseMatch(m: Match): (r: Result<Option<OddsPair>, Error>)
    ensures |m.sportsGroups| != 3 ==> r == Success(None)
    ensures |m.sportsGroups| == 3 && ContainsAny(m.sportsGroups[2].name, Excluded) ==> r == Success(None)
    ensures r.Failure? <==>
      |m.sportsGroups| == 3 && !ContainsAny(m.sportsGroups[2].name, Excluded)
      && |Split(m.sportsGroups[2].name, EventSeparator)| != 2
    ensures TournamentAccepted(m) ==>
      r == Success(ParseContenders(m, EventLabel(m.sportsGroups[2].name).value))
  {
    if |m.sportsGroups| != 3 then Success(None)
    else
      var name := m.sportsGroups[2].name;
      if ContainsAny(name, Excluded) then Success(None)
      else
        var event :- EventLabel(name);
        Success(ParseContenders(m, event))
  }

  /** `getpairs` without the request: parse the tennis records, drop the
      skipped ones; the first raising record aborts the whole list. */
  function GetPairs(data: seq<Match>): (r: Result<seq<OddsPair>, Error>)
    ensures r.Success? <==> forall k :: 0 <= k < |TennisMatches(data)| ==> ParseMatch(TennisMatches(data)[k]).Success?
    ensures r.Success? ==> |r.value| <= |TennisMatches(data)|
    ensures r.Success? ==> forall k :: 0 <= k < |r.value| ==>
      exists j :: 0 <= j < |TennisMatches(data)| && ParseMatch(TennisMatches(data)[j]) == Success(Some(r.value[k]))
    ensures r.Success? ==> forall j :: 0 <= j < |TennisMatches(data)| && ParseMatch(TennisMatches(data)[j]).value.Some? ==>
      ParseMatch(TennisMatches(data)[j]).value.value in r.value
    ensures r.Failure? ==> exists k :: 0 <= k < |TennisMatches(data)| && ParseMatch(TennisMatches(data)[k]) == Failure(r.error)
                                       && forall j :: 0 <= j < k ==> ParseMatch(TennisMatches(data)[j]).Success?
  {
    var parsed :- MapAll(TennisMatches(data), ParseMatch);
    var pairs := KeepSome(parsed);
    assert forall k :: 0 <= k < |pairs| ==> Some(pairs[k]) in parsed;
    Success(pairs)
  }

  /** The pairs of two consecutive chunks of the feed come out chunk by chunk. */
  lemma GetPairsOrder(a: seq<Match>, b: seq<Match>)
    requires GetPairs(a).Success? && GetPairs(b).Success?
    ensures GetPairs(a + b) == Success(GetPairs(a).value + GetPairs(b).value)
  {
    TennisMatchesOrder(a, b);
    var ta, tb := TennisMatches(a), TennisMatches(b);
    MapAllConcat(ta, tb, ParseMatch);
    KeepSomeConcat(MapAll(ta, ParseMatch).value, MapAll(tb, ParseMatch).value);
  }
}
