/** The betx adapter (scrape/betx.py): the request body asking for a year
    of tennis offers, the flattening of the offer into its matches, and the
    reading of each match as an odds pair. */
module Betx {
  import opened Wrappers
  import opened Seqs
  import opened Text
  import opened Scrape

  /** A naive Python `datetime`. */
  datatype DateTime = DateTime(year: nat, month: nat, day: nat, hour: nat,
                               minute: nat, second: nat, microsecond: nat)

  const MinYear := 1
  const MaxYear := 9999

  /** Gregorian leap years. */
  predicate IsLeap(y: int) {
    y % 4 == 0 && (y % 100 != 0 || y % 400 == 0)
  }

  /** The length of month `m` of year `y`: February has 28 days, 29 in a leap
      year; April, June, September and November 30; the other months 31. */
  function DaysInMonth(y: int, m: int): (d: nat)
    requires 1 <= m <= 12
    ensures 28 <= d <= 31
    ensures d == 29 <==> m == 2 && IsLeap(y)
    ensures m == 2 ==> d <= 29
    ensures m == 4 || m == 6 || m == 9 || m == 11 <==> d == 30
    ensures d == 31 <==> m != 2 && m != 4 && m != 6 && m != 9 && m != 11
  {
    if m == 2 then (if IsLeap(y) then 29 else 28)
    else if m == 4 || m == 6 || m == 9 || m == 11 then 30
    else 31
  }

  /** Days of year `y` before the first of month `m`. */
  function DaysBefore(y: int, m: int): nat
    requires 1 <= m <= 13
    decreases m
  {
    if m == 1 then 0 else DaysBefore(y, m - 1) + DaysInMonth(y, m - 1)
  }

  /** The twelve months add up to the length of the year: 366 days in a leap year, 365 otherwise. */
  lemma YearLength(y: int)
    ensures DaysBefore(y, 13) == if IsLeap(y) then 366 else 365
  {
  }

  predicate ValidDate(year: int, month: int, day: int) {
    MinYear <= year <= MaxYear && 1 <= month <= 12 && 1 <= day <= DaysInMonth(year, month)
  }

  /** The values a `datetime` object can hold. */
  predicate Valid(t: DateTime) {
    ValidDate(t.year, t.month, t.day)
    && t.hour < 24 && t.minute < 60 && t.second < 60 && t.microsecond < 1000000
  }

  /** `datetime(year, month, day, hour)`: a ValueError unless every field is in range. */
  function NewDateTime(year: nat, month: nat, day: nat, hour: nat): (r: Result<DateTime, Error>)
    ensures r.Success? <==> ValidDate(year, month, day) && hour < 24
    ensures r.Failure? ==> r.error == DateOutOfRange
    ensures r.Success? ==> Valid(r.value)
  {
    if ValidDate(year, month, day) && hour < 24 then Success(DateTime(year, month, day, hour, 0, 0, 0))
    else Failure(DateOutOfRange)
  }

  /** Two consecutive years are never both leap years. */
  lemma NoConsecutiveLeapYears(y: int)
    ensures !(IsLeap(y) && IsLeap(y + 1))
  {
  }

  /** The instants with no same day one year later: 29 February, and any
      day of the last representable year. */
  predicate NoYearAfter(now: DateTime) {
    (now.month == 2 && now.day == 29) || now.year == MaxYear
  }

  /** `year_after` of `_get_postdata`: the same calendar day and hour one
      year later, truncated to the hour. It raises exactly on 29 February
      and in the last representable year. */
  function YearAfter(now: DateTime): (r: Result<DateTime, Error>)
    requires Valid(now)
    ensures r.Failure? <==> NoYearAfter(now)
    ensures r.Failure? ==> r.error == DateOutOfRange
    ensures r.Success? ==> r.value == DateTime(now.year + 1, now.month, now.day, now.hour, 0, 0, 0)
    ensures r.Success? ==> Valid(r.value)
  {
    NoConsecutiveLeapYears(now.year);
    NewDateTime(now.year + 1, now.month, now.day, now.hour)
  }

  function DatePart(t: DateTime): string
    requires Valid(t)
  {
    PadNat(t.year, 4) + "-" + PadNat(t.month, 2) + "-" + PadNat(t.day, 2)
  }

  function TimePart(t: DateTime): string
    requires Valid(t)
  {
    PadNat(t.hour, 2) + ":" + PadNat(t.minute, 2) + ":" + PadNat(t.second, 2)
  }

  /** `datetime.isoformat()`: "YYYY-MM-DDTHH:MM:SS", followed by ".ffffff"
      only when the microseconds are not zero. */
  function IsoFormat(t: DateTime): (s: string)
    requires Valid(t)
    ensures |s| == if t.microsecond == 0 then 19 else 26
  {
    DatePart(t) + "T" + TimePart(t)
    + (if t.microsecond == 0 then "" else "." + PadNat(t.microsecond, 6))
  }

  /** Reads "YYYY-MM-DD" back into year, month and day. */
  function ReadDate(d: string): Option<(nat, nat, nat)> {
    if |d| != 10 || d[4] != '-' || d[7] != '-' then None
    else
      var year :- ParseNat(d[..4]);
      var month :- ParseNat(d[5..7]);
      var day :- ParseNat(d[8..]);
      Some((year, month, day))
  }

  /** Reads "HH:MM:SS" back into hour, minute and second. */
  function ReadTime(h: string): Option<(nat, nat, nat)> {
    if |h| != 8 || h[2] != ':' || h[5] != ':' then None
    else
      var hour :- ParseNat(h[..2]);
      var minute :- ParseNat(h[3..5]);
      var second :- ParseNat(h[6..]);
      Some((hour, minute, second))
  }

  /** Reads the two ISO 8601 layouts `IsoFormat` produces back into their fields. */
  function ReadIso(s: string): (r: Option<DateTime>)
    ensures r.Some? ==> |s| == 19 || |s| == 26
    ensures r.Some? ==> (r.value.microsecond != 0 ==> |s| == 26)
  {
    if |s| != 19 && |s| != 26 then None
    else if s[10] != 'T' || (|s| == 26 && s[19] != '.') then None
    else
      var date :- ReadDate(s[..10]);
      var time :- ReadTime(s[11..19]);
      var microsecond :- if |s| == 26 then ParseNat(s[20..]) else Some(0);
      Some(DateTime(date.0, date.1, date.2, time.0, time.1, time.2, microsecond))
  }

  /** The date part reads back as the date. */
  lemma DatePartRoundTrip(t: DateTime, d: string)
    requires Valid(t) && d == DatePart(t)
    ensures ReadDate(d) == Some((t.year, t.month, t.day))
  {
    assert d[..4] == PadNat(t.year, 4);
    assert d[5..7] == PadNat(t.month, 2);
    assert d[8..] == PadNat(t.day, 2);
    ParsePad(t.year, 4);
    ParsePad(t.month, 2);
    ParsePad(t.day, 2);
  }

  /** The time part reads back as the time of day, to the second. */
  lemma TimePartRoundTrip(t: DateTime, h: string)
    requires Valid(t) && h == TimePart(t)
    ensures ReadTime(h) == Some((t.hour, t.minute, t.second))
  {
    assert h[..2] == PadNat(t.hour, 2);
    assert h[3..5] == PadNat(t.minute, 2);
    assert h[6..] == PadNat(t.second, 2);
    ParsePad(t.hour, 2);
    ParsePad(t.minute, 2);
    ParsePad(t.second, 2);
  }

  /** Reading back the ISO rendering of a valid date-time gives the date-time. */
  lemma IsoRoundTrip(t: DateTime, s: string)
    requires Valid(t) && s == IsoFormat(t)
    ensures ReadIso(s) == Some(t)
  {
    var d, h := DatePart(t), TimePart(t);
    DatePartRoundTrip(t, d);
    TimePartRoundTrip(t, h);
    assert s[..10] == d;
    assert s[11..19] == h;
    if t.microsecond != 0 {
      assert s[20..] == PadNat(t.microsecond, 6);
      ParsePad(t.microsecond, 6);
    }
  }

  /** The JSON body of the offer request. */
  datatype PostData = PostData(offset: nat, limit: nat, sportIds: seq<nat>, categoryIds: seq<nat>,
                               leagueIds: seq<nat>, dateFrom: string, dateTo: string)

  const Offset := 0
  const Limit := 50
  /** The feed's identifier of tennis. */
  const TennisSportId := 389

  /** `_get_postdata` with the clock reading `now` as a parameter: the first
      fifty tennis offers from now until the same hour a year later. */
  function GetPostData(now: DateTime): (r: Result<PostData, Error>)
    requires Valid(now)
    ensures r.Failure? <==> NoYearAfter(now)
    ensures r.Failure? ==> r.error == DateOutOfRange
    ensures r.Success? ==> r.value.offset == Offset && r.value.limit == Limit
    ensures r.Success? ==> r.value.sportIds == [TennisSportId] && r.value.categoryIds == [] && r.value.leagueIds == []
    ensures r.Success? ==> |r.value.dateTo| == 19
  {
    var after :- YearAfter(now);
    Success(PostData(Offset, Limit, [TennisSportId], [], [], IsoFormat(now), IsoFormat(after)))
  }

  /** The request window reads back as `now` and the same day and hour one year later. */
  lemma PostDataWindow(now: DateTime, body: PostData)
    requires Valid(now) && GetPostData(now) == Success(body)
    ensures ReadIso(body.dateFrom) == Some(now)
    ensures ReadIso(body.dateTo) == Some(DateTime(now.year + 1, now.month, now.day, now.hour, 0, 0, 0))
  {
    var after := YearAfter(now).value;
    assert Valid(after);
    assert after == DateTime(now.year + 1, now.month, now.day, now.hour, 0, 0, 0);
    assert body.dateTo == IsoFormat(after);
    IsoRoundTrip(now, body.dateFrom);
    IsoRoundTrip(after, body.dateTo);
    assert ReadIso(body.dateTo) == Some(after);
  }

  /** A match record: the two team names and the prices of `BasicOffer.Odds`. */
  datatype Match = Match(teamHome: string, teamAway: string, odds: seq<Price>)

  datatype League = League(matches: seq<Match>)

  datatype Category = Category(leagues: seq<League>)

  /** One element of the response's `Response` list. */
  datatype Offer = Offer(categories: seq<Category>)

  function LeaguesOf(c: Category): seq<League> {
    c.leagues
  }

  function MatchesOf(l: League): seq<Match> {
    l.matches
  }

  /** The tournaments comprehension of `_get_matches`. */
  function Tournaments(o: Offer): (r: seq<League>)
    ensures forall l :: l in r <==> exists c :: c in o.categories && l in c.leagues
  {
    var ss := Map(o.categories, LeaguesOf);
    assert forall c :: c in o.categories ==> c.leagues in ss;
    Concat(ss)
  }

  /** The matches comprehension of `_get_matches`. */
  function OfferMatches(o: Offer): (r: seq<Match>)
    ensures forall m :: m in r <==> exists l :: l in Tournaments(o) && m in l.matches
  {
    var ss := Map(Tournaments(o), MatchesOf);
    assert forall l :: l in Tournaments(o) ==> l.matches in ss;
    Concat(ss)
  }

  /** One category's leagues are its own, in order. */
  lemma TournamentsSingle(c: Category)
    ensures Tournaments(Offer([c])) == c.leagues
  {
    assert Map([c], LeaguesOf) == [c.leagues];
  }

  /** One league's matches are its own, in order. */
  lemma LeagueMatchesSingle(l: League)
    ensures Concat(Map([l], MatchesOf)) == l.matches
  {
    assert Map([l], MatchesOf) == [l.matches];
  }

  /** The matches of consecutive leagues come out league by league. */
  lemma LeagueMatchesOrder(a: seq<League>, b: seq<League>)
    ensures Concat(Map(a + b, MatchesOf)) == Concat(Map(a, MatchesOf)) + Concat(Map(b, MatchesOf))
  {
    MapConcat(a, b, MatchesOf);
    ConcatAppend(Map(a, MatchesOf), Map(b, MatchesOf));
  }

  /** One category's matches are those of its leagues, flattened in league order. */
  lemma OfferMatchesSingle(c: Category)
    ensures OfferMatches(Offer([c])) == Concat(Map(c.leagues, MatchesOf))
  {
    TournamentsSingle(c);
  }

  /** A match is listed exactly when some league of some category holds it. */
  lemma OfferMatchesMembers(o: Offer, m: Match)
    ensures m in OfferMatches(o) <==> exists c, l :: c in o.categories && l in c.leagues && m in l.matches
  {
  }

  /** Flattening consecutive chunks of categories is flattening them chunk by chunk. */
  lemma OfferMatchesOrder(a: seq<Category>, b: seq<Category>)
    ensures OfferMatches(Offer(a + b)) == OfferMatches(Offer(a)) + OfferMatches(Offer(b))
  {
    MapConcat(a, b, LeaguesOf);
    ConcatAppend(Map(a, LeaguesOf), Map(b, LeaguesOf));
    var ta, tb := Tournaments(Offer(a)), Tournaments(Offer(b));
    assert Tournaments(Offer(a + b)) == ta + tb;
    MapConcat(ta, tb, MatchesOf);
    ConcatAppend(Map(ta, MatchesOf), Map(tb, MatchesOf));
  }

  /** The number of matches the leagues hold between them. */
  function LeagueMatchCount(leagues: seq<League>): nat {
    if |leagues| == 0 then 0 else |leagues[0].matches| + LeagueMatchCount(leagues[1..])
  }

  /** The number of matches the categories hold between them. */
  function CategoryMatchCount(categories: seq<Category>): nat {
    if |categories| == 0 then 0
    else LeagueMatchCount(categories[0].leagues) + CategoryMatchCount(categories[1..])
  }

  /** Flattening leagues keeps every match of every league. */
  lemma {:induction false} LeaguesFlattenCount(leagues: seq<League>)
    ensures |Concat(Map(leagues, MatchesOf))| == LeagueMatchCount(leagues)
    decreases |leagues|
  {
    if |leagues| > 0 {
      var ss := Map(leagues, MatchesOf);
      assert ss[1..] == Map(leagues[1..], MatchesOf);
      LeaguesFlattenCount(leagues[1..]);
      assert Concat(ss) == leagues[0].matches + Concat(ss[1..]);
    }
  }

  /** The flattened list is as long as all the `Matches` lists together. */
  lemma {:induction false} OfferMatchesCount(categories: seq<Category>)
    ensures |OfferMatches(Offer(categories))| == CategoryMatchCount(categories)
    decreases |categories|
  {
    if |categories| > 0 {
      var c, rest := categories[0], categories[1..];
      assert categories == [c] + rest;
      OfferMatchesOrder([c], rest);
      OfferMatchesCount(rest);
      var ls := Map([c], LeaguesOf);
      assert Concat(ls) == c.leagues + Concat(ls[1..]);
      assert Tournaments(Offer([c])) == c.leagues;
      LeaguesFlattenCount(c.leagues);
    }
  }

  /** `_get_matches` without the request: the request body is built first,
      which raises on 29 February and in the last year; then the first
      offer's matches, or an IndexError when the response list is empty. */
  function GetMatches(now: DateTime, response: seq<Offer>): (r: Result<seq<Match>, Error>)
    requires Valid(now)
    ensures r.Failure? <==> NoYearAfter(now) || |response| == 0
    ensures NoYearAfter(now) ==> r == Failure(DateOutOfRange)
    ensures !NoYearAfter(now) && |response| == 0 ==> r == Failure(EmptyResponse)
    ensures r.Success? ==> r.value == OfferMatches(response[0])
    ensures r.Success? ==> forall m :: m in r.value <==>
      exists c, l :: c in response[0].categories && l in c.leagues && m in l.matches
  {
    var _ :- GetPostData(now);
    if |response| == 0 then Failure(EmptyResponse)
    else
      assert forall m :: m in OfferMatches(response[0]) <==>
        exists c, l :: c in response[0].categories && l in c.leagues && m in l.matches by {
        forall m {
          OfferMatchesMembers(response[0], m);
        }
      }
      Success(OfferMatches(response[0]))
  }

  /** A betx pair: both sides priced by betx, no event label. */
  predicate IsBetxPair(p: OddsPair) {
    p.home.provider == Betx && p.away.provider == Betx
    && p.home.event.None? && p.away.event.None? && p.event == ""
  }

  /** The match record a betx pair was read from. */
  function MatchOf(p: OddsPair): Match {
    Match(p.home.contender, p.away.contender, [p.home.odds, p.away.odds])
  }

  /** `_parse_match`: home and away teams with the two prices of the basic
      offer; a ValueError unless there are exactly two. */
  function ParseMatch(m: Match): (r: Result<OddsPair, Error>)
    ensures r.Success? <==> |m.odds| == 2
    ensures r.Failure? ==> r.error == Unpack(2, |m.odds|)
    ensures r.Success? ==> IsBetxPair(r.value) && MatchOf(r.value) == m
  {
    if |m.odds| != 2 then Failure(Unpack(2, |m.odds|))
    else Success(OddsPair(Odds(Betx, m.teamHome, m.odds[0], None), Odds(Betx, m.teamAway, m.odds[1], None), ""))
  }

  /** Parsing the match record of a betx pair gives the pair back. */
  lemma ParseMatchOf(p: OddsPair)
    requires IsBetxPair(p)
    ensures ParseMatch(MatchOf(p)) == Success(p)
  {
  }

  /** A match record without exactly two prices, which the unpacking rejects. */
  predicate Malformed(m: Match) {
    |m.odds| != 2
  }

  /** `k` is the first match of the list without exactly two prices. */
  predicate FirstMalformed(matches: seq<Match>, k: int) {
    IsFirst(matches, Malformed, k)
  }

  /** `getpairs` without the request: every match of the first offer parsed,
      in offer order; the first match that raises aborts the whole list. */
  function GetPairs(now: DateTime, response: seq<Offer>): (r: Result<seq<OddsPair>, Error>)
    requires Valid(now)
    ensures NoYearAfter(now) ==> r == Failure(DateOutOfRange)
    ensures !NoYearAfter(now) && |response| == 0 ==> r == Failure(EmptyResponse)
    ensures !NoYearAfter(now) && |response| > 0 ==>
      (r.Success? <==> forall k :: 0 <= k < |OfferMatches(response[0])| ==> |OfferMatches(response[0])[k].odds| == 2)
    ensures r.Success? ==> |response| > 0 && |r.value| == |OfferMatches(response[0])|
    ensures r.Success? ==> forall k :: 0 <= k < |r.value| ==>
      IsBetxPair(r.value[k]) && MatchOf(r.value[k]) == OfferMatches(response[0])[k]
    ensures !NoYearAfter(now) && |response| > 0 && r.Failure? ==>
      exists k :: FirstMalformed(OfferMatches(response[0]), k) && r.error == Unpack(2, |OfferMatches(response[0])[k].odds|)
  {
    var matches :- GetMatches(now, response);
    MapAll(matches, ParseMatch)
  }

  /** The pairs of consecutive chunks of categories come out chunk by chunk. */
  lemma GetPairsOrder(now: DateTime, a: seq<Category>, b: seq<Category>)
    requires Valid(now)
    requires GetPairs(now, [Offer(a)]).Success? && GetPairs(now, [Offer(b)]).Success?
    ensures GetPairs(now, [Offer(a + b)]) == Success(GetPairs(now, [Offer(a)]).value + GetPairs(now, [Offer(b)]).value)
  {
    OfferMatchesOrder(a, b);
    MapAllConcat(OfferMatches(Offer(a)), OfferMatches(Offer(b)), ParseMatch);
  }
}
