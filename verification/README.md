# tenbook scrapers — the record-level normalisation, in Dafny

`tenbook` collects tennis match odds from Polish bookmakers. Each provider
module fetches the bookmaker's offer over HTTP and then does the same kind of
work on the decoded records:

- it keeps the records that describe pre-match singles tennis on the main tours;
- it reads each kept record into an `OddsPair`, with a home side and an away
  side, each a contender and a decimal price;
- it either skips a malformed record or raises.

This project models that post-fetch layer for LV BET, forbet, betclic and betx,
plus the shared `filter_pair` lookup and the rule that the abstract odds classes
cannot be instantiated. HTTP responses and HTML pages become already-decoded
records: typed Dafny datatypes holding the fields the code reads. Python
exceptions become the `Failure` side of a `Result`, and Python's `None` becomes
`Option`.

Files, one module each:

- `wrappers.dfy` — `Option` and `Result`.
- `seqs.dfy` — list comprehensions:
  - filtering;
  - `next(..., None)`;
  - a mapping whose first exception aborts;
  - dropping `None`s;
  - flattening.
- `text.dfy` — Python string semantics the parsers depend on:
  - substring `in`, where the empty string occurs everywhere;
  - `str.split` with non-overlapping left-to-right cuts;
  - `split(sep)[-1]`;
  - `int(...)` on digit strings;
  - `str(n)` and zero-padded numbers.
- `scrape.dfy` — `scrape/__init__.py`:
  - the odds and pair records;
  - the error kinds;
  - instantiation of the odds classes;
  - `filter_pair`.
- `lv_bet.dfy`, `forbet.dfy`, `betclic.dfy`, `betx.dfy` — one provider each.

Forbet's `getpairs` mutates the list it searches (`list.remove`). It is modelled
twice:

- as the method `Forbet.GetPairs`, which loops over a shrinking list of
  positions, as the source does;
- as the pure reference definition `Forbet.RePair`.

The loop invariants prove the two agree. `Forbet.RePairSpec` states the promised
pairing properties of the reference definition.

## Model

| member | source | states |
|---|---|---|
| Seqs.Filter | scrape/lv_bet.py:29 | a conditional comprehension keeps only elements that pass, each taken from the input, and keeps every input element that passes |
| Seqs.FilterConcat | scrape/betclic.py:41-44 | filtering two consecutive chunks is filtering each chunk, so survivors keep their relative order |
| Seqs.FilterFilter | scrape/betclic.py:41-44 | two successive filters keep exactly what one filter on the conjunction keeps |
| Seqs.FilterAll | scrape/betclic.py:44 | a filter returns its input unchanged iff every element passes |
| Seqs.FilterIdempotent | scrape/betclic.py:41-44 | filtering twice by the same condition equals filtering once |
| Seqs.FirstIndex | scrape/__init__.py:76 | `next(..., None)` gives the first position that satisfies the condition, and nothing iff no position does |
| Seqs.MapAll | scrape/betclic.py:61 | a comprehension whose element expression may raise: succeeds iff every element does, with the results in input order; otherwise it reports an element's error, every element before it having succeeded |
| Seqs.MapAllConcat | scrape/betx.py:70 | such a comprehension over two consecutive chunks returns the two result lists concatenated |
| Seqs.KeepSome | scrape/lv_bet.py:82 | dropping the `None`s keeps exactly the present values, and drops nothing iff none is missing |
| Seqs.KeepSomeConcat | scrape/lv_bet.py:82 | dropping `None`s preserves the order of the kept values |
| Seqs.Concat | scrape/betx.py:54-55 | a nested comprehension holds exactly the elements of the inner lists, and over a single inner list is that list; with `Seqs.ConcatAppend` this fixes order and multiplicity |
| Seqs.ConcatAppend | scrape/betx.py:54-55 | flattening two consecutive outer chunks is flattening each |
| Seqs.Map | scrape/betx.py:54 | an element-wise comprehension has the input's length, and its k-th element is the image of the k-th input |
| Seqs.MapConcat | scrape/betx.py:54 | an element-wise comprehension commutes with concatenation |
| Text.Contains | scrape/lv_bet.py:50 | Python's substring test: the empty string occurs in every text, and a needle longer than the text never occurs |
| Text.ContainsOccurs | scrape/lv_bet.py:50 | Python's substring test holds iff the needle occurs at some position |
| Text.FindFrom | scrape/lv_bet.py:52 | the first occurrence of the separator at or after a position, or none iff there is none |
| Text.Split | scrape/lv_bet.py:52 | `str.split(sep)` gives at least one part; exactly one, the whole text, iff the separator does not occur; otherwise the first part is the text before the first occurrence |
| Text.SplitPartsFree | scrape/lv_bet.py:52 | no part of `str.split(sep)` contains the separator |
| Text.JoinSplit | scrape/lv_bet.py:52 | joining the parts of a split with the separator gives back the text |
| Text.SplitInTwo | scrape/lv_bet.py:52 | a text that splits into exactly two parts is first part, separator, second part, both parts free of the separator |
| Text.SplitSingleton | scrape/lv_bet.py:52 | a split gives one part iff the separator does not occur |
| Text.LastSegment | scrape/forbet.py:68 | `split(sep)[-1]` is a suffix free of the separator, preceded by the separator unless it is the whole text |
| Text.ParseNat | scrape/forbet.py:69 | `int(...)` succeeds exactly on non-empty digit strings |
| Text.ParseShow | scrape/forbet.py:75-77 | reading back the decimal rendering of a number gives the number |
| Text.ParsePad | scrape/betx.py:30-31 | reading back a zero-padded rendering gives the number |
| Scrape.NewOdds | scrape/__init__.py:24-39 | instantiating `Odds` or `BsOdds` fails with the class name; a concrete class raises a call-arity error unless it gets the event label exactly when it is forbet's class, and otherwise holds the contender, price and label it was given |
| Scrape.ConcreteConstructs | scrape/forbet.py:115-117 | each concrete class, called with its own parameter list, succeeds and builds the record of its arguments |
| Scrape.InitAsWritten | scrape/lv_bet.py:39-40 | the LV BET and forbet constructor bodies as written, even when called correctly, raise a call-arity error from `Odds.__init__`; the betclic and betx bodies behave as intended |
| Scrape.NewOddsAsWritten | scrape/__init__.py:33-39 | with the classes as written, every class that does not override both abstract getters (the bases, LV BET, forbet) raises the abstract-instantiation TypeError before its constructor runs; betclic and betx odds behave as intended |
| Scrape.AbstractGettersRaise | scrape/lv_bet.py:34-40 | for every contender, price and label, the as-written LV BET and forbet classes refuse instantiation where the intended ones succeed |
| Scrape.ForwardingConstructorsRaise | scrape/forbet.py:115-116 | behind that refusal, the LV BET and forbet constructors pass two arguments to `Odds.__init__`, which takes none |
| Scrape.NewOddsPairAsWritten | scrape/__init__.py:63-68 | the two-field dataclass accepts a home/away call and rejects a call that adds an event |
| Scrape.EventLabelledPairRaises | scrape/lv_bet.py:76 | passing the event label as a third argument always raises |
| Scrape.FilterPair | scrape/__init__.py:71-82 | nothing when `home` is not quoted, or when `away` is not quoted; a pair iff both are quoted; the pair holds the first entry quoting each name; no event label |
| Scrape.FilterPairSameName | scrape/__init__.py:74-82 | asking for the same name twice puts the same entry on both sides |
| LvBet.TennisMatches | scrape/lv_bet.py:29 | exactly the records labelled "tennis" are kept |
| LvBet.TennisMatchesOrder | scrape/lv_bet.py:29 | kept records stay in feed order |
| LvBet.EventLabel | scrape/lv_bet.py:52 | the event label is the text before the first " - ", and the rest after it holds no further " - "; any name that does not split into exactly two parts raises an unpacking error |
| LvBet.EventLabelNeedsSeparator | scrape/lv_bet.py:52 | a tournament name without " - " raises rather than yielding nothing |
| LvBet.PairFromMarket | scrape/lv_bet.py:64-76 | a pair iff there are two selections and both name a participant; home and away are the selections in order, with their rates and the event label |
| LvBet.ParseContenders | scrape/lv_bet.py:54-76 | nothing unless there are two participants, no participant name contains "/", and some market is a match-winner market; otherwise the first such market decides |
| LvBet.ParseMatch | scrape/lv_bet.py:43-76 | nothing unless there are three sports groups and the tournament is not excluded; raises iff such a name does not split in two; otherwise the contender checks decide |
| LvBet.GetPairs | scrape/lv_bet.py:79-84 | succeeds iff no tennis record raises; keeps exactly the present results of the tennis records; otherwise raises the error of the first tennis record that raises |
| LvBet.GetPairsOrder | scrape/lv_bet.py:81-82 | pairs come out in feed order |
| Forbet.TourSubIds | scrape/forbet.py:57-66 | the sub-block ids come exactly from blocks whose title mentions ATP or WTA |
| Forbet.TourSubIdsOrder | scrape/forbet.py:62-69 | the ids of two consecutive runs of blocks are those of the first run followed by those of the second |
| Forbet.TourSubIdsSingle | scrape/forbet.py:62-69 | one block contributes all its sub-block ids in document order if its title names ATP or WTA, and nothing otherwise |
| Forbet.ParseCategoryId | scrape/forbet.py:67-69 | a category id is the integer written in ASCII digits after the last "-" of the div id; anything else raises |
| Forbet.CategoryIds | scrape/forbet.py:50-71 | one id per ATP/WTA sub-block in document order, failing iff some id is malformed, with the error of the first malformed id |
| Forbet.CategoryIdsOrder | scrape/forbet.py:62-71 | the ids come out block by block in document order |
| Forbet.CategoryIdsIgnoreOtherBlocks | scrape/forbet.py:57-61 | blocks outside the two tours do not affect the ids |
| Forbet.CategoryUrl | scrape/forbet.py:74-77 | the page url is the fixed prefix followed by the id, which reads back |
| Forbet.ValidPage | scrape/forbet.py:81-94 | a page passes iff it has two menu divs, the second holds three anchors, and the third anchor's text contains none of ITF, Challenger, Klasyfikacja; a breadcrumb shorter than three characters always passes |
| Forbet.WinnerTags | scrape/forbet.py:81-102 | collects exactly the "Zwycięzca" tags of the pages that pass `validate_soup`: two menu divs, three anchors, no excluded word in the third |
| Forbet.WinnerTagsSingle | scrape/forbet.py:100-102 | the tags of one page are that page's winner tags, in document order |
| Forbet.WinnerTagsOrder | scrape/forbet.py:96-102 | tags come out page by page in document order |
| Forbet.GetOdds | scrape/forbet.py:120-130 | no contender contains "/"; each entry is read from some tag; every singles tag yields its entry |
| Forbet.ToOddsConstructs | scrape/forbet.py:115-117 | the record of a forbet entry is what the intended `ForbetOdds` constructor builds from its contender, price and event label |
| Forbet.GetOddsOrder | scrape/forbet.py:121-128 | entries keep the tags' order |
| Forbet.GetOddsIdempotent | scrape/forbet.py:124-125 | pruning doubles again changes nothing |
| Forbet.PoolFacts | scrape/forbet.py:134-142 | the list after removals holds exactly the positions not yet removed, in original order |
| Forbet.RemoveFirst | scrape/forbet.py:142 | `list.remove` of a present element takes exactly one copy of it out of the list |
| Forbet.RemoveFirstAt | scrape/forbet.py:142 | `list.remove` cuts out exactly the first occurrence of the element and keeps the elements before and after it in order |
| Forbet.RemoveFirstFacts | scrape/forbet.py:142 | `list.remove` keeps every other element, and on an increasing list keeps it increasing and removes the element entirely |
| Forbet.RemoveFromPool | scrape/forbet.py:142 | removing the current home from the list is adding its position to the removed ones |
| Forbet.NextComplement | scrape/forbet.py:136-137 | the first entry still in the list whose event contains the home contender under a different name, or none iff there is none |
| Forbet.RePairFromShape | scrape/forbet.py:133-144 | at most one pair per entry, homes in list order, each away a complement of its home |
| Forbet.RePair | scrape/forbet.py:133-144 | the reference pairing: no more pairs than entries, positions inside the list, each away a complement of its home, homes in list order |
| Forbet.RePairFromFirstAvailable | scrape/forbet.py:135-142 | each away is the first complement still in the list when its home is visited; an unpaired entry had no complement left |
| Forbet.RePairSpec | scrape/forbet.py:133-144 | no more pairs than entries; homes in list order; each away is the first available complement; a home is never chosen as an away later |
| Forbet.FindComplement | scrape/forbet.py:136-137 | the search returns the first place in the current list holding a complement, or nothing iff none does |
| Forbet.PoolSearch | scrape/forbet.py:135-137 | searching the shrinking list finds the complement the reference definition picks |
| Forbet.LoopStep | scrape/forbet.py:135-142 | one loop turn keeps the pairs built so far and the list left in step with the reference definition |
| Forbet.PairsOfRePair | scrape/forbet.py:136-141 | every pair: different contenders, the away's event contains the home contender, the pair carries the home's event, both sides are forbet odds |
| Forbet.GetPairs | scrape/forbet.py:133-144 | the in-place loop produces exactly the pairs of the reference definition |
| Betclic.FiltersCombine | scrape/betclic.py:41-44 | the three successive event filters equal one filter on their conjunction |
| Betclic.Events | scrape/betclic.py:35-44 | keeps exactly the events that are not live, whose competition names none of Challenger/ITF/Exhibition, and that have markets |
| Betclic.EventsOrder | scrape/betclic.py:41-44 | kept events stay in feed order |
| Betclic.EventsIdempotent | scrape/betclic.py:41-44 | selecting again from selected events changes nothing |
| Betclic.PairOfSelections | scrape/betclic.py:53-55 | two selections give a pair of their names and prices in order, which reads back to the selections; any other count raises |
| Betclic.ParseEventNamed | scrape/betclic.py:47-55 | the explicit "Invalid input" error iff no market has the winner name; otherwise the first such market's selections decide |
| Betclic.ParseEvent | scrape/betclic.py:47-55 | the same, with the match-winner market under its Polish name |
| Betclic.ParseEventAsWritten | scrape/betclic.py:50-52 | with the market name as spelt in the source, "Invalid input" iff no market carries that spelling |
| Betclic.AsWrittenRejectsWinnerMarket | scrape/betclic.py:50-52 | an event with a properly named match-winner market is rejected by the source's spelling and read by the corrected one |
| Betclic.GetPairsNamed | scrape/betclic.py:58-63 | for a given winner-market name: one pair per kept event in order, or the error of the first kept event that raises |
| Betclic.GetPairs | scrape/betclic.py:58-63 | the same, reading the market under its Polish name |
| Betclic.GetPairsAsWritten | scrape/betclic.py:50-61 | with the market name spelt as in the source: succeeds iff every kept event parses under that spelling, otherwise raises the error of the first kept event that does not |
| Betclic.AsWrittenRejectsFeed | scrape/betclic.py:50-61 | a feed with one listed, properly named event raises "Invalid input" as written and yields a pair when corrected |
| Betclic.GetPairsNamedOrder | scrape/betclic.py:61 | pairs come out in feed order, whatever the market name |
| Betclic.GetPairsOrder | scrape/betclic.py:61 | pairs come out in feed order |
| Betx.DaysInMonth | scrape/betx.py:23 | the month lengths `datetime` checks days against: February 28 days, 29 in a leap year; April, June, September and November 30; every other month 31 |
| Betx.YearLength | scrape/betx.py:23 | the twelve month lengths add up to 366 days in a leap year and 365 otherwise |
| Betx.NewDateTime | scrape/betx.py:23 | `datetime(y, m, d, h)` succeeds iff the date exists in years 1 to 9999 and the hour is below 24 |
| Betx.YearAfter | scrape/betx.py:22-23 | the same month, day and hour a year later, truncated to the hour; raises exactly on 29 February and in year 9999 |
| Betx.IsoFormat | scrape/betx.py:30-31 | the rendering has 19 characters, or 26 when there are microseconds |
| Betx.DatePartRoundTrip | scrape/betx.py:30-31 | the "YYYY-MM-DD" part reads back as the date |
| Betx.TimePartRoundTrip | scrape/betx.py:30-31 | the "HH:MM:SS" part reads back as the time of day |
| Betx.IsoRoundTrip | scrape/betx.py:30-31 | the ISO rendering of a valid date-time reads back as that date-time |
| Betx.GetPostData | scrape/betx.py:21-32 | offset 0, limit 50, sport 389, no category or league filter; raises exactly when the year-after date does not exist |
| Betx.PostDataWindow | scrape/betx.py:22-23 | the request window reads back as the current instant and the same day and hour a year later |
| Betx.Tournaments | scrape/betx.py:54 | the leagues are exactly those of the categories |
| Betx.OfferMatches | scrape/betx.py:55 | the matches are exactly those of the leagues |
| Betx.TournamentsSingle | scrape/betx.py:54 | one category contributes its own leagues, in order |
| Betx.LeagueMatchesSingle | scrape/betx.py:55 | one league contributes its own matches, in order |
| Betx.LeagueMatchesOrder | scrape/betx.py:55 | the matches of consecutive leagues come out league by league |
| Betx.OfferMatchesSingle | scrape/betx.py:54-55 | one category's matches are those of its leagues, flattened in league order |
| Betx.OfferMatchesMembers | scrape/betx.py:54-55 | a match is listed iff some league of some category holds it |
| Betx.OfferMatchesOrder | scrape/betx.py:54-55 | flattening keeps category order |
| Betx.LeaguesFlattenCount | scrape/betx.py:55 | the flattened leagues hold as many matches as the leagues together |
| Betx.OfferMatchesCount | scrape/betx.py:54-55 | the flattened list is as long as all `Matches` lists together |
| Betx.GetMatches | scrape/betx.py:50-57 | building the request body raises first on 29 February and in year 9999; then an empty response raises; otherwise the flattened matches of the first offer |
| Betx.ParseMatch | scrape/betx.py:60-64 | a pair iff there are exactly two prices, home from `TeamHome` with the first price, away from `TeamAway` with the second, which reads back to the record; otherwise an unpacking error |
| Betx.ParseMatchOf | scrape/betx.py:60-64 | parsing the record of a betx pair gives the pair back |
| Betx.GetPairs | scrape/betx.py:67-72 | the request-body error on 29 February and in year 9999, the empty-response error, or one pair per match in order, each reading back to its match, or the error of the first match without two prices |
| Betx.GetPairsOrder | scrape/betx.py:70 | pairs come out in category order |

## Left out

- HTTP and HTML access are left out:
  - the `requests` calls and `utils.timed_request`;
  - BeautifulSoup traversal;
  - JSON decoding and the timers.

  Their outputs are parameters: decoded records holding exactly the fields the code reads.
- KeyError, AttributeError and IndexError from missing keys, attributes or menu elements are not modelled. The records always carry the fields. The empty `Response` list of betx is the one exception: it is modelled as `EmptyResponse`.
- Reading a price as `float(...)` is left out. Prices are opaque `real` values, because no code computes with them.
- Text.ParseNat: accepts only non-empty ASCII digit strings, where Python's `int(...)` also accepts a sign, surrounding whitespace, underscores between digits and the decimal digits of other scripts (Arabic-Indic digits, for example). The model reports `NotAnInteger` for those texts, while Python returns a number, so `Forbet.ParseCategoryId` raises on more ids than the source does.
- Forbet.ParseCategoryId: raises `NotAnInteger` on ids such as "+12", " 12" or "1_2", which Python's `int(...)` reads as 12, because it relies on `Text.ParseNat` above.
- Forbet.RemoveFirst: says nothing about removing an absent element, where `list.remove` raises ValueError. The loop only ever removes the entry it is visiting, which is always still in the list.
- Betclic.GetPairs: reads the match-winner market under its Polish name, not under the source's spelling; `Betclic.GetPairsAsWritten` models the spelling as written (see Findings).
- The clock is a parameter: `datetime.now()` becomes the `now` argument of `Betx.GetPostData`, `Betx.GetMatches` and `Betx.GetPairs`.
- The remaining I/O is not modelled:
  - `print` progress lines;
  - the throttling `sleep`;
  - the `urlgen` generator's laziness.
- `BsOdds` has no concrete subclass in the modelled files. Only its refusal to be instantiated is modelled.
- Other parts of the repository are not part of this model:
  - fortuna.py (unfinished fetching);
  - the providers that only configure `CategorizedEventsParser`, which they import from `scrape` although scrape/__init__.py does not define it;
  - run.py.
- `filter_pair` does not modify its input list. The model expresses this by being a pure function; no separate lemma states it.
- Truthiness tests are modelled as presence tests. `filter_pair` tests the found odds for truthiness. `Odds` defines neither `__bool__` nor `__len__`, so a found entry is always truthy, and the model tests presence only. The same holds for the market dictionaries and the forbet complement.

## Findings

| source | as written | input that shows it | evidently intended | confidence | as-written member | corrected member |
|---|---|---|---|---|---|---|
| scrape/betclic.py:50 | looks for the market name "ZwyciÄ™zca meczu": the UTF-8 bytes of "ę" read back as Windows-1252 | an event whose only market is named "Zwycięzca meczu" raises "Invalid input" | match the Polish name "Zwycięzca meczu" | medium, not executed | Betclic.ParseEventAsWritten, Betclic.AsWrittenRejectsWinnerMarket | Betclic.ParseEvent |
| scrape/lv_bet.py:76, scrape/forbet.py:141 | passes three arguments (home, away, event) to the `OddsPair` dataclass, which declares only `home` and `away` | hidden as written: lv_bet.py:74 and forbet.py:128 raise first (next row); once the odds can be built, any LV BET match that passes every check, or any forbet entry with a complement, raises TypeError | a pair record that carries the event label | high, not executed | Scrape.NewOddsPairAsWritten, Scrape.EventLabelledPairRaises | LvBet.PairFromMarket, Forbet.PairsOfRePair |
| scrape/lv_bet.py:34-40, scrape/forbet.py:110-117 | `LvBetOdds` and `ForbetOdds` override neither abstract getter, `_get_contender` nor `_get_odds`, so ABCMeta refuses to instantiate them; behind that, their constructors call `super().__init__(contender, odds)`, while `Odds.__init__` takes no argument besides `self` | `LvBetOdds("A", 1.5)` (lv_bet.py:74) or `ForbetOdds("A", 1.5, "A - B")` (forbet.py:128) raises TypeError before the constructor runs; with getters added, the call to `Odds.__init__` would raise TypeError in turn | override the getters and store contender and price (and forbet's event label), as betclic and betx do | high, not executed | Scrape.NewOddsAsWritten, Scrape.AbstractGettersRaise, Scrape.InitAsWritten, Scrape.ForwardingConstructorsRaise | Scrape.NewOdds, Scrape.ConcreteConstructs |

Two more limits follow from the corrected definitions above:

- The rest of the model builds pairs with the three-field `OddsPair`. Every odds record the parsers build carries an event label exactly when it is forbet's. `Scrape.ConcreteConstructs` proves such a record is what the intended constructor returns; `Forbet.ToOddsConstructs` proves it for forbet's entries.
- `Betx.YearAfter` raises in year 9999 as well as on 29 February. This is the documented range of Python's `datetime`, not a finding.
