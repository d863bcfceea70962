/** The shared record types of the scraper package and its one helper,
    `filter_pair` (scrape/__init__.py). */
module Scrape {
  import opened Wrappers
  import opened Seqs

  /** A decimal price. The scraper never computes with it, so it is only carried along. */
  type Price = real

  /** The bookmakers whose concrete odds classes appear in the package. */
  datatype Provider = LvBet | Forbet | Betclic | Betx

  /** The classes a caller may ask to instantiate: the two abstract bases or a concrete provider class. */
  datatype OddsClass = AbstractOdds | AbstractBsOdds | Concrete(provider: Provider)

  function ClassName(c: OddsClass): string {
    match c
    case AbstractOdds => "Odds"
    case AbstractBsOdds => "BsOdds"
    case Concrete(LvBet) => "LvBetOdds"
    case Concrete(Forbet) => "ForbetOdds"
    case Concrete(Betclic) => "BetclicOdds"
    case Concrete(Betx) => "BetxOdds"
  }

  /** One contender's price from one provider. Only the forbet odds carry an event label. */
  datatype Odds = Odds(provider: Provider, contender: string, odds: Price, event: Option<string>)

  /** Two-sided price for one match; `event` is "" when the provider gives none. */
  datatype OddsPair = OddsPair(home: Odds, away: Odds, event: string)

  /** The exceptions the modelled code raises. */
  datatype Error =
    | AbstractInstantiation(className: string)  // TypeError from the abstract base classes
    | Unpack(expected: nat, got: nat)           // ValueError from tuple unpacking
    | InvalidInput                              // betclic's explicit ValueError
    | NotAnInteger(text: string)                // ValueError from int(...)
    | DateOutOfRange                            // ValueError from datetime(...)
    | EmptyResponse                             // IndexError from indexing an empty list
    | WrongArgumentCount(callee: string, expected: nat, got: nat)  // TypeError from a call

  /** Positional parameters of `Odds.__init__` besides `self`. */
  const OddsInitParams := 0
  /** Fields of the `OddsPair` dataclass as declared: `home` and `away`. */
  const OddsPairFields := 2

  /** A Python call passing `given` positional arguments to `callee`, which
      takes exactly `params`: a TypeError unless the counts agree. */
  function Call(callee: string, params: nat, given: nat): (r: Result<(), Error>)
    ensures r.Success? <==> given == params
    ensures r.Failure? ==> r.error == WrongArgumentCount(callee, params, given)
  {
    if given == params then Success(()) else Failure(WrongArgumentCount(callee, params, given))
  }

  /** Positional parameters of a concrete constructor besides `self`:
      contender and price, and for forbet the event label as well. */
  function InitParams(p: Provider): nat {
    if p == Forbet then 3 else 2
  }

  /** Arguments passed to a constructor: contender, price and the optional event label. */
  function Given(event: Option<string>): nat {
    if event.Some? then 3 else 2
  }

  /** Instantiating an odds class as the design intends: the abstract bases
      refuse with a TypeError; a concrete class takes contender and price,
      forbet's the event label too, and stores what it was given. */
  function NewOdds(c: OddsClass, contender: string, price: Price, event: Option<string>): (r: Result<Odds, Error>)
    ensures r.Failure? <==> !c.Concrete? || event.Some? != (c.provider == Forbet)
    ensures !c.Concrete? ==> r == Failure(AbstractInstantiation(ClassName(c)))
    ensures c.Concrete? && r.Failure? ==>
      r.error == WrongArgumentCount(ClassName(c), InitParams(c.provider), Given(event))
    ensures r.Success? ==> r.value.provider == c.provider && r.value.contender == contender
                           && r.value.odds == price && r.value.event == event
  {
    match c
    case AbstractOdds => Failure(AbstractInstantiation(ClassName(c)))
    case AbstractBsOdds => Failure(AbstractInstantiation(ClassName(c)))
    case Concrete(p) =>
      var _ :- Call(ClassName(c), InitParams(p), Given(event));
      Success(Odds(p, contender, price, event))
  }

  /** Every concrete class, given the event label exactly when it is
      forbet's, builds the record of what it was given. */
  lemma ConcreteConstructs(p: Provider, contender: string, price: Price, event: Option<string>)
    requires event.Some? <==> p == Forbet
    ensures NewOdds(Concrete(p), contender, price, event) == Success(Odds(p, contender, price, event))
  {
  }

  /** The classes that override both abstract getters, `_get_contender` and
      `_get_odds`. ABCMeta refuses to instantiate any other class, in
      `object.__new__`, before its constructor runs. */
  predicate OverridesGetters(c: OddsClass) {
    c == Concrete(Betclic) || c == Concrete(Betx)
  }

  /** Arguments a concrete constructor as written passes on to `Odds.__init__`. */
  function Forwarded(p: Provider): nat {
    if p == LvBet || p == Forbet then 2 else 0
  }

  /** A concrete constructor's body as written, were its class instantiable:
      its own parameter list, then the call to `Odds.__init__`. */
  function InitAsWritten(p: Provider, contender: string, price: Price, event: Option<string>): (r: Result<Odds, Error>)
    ensures r.Success? <==> event.Some? == (p == Forbet) && p != LvBet && p != Forbet
    ensures r.Success? ==> r == NewOdds(Concrete(p), contender, price, event)
    ensures (p == LvBet || p == Forbet) && event.Some? == (p == Forbet) ==>
      r == Failure(WrongArgumentCount("Odds.__init__", OddsInitParams, 2))
  {
    var _ :- Call(ClassName(Concrete(p)), InitParams(p), Given(event));
    var _ :- Call("Odds.__init__", OddsInitParams, Forwarded(p));
    NewOdds(Concrete(p), contender, price, event)
  }

  /** Instantiating an odds class as the source is written: the metaclass
      check first, then the constructor body. */
  function NewOddsAsWritten(c: OddsClass, contender: string, price: Price, event: Option<string>): (r: Result<Odds, Error>)
    ensures r.Failure? <==> !OverridesGetters(c) || event.Some?
    ensures !OverridesGetters(c) ==> r == Failure(AbstractInstantiation(ClassName(c)))
    ensures OverridesGetters(c) ==> r == NewOdds(c, contender, price, event)
  {
    if !OverridesGetters(c) then Failure(AbstractInstantiation(ClassName(c)))
    else InitAsWritten(c.provider, contender, price, event)
  }

  /** The classes as written never produce LV BET or forbet odds: the
      metaclass refuses both, while the intended constructors succeed. */
  lemma AbstractGettersRaise(contender: string, price: Price, event: string)
    ensures NewOddsAsWritten(Concrete(LvBet), contender, price, None) == Failure(AbstractInstantiation("LvBetOdds"))
    ensures NewOddsAsWritten(Concrete(Forbet), contender, price, Some(event)) == Failure(AbstractInstantiation("ForbetOdds"))
    ensures NewOdds(Concrete(LvBet), contender, price, None).Success?
    ensures NewOdds(Concrete(Forbet), contender, price, Some(event)).Success?
  {
  }

  /** Behind the metaclass check a second defect waits: the LV BET and
      forbet constructors pass two arguments to `Odds.__init__`, which takes none. */
  lemma ForwardingConstructorsRaise(contender: string, price: Price, event: string)
    ensures InitAsWritten(LvBet, contender, price, None) == Failure(WrongArgumentCount("Odds.__init__", 0, 2))
    ensures InitAsWritten(Forbet, contender, price, Some(event)) == Failure(WrongArgumentCount("Odds.__init__", 0, 2))
  {
  }

  /** `OddsPair(home, away)` or, when an event label is passed as well,
      `OddsPair(home, away, event)` against the two-field dataclass. */
  function NewOddsPairAsWritten(home: Odds, away: Odds, event: Option<string>): (r: Result<OddsPair, Error>)
    ensures r.Success? <==> event.None?
    ensures r.Failure? ==> r.error == WrongArgumentCount("OddsPair", OddsPairFields, 3)
    ensures r.Success? ==> r.value.home == home && r.value.away == away
  {
    var _ :- Call("OddsPair", OddsPairFields, if event.Some? then 3 else 2);
    Success(OddsPair(home, away, ""))
  }

  /** Passing the event label, as the LV BET and forbet parsers do, always raises. */
  lemma EventLabelledPairRaises(home: Odds, away: Odds, event: string)
    ensures NewOddsPairAsWritten(home, away, Some(event)) == Failure(WrongArgumentCount("OddsPair", 2, 3))
  {
  }

  /** Some entry of the list quotes the contender `name`. */
  predicate Quotes(oddsList: seq<Odds>, name: string) {
    exists k :: 0 <= k < |oddsList| && oddsList[k].contender == name
  }

  /** `k` is the first position of the list quoting `name`. */
  predicate FirstQuote(oddsList: seq<Odds>, name: string, k: int) {
    IsFirst(oddsList, (o: Odds) => o.contender == name, k)
  }

  /** `filter_pair`: the first odds quoting `home` and the first quoting
      `away`, or nothing when either name is not quoted. */
  function FilterPair(oddsList: seq<Odds>, home: string, away: string): (r: Option<OddsPair>)
    ensures !Quotes(oddsList, home) ==> r.None?
    ensures Quotes(oddsList, home) && !Quotes(oddsList, away) ==> r.None?
    ensures r.Some? <==> Quotes(oddsList, home) && Quotes(oddsList, away)
    ensures r.Some? ==> exists k :: FirstQuote(oddsList, home, k) && r.value.home == oddsList[k]
    ensures r.Some? ==> exists k :: FirstQuote(oddsList, away, k) && r.value.away == oddsList[k]
    ensures r.Some? ==> r.value.event == ""
  {
    match FirstIndex(oddsList, (o: Odds) => o.contender == home)
    case None => None
    case Some(h) =>
      match FirstIndex(oddsList, (o: Odds) => o.contender == away)
      case None => None
      case Some(a) =>
        assert FirstQuote(oddsList, home, h) && FirstQuote(oddsList, away, a);
        Some(OddsPair(oddsList[h], oddsList[a], ""))
  }

  /** Nothing checks that the two names differ: asking for the same name twice
      puts the same entry on both sides. */
  lemma FilterPairSameName(oddsList: seq<Odds>, name: string)
    requires Quotes(oddsList, name)
    ensures FilterPair(oddsList, name, name).Some?
    ensures FilterPair(oddsList, name, name).value.home == FilterPair(oddsList, name, name).value.away
  {
    var r := FilterPair(oddsList, name, name);
    var h :| FirstQuote(oddsList, name, h) && r.value.home == oddsList[h];
    var a :| FirstQuote(oddsList, name, a) && r.value.away == oddsList[a];
    assert h == a;
  }
}
