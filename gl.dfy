/** The library's constants and its settings container (tomatopy/gl.py). */
module Globals {
  import opened Wrappers

  /** Root of every movie page URL. */
  const RtBaseUrl: string := "https://www.rottentomatoes.com/"

  /** Seconds between requests while no custom rate has been set. */
  const DefaultCrawlRate: real := 1.0

  /** The exception raised for a rate that is not positive. */
  datatype ConfigError = NonPositiveRate(rate: real)

  /** Holds the crawl rate and the verbose flag; `customCrawlRate == 0.0`
      means "not set, use `DefaultCrawlRate`". */
  class LibGlobalsContainer {
    var customCrawlRate: real
    var verbose: bool

    /** The stored rate is either unset (0) or positive. */
    ghost predicate Valid()
      reads this
    {
      customCrawlRate == 0.0 || customCrawlRate > 0.0
    }

    constructor ()
      ensures Valid()
      ensures customCrawlRate == 0.0 && !verbose
      ensures CrawlRate() == DefaultCrawlRate
    {
      customCrawlRate := 0.0;
      verbose := false;
    }

    /** The rate in effect: the custom rate once one is set, else the default. */
    function CrawlRate(): real
      reads this
    {
      if customCrawlRate != 0.0 then customCrawlRate else DefaultCrawlRate
    }

    /** Rejects a non-positive rate and leaves everything as it was;
        otherwise stores it. The verbose flag is never touched. */
    method SetCrawlRate(rate: real) returns (outcome: Result<(), ConfigError>)
      requires Valid()
      modifies this
      ensures Valid()
      ensures verbose == old(verbose)
      ensures outcome.Failure? <==> rate <= 0.0
      ensures outcome.Failure? ==> outcome.error == NonPositiveRate(rate) && customCrawlRate == old(customCrawlRate)
      ensures outcome.Success? ==> customCrawlRate == rate && CrawlRate() == rate
    {
      if rate <= 0.0 {
        return Failure(NonPositiveRate(rate));
      }
      customCrawlRate := rate;
      outcome := Success(());
    }

    /** The rate in effect, which is always positive. */
    method GetCrawlRate() returns (rate: real)
      requires Valid()
      ensures rate == CrawlRate()
      ensures rate > 0.0
      ensures customCrawlRate > 0.0 ==> rate == customCrawlRate
    {
      if customCrawlRate != 0.0 {
        rate := customCrawlRate;
      } else {
        rate := DefaultCrawlRate;
      }
    }

    /** Sets the verbose flag; the crawl rate is untouched. */
    method SetVerboseMode(v: bool)
      requires Valid()
      modifies this
      ensures Valid()
      ensures verbose == v
      ensures customCrawlRate == old(customCrawlRate)
    {
      verbose := v;
    }

    method GetVerboseSetting() returns (v: bool)
      ensures v == verbose
    {
      v := verbose;
    }
  }

  /** A client run: a fresh container reports the default rate; a rejected
      rate leaves the previous one in effect; verbose and rate are independent. */
  method SettingsScenario() returns (first: real, second: real, third: real, loud: bool)
    ensures first == DefaultCrawlRate
    ensures second == 10.0 && third == 10.0
    ensures loud
  {
    var cont := new LibGlobalsContainer();
    first := cont.GetCrawlRate();
    var ok := cont.SetCrawlRate(10.0);
    second := cont.GetCrawlRate();
    var rejected := cont.SetCrawlRate(0.0);
    assert rejected.Failure?;
    cont.SetVerboseMode(true);
    third := cont.GetCrawlRate();
    loud := cont.GetVerboseSetting();
  }
}
