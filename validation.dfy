/**
 * Validation of a plan request: presence checks on the four fields, then
 * parse checks on the three text fields, collecting failures in a
 * field-keyed error set.
 */
module Validation {
  import opened Wrappers
  import opened Calendar

  /** The request body: three text fields and the duration in months. */
  datatype Payload = Payload(loanAmount: string, nominalRate: string, duration: int, startDate: string)

  /**
   * The outcomes of the foreign parsers the validator calls: an RFC 3339
   * timestamp parser, and the decimal parser read as a whole number of
   * cents (loan amount) and of basis points (nominal rate, where 500 is
   * 5.0 percent). None stands for a parse error.
   */
  datatype Parsers = Parsers(
    time: string -> Option<Timestamp>,
    amount: string -> Option<int>,
    rate: string -> Option<int>)
  {
    /** The time parser only yields real calendar dates, as every Go time.Time is one. */
    ghost predicate TimesValid() {
      forall s :: time(s).Some? ==> ValidDate(Midnight(time(s).value))
    }
  }

  /** The keys of the error set; Name gives the text each is reported under. */
  datatype Key = StartDateKey | LoanAmountKey | DurationKey | NominalRateKey | NegativeKey {
    function Name(): (s: string) {
      match this
      case StartDateKey => "StartDate"
      case LoanAmountKey => "LoanAmount"
      case DurationKey => "Duration"
      case NominalRateKey => "NominalRate"
      case NegativeKey => "LoanAmount, NominalRateCents, Duration"
    }
  }

  /** The error set: each key maps to its messages, in the order they were added. */
  type Errors = map<Key, seq<string>>

  const MissingMessage := "Required Field Missing"
  const StartDateParseMessage := "Could not parse startDate to RFC3339 format"
  const NominalRateParseMessage := "Could not convert nominalRate from string to float64"
  const LoanAmountParseMessage := "Could not convert loanAmount from string to float64"
  const NegativeMessage := "Requests are negative numbers"

  /** Appends a message under a key, creating the key if it is new. */
  function Add(errors: Errors, key: Key, message: string): (r: Errors)
    ensures r.Keys == errors.Keys + {key}
    ensures key in errors ==> r[key] == errors[key] + [message]
    ensures key !in errors ==> r[key] == [message]
    ensures forall k :: k in errors && k != key ==> r[k] == errors[k]
  {
    if key in errors then errors[key := errors[key] + [message]]
    else errors[key := [message]]
  }

  /** True when one of the four fields counts as absent. */
  predicate AnyMissing(p: Payload) {
    p.startDate == "" || p.loanAmount == "" || p.duration <= 0 || p.nominalRate == ""
  }

  /**
   * Validates p. When a field is absent, only the absence is reported and
   * the values are zero; otherwise each text field that does not parse gets
   * its own message and the values are the parsed ones, or zero where a
   * parse failed. The error set is empty exactly when the request is usable.
   */
  method ValidateRequest(p: Payload, parsers: Parsers)
    returns (loanAmount: int, nominalRate: int, startDate: Timestamp, errors: Errors)
    requires parsers.TimesValid()
    // The start date, parsed or zero, is always one the plan generator accepts.
    ensures ValidDate(Midnight(startDate))
    // The compound "negative numbers" entry never appears: reaching that
    // check implies a positive duration.
    ensures NegativeKey !in errors
    // A missing field: one "missing" entry per absent field and nothing
    // else, and zero values.
    ensures AnyMissing(p) ==>
      && (StartDateKey in errors <==> p.startDate == "")
      && (LoanAmountKey in errors <==> p.loanAmount == "")
      && (DurationKey in errors <==> p.duration <= 0)
      && (NominalRateKey in errors <==> p.nominalRate == "")
      && (forall k :: k in errors ==> errors[k] == [MissingMessage])
      && loanAmount == 0 && nominalRate == 0 && startDate == ZeroTime
    // All fields present: one parse message per field that fails to parse.
    ensures !AnyMissing(p) ==>
      && DurationKey !in errors
      && (StartDateKey in errors <==> parsers.time(p.startDate).None?)
      && (NominalRateKey in errors <==> parsers.rate(p.nominalRate).None?)
      && (LoanAmountKey in errors <==> parsers.amount(p.loanAmount).None?)
      && (StartDateKey in errors ==> errors[StartDateKey] == [StartDateParseMessage])
      && (NominalRateKey in errors ==> errors[NominalRateKey] == [NominalRateParseMessage])
      && (LoanAmountKey in errors ==> errors[LoanAmountKey] == [LoanAmountParseMessage])
      && startDate == parsers.time(p.startDate).GetOr(ZeroTime)
      && nominalRate == parsers.rate(p.nominalRate).GetOr(0)
      && loanAmount == parsers.amount(p.loanAmount).GetOr(0)
    ensures errors == map[] <==>
      && !AnyMissing(p)
      && parsers.time(p.startDate).Some? && parsers.rate(p.nominalRate).Some?
      && parsers.amount(p.loanAmount).Some?
  {
    errors := map[];

    if p.startDate == "" {
      errors := Add(errors, StartDateKey, MissingMessage);
    }
    if p.loanAmount == "" {
      errors := Add(errors, LoanAmountKey, MissingMessage);
    }
    if p.duration <= 0 {
      errors := Add(errors, DurationKey, MissingMessage);
    }
    if p.nominalRate == "" {
      errors := Add(errors, NominalRateKey, MissingMessage);
    }

    assert StartDateKey in errors <==> p.startDate == "";
    assert LoanAmountKey in errors <==> p.loanAmount == "";
    assert DurationKey in errors <==> p.duration <= 0;
    assert NominalRateKey in errors <==> p.nominalRate == "";
    assert NegativeKey !in errors;
    assert forall k :: k in errors ==> errors[k] == [MissingMessage];
    assert !AnyMissing(p) ==> errors == map[];
    if errors != map[] {
      return 0, 0, ZeroTime, errors;
    }

    assert errors == map[];
    var parsedDate := parsers.time(p.startDate);
    startDate := parsedDate.GetOr(ZeroTime);
    if parsedDate.None? {
      errors := Add(errors, StartDateKey, StartDateParseMessage);
    }
    assert errors == if parsedDate.None? then map[StartDateKey := [StartDateParseMessage]] else map[];
    var parsedRate := parsers.rate(p.nominalRate);
    nominalRate := parsedRate.GetOr(0);
    if parsedRate.None? {
      errors := Add(errors, NominalRateKey, NominalRateParseMessage);
    }
    assert NominalRateKey in errors <==> parsedRate.None?;
    assert NominalRateKey in errors ==> errors[NominalRateKey] == [NominalRateParseMessage];
    assert StartDateKey in errors <==> parsedDate.None?;
    assert StartDateKey in errors ==> errors[StartDateKey] == [StartDateParseMessage];
    assert LoanAmountKey !in errors && DurationKey !in errors && NegativeKey !in errors;
    var parsedAmount := parsers.amount(p.loanAmount);
    loanAmount := parsedAmount.GetOr(0);
    if parsedAmount.None? {
      errors := Add(errors, LoanAmountKey, LoanAmountParseMessage);
    }
    if loanAmount <= 0 && nominalRate < 0 && p.duration <= 0 {
      errors := Add(errors, NegativeKey, NegativeMessage);
    }
  }
}
