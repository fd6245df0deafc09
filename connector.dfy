/**
 * The default methods of the `Connector` interface: the date-range check,
 * the argument check and the description.
 *
 * `ConnectorArguments` is not part of this model beyond its optional start
 * and end dates. A date is its instant (what `isBefore` compares) together
 * with the text its `toString` gives.
 */
module Connector {
  import opened Wrappers

  datatype ZonedDateTime = ZonedDateTime(instant: int, text: string)

  datatype ConnectorArguments = ConnectorArguments(startDate: Option<ZonedDateTime>, endDate: Option<ZonedDateTime>)

  /** The exceptions Guava's `checkNotNull` and `checkState` throw, with their messages. */
  datatype Failure = NullPointer(message: string) | IllegalState(message: string)

  const EndDateRequired := "End date must be specified with start date, but was null."
  const StartDateRequired := "End date can be specified only with start date, but start date was null."

  const OrderPrefix := "Start date ["
  const OrderMiddle := "] must be before end date ["
  const OrderSuffix := "]."

  /** `checkState`'s message for a start that is not before the end, with both dates filled in. */
  function OrderMessage(start: ZonedDateTime, end: ZonedDateTime): string
  {
    OrderPrefix + start.text + OrderMiddle + end.text + OrderSuffix
  }

  /**
   * `validateDateRange`: with a start date, the end date must be present and
   * strictly later; without one, there must be no end date either.
   */
  function ValidateDateRange(arguments: ConnectorArguments): (r: Outcome<Failure>)
    // accepted exactly when both dates are absent, or both present with start before end
    ensures r.Pass? <==>
              (arguments.startDate.None? && arguments.endDate.None?) ||
              (arguments.startDate.Some? && arguments.endDate.Some? &&
               arguments.startDate.value.instant < arguments.endDate.value.instant)
    // each rejection, in the order the checks run, with its exception and message
    ensures arguments.startDate.Some? && arguments.endDate.None? ==>
              r == Fail(NullPointer(EndDateRequired))
    ensures arguments.startDate.Some? && arguments.endDate.Some? &&
            arguments.startDate.value.instant >= arguments.endDate.value.instant ==>
              r == Fail(IllegalState(OrderMessage(arguments.startDate.value, arguments.endDate.value)))
    ensures arguments.startDate.None? && arguments.endDate.Some? ==>
              r == Fail(IllegalState(StartDateRequired))
  {
    var startDate, endDate := arguments.startDate, arguments.endDate;
    if startDate.Some? then
      if endDate.None? then Fail(NullPointer(EndDateRequired))
      else if !(startDate.value.instant < endDate.value.instant) then
        Fail(IllegalState(OrderMessage(startDate.value, endDate.value)))
      else Pass
    else if endDate.Some? then Fail(IllegalState(StartDateRequired))
    else Pass
  }

  /** A range that starts and ends at the same instant is rejected, not accepted as empty. */
  lemma EqualDatesRejected(start: ZonedDateTime, end: ZonedDateTime)
    requires start.instant == end.instant
    ensures ValidateDateRange(ConnectorArguments(Some(start), Some(end))).Fail?
    ensures ValidateDateRange(ConnectorArguments(Some(start), Some(end))).error.IllegalState?
  {
  }

  /** The order message quotes the start date first and the end date second. */
  lemma OrderMessageQuotesDates(start: ZonedDateTime, end: ZonedDateTime)
    ensures var m, i := OrderMessage(start, end), |OrderPrefix|;
            |m| == i + |start.text| + |OrderMiddle| + |end.text| + |OrderSuffix| &&
            m[i..i + |start.text|] == start.text
    ensures var m, j := OrderMessage(start, end), |OrderPrefix| + |start.text| + |OrderMiddle|;
            |m| == j + |end.text| + |OrderSuffix| &&
            m[j..j + |end.text|] == end.text
  {
    var m := OrderMessage(start, end);
    var i := |OrderPrefix|;
    var j := i + |start.text| + |OrderMiddle|;
    assert m[i..i + |start.text|] == start.text;
    assert m[j..j + |end.text|] == end.text;
  }

  /** The default `validate`: every argument set is accepted. */
  function Validate(arguments: ConnectorArguments): (r: Outcome<Failure>)
    ensures r.Pass?
  {
    Pass
  }

  /** The default `getDescription`: the empty description. */
  function GetDescription(): (r: string)
    ensures |r| == 0
  {
    ""
  }
}
