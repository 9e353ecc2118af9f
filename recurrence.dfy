/** How GetResults turns one transaction definition into a recurrence rule
    for the rrule library: either the definition's own RRULE text, or a rule
    built from its frequency, interval, weekdays and start and end dates,
    clamped to the results window. Dates are day numbers. */
module Recurrence {
  import opened Wrappers
  import opened Calendar
  import opened Transactions

  /** The rrule frequencies GetResults can ask for. */
  datatype Frequency = Yearly | Monthly | Daily

  /** A rule as handed to the rrule library: the text of a raw RRULE set, or
      the options of rrule.NewRRule. */
  datatype Rule =
    | RawRule(text: string)
    | StructuredRule(freq: Frequency, interval: int, dtstart: int, until: int, byweekday: set<int>)

  /** The rrule library, which is not part of this model: given a rule and
      the window [start, end], the occurrence days it reports between them,
      or None when the rule text cannot be parsed or the options are
      rejected. */
  type Expander = (Rule, int, int) -> Option<seq<int>>

  /** time.Date(0, 0, 0, ...), the value an unset date field gives up to
      normalisation (30 November of year -1). */
  function EmptyDate(): int
  {
    DaysFromCivil(0, 0, 0)
  }

  /** The user's frequency text: "YEARLY" and "MONTHLY" are recognised and
      everything else, "WEEKLY" included, is daily. */
  function FrequencyOf(f: string): (r: Frequency)
    ensures r == Yearly <==> f == YEARLY
    ensures r == Monthly <==> f == MONTHLY
    ensures r == Daily <==> f != YEARLY && f != MONTHLY
  {
    if f == YEARLY then Yearly else if f == MONTHLY then Monthly else Daily
  }

  /** The weekdays selected in a weekday map (keys outside 0..6 ignored). */
  function WeekdaySet(m: map<int, bool>): set<int>
  {
    set k | k in m && m[k] && 0 <= k < 7
  }

  /** The weekday loop of GetResults: collects every key whose value is true
      and that names a weekday, Monday = 0 to Sunday = 6. */
  method ByWeekday(m: map<int, bool>) returns (r: set<int>)
    ensures forall k :: k in r <==> k in m && m[k] && 0 <= k < 7
    ensures r == WeekdaySet(m)
  {
    r := {};
    var todo := m.Keys;
    while todo != {}
      invariant todo <= m.Keys
      invariant forall k :: k in r <==> k in m && k !in todo && m[k] && 0 <= k < 7
      decreases |todo|
    {
      HasElement(todo);
      var k :| k in todo;
      todo := todo - {k};
      if !m[k] {
        continue;
      }
      if 0 <= k < 7 {
        r := r + {k};
      }
    }
  }

  /** The rule GetResults builds for a definition in the window [s, e]. A
      non-empty RRULE text is used as it is. Otherwise the start date is the
      definition's, or s when it is unset; the end date is the definition's,
      or e when it is unset or later than e. */
  function ResolveRule(tx: TX, s: int, e: int): (r: Rule)
    ensures r.RawRule? <==> tx.rrule != ""
    ensures r.RawRule? ==> r.text == tx.rrule
  {
    if tx.rrule != "" then RawRule(tx.rrule)
    else
      var starts := DaysFromCivil(tx.startsYear, tx.startsMonth, tx.startsDay);
      var ends := DaysFromCivil(tx.endsYear, tx.endsMonth, tx.endsDay);
      StructuredRule(FrequencyOf(tx.frequency), tx.interval,
                     if starts == EmptyDate() then s else starts,
                     if ends > e || ends == EmptyDate() then e else ends,
                     WeekdaySet(tx.weekdays))
  }

  /** The defaulting and clamping rules of a structured rule: the frequency
      and weekdays come from the definition, an unset start becomes the
      window start, and the end never lies after the window end, becoming
      the window end exactly when it was unset or later. */
  lemma StructuredRuleDefaults(tx: TX, s: int, e: int)
    requires tx.rrule == ""
    ensures var r := ResolveRule(tx, s, e);
            var starts := DaysFromCivil(tx.startsYear, tx.startsMonth, tx.startsDay);
            var ends := DaysFromCivil(tx.endsYear, tx.endsMonth, tx.endsDay);
            && r.StructuredRule?
            && r.freq == FrequencyOf(tx.frequency)
            && r.interval == tx.interval
            && (forall k :: k in r.byweekday <==> k in tx.weekdays && tx.weekdays[k] && 0 <= k < 7)
            && (starts == EmptyDate() ==> r.dtstart == s)
            && (starts != EmptyDate() ==> r.dtstart == starts)
            && r.until <= e
            && (r.until == e <==> ends >= e || ends == EmptyDate())
            && (r.until != e ==> r.until == ends)
  {
  }

  /** The unset date (0, 0, 0) is an ordinary day, 30 November of year -1,
      so a definition that really starts on that day counts as unset. */
  lemma EmptyDateIsOrdinary()
    ensures EmptyDate() == DaysFromCivil(-1, 11, 30)
    ensures EmptyDate() < DaysFromCivil(0, 1, 1)
  {
    DaysFromCivilInRange(-1, 11, 30);
    DaysFromCivilInRange(0, 1, 1);
  }

  /** The rule-building steps of GetResults for one definition. */
  method BuildRule(tx: TX, s: int, e: int) returns (r: Rule)
    ensures r == ResolveRule(tx, s, e)
  {
    if tx.rrule != "" {
      return RawRule(tx.rrule);
    }
    var starts := DaysFromCivil(tx.startsYear, tx.startsMonth, tx.startsDay);
    var ends := DaysFromCivil(tx.endsYear, tx.endsMonth, tx.endsDay);
    if ends > e || ends == EmptyDate() {
      ends := e;
    }
    if starts == EmptyDate() {
      starts := s;
    }
    var freq := Daily;
    if tx.frequency == YEARLY {
      freq := Yearly;
    } else if tx.frequency == MONTHLY {
      freq := Monthly;
    }
    var weekdays := ByWeekday(tx.weekdays);
    r := StructuredRule(freq, tx.interval, starts, ends, weekdays);
  }
}
