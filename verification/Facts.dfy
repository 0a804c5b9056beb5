/** Reported facts and the atoms their concepts decompose to.  An empty date, unit or
    valence stands for an absent one; both are false in Python.  A value that is not a
    number is `None`. */
module Facts {
  import opened Common
  import opened Text

  datatype Atom = Atom(head: string, modifiers: set<string>)

  datatype Fact = Fact(
    concept: string,
    value: Option<real>,
    unit: string,
    start: string,
    end: string,
    instant: string,
    dimensions: map<string, string>,
    decimals: Option<int>)

  /** The atom of each concept that has a display record. */
  type Records = map<string, Atom>

  const UNITS_EXCLUDED: set<string> := {"pure", "shares", "item", "ratio"}

  /** `date[:4]`. */
  function YearOf(date: string): string {
    if |date| <= 4 then date else date[..4]
  }

  predicate IsYearText(year: string) {
    |year| == 4 && forall i :: 0 <= i < |year| ==> IsDigit(year[i])
  }

  function Magnitude(fact: Fact): (r: real)
    ensures fact.value.Some? ==> r >= 0.0 && (r == fact.value.value || r == -fact.value.value)
  {
    if fact.value.None? then 0.0 else Abs(fact.value.value)
  }
}
