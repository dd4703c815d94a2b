/**
 * The weekday enumeration of package `omega.com.omegadate.types`: seven
 * constants in declaration order, each carrying its java.util.Calendar
 * DAY_OF_WEEK code (SUNDAY = 1 ... SATURDAY = 7).
 */
module Types {
  import opened JavaTypes

  datatype DaysOfWeek = Sunday | Monday | Tuesday | Wednesday | Thursday | Friday | Saturday
  {
    /** The enum's `dayOfWeek` property: the Calendar constant of the same name. */
    function DayOfWeek(): (code: int)
      ensures 1 <= code <= 7
    {
      match this
      case Sunday => 1
      case Monday => 2
      case Tuesday => 3
      case Wednesday => 4
      case Thursday => 5
      case Friday => 6
      case Saturday => 7
    }

    /** The position of the constant in its declaration. */
    function Ordinal(): (i: nat)
      ensures i < 7
      ensures Values()[i] == this
    {
      match this
      case Sunday => 0
      case Monday => 1
      case Tuesday => 2
      case Wednesday => 3
      case Thursday => 4
      case Friday => 5
      case Saturday => 6
    }
  }

  /** `DaysOfWeek.values()`: every constant, in declaration order. */
  function Values(): (vs: seq<DaysOfWeek>)
    ensures |vs| == 7
    ensures forall i, j :: 0 <= i < j < |vs| ==> vs[i] != vs[j]
  {
    [Sunday, Monday, Tuesday, Wednesday, Thursday, Friday, Saturday]
  }

  /** `DaysOfWeek.values()[index]`, which throws when the index is not 0..6. */
  function ValueAt(index: int): (r: Result<DaysOfWeek>)
    ensures r.Success? <==> 0 <= index < 7
    ensures r.Success? ==> r.value.Ordinal() == index && r.value.DayOfWeek() == index + 1
    ensures r.Failure? ==> r.error == ArrayIndexOutOfBounds(index)
  {
    if 0 <= index < |Values()| then Success(Values()[index]) else Failure(ArrayIndexOutOfBounds(index))
  }

  /** The constant whose Calendar code is `code`. */
  function FromCode(code: int): (d: DaysOfWeek)
    requires 1 <= code <= 7
    ensures d.DayOfWeek() == code
  {
    Values()[code - 1]
  }

  /** Every constant's Calendar code is its ordinal plus one. */
  lemma CodeIsOrdinalPlusOne(d: DaysOfWeek)
    ensures d.DayOfWeek() == d.Ordinal() + 1
  {
  }

  /** The declaration order is SUNDAY, MONDAY, ..., SATURDAY: the i-th value has code i + 1. */
  lemma ValuesInCalendarOrder()
    ensures forall i :: 0 <= i < 7 ==> Values()[i].DayOfWeek() == i + 1
  {
  }

  /** Distinct constants carry distinct codes. */
  lemma CodesDistinct(a: DaysOfWeek, b: DaysOfWeek)
    ensures a.DayOfWeek() == b.DayOfWeek() ==> a == b
  {
  }

  /** The codes are exactly 1..7. */
  lemma CodesCoverOneToSeven()
    ensures (set i | 0 <= i < 7 :: Values()[i].DayOfWeek()) == {1, 2, 3, 4, 5, 6, 7}
  {
    var codes := set i | 0 <= i < 7 :: Values()[i].DayOfWeek();
    forall c | c in {1, 2, 3, 4, 5, 6, 7} ensures c in codes {
      assert Values()[c - 1].DayOfWeek() == c;
    }
    assert codes <= {1, 2, 3, 4, 5, 6, 7};
  }

  /** Code to constant and back is the identity, both ways. */
  lemma CodeRoundTrip(d: DaysOfWeek, code: int)
    requires 1 <= code <= 7
    ensures FromCode(d.DayOfWeek()) == d
    ensures FromCode(code).DayOfWeek() == code
  {
  }
}
