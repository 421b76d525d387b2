/**
 `enum Day` of enum/enum.c and the `switch` in its `main` that announces a
 day. The enumerators take the ordinals 0 to 6 in declaration order, and the
 switch, which compares an `int` value against each enumerator, prints that
 day's name and the stored value, or "Invalid day." for any other value.
 */
module Days {

  datatype Day = Sunday | Monday | Tuesday | Wednesday | Thursday | Friday | Saturday

  /** The enumerators in declaration order. */
  const Week: seq<Day> := [Sunday, Monday, Tuesday, Wednesday, Thursday, Friday, Saturday]

  /** The value C gives an enumerator: its position in the declaration. */
  function Ordinal(d: Day): (n: nat)
    ensures n < |Week| && Week[n] == d
  {
    match d
    case Sunday => 0
    case Monday => 1
    case Tuesday => 2
    case Wednesday => 3
    case Thursday => 4
    case Friday => 5
    case Saturday => 6
  }

  /** The name each day is announced with, indexed by ordinal. */
  const Names: seq<string> := ["Sunday", "Monday", "Tuesday", "Wednesday", "Thursday", "Friday", "Saturday"]

  /** What the switch prints. */
  datatype Message =
    | Today(name: string, value: int)  // "Today is <name>.\nThe stored value to enum is <value>"
    | InvalidDay                       // "Invalid day.\n"

  /**
   The switch over the value of `today`: one case per enumerator, and a
   `default` for every other value.
   */
  function Announce(today: int): (m: Message)
    ensures m.InvalidDay? <==> !(0 <= today < |Week|)
    ensures m.Today? ==> m.value == today
  {
    if today == Ordinal(Sunday) then Today("Sunday", today)
    else if today == Ordinal(Monday) then Today("Monday", today)
    else if today == Ordinal(Tuesday) then Today("Tuesday", today)
    else if today == Ordinal(Wednesday) then Today("Wednesday", today)
    else if today == Ordinal(Thursday) then Today("Thursday", today)
    else if today == Ordinal(Friday) then Today("Friday", today)
    else if today == Ordinal(Saturday) then Today("Saturday", today)
    else InvalidDay
  }

  /** The headline line of a message, as printed. */
  function Headline(m: Message): string {
    match m
    case Today(name, _) => "Today is " + name + "."
    case InvalidDay => "Invalid day."
  }

  /**
   For every enumerator the switch takes the enumerator's own case: the
   `default` branch is unreachable, the value printed is the ordinal, and no
   two days print the same name.
   */
  lemma EveryDayAnnounced(d: Day, e: Day)
    ensures Announce(Ordinal(d)) == Today(Names[Ordinal(d)], Ordinal(d))
    ensures Announce(Ordinal(d)).name == Announce(Ordinal(e)).name ==> d == e
  {
  }

  /** `today = WEDNESDAY` prints "Today is Wednesday." with the value 3. */
  lemma WednesdayAnnounced()
    ensures Announce(Ordinal(Wednesday)) == Today("Wednesday", 3)
    ensures Headline(Announce(Ordinal(Wednesday))) == "Today is Wednesday."
  {
  }
}
