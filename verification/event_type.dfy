/** The kind of a log entry and its one-character wire code. */
module EventTypes {
  import opened JavaLang

  /** MESSAGE: insert or update downstream; DELETE: a tombstone. */
  datatype EventType = MESSAGE | DELETE

  /** `EventType.values()`: the constants in declaration order. */
  const Values: seq<EventType> := [MESSAGE, DELETE]

  lemma ValuesComplete(t: EventType)
    ensures t in Values
  {
  }

  /** `getCode()`: the character each constant was declared with. */
  function Code(t: EventType): (c: char)
    ensures c == 'M' || c == 'D'
  {
    match t
    case MESSAGE => 'M'
    case DELETE => 'D'
  }

  /** `name()`, as `toString()` prints an enum constant. */
  function Name(t: EventType): string
  {
    match t
    case MESSAGE => "MESSAGE"
    case DELETE => "DELETE"
  }

  /** The first constant in `ts` whose code is `c`, as the loop in `fromCode` scans. */
  function FindByCode(ts: seq<EventType>, c: char): (r: Result<EventType>)
    ensures r.Ok? ==> r.value in ts && Code(r.value) == c
    ensures r.Err? ==> r.error == IllegalArgument && forall i :: 0 <= i < |ts| ==> Code(ts[i]) != c
    decreases |ts|
  {
    if ts == [] then Err(IllegalArgument)
    else if Code(ts[0]) == c then Ok(ts[0])
    else FindByCode(ts[1..], c)
  }

  /** `fromCode(c)`: the constant whose code is `c`, or IllegalArgumentException. */
  function FromCode(c: char): (r: Result<EventType>)
    ensures r.Ok? ==> Code(r.value) == c
    ensures r.Err? ==> r.error == IllegalArgument && forall t :: Code(t) != c
  {
    var r := FindByCode(Values, c);
    if r.Err? then
      assert forall t :: Code(t) != c by {
        forall t ensures Code(t) != c {
          ValuesComplete(t);
        }
      }
      r
    else r
  }

  /** The two codes are distinct. */
  lemma CodeInjective(a: EventType, b: EventType)
    requires Code(a) == Code(b)
    ensures a == b
  {
  }

  /** Decoding the code of a constant gives the constant back. */
  lemma CodeRoundTrip(t: EventType)
    ensures FromCode(Code(t)) == Ok(t)
  {
    var r := FromCode(Code(t));
    CodeInjective(r.value, t);
  }

  /** `fromCode` succeeds exactly on 'M' and 'D'. */
  lemma FromCodeDomain(c: char)
    ensures FromCode(c).Ok? <==> (c == 'M' || c == 'D')
    ensures c == 'M' ==> FromCode(c) == Ok(MESSAGE)
    ensures c == 'D' ==> FromCode(c) == Ok(DELETE)
  {
    if c == 'M' {
      CodeRoundTrip(MESSAGE);
    } else if c == 'D' {
      CodeRoundTrip(DELETE);
    }
  }
}
