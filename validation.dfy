/**
 * What the activity handlers accept and what they store: the checks on the
 * request body and the trimming and truncation applied to it.
 */
module Validation {
  import opened Outcomes
  import opened Text

  /** A field of a JSON request body as the handler reads it; `Undefined` is a field that is absent. */
  datatype Value = Undefined | Null | Bool(b: bool) | Num(n: int) | Str(s: string) | Compound

  /** JavaScript truthiness: `!v` is false. */
  predicate Truthy(v: Value)
    ensures !Truthy(v) <==> v in {Undefined, Null, Bool(false), Num(0), Str([])}
  {
    match v
    case Undefined => false
    case Null => false
    case Bool(b) => b
    case Num(n) => n != 0
    case Str(s) => s != []
    case Compound => true
  }

  /** The body of POST /activities and PUT /activities/:id. */
  datatype ActivityInput = ActivityInput(name: Value, points: Value, date: Value, host: Value, description: Value)

  /** The five editable columns of an activity, as stored. */
  datatype Fields = Fields(name: string, points: int, date: Value, host: string, description: string)

  const MaxPoints := 1000
  const NameLimit := 100
  const HostLimit := 100
  const DescriptionLimit := 200

  /** `!(!name || typeof name !== 'string' || name.trim().length === 0)` */
  predicate NameAccepted(name: Value)
    ensures NameAccepted(name) <==> name.Str? && !IsBlank(name.s)
  {
    if name.Str? then
      TrimEmptyIffBlank(name.s);
      !(!Truthy(name) || !name.Str? || |Trim(name.s)| == 0)
    else
      !(!Truthy(name) || !name.Str?)
  }

  /** `!(!points || typeof points !== 'number' || points <= 0 || points > 1000)` */
  predicate PointsAccepted(points: Value)
    ensures PointsAccepted(points) <==> points.Num? && 1 <= points.n <= MaxPoints
  {
    !(!Truthy(points) || !points.Num? || points.n <= 0 || points.n > MaxPoints)
  }

  /** `v ? v.trim().substring(0, limit) : ""`; on a truthy non-string `trim` is not a function and throws. */
  function OptionalText(v: Value, limit: nat): (r: Result<string>)
    ensures r.Ok? <==> !Truthy(v) || v.Str?
    ensures r.Err? ==> r.failure == InternalError
    ensures r.Ok? && !Truthy(v) ==> r.value == []
    ensures r.Ok? && Truthy(v) ==> r.value <= Trim(v.s) && |r.value| == if |Trim(v.s)| <= limit then |Trim(v.s)| else limit
    ensures r.Ok? ==> |r.value| <= limit && (r.value == [] || !IsWhitespace(r.value[0]))
  {
    if !Truthy(v) then Ok([])
    else if !v.Str? then Err(InternalError)
    else Ok(Take(Trim(v.s), limit))
  }

  /** What every stored activity satisfies. */
  predicate WellFormed(f: Fields)
  {
    && 1 <= |f.name| <= NameLimit && !IsWhitespace(f.name[0])
    && 1 <= f.points <= MaxPoints
    && Truthy(f.date)
    && |f.host| <= HostLimit && (f.host == [] || !IsWhitespace(f.host[0]))
    && |f.description| <= DescriptionLimit && (f.description == [] || !IsWhitespace(f.description[0]))
  }

  /**
   * The validation and sanitisation shared by the add and edit handlers:
   * name first, then points, then description and host; `today` is the
   * server's current date, used when no date is given.
   */
  function Sanitize(input: ActivityInput, today: string): (r: Result<Fields>)
    requires today != []
    ensures r.Ok? <==> && NameAccepted(input.name) && PointsAccepted(input.points)
                       && (!Truthy(input.host) || input.host.Str?)
                       && (!Truthy(input.description) || input.description.Str?)
    ensures !NameAccepted(input.name) ==> r == Err(InvalidName)
    ensures NameAccepted(input.name) && !PointsAccepted(input.points) ==> r == Err(InvalidPoints)
    ensures r.Err? ==> r.failure in {InvalidName, InvalidPoints, InternalError}
    ensures NameAccepted(input.name) && PointsAccepted(input.points) && r.Err? ==> r == Err(InternalError)
    ensures r.Ok? ==> WellFormed(r.value)
    ensures r.Ok? ==> && r.value.points == input.points.n
                      && r.value.name <= Trim(input.name.s)
                      && |r.value.name| == (if |Trim(input.name.s)| <= NameLimit then |Trim(input.name.s)| else NameLimit)
                      && r.value.date == (if Truthy(input.date) then input.date else Str(today))
                      && (!Truthy(input.host) ==> r.value.host == [])
                      && (!Truthy(input.description) ==> r.value.description == [])
                      && r.value.host == OptionalText(input.host, HostLimit).value
                      && r.value.description == OptionalText(input.description, DescriptionLimit).value
  {
    if !NameAccepted(input.name) then Err(InvalidName)
    else if !PointsAccepted(input.points) then Err(InvalidPoints)
    else
      match OptionalText(input.description, DescriptionLimit)
      case Err(e) => Err(e)
      case Ok(description) =>
        match OptionalText(input.host, HostLimit)
        case Err(e) => Err(e)
        case Ok(host) =>
          var name := Trim(input.name.s);
          var date := if Truthy(input.date) then input.date else Str(today);
          Ok(Fields(Take(name, NameLimit), input.points.n, date, host, description))
  }

  /**
   * The text of an id (the `:id` path segment or the `User-ID` header) as the
   * handlers see it: empty or absent, not a number, a number equal to the
   * integer key `n`, or a number equal to no integer key (such as "1.5").
   */
  datatype IdText = Blank | NotANumber | Key(n: int) | NoKey

  /** `!(!id || isNaN(id))` */
  predicate IdAccepted(id: IdText)
    ensures IdAccepted(id) <==> id.Key? || id.NoKey?
  {
    !(id.Blank? || id.NotANumber?)
  }
}
