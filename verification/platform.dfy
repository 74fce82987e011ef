/** The platform's `Intl.DateTimeFormat`, which the explorer only calls and
    never implements, as two uninterpreted functions supplied by the caller,
    and the try/catch around them that every formatting cell performs. */
module Platform {
  import opened Wrappers
  import opened DateTimeOptions

  /** A locale identifier as typed or chosen by the user (a BCP 47 tag when
      well formed; the platform decides). */
  type Locale = string

  /** The date being formatted, as a time value in milliseconds. The model
      only passes it through to the platform. */
  type Date = int

  /** What a `catch` receives: an `Error` instance with its message, or any
      other thrown value. */
  datatype Thrown = ErrorObject(message: string) | OtherValue

  /** One property of `resolvedOptions()`: its name and value. */
  datatype Property = Property(name: string, value: Value)

  /** What `resolvedOptions()` reports, in property order. */
  type ResolvedOptions = seq<Property>

  /** The formatting facility: `construct(locale, options)` is
      `new Intl.DateTimeFormat(locale, options)` reported through the
      instance's `resolvedOptions()`, or the exception it throws; and
      `format(locale, options, date)` is `format(date)` on the instance built
      from the same arguments, or the exception it throws. Both are
      deterministic: the same arguments always give the same outcome. */
  datatype Platform = Platform(
    construct: (Locale, Options) -> Result<ResolvedOptions, Thrown>,
    format: (Locale, Options, Date) -> Result<string, Thrown>)

  /** The message a cell records for a caught exception:
      `error instanceof Error ? error.message : "Unknown error"`. */
  function Message(t: Thrown): string
  {
    match t
    case ErrorObject(m) => m
    case OtherValue => "Unknown error"
  }

  /** Whether the constructor succeeds for this locale and these options. */
  predicate Constructs(p: Platform, locale: Locale, options: Options)
  {
    p.construct(locale, options).Success?
  }

  /** The body of `formatDate` in both comparison views: build a formatter,
      format the date, and turn whatever is thrown on the way into its
      message. It succeeds exactly when both the constructor and `format`
      succeed; a failure carries the message of whichever threw first. */
  function Attempt(p: Platform, date: Date, locale: Locale, options: Options): (r: Result<string, string>)
    ensures r.Success? <==> Constructs(p, locale, options) && p.format(locale, options, date).Success?
    ensures r.Success? ==> r.value == p.format(locale, options, date).value
    ensures !Constructs(p, locale, options) ==> r == Failure(Message(p.construct(locale, options).error))
    ensures Constructs(p, locale, options) && p.format(locale, options, date).Failure? ==>
      r == Failure(Message(p.format(locale, options, date).error))
  {
    match p.construct(locale, options)
    case Failure(t) => Failure(Message(t))
    case Success(_) =>
      match p.format(locale, options, date)
      case Success(s) => Success(s)
      case Failure(t) => Failure(Message(t))
  }

  /** JavaScript truthiness of an optional error message: present and not
      the empty string. */
  predicate IsTruthy(error: Option<string>)
  {
    error.Some? && error.value != ""
  }
}
