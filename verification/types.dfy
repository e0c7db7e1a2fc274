/** The values shared by the parser, the lookup helpers and the evaluation
    engine: qualifiers, mechanism kinds, parsed mechanisms, records and the
    error names the library returns. */
module SpfTypes {

  /** The verdict a matching mechanism asserts. `None` is the sentinel for
      "no mechanism matched"; the parser never attaches it to a mechanism. */
  datatype Qualifier = Pass | Fail | SoftFail | Neutral | None

  /** A mechanism code outside the library's numbering 1..9. */
  type OtherCode = c: int | c < 1 || 9 < c

  /** The mechanism codes 1..9 of the library (`redirect` is a modifier but
      shares the numbering). `Unknown(code)` stands for any integer outside
      that range a caller may put in a hand-built mechanism; the parser never
      yields it. */
  datatype Kind =
    | All | Ip4 | Ip6 | A | Mx | Ptr | Exists | Include | Redirect
    | Unknown(code: OtherCode)

  /** One directive of a record: qualifier, kind and the raw value text. */
  datatype Mechanism = Mechanism(qualifier: Qualifier, kind: Kind, value: string)

  /** A parsed record, in evaluation order. */
  type Record = seq<Mechanism>

  /** The error values of the library. `NoSpf` is the ad-hoc "nospf" error of
      the parser; `External` carries an error produced by code outside the
      model (the DNS exchange, CIDR parsing) and is passed on unchanged. */
  datatype SpfError =
    | NoSpf
    | Syntax
    | InvalidQualifier
    | InvalidMechanism
    | InvalidModifier
    | NotFound
    | OutOfRecursions
    | External(detail: string)

  /** A value or the error that replaced it; usable with `:-`. */
  datatype Result<+T> = Ok(value: T) | Err(error: SpfError) {

    predicate IsFailure() {
      Err?
    }

    function PropagateFailure<U>(): Result<U>
      requires Err?
    {
      Err(error)
    }

    function Extract(): T
      requires Ok?
    {
      value
    }
  }

  /** An optional value (a Go `nil`-able result). */
  datatype Option<+T> = Nothing | Some(value: T)

  /** The modelled characters Go treats as token separators in a record. */
  predicate IsWhitespace(c: char) {
    c == ' ' || c == '\n' || c == '\r'
  }
}
