/** The records of src/types.d.ts. Field names follow src/types.d.ts, except
    performance_criteria, written performanceCriteria. */
module Types {

  /** UnitOfCompetency: what one scrape produces. */
  datatype UnitOfCompetency = UnitOfCompetency(code: string, title: string, release: string, elements: seq<Element>)

  /** Element: one numbered element of the unit, with its performance criteria in table order. */
  datatype Element = Element(id: string, title: string, performanceCriteria: seq<PerformanceCriteria>)

  /** PerformanceCriteria: one numbered criterion, id of the form `<number>.<number>`. */
  datatype PerformanceCriteria = PerformanceCriteria(id: string, criteria: string)

  /** A value, or the message of the Error the source throws. */
  datatype Result<T> = Ok(value: T) | Err(error: string)

  /** A value, or none: a regular-expression search that finds no match. */
  datatype Option<T> = None | Some(value: T)
}
