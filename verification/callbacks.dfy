/**
 * How one fetch effect of the layout settles. Each `axios.get(...)` promise
 * either fulfils with a response body or rejects with an error whose
 * `message` the chained `.catch` records; the `.then` body may itself throw
 * (reading a property of `null` or `undefined`), and then the same `.catch`
 * receives that TypeError.
 */
module Callbacks {

  /** How the request promise settled, as delivered to `.then` / `.catch`. */
  datatype Settlement<+R> = Fulfilled(body: R) | Rejected(message: string)

  /** What a `.then` body does with a fulfilled response: call the slot's
      setter with a value, return without calling it, or throw. */
  datatype Reaction<+T> = SetTo(value: T) | LeaveUnset | Throws

  /** The net effect of one `.then(...).catch(...)` chain on the component:
      write the slot, do nothing, or record a message in the errors map. */
  datatype SlotUpdate<+T> = Write(value: T) | NoChange | RecordFailure(message: string)

  /** The chain `.then(transform).catch(err => record(err.message))`. A
      rejection records its own message; a `.then` body that throws records
      `thrownText`, the runtime's message for that TypeError (engine specific
      text, so it is supplied by the caller). */
  function Chain<R, T>(s: Settlement<R>, transform: R -> Reaction<T>, thrownText: string): (u: SlotUpdate<T>)
    ensures u.RecordFailure? <==> s.Rejected? || transform(s.body).Throws?
    ensures s.Rejected? ==> u == RecordFailure(s.message)
    ensures s.Fulfilled? && transform(s.body).Throws? ==> u == RecordFailure(thrownText)
    ensures u.Write? <==> s.Fulfilled? && transform(s.body).SetTo?
    ensures u.Write? ==> u.value == transform(s.body).value
  {
    match s
    case Rejected(msg) => RecordFailure(msg)
    case Fulfilled(body) =>
      match transform(body)
      case SetTo(v) => Write(v)
      case LeaveUnset => NoChange
      case Throws => RecordFailure(thrownText)
  }
}
