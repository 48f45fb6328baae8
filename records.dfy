/** The JSON records the two browser-side mock stores keep: objects from property names
    to values, the object spread that merges them, the id comparisons the stores use and
    the status texts they write. */
module Records {
  import opened Js
  import opened Entities

  /** A plain JavaScript object. A property the object does not have reads as undefined. */
  type Rec = map<string, JsValue>

  /** The outcome of a store call that can throw: the value it resolves to, or the
      message of the error it throws. */
  datatype Result<+T> = Ok(value: T) | Err(message: string)

  function Get(r: Rec, key: string): JsValue {
    if key in r then r[key] else Undefined
  }

  /** `{ ...a, ...b }`: every own property of `b`, even one holding undefined, overrides
      the property of `a` with the same name. */
  function Spread(a: Rec, b: Rec): (r: Rec)
    ensures r.Keys == a.Keys + b.Keys
  {
    a + b
  }

  lemma SpreadGet(a: Rec, b: Rec, key: string)
    ensures Get(Spread(a, b), key) == if key in b then Get(b, key) else Get(a, key)
  {
  }

  /** The eight tables of the stored database. */
  const TableNames: set<string> := {"users", "rooms", "lecturers", "courses", "schedules", "bookings", "items", "itemBorrowings"}

  /** `String(v)` for the values an id can hold; None for the values whose text the
      model does not spell out (fractional or huge numbers, arrays). */
  function IdText(v: JsValue): (t: Option<string>)
    ensures v.Str? ==> t == Some(v.s)
  {
    match v
    case Str(s) => Some(s)
    case Undefined => Some("undefined")
    case Null => Some("null")
    case Bool(b) => Some(if b then "true" else "false")
    case Num(n) =>
      if n == n.Floor as real && -1000000000000000000000.0 < n < 1000000000000000000000.0
      then Some(IntToString(n.Floor)) else None
    case Arr(_) => None
  }

  /** `String(r.id) === String(id)`. */
  predicate HasIdText(r: Rec, id: string) {
    IdText(Get(r, "id")) == Some(id)
  }

  /** `r.id === id`. */
  predicate HasId(r: Rec, id: string) {
    Get(r, "id") == Str(id)
  }

  /** Strict comparison implies the text comparison; the text comparison also accepts a
      numeric id, and a record without an id matches the text "undefined". */
  lemma IdComparisons(r: Rec, id: string)
    ensures HasId(r, id) ==> HasIdText(r, id)
    ensures Get(r, "id").Str? ==> (HasIdText(r, id) <==> HasId(r, id))
    ensures HasIdText(r["id" := Num(7.0)], "7") && !HasId(r["id" := Num(7.0)], "7")
    ensures "id" !in r ==> HasIdText(r, "undefined")
  {
    assert (7.0).Floor == 7;
    assert NatToString(7) == "7";
  }

  function BookingStatusText(s: BookingStatus): string {
    match s
    case Pending => "PENDING"
    case Approved => "APPROVED"
    case Rejected => "REJECTED"
  }

  function BorrowStatusText(s: BorrowStatus): string {
    match s
    case BorrowPending => "PENDING"
    case BorrowApproved => "APPROVED"
    case BorrowRejected => "REJECTED"
    case Returned => "RETURNED"
  }

  /** Different statuses are written as different texts. */
  lemma StatusTextsDistinct(a: BookingStatus, b: BookingStatus, x: BorrowStatus, y: BorrowStatus)
    ensures BookingStatusText(a) == BookingStatusText(b) <==> a == b
    ensures BorrowStatusText(x) == BorrowStatusText(y) <==> x == y
  {
  }
}
