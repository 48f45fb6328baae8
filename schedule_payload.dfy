/** The pure helpers of the schedules route of the server (backend/src/routes/schedules.js):
    number conversion with a fallback, the lecturer-id list a request carries, the check
    for required fields, the paging arithmetic and the row written for a new schedule.
    A request body or query is a JSON object. */
module SchedulePayload {
  import opened Js
  import opened Records

  /** toInt(v, fallback): `Number(v)` when it is finite, the fallback otherwise. The
      result is a number, not necessarily a whole one. */
  function ToInt(v: JsValue, fallback: JsValue): (r: JsValue)
    ensures r == fallback || r.Num?
    ensures fallback.Num? ==> r.Num?
  {
    match ToNumber(v)
    case Finite(n) => Num(n)
    case NaN => fallback
  }

  /** Numbers pass through unchanged, digit strings read as their value, and text that is
      not a number falls back. */
  lemma ToIntValues(n: real, s: string, fallback: JsValue)
    requires |s| > 0 && AllDigits(s)
    ensures ToInt(Num(n), fallback) == Num(n)
    ensures ToInt(Str(s), fallback) == Num(DigitsValue(s) as real)
    ensures ToInt(Undefined, fallback) == fallback
  {
    DigitStringNumber(s);
  }

  // ---------------------------------------------------------------- lecturer ids

  /** The values `toInt(x, null)` keeps, in order: `if (n != null) ids.push(n)`. */
  function Parsed(xs: seq<JsValue>): (ns: seq<real>)
    ensures |ns| <= |xs|
  {
    if |xs| == 0 then []
    else
      var n := ToInt(xs[|xs| - 1], Null);
      Parsed(xs[..|xs| - 1]) + (if !IsNullish(n) then [n.n] else [])
  }

  /** `part.trim()` for each comma-separated part. */
  function TrimmedParts(parts: seq<string>): (vs: seq<JsValue>)
    ensures |vs| == |parts|
    ensures forall k :: 0 <= k < |parts| ==> vs[k] == Str(Trim(parts[k]))
  {
    seq(|parts|, k requires 0 <= k < |parts| => Str(Trim(parts[k])))
  }

  /** The ids before duplicates are removed, taken from the first source present: an
      array `lecturerIds`, else a comma-separated `lecturerIds` text, else a single
      `lecturerId` that is not null. */
  function Collected(body: Rec): seq<real> {
    var many := Get(body, "lecturerIds");
    if many.Arr? then Parsed(many.items)
    else if many.Str? then Parsed(TrimmedParts(Split(many.s, ',')))
    else if !IsNullish(Get(body, "lecturerId")) then Parsed([Get(body, "lecturerId")])
    else []
  }

  /** The loop `for (const x of xs) { const n = toInt(x, null); if (n != null) ids.push(n); }`. */
  method CollectIds(xs: seq<JsValue>) returns (ids: seq<real>)
    ensures ids == Parsed(xs)
  {
    ids := [];
    var i := 0;
    while i < |xs|
      invariant 0 <= i <= |xs|
      invariant ids == Parsed(xs[..i])
    {
      assert xs[..i + 1][..i] == xs[..i];
      var n := ToInt(xs[i], Null);
      if !IsNullish(n) {
        ids := ids + [n.n];
      }
      i := i + 1;
    }
    assert xs[..i] == xs;
  }

  /** normalizeLecturerIds: collect the ids that convert, from the first source present,
      then drop repeats. */
  method NormalizeLecturerIds(body: Rec) returns (ids: seq<real>)
    ensures ids == Dedup(Collected(body))
  {
    var collected: seq<real> := [];
    var many := Get(body, "lecturerIds");
    if many.Arr? {
      collected := CollectIds(many.items);
    } else if many.Str? {
      collected := CollectIds(TrimmedParts(Split(many.s, ',')));
    } else if !IsNullish(Get(body, "lecturerId")) {
      collected := CollectIds([Get(body, "lecturerId")]);
    }
    ids := Dedup(collected);
  }

  /** An array of ids wins over everything else, and a list of numbers comes back with
      its repeats removed. */
  lemma LecturerIdsExample()
    ensures Collected(map["lecturerIds" := Arr([Num(3.0), Undefined, Num(1.0), Num(3.0)]), "lecturerId" := Num(9.0)])
            == [3.0, 1.0, 3.0]
    ensures Dedup([3.0, 1.0, 3.0]) == [3.0, 1.0]
  {
    var body := map["lecturerIds" := Arr([Num(3.0), Undefined, Num(1.0), Num(3.0)]), "lecturerId" := Num(9.0)];
    assert Get(body, "lecturerIds") == Arr([Num(3.0), Undefined, Num(1.0), Num(3.0)]);
    ParsedExample();
    DedupExample();
  }

  lemma ParsedExample()
    ensures Parsed([Num(3.0), Undefined, Num(1.0), Num(3.0)]) == [3.0, 1.0, 3.0]
  {
    var a, b, c := Num(3.0), Undefined, Num(1.0);
    ParsedSnoc([], a);
    assert [] + [a] == [a];
    ParsedSnoc([a], b);
    assert [a] + [b] == [a, b];
    ParsedSnoc([a, b], c);
    assert [a, b] + [c] == [a, b, c];
    ParsedSnoc([a, b, c], a);
    assert [a, b, c] + [a] == [a, b, c, a];
  }

  lemma DedupExample()
    ensures Dedup([3.0, 1.0, 3.0]) == [3.0, 1.0]
  {
    DedupSnoc([], 3.0);
    assert [] + [3.0] == [3.0];
    DedupSnoc([3.0], 1.0);
    assert [3.0] + [1.0] == [3.0, 1.0];
    DedupSnoc([3.0, 1.0], 3.0);
    assert [3.0, 1.0] + [3.0] == [3.0, 1.0, 3.0];
  }

  /** One more value adds its number when it converts. */
  lemma ParsedSnoc(xs: seq<JsValue>, x: JsValue)
    ensures Parsed(xs + [x]) == Parsed(xs) + if !IsNullish(ToInt(x, Null)) then [ToInt(x, Null).n] else []
  {
    assert (xs + [x])[..|xs|] == xs;
  }

  // ---------------------------------------------------------------- required fields

  const RequiredFields: seq<string> := ["courseId", "roomId", "day", "startTime", "endTime", "classGroup"]

  /** `body[k] == null || body[k] === ""`. */
  predicate Missing(body: Rec, k: string) {
    IsNullish(Get(body, k)) || Get(body, k) == Str("")
  }

  /** validateSchedulePayload: the message for the first required field that is missing
      or empty, in the listed order; none when all six are there. */
  method ValidateSchedulePayload(body: Rec) returns (error: Option<string>)
    ensures error.None? <==> forall k :: k in RequiredFields ==> !Missing(body, k)
    ensures error.Some? ==> exists i :: (0 <= i < |RequiredFields| && Missing(body, RequiredFields[i])
      && (forall j :: 0 <= j < i ==> !Missing(body, RequiredFields[j]))
      && error.value == "Field '" + RequiredFields[i] + "' wajib diisi")
  {
    var i := 0;
    while i < |RequiredFields|
      invariant 0 <= i <= |RequiredFields|
      invariant forall j :: 0 <= j < i ==> !Missing(body, RequiredFields[j])
    {
      var k := RequiredFields[i];
      if Missing(body, k) {
        return Some("Field '" + k + "' wajib diisi");
      }
      i := i + 1;
    }
    return None;
  }

  // ---------------------------------------------------------------- paging

  function Max(a: real, b: real): real {
    if a >= b then a else b
  }

  function Min(a: real, b: real): real {
    if a <= b then a else b
  }

  datatype Paging = Paging(page: real, perPage: real, offset: real)

  /** The page (at least 1, default 1), the page size (default 20, kept between 5 and
      100) and how many rows come before the page. */
  function PagingOf(pageQuery: JsValue, perPageQuery: JsValue): (p: Paging)
    ensures p.page >= 1.0 && 5.0 <= p.perPage <= 100.0
    ensures p.offset >= 0.0 && p.offset == (p.page - 1.0) * p.perPage
  {
    var page := Max(1.0, ToInt(pageQuery, Num(1.0)).n);
    var perPage := Min(100.0, Max(5.0, ToInt(perPageQuery, Num(20.0)).n));
    MulRight(page - 1.0, 0.0, perPage);
    Paging(page, perPage, (page - 1.0) * perPage)
  }

  /** Without a query the first 20 rows are shown; a numeric query is taken as it is
      when it lies in range, and clamped otherwise. */
  lemma PagingValues(page: nat, perPage: nat)
    ensures PagingOf(Undefined, Undefined) == Paging(1.0, 20.0, 0.0)
    ensures page >= 1 && 5 <= perPage <= 100 ==>
      PagingOf(Num(page as real), Num(perPage as real)) == Paging(page as real, perPage as real, ((page - 1) * perPage) as real)
    ensures PagingOf(Num(0.0), Num(500.0)) == Paging(1.0, 100.0, 0.0)
  {
  }

  /** `Math.ceil` on reals. */
  function Ceil(x: real): (c: int)
    ensures c as real >= x && (c - 1) as real < x
  {
    -((-x).Floor)
  }

  /** `Math.max(1, Math.ceil(total / perPage))`. */
  function TotalPages(total: nat, perPage: real): (n: int)
    requires perPage > 0.0
    ensures n >= 1
    ensures n as real * perPage >= total as real
    ensures total > 0 ==> (n - 1) as real * perPage < total as real
  {
    var c := Ceil(total as real / perPage);
    CeilBounds(total as real, perPage, c);
    if c >= 1 then c else 1
  }

  lemma CeilBounds(t: real, p: real, c: int)
    requires p > 0.0 && c as real >= t / p && (c - 1) as real < t / p
    ensures c as real * p >= t && (c - 1) as real * p < t
  {
    var q := t / p;
    assert q * p == t;
    MulRight(c as real, q, p);
    MulRightStrict((c - 1) as real, q, p);
  }

  lemma MulRight(a: real, b: real, p: real)
    requires a >= b && p > 0.0
    ensures a * p >= b * p
  {
  }

  lemma MulRightStrict(a: real, b: real, p: real)
    requires a < b && p > 0.0
    ensures a * p < b * p
  {
  }

  // ---------------------------------------------------------------- new schedule row

  /** The row written for a new schedule. Texts are `String(...)` of the body's values
      (None where the model does not spell that text out); `weeks` is the value that is
      stored as JSON, or None for SQL null. */
  datatype Row = Row(
    courseId: JsValue, roomId: JsValue, day: Option<string>, startTime: Option<string>,
    endTime: Option<string>, studyProgram: Option<Option<string>>, classGroup: Option<string>,
    semester: JsValue, jpm: JsValue, weeks: Option<JsValue>)

  function NewRow(body: Rec): (r: Row)
    ensures IsNullish(Get(body, "jpm")) ==> r.jpm == Num(0.0)
    ensures !IsNullish(Get(body, "jpm")) ==> r.jpm == ToInt(Get(body, "jpm"), Num(0.0))
    ensures r.jpm.Num?
    ensures r.weeks.None? <==> IsNullish(Get(body, "weeks"))
    ensures r.studyProgram == None <==> IsNullish(Get(body, "studyProgram"))
    ensures r.semester == Null <==> IsNullish(Get(body, "semester")) || ToNumber(Get(body, "semester")).NaN?
  {
    Row(ToInt(Get(body, "courseId"), Null), ToInt(Get(body, "roomId"), Null),
        IdText(Get(body, "day")), IdText(Get(body, "startTime")), IdText(Get(body, "endTime")),
        if !IsNullish(Get(body, "studyProgram")) then Some(IdText(Get(body, "studyProgram"))) else None,
        IdText(Get(body, "classGroup")),
        if !IsNullish(Get(body, "semester")) then ToInt(Get(body, "semester"), Null) else Null,
        if !IsNullish(Get(body, "jpm")) then ToInt(Get(body, "jpm"), Num(0.0)) else Num(0.0),
        if !IsNullish(Get(body, "weeks")) then Some(Get(body, "weeks")) else None)
  }
}
