/** `src/core.rs`: the course lookup, the loop that sorts settled lookups into
    three buckets while reporting progress, and the course-code extraction
    scoped to the cart table. Network calls, JSON decoding, the float parse of
    the seat limit and HTML parsing are inputs here: a `Reply` per code, a
    `parseLimit` function, the settled outcomes in completion order, and the
    cart table's inner HTML when the document has one. */
module Core {
  import opened Wrappers
  import opened Rates
  import opened Records
  import opened Buckets
  import CourseCode

  /** The rate branch of `get_course_info`: overwrite `choice_rate` with the
      rounded quotient, set `sucess_rate` to 100 and, for a positive choice
      rate, to 100 over it, clamped to 100 and rounded. Nothing else changes. */
  method ApplyRates(data: Course, limit: real) returns (d: Course)
    ensures d.choiceRate == ChoiceRate(data.studentCount, limit)
    ensures d.successRate == AdmissionRate(d.choiceRate)
    ensures 0.0 <= d.successRate <= 100.0
    ensures !IsPositive(d.choiceRate) ==> d.successRate == 100.0
    ensures d == data.(choiceRate := d.choiceRate, successRate := d.successRate)
  {
    var rawChoiceRate := Quotient(data.studentCount, limit);
    d := data.(choiceRate := RoundRatio(rawChoiceRate));
    d := d.(successRate := 100.0);
    if IsPositive(d.choiceRate) {
      d := d.(successRate := HundredOver(d.choiceRate));
      if d.successRate > 100.0 {
        d := d.(successRate := 100.0);
      }
      d := d.(successRate := RoundDigits2(d.successRate));
    }
  }

  /** The outcome a lookup settles with, as a function of the service's reply:
      only a decoded first row with a parsable seat limit succeeds, an empty
      array fails with the course code itself, and a success carries an
      admission rate that follows the rate rule. */
  function LookupOf(courseId: string, reply: Reply, parseLimit: string -> Result<real>): (r: Result<Course>)
    ensures reply.EmptyArray? ==> r == Err(courseId)
    ensures r.Ok? <==>
      reply.FirstRow? && reply.decoded.Ok? && parseLimit(reply.decoded.value.studentLimit).Ok?
    ensures r.Ok? ==> 0.0 <= r.value.successRate <= 100.0
    ensures r.Ok? ==> r.value.successRate == AdmissionRate(r.value.choiceRate)
    ensures r.Ok? ==> r.value.courseId == reply.decoded.value.courseId
    ensures r.Ok? ==>
      r.value == reply.decoded.value.(
        choiceRate := ChoiceRate(reply.decoded.value.studentCount,
                                 parseLimit(reply.decoded.value.studentLimit).value),
        successRate := r.value.successRate)
  {
    match reply
    case TransportError(message) => Err(message)
    case EmptyArray => Err(courseId)
    case FirstRow(decoded) =>
      if decoded.Err? then Err(decoded.message)
      else
        match parseLimit(decoded.value.studentLimit)
        case Err(m) => Err(m)
        case Ok(limit) =>
          var c := ChoiceRate(decoded.value.studentCount, limit);
          Ok(decoded.value.(choiceRate := c, successRate := AdmissionRate(c)))
  }

  /** The outcomes of looking up `ids` in order, one reply per code. */
  function Submitted(ids: seq<string>, replies: seq<Reply>, parseLimit: string -> Result<real>): (outcomes: seq<Result<Course>>)
    requires |replies| == |ids|
    ensures |outcomes| == |ids|
    ensures forall k :: 0 <= k < |ids| ==> outcomes[k] == LookupOf(ids[k], replies[k], parseLimit)
  {
    seq(|ids|, k requires 0 <= k < |ids| => LookupOf(ids[k], replies[k], parseLimit))
  }

  /** `get_course_info`: a transport or JSON error is passed on, an empty
      array fails with the course code itself, a first element that does not
      decode or a seat limit that does not parse fails with that error, and
      otherwise the decoded record comes back with its two rates computed. */
  method GetCourseInfo(courseId: string, reply: Reply, parseLimit: string -> Result<real>)
    returns (r: Result<Course>)
    ensures r == LookupOf(courseId, reply, parseLimit)
    ensures reply.TransportError? ==> r == Err(reply.message)
    ensures reply.EmptyArray? ==> r == Err(courseId)
    ensures reply.FirstRow? && reply.decoded.Err? ==> r == Err(reply.decoded.message)
    ensures reply.FirstRow? && reply.decoded.Ok? ==>
      var data := reply.decoded.value;
      match parseLimit(data.studentLimit)
      case Err(m) => r == Err(m)
      case Ok(limit) =>
        && r.Ok?
        && r.value.choiceRate == ChoiceRate(data.studentCount, limit)
        && r.value.successRate == AdmissionRate(r.value.choiceRate)
        && r.value == data.(choiceRate := r.value.choiceRate, successRate := r.value.successRate)
  {
    match reply {
      case TransportError(message) =>
        return Err(message);
      case EmptyArray =>
        return Err(courseId);
      case FirstRow(decoded) =>
        if decoded.Err? {
          return Err(decoded.message);
        }
        var limit := parseLimit(decoded.value.studentLimit);
        if limit.Err? {
          return Err(limit.message);
        }
        var data := ApplyRates(decoded.value, limit.value);
        return Ok(data);
    }
  }

  /** The caller's progress callback; the model keeps how often it was called. */
  class Callback {
    var calls: nat

    constructor ()
      ensures calls == 0
    {
      calls := 0;
    }

    method Invoke()
      modifies this
      ensures calls == old(calls) + 1
    {
      calls := calls + 1;
    }
  }

  /** `fetch_all_courses`: `settled` holds one outcome per course code in the
      order the lookups complete. For each, the callback runs once, then a
      failure's message goes to the unknown bucket and the loop goes on, and a
      course goes to the certain bucket when its admission rate is exactly 100
      and to the uncertain one otherwise. */
  method FetchAllCourses(settled: seq<Result<Course>>, callback: Callback)
    returns (safeCourses: seq<Course>, unsafeCourses: seq<Course>, unknownCourses: seq<string>)
    modifies callback
    ensures callback.calls == old(callback.calls) + |settled|
    ensures safeCourses == SafeOf(settled)
    ensures unsafeCourses == UnsafeOf(settled)
    ensures unknownCourses == UnknownOf(settled)
    ensures |safeCourses| + |unsafeCourses| + |unknownCourses| == |settled|
  {
    safeCourses, unsafeCourses, unknownCourses := [], [], [];
    var i := 0;
    while i < |settled|
      invariant 0 <= i <= |settled|
      invariant callback.calls == old(callback.calls) + i
      invariant safeCourses == SafeOf(settled[..i])
      invariant unsafeCourses == UnsafeOf(settled[..i])
      invariant unknownCourses == UnknownOf(settled[..i])
    {
      callback.Invoke();
      var result := settled[i];
      assert Init(settled[..i + 1]) == settled[..i];
      assert Last(settled[..i + 1]) == result;
      i := i + 1;
      if result.Err? {
        unknownCourses := unknownCourses + [result.message];
        continue;
      }
      if result.value.successRate == 100.0 {
        safeCourses := safeCourses + [result.value];
      } else {
        unsafeCourses := unsafeCourses + [result.value];
      }
    }
    assert settled[..i] == settled;
    PartitionComplete(settled);
  }

  /** `extract_course_ids`: search the cart table's inner HTML when the
      document has a `#cartTable` element, and the whole document otherwise. */
  function ExtractCourseIds(document: string, cartTable: Option<string>): (ids: seq<string>)
    ensures forall k :: 0 <= k < |ids| ==> CourseCode.IsCourseCode(ids[k])
    ensures cartTable.Some? ==> ids == CourseCode.FindCodes(cartTable.value)
    ensures cartTable.None? ==> ids == CourseCode.FindCodes(document)
  {
    match cartTable
    case Some(tableHtml) => CourseCode.FindCodes(tableHtml)
    case None => CourseCode.FindCodes(document)
  }

  /** With a cart table present, text outside it cannot contribute a code: two
      documents with the same table yield the same codes (this holds by the
      definition of the scoping, and is stated as the property the program
      relies on), and a code written twice in a row in the table is reported twice even
      when the rest of the document holds it too. */
  lemma DecoyOutsideTableIgnored(document1: string, document2: string, tableHtml: string, code: string)
    requires CourseCode.IsCourseCode(code)
    ensures ExtractCourseIds(document1, Some(tableHtml)) == ExtractCourseIds(document2, Some(tableHtml))
    ensures ExtractCourseIds(document1 + code, Some(code + code)) == [code, code]
  {
    CourseCode.DuplicatesKept(code);
  }

  /** A code the service does not know ends up, as itself, in the unknown
      bucket, whatever order the lookups settle in; and every code looked up
      lands in exactly one of the three buckets. */
  lemma NotFoundReported(ids: seq<string>, replies: seq<Reply>, parseLimit: string -> Result<real>,
                         settled: seq<Result<Course>>, j: int)
    requires |replies| == |ids|
    requires multiset(settled) == multiset(Submitted(ids, replies, parseLimit))
    requires 0 <= j < |ids| && replies[j].EmptyArray?
    ensures ids[j] in UnknownOf(settled)
    ensures |SafeOf(settled)| + |UnsafeOf(settled)| + |UnknownOf(settled)| == |ids|
  {
    var submitted := Submitted(ids, replies, parseLimit);
    assert submitted[j] == Err(ids[j]);
    assert Err(ids[j]) in multiset(settled);
    LandsInOneBucket(settled, Err(ids[j]));
    calc {
      |settled|;
      |multiset(settled)|;
      |multiset(submitted)|;
      |ids|;
    }
    PartitionComplete(settled);
  }
}
