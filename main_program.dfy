/** `src/main.rs`: the earlier copy of the program. It scans the whole input
    file for course codes, ends the process instead of reporting a failure
    when a record does not decode or its seat limit does not parse, and
    advances a progress bar instead of calling a callback. */
module MainProgram {
  import opened Wrappers
  import opened Rates
  import opened Records
  import opened Buckets
  import CourseCode
  import Core

  /** A lookup either settles with a result or ends the whole process with an
      exit code (`wrap_or_exit`). */
  datatype Lookup = Settled(result: Result<Course>) | Exit(code: int)

  /** The lookup of `main.rs` as a function of the reply: where the library
      version reports a decode or seat-limit failure, this one exits with
      status 1; otherwise it settles exactly as the library version does. */
  function SettleOf(courseId: string, reply: Reply, parseLimit: string -> Result<real>): (r: Lookup)
    ensures r.Settled? ==> r.result == Core.LookupOf(courseId, reply, parseLimit)
    ensures r.Exit? ==> r.code == 1 && reply.FirstRow? && Core.LookupOf(courseId, reply, parseLimit).Err?
    ensures !reply.FirstRow? || Core.LookupOf(courseId, reply, parseLimit).Ok? ==> r.Settled?
    ensures r.Exit? <==>
      reply.FirstRow? && (reply.decoded.Err? || parseLimit(reply.decoded.value.studentLimit).Err?)
  {
    var outcome := Core.LookupOf(courseId, reply, parseLimit);
    if reply.FirstRow? && outcome.Err? then Exit(1) else Settled(outcome)
  }

  /** `get_course_info` of `main.rs`: like the library version, except that a
      first element that does not decode, or a seat limit that does not parse,
      makes the process exit with status 1. */
  method GetCourseInfo(courseId: string, reply: Reply, parseLimit: string -> Result<real>)
    returns (r: Lookup)
    ensures r == SettleOf(courseId, reply, parseLimit)
    ensures reply.TransportError? ==> r == Settled(Err(reply.message))
    ensures reply.EmptyArray? ==> r == Settled(Err(courseId))
    ensures reply.FirstRow? && reply.decoded.Err? ==> r == Exit(1)
    ensures reply.FirstRow? && reply.decoded.Ok? ==>
      var data := reply.decoded.value;
      match parseLimit(data.studentLimit)
      case Err(_) => r == Exit(1)
      case Ok(limit) =>
        && r.Settled? && r.result.Ok?
        && r.result.value.choiceRate == ChoiceRate(data.studentCount, limit)
        && r.result.value.successRate == AdmissionRate(r.result.value.choiceRate)
        && r.result.value == data.(choiceRate := r.result.value.choiceRate,
                                   successRate := r.result.value.successRate)
  {
    match reply {
      case TransportError(message) =>
        return Settled(Err(message));
      case EmptyArray =>
        return Settled(Err(courseId));
      case FirstRow(decoded) =>
        if decoded.Err? {
          return Exit(1);
        }
        var limit := parseLimit(decoded.value.studentLimit);
        if limit.Err? {
          return Exit(1);
        }
        var data := Core.ApplyRates(decoded.value, limit.value);
        return Settled(Ok(data));
    }
  }

  /** The terminal progress bar: its length and how far it has advanced. */
  class ProgressBar {
    var total: nat
    var position: nat

    constructor (total: nat)
      ensures this.total == total && position == 0
    {
      this.total := total;
      position := 0;
    }

    method Update(n: nat)
      modifies this
      ensures position == old(position) + n && total == old(total)
    {
      position := position + n;
    }
  }

  /** How a run of `fetch_all_courses` ends: with the three buckets, or with
      the whole process exiting from inside a lookup. */
  datatype Run =
    | Finished(safeCourses: seq<Course>, unsafeCourses: seq<Course>, unknownCourses: seq<string>)
    | Exited(code: int)

  /** How many lookups settle before the first one that exits (all of them
      when none exits). */
  function FirstExit(lookups: seq<Lookup>): (n: nat)
    ensures n <= |lookups|
    ensures forall k :: 0 <= k < n ==> lookups[k].Settled?
    ensures n < |lookups| ==> lookups[n].Exit?
  {
    if lookups == [] || lookups[0].Exit? then 0 else 1 + FirstExit(lookups[1..])
  }

  /** The results of lookups that all settled. */
  function Results(lookups: seq<Lookup>): (rs: seq<Result<Course>>)
    requires forall k :: 0 <= k < |lookups| ==> lookups[k].Settled?
    ensures |rs| == |lookups|
    ensures forall k :: 0 <= k < |lookups| ==> Settled(rs[k]) == lookups[k]
  {
    seq(|lookups|, k requires 0 <= k < |lookups| => lookups[k].result)
  }

  /** `fetch_all_courses` of `main.rs`, over the lookups in the order they
      complete. The bar is as long as the list of codes and advances by one per
      settled lookup. A lookup that exits ends the process inside
      `futures.next()`, before the bar moves for it and with no buckets
      returned; otherwise the bar ends full and the buckets are exactly the
      certain, uncertain and failed outcomes. The bar is returned so that its
      final state can be stated. */
  method FetchAllCourses(lookups: seq<Lookup>) returns (run: Run, pb: ProgressBar)
    ensures fresh(pb)
    ensures pb.total == |lookups|
    ensures pb.position == FirstExit(lookups)
    ensures FirstExit(lookups) < |lookups| ==> run == Exited(lookups[FirstExit(lookups)].code)
    ensures FirstExit(lookups) == |lookups| ==>
      var settled := Results(lookups);
      && run == Finished(SafeOf(settled), UnsafeOf(settled), UnknownOf(settled))
      && |run.safeCourses| + |run.unsafeCourses| + |run.unknownCourses| == |lookups|
  {
    var safeCourses, unsafeCourses, unknownCourses := [], [], [];
    pb := new ProgressBar(|lookups|);
    var i := 0;
    while i < |lookups|
      invariant 0 <= i <= |lookups|
      invariant forall k :: 0 <= k < i ==> lookups[k].Settled?
      invariant i <= FirstExit(lookups)
      invariant pb.total == |lookups| && pb.position == i
      invariant safeCourses == SafeOf(Results(lookups[..i]))
      invariant unsafeCourses == UnsafeOf(Results(lookups[..i]))
      invariant unknownCourses == UnknownOf(Results(lookups[..i]))
    {
      var lookup := lookups[i];
      if lookup.Exit? {
        return Exited(lookup.code), pb;
      }
      pb.Update(1);
      var result := lookup.result;
      assert Init(Results(lookups[..i + 1])) == Results(lookups[..i]);
      assert Last(Results(lookups[..i + 1])) == result;
      i := i + 1;
      if result.Err? {
        unknownCourses := unknownCourses + [result.message];
        continue;
      }
      var courseInfo := result.value;
      if courseInfo.successRate == 100.0 {
        safeCourses := safeCourses + [courseInfo];
      } else {
        unsafeCourses := unsafeCourses + [courseInfo];
      }
    }
    assert lookups[..i] == lookups;
    PartitionComplete(Results(lookups));
    run := Finished(safeCourses, unsafeCourses, unknownCourses);
  }

  /** The outcomes of looking up `ids` in order with `main.rs`'s lookup. */
  function SubmittedLookups(ids: seq<string>, replies: seq<Reply>, parseLimit: string -> Result<real>): (lookups: seq<Lookup>)
    requires |replies| == |ids|
    ensures |lookups| == |ids|
    ensures forall k :: 0 <= k < |ids| ==> lookups[k] == SettleOf(ids[k], replies[k], parseLimit)
  {
    seq(|ids|, k requires 0 <= k < |ids| => SettleOf(ids[k], replies[k], parseLimit))
  }

  /** A reply on which `main.rs` exits: a first row that does not decode, or
      one whose seat limit does not parse. */
  predicate IsFatalReply(reply: Reply, parseLimit: string -> Result<real>)
  {
    reply.FirstRow? && (reply.decoded.Err? || parseLimit(reply.decoded.value.studentLimit).Err?)
  }

  /** One record that does not decode, or whose seat limit does not parse,
      ends the whole run with status 1, whatever order the lookups complete
      in; no buckets are produced. */
  lemma BadRecordExits(ids: seq<string>, replies: seq<Reply>, parseLimit: string -> Result<real>,
                       lookups: seq<Lookup>, j: int)
    requires |replies| == |ids|
    requires multiset(lookups) == multiset(SubmittedLookups(ids, replies, parseLimit))
    requires 0 <= j < |ids| && IsFatalReply(replies[j], parseLimit)
    ensures FirstExit(lookups) < |lookups|
    ensures lookups[FirstExit(lookups)] == Exit(1)
  {
    var submitted := SubmittedLookups(ids, replies, parseLimit);
    assert submitted[j] == Exit(1);
    assert Exit(1) in multiset(lookups);
    var m :| 0 <= m < |lookups| && lookups[m] == Exit(1);
    var n := FirstExit(lookups);
    assert n <= m;
    assert lookups[n] in multiset(submitted);
    var k :| 0 <= k < |submitted| && submitted[k] == lookups[n];
  }

  /** Conversely, when no reply is fatal every lookup settles, whatever order
      they complete in, so the run finishes with its buckets. */
  lemma GoodRecordsFinish(ids: seq<string>, replies: seq<Reply>, parseLimit: string -> Result<real>,
                          lookups: seq<Lookup>)
    requires |replies| == |ids|
    requires multiset(lookups) == multiset(SubmittedLookups(ids, replies, parseLimit))
    requires forall j :: 0 <= j < |ids| ==> !IsFatalReply(replies[j], parseLimit)
    ensures FirstExit(lookups) == |lookups|
  {
    var submitted := SubmittedLookups(ids, replies, parseLimit);
    forall i | 0 <= i < |lookups|
      ensures lookups[i].Settled?
    {
      assert lookups[i] in multiset(submitted);
      var k :| 0 <= k < |submitted| && submitted[k] == lookups[i];
      assert !IsFatalReply(replies[k], parseLimit);
    }
  }

  /** The scan in `main`: every code found anywhere in the file, in order, with
      repetitions; the same as the library's extraction of a document that has
      no cart table. */
  function ScanFile(file: string): (courseIds: seq<string>)
    ensures forall k :: 0 <= k < |courseIds| ==> CourseCode.IsCourseCode(courseIds[k])
    ensures courseIds == Core.ExtractCourseIds(file, None)
  {
    CourseCode.FindCodes(file)
  }
}
