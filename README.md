# Course-order assistant: verified model of the code scan, the rate rule and the result partition

The program reads a document (a saved course-selection page or any text), finds
every course code in it, looks each code up on the university's course service,
computes how full each course is (`choice_rate`, applicants over seat limit) and
how likely a seat is (`sucess_rate`, a percentage), and sorts the courses into
"certain", "uncertain" and "not found" before printing a table. The repository
holds two near-copies of this logic: the library file `src/core.rs` and the
earlier stand-alone `src/main.rs`.

This Dafny project models the self-contained parts of both copies:

- `course_code.dfy` (module `CourseCode`): the pattern
  `[A-Z]{2}[G|1-9]{1}[AB|0-9]{3}[0|1|3|5|7]{1}[0-9]{2}` as per-position
  character classes (a `|` inside brackets is a literal character, so it is
  accepted at positions 2 to 6) and `find_iter` as a scan that reports a
  matching nine-character window and resumes after it, or moves on by one.
  The scan is proved equal to an independent description (matches in
  increasing, non-overlapping order with no matching window in any gap), in
  both directions.
- `rates.dfy` (module `Rates`): `round_digits(x, 2)` over exact reals with
  `f32::round`'s half-away-from-zero rounding, the choice rate, and the
  admission-rate rule. A zero seat limit gives the IEEE results of dividing by
  zero (infinity or NaN), which the `> 0.0` test then sees.
- `records.dfy` (module `Records`): the `Course` record and the service's reply
  for one code.
- `buckets.dfy` (module `Buckets`): the three buckets as functions of the
  settled lookups in completion order, with the counting, membership and
  order-independence lemmas.
- `core.dfy` (module `Core`): `get_course_info`, `fetch_all_courses` with its
  progress callback, and `extract_course_ids` with the cart-table scoping.
- `main_program.dfy` (module `MainProgram`): the `main.rs` versions: the lookup
  that exits the process on a decode or parse failure, the loop that advances a
  progress bar and is cut short when a lookup exits, and the whole-file scan in
  `main`.
- `wrappers.dfy` (module `Wrappers`): `Option` and `Result`; an error carries
  the text its `to_string()` gives, the only thing the program does with it.

Inputs that come from the outside are parameters: the service's reply per code
(`Reply`), the float parse of the seat-limit string (`parseLimit`), the settled
lookups in the order they complete (`settled` in the library, `lookups` in
`main.rs`, one outcome per code), and the inner HTML of the `#cartTable`
element when the document has one (`cartTable: Option<string>`). How a code's
reply becomes its outcome is a function (`Core.LookupOf`,
`MainProgram.SettleOf`), so properties can run from the codes through the
replies to the buckets.

## Model

| member | source | states |
|---|---|---|
| CourseCode.MatchStarts | src/core.rs:128-134 | every reported start begins a window that matches the pattern, at or after the search start, and each starts at or after the end of the previous match (increasing, non-overlapping) |
| CourseCode.FindCodes | src/core.rs:120-130 | as many codes as matches, each exactly nine characters from the per-position classes, each the text of the document at its match |
| CourseCode.IsCourseCode | src/core.rs:120 | a code is exactly nine characters and consists only of upper-case letters, digits and bars |
| CourseCode.ClassesAsWritten | src/core.rs:120 | the classes are exactly the pattern's: a real code fits, a section digit 2 or lower case does not, literal bars are accepted, and among the digits the section position takes exactly 0, 1, 3, 5 and 7 |
| CourseCode.ScanIsLeftmost | src/core.rs:128-134 | the scan reports matches in increasing, non-overlapping order and skips no matching window: none starts before the first match, between two matches, or after the last |
| CourseCode.LeftmostScanUnique | src/core.rs:128-134 | any sequence of positions meeting that description is exactly what the scan reports, so the description and the scan agree |
| CourseCode.NoMatchIffEmpty | src/core.rs:132-134 | the result is empty exactly when no window of the text matches; an empty result, not an error |
| CourseCode.RescanJoined | src/main.rs:204 | scanning extracted codes written end to end returns the same codes, order and repetitions included |
| CourseCode.DuplicatesKept | src/main.rs:204 | a code written twice in a row is reported twice |
| Rates.RoundHalfAway | src/core.rs:37 | the result is the nearest integer, with halves going away from zero |
| Rates.RoundDigits2 | src/core.rs:35-38 | the result is a whole number of hundredths within 0.005 of the input |
| Rates.RoundRatio | src/core.rs:35-38 | a finite quotient becomes a whole number of hundredths within 0.005 of it; infinity and NaN come back unchanged |
| Rates.Quotient | src/core.rs:56 | with a nonzero limit the quotient times the limit is the student count; with a zero limit the result is not a finite number |
| Rates.ChoiceRate | src/core.rs:56-59 | with a nonzero limit the choice rate is finite, a whole number of hundredths within 0.005 of applicants over limit; with a zero limit it is infinity for applicants, NaN for none |
| Rates.HundredOver | src/core.rs:62 | 100 over a positive choice rate is non-negative and times the rate gives 100; 100 over infinity (a positive count over a zero limit) is 0 |
| Rates.AdmissionRate | src/core.rs:59-67 | the admission rate is always between 0 and 100, and exactly 100 when the choice rate is not positive (zero, negative or NaN) |
| Rates.CertainIffBelowThreshold | src/core.rs:56-67 | a course gets admission rate exactly 100 iff applicants over limit is below 1.005 (the choice rate rounds to at most 1.00); with a zero limit iff there are no applicants |
| Rates.WorkedExamples | src/main.rs:142-150 | 30 applicants for 40 seats give choice rate 0.75 and admission rate 100 (capped); 80 for 40 give 2.0 and 50 |
| Buckets.SafeOf | src/core.rs:104-105 | every certain-bucket entry has admission rate 100 and is a successful lookup of the input |
| Buckets.UnsafeOf | src/core.rs:106-107 | every uncertain-bucket entry has an admission rate other than 100 and is a successful lookup of the input |
| Buckets.UnknownOf | src/core.rs:98-100 | every unknown-bucket entry is the message of a failed lookup of the input |
| Buckets.PartitionComplete | src/core.rs:96-116 | the three buckets together hold exactly as many entries as there were lookups |
| Buckets.SafeCount | src/core.rs:102-105 | a course is in the certain bucket as many times as it was looked up, if its rate is 100, and never otherwise |
| Buckets.UnsafeCount | src/core.rs:102-108 | a course is in the uncertain bucket as many times as it was looked up, if its rate is not 100, and never otherwise |
| Buckets.UnknownCount | src/core.rs:98-100 | a message is in the unknown bucket as many times as a lookup failed with it |
| Buckets.LandsInOneBucket | src/main.rs:181-190 | each outcome lands in its own bucket and not in the other course bucket; a failure does not stop later outcomes from being sorted |
| Buckets.CompletionOrderIrrelevant | src/core.rs:88-96 | the buckets hold the same entries whatever order the lookups complete in |
| Core.ApplyRates | src/core.rs:56-67 | the choice rate is the rounded quotient, the admission rate follows the rate rule and lies in [0, 100], 100 for a non-positive choice rate, and no other field changes |
| Core.LookupOf | src/core.rs:40-69 | a lookup succeeds exactly when the first row decodes and its seat limit parses; an empty array fails with the course code itself; a success is the decoded record with the rounded choice rate of its count over the parsed limit, every other field kept, and an admission rate in [0, 100] given by the rate rule |
| Core.Submitted | src/core.rs:88-93 | one outcome per code, in submission order, each the lookup of that code's reply |
| Core.GetCourseInfo | src/core.rs:40-69 | the lookup settles as `LookupOf` says: a transport error is passed on, an empty array fails with the course code itself, a decode or limit-parse failure fails with its error, otherwise the decoded record with both rates computed |
| Core.Callback.Invoke | src/core.rs:97 | one invocation of the progress callback |
| Core.FetchAllCourses | src/core.rs:78-117 | the callback runs once per settled lookup and the three buckets are exactly the certain, uncertain and failed outcomes, in completion order |
| Core.ExtractCourseIds | src/core.rs:119-136 | with a cart table only its inner HTML is searched, otherwise the whole document; every result is a course code |
| Core.DecoyOutsideTableIgnored | src/core.rs:126-131 | with a cart table present, text outside it changes nothing (this follows from the scoping by definition), and a code written twice in a row in the table is reported twice |
| Core.NotFoundReported | src/core.rs:49-50 | when the lookups settle in any order, a code whose reply is an empty array ends up, as itself, in the unknown bucket, and the three buckets together hold one entry per code looked up |
| MainProgram.SettleOf | src/main.rs:117-152 | the `main.rs` lookup settles exactly as the library's wherever it does not exit; it exits, with status 1, only on a first row that does not decode or a seat limit that does not parse |
| MainProgram.GetCourseInfo | src/main.rs:117-152 | the lookup is `SettleOf`: transport errors and the empty array (payload: the course code) settle as failures; a decode or limit-parse failure exits the process with status 1; otherwise the record with both rates computed |
| MainProgram.ProgressBar.constructor | src/main.rs:104-115 | a progress bar of the given length, at position 0 |
| MainProgram.ProgressBar.Update | src/main.rs:180 | the bar advances by the given amount |
| MainProgram.FirstExit | src/main.rs:179 | the number of lookups that settle before the first one that exits: all before it settled, and it exits (or it is the whole list) |
| MainProgram.FetchAllCourses | src/main.rs:161-194 | the bar is as long as the code list and advances by exactly one per settled lookup; a lookup that exits ends the run with its exit code, no buckets and the bar at the number settled before it; otherwise the bar is full and the buckets are exactly the certain, uncertain and failed outcomes |
| MainProgram.SubmittedLookups | src/main.rs:172-177 | one lookup per code, in submission order, each the `main.rs` lookup of that code's reply |
| MainProgram.BadRecordExits | src/main.rs:134-140 | in whatever order the lookups complete, one first row that does not decode or whose seat limit does not parse makes the run exit with status 1 instead of producing buckets |
| MainProgram.GoodRecordsFinish | src/main.rs:134-140 | conversely, when no reply has such a failure every lookup settles, in whatever order, and the run finishes with its buckets |
| MainProgram.ScanFile | src/main.rs:201-204 | the whole file is searched with no scoping, every result is a course code, and the result equals the library's extraction of a document without a cart table |

## Left out

- Network I/O: `get_semester` and the HTTP request of `get_course_info` (src/core.rs:71-76, src/main.rs:154-159); the reply per code is a parameter.
- JSON decoding into `Course` and the `f32` parse of the seat limit: library behaviour, given as the reply's `decoded` field and the `parseLimit` parameter.
- A reply that is not a JSON array makes `as_array().unwrap()` panic; the model takes every reply to be an array.
- HTML parsing of the document and the `inner_html` reserialisation of `#cartTable`: the table's inner HTML is an `Option<string>` input.
- `FuturesUnordered` concurrency: the completion order is the order of `settled` (or `lookups`), any permutation of the per-code outcomes.
- Rates.RoundDigits2: exact real arithmetic, not `f32`; rounding error of 32-bit floats, the `i32` to `f32` conversion of large counts, a `-0` limit and the strings "inf" and "nan" as limits are not modelled.
- Sorting the buckets by `choice_rate`, table rendering, the progress bar's drawing, argument parsing, reading the input file, and `wait_exit_with_code` with its key-press pause: presentation and process plumbing.
- Core.Callback.Invoke: the caller's callback may do anything; the model keeps only the number of calls.
- MainProgram.FetchAllCourses: the progress bar is returned so that its final position can be stated; in the program it is dropped when the function returns.
