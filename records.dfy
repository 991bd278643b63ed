/** The course record both programs decode from the registration service and
    the reply the service gives for one course code. */
module Records {
  import opened Wrappers
  import opened Rates

  /** `Course`: the five decoded fields, then `sucess_rate` (the admission
      rate, a percentage) and `choice_rate`, which the lookup overwrites. */
  datatype Course = Course(
    courseId: string,
    studentCount: int,
    studentLimit: string,
    courseTeacher: string,
    courseName: string,
    successRate: real,
    choiceRate: Ratio)

  /** What the course endpoint answered for one code: a transport or JSON
      error, an empty array, or an array whose first element decoded (or
      failed to decode) into a `Course`. */
  datatype Reply =
    | TransportError(message: string)
    | EmptyArray
    | FirstRow(decoded: Result<Course>)
}
