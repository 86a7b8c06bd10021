/**
 The result codes the class server puts in its replies, and the code each
 class-operation error is reported with.
 */
module Responses {
  import opened Options
  import opened Classes

  datatype ResponseCode =
    | Ok
    | InactiveServer
    | ServerNotUpdated
    | WritingNotSupported
    | EnrollmentsAlreadyOpened
    | EnrollmentsAlreadyClosed
    | FullClass
    | NonExistingStudent
    | StudentAlreadyEnrolled

  /** The exception-message switches of the professor and student services
      (each lists every message its operation can throw): every message maps
      to an error code, except an invalid id or name, which is answered with
      an invalid-argument error instead (`None`). */
  function CodeFor(e: ClassError): (r: Option<ResponseCode>)
    ensures r.None? <==> e == InvalidStudentId || e == InvalidStudentName
    ensures e == ServerInactive ==> r == Some(InactiveServer)
    ensures e == ClassError.WritingNotSupported ==> r == Some(ResponseCode.WritingNotSupported)
    ensures e == EnrollmentsAlreadyOpen ==> r == Some(EnrollmentsAlreadyOpened)
    ensures e == ClassError.EnrollmentsAlreadyClosed || e == EnrollmentsClosed ==> r == Some(ResponseCode.EnrollmentsAlreadyClosed)
    ensures e == ClassFull ==> r == Some(FullClass)
    ensures e == StudentNotEnrolled ==> r == Some(NonExistingStudent)
    ensures e == ClassError.StudentAlreadyEnrolled ==> r == Some(ResponseCode.StudentAlreadyEnrolled)
    ensures r.Some? ==> r.value != Ok && r.value != ServerNotUpdated
  {
    match e
    case ServerInactive => Some(InactiveServer)
    case WritingNotSupported => Some(ResponseCode.WritingNotSupported)
    case EnrollmentsAlreadyOpen => Some(EnrollmentsAlreadyOpened)
    case ClassFull => Some(FullClass)
    case EnrollmentsAlreadyClosed => Some(ResponseCode.EnrollmentsAlreadyClosed)
    case StudentNotEnrolled => Some(NonExistingStudent)
    case InvalidStudentId => None
    case EnrollmentsClosed => Some(ResponseCode.EnrollmentsAlreadyClosed)
    case StudentAlreadyEnrolled => Some(ResponseCode.StudentAlreadyEnrolled)
    case InvalidStudentName => None
  }
}
