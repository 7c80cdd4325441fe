/**
  The records the recruiter dashboard reads: job postings and candidate
  applications, with their enumerated fields.
 */
module Types {

  datatype Option<+T> = None | Some(value: T)

  /** The five states an application can be in. */
  datatype Status = Pending | Reviewing | Interview | Rejected | Accepted

  /** The string a status has in the data (and in the status filter). */
  function StatusName(s: Status): (name: string)
    ensures |name| > 0 && name != "all"
  {
    match s
    case Pending => "pending"
    case Reviewing => "reviewing"
    case Interview => "interview"
    case Rejected => "rejected"
    case Accepted => "accepted"
  }

  /** Distinct statuses have distinct names. */
  lemma StatusNameInjective(s: Status, t: Status)
    ensures StatusName(s) == StatusName(t) <==> s == t
  {
    match s
    case Pending => assert StatusName(s)[0] == 'p';
    case Reviewing => assert StatusName(s)[2] == 'v';
    case Interview => assert StatusName(s)[0] == 'i';
    case Rejected => assert StatusName(s)[2] == 'j';
    case Accepted => assert StatusName(s)[0] == 'a' && StatusName(s)[1] == 'c';
  }

  datatype JobType = FullTime | PartTime | Contract | Remote

  datatype Job = Job(
    id: string,
    title: string,
    company: string,
    location: string,
    jobType: JobType,
    salary: string,
    description: string,
    requirements: seq<string>,
    responsibilities: seq<string>,
    postedDate: string,
    department: string,
    experience: string)

  /** A candidate's application; `testScore` is absent when no test result is recorded. */
  datatype Application = Application(
    id: string,
    jobId: string,
    jobTitle: string,
    candidateName: string,
    email: string,
    phone: string,
    resume: string,
    coverLetter: string,
    testScore: Option<int>,
    status: Status,
    appliedDate: string)
}
