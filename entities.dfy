/**
 * The domain entities (Domain/Entities, Domain/Enums) as values, with the
 * column bounds their `[StringLength]` attributes declare.
 */
module Entities {
  import opened Wrappers

  /** Domain/Enums/Status.cs. */
  datatype Status = Pending | Private | Public {
    /** The enum's underlying value. */
    function Value(): (v: int)
      ensures 1 <= v <= 3
    {
      match this
      case Pending => 1
      case Private => 2
      case Public => 3
    }
  }

  /** Domain/Enums/Role.cs: `User = 1`, `Admin = 2`. */
  datatype Role = UserRole | AdminRole {
    /** `Role.ToString()`: the enum member's name. */
    function Name(): (s: string)
      ensures s == "User" || s == "Admin"
      ensures AdminRole? <==> s == "Admin"
    {
      match this
      case UserRole => "User"
      case AdminRole => "Admin"
    }
  }

  /** A `DateTime`, as its count of 100-nanosecond ticks. */
  datatype DateTime = DateTime(ticks: int)

  /** The largest tick count a `DateTime` holds (31 December 9999, 23:59:59.9999999). */
  const MaxTicks: int := 3_155_378_975_999_999_999

  /** Domain/Entities/EducationPeriod.cs, without the keys the store assigns. */
  datatype EducationPeriod = EducationPeriod(
    name: string, degree: Option<string>, city: string,
    description: Option<string>, from: DateTime, to: Option<DateTime>)

  /** Domain/Entities/WorkPeriod.cs, without the keys the store assigns. */
  datatype WorkPeriod = WorkPeriod(
    position: string, employer: string, city: string,
    description: Option<string>, from: DateTime, to: Option<DateTime>)

  /**
   * Domain/Entities/Resume.cs, together with the `IsRejected` column that the
   * moderation handlers write.
   */
  datatype Resume = Resume(
    id: int,
    userId: int,
    isApproved: bool,
    isRejected: bool,
    fullName: string,
    programmingLanguage: string,
    languageLevel: string,
    country: string,
    city: string,
    links: Option<string>,
    status: Status,
    skills: string,
    educationPeriods: seq<EducationPeriod>,
    workPeriods: seq<WorkPeriod>)
  {
    /** The `[StringLength]` bounds: the database refuses a row that exceeds one of them. */
    predicate WithinBounds() {
      |fullName| <= 50 && |programmingLanguage| <= 100 && |languageLevel| <= 100
      && |country| <= 50 && |city| <= 50
      && (links.Some? ==> |links.value| <= 200)
      && |skills| <= 300
    }
  }

  /** Domain/Entities/User.cs; the user's resumes are the rows of the resume table that name its id. */
  datatype User = User(id: int, email: string, hashPassword: string, isBlocked: bool, role: Role) {
    /** The `[StringLength]` bounds of `Email` (150) and `HashPassword` (200). */
    predicate WithinBounds() {
      |email| <= 150 && |hashPassword| <= 200
    }
  }

  /** Domain/Entities/ResumePhoto.cs: the image bytes, keyed by the resume they belong to. */
  datatype ResumePhoto = ResumePhoto(resumeId: int, data: seq<bv8>)
}
