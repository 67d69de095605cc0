/** The membership register's record: five required text fields and
    nineteen optional ones (`undefined` when absent), all held as text. */
module Members {
  import opened Wrappers

  /** The keys of a member record (`keyof Member`). */
  datatype Field =
      MemberNo
    | MemberName
    | MemberType
    | SiteNo
    | ContactDetails
    | MemberClass
    | AdmissionDate
    | Address
    | ShareNo
    | NoOfShare
    | ShareCapitalAmount
    | Gender
    | Caste
    | Aadhaar
    | FamilyCard
    | VoterID
    | Pan
    | AdmissionFeePaid
    | NomineeName
    | Relationship
    | TotalAmount
    | PaidAmount
    | RemainingAmount
    | ModeOfPayment

  /** The five fields the add form insists on. */
  predicate IsRequired(f: Field) {
    f.MemberNo? || f.MemberName? || f.MemberType? || f.SiteNo? || f.ContactDetails?
  }

  datatype Member = Member(
    memberNo: string,
    memberName: string,
    memberType: string,
    siteNo: string,
    contactDetails: string,
    memberClass: Option<string>,
    admissionDate: Option<string>,
    address: Option<string>,
    shareNo: Option<string>,
    noOfShare: Option<string>,
    shareCapitalAmount: Option<string>,
    gender: Option<string>,
    caste: Option<string>,
    aadhaar: Option<string>,
    familyCard: Option<string>,
    voterID: Option<string>,
    pan: Option<string>,
    admissionFeePaid: Option<string>,
    nomineeName: Option<string>,
    relationship: Option<string>,
    totalAmount: Option<string>,
    paidAmount: Option<string>,
    remainingAmount: Option<string>,
    modeOfPayment: Option<string>
  )

  /** `member[f]`: the field's value, `None` when an optional field is absent. */
  function Get(m: Member, f: Field): (r: Option<string>)
    ensures IsRequired(f) ==> r.Some?
  {
    match f
    case MemberNo => Some(m.memberNo)
    case MemberName => Some(m.memberName)
    case MemberType => Some(m.memberType)
    case SiteNo => Some(m.siteNo)
    case ContactDetails => Some(m.contactDetails)
    case MemberClass => m.memberClass
    case AdmissionDate => m.admissionDate
    case Address => m.address
    case ShareNo => m.shareNo
    case NoOfShare => m.noOfShare
    case ShareCapitalAmount => m.shareCapitalAmount
    case Gender => m.gender
    case Caste => m.caste
    case Aadhaar => m.aadhaar
    case FamilyCard => m.familyCard
    case VoterID => m.voterID
    case Pan => m.pan
    case AdmissionFeePaid => m.admissionFeePaid
    case NomineeName => m.nomineeName
    case Relationship => m.relationship
    case TotalAmount => m.totalAmount
    case PaidAmount => m.paidAmount
    case RemainingAmount => m.remainingAmount
    case ModeOfPayment => m.modeOfPayment
  }

  /** The record with field `f` set to `v`, all else as it was. */
  function Set(m: Member, f: Field, v: string): (r: Member)
    ensures Get(r, f) == Some(v)
    ensures forall g :: g != f ==> Get(r, g) == Get(m, g)
  {
    match f
    case MemberNo => m.(memberNo := v)
    case MemberName => m.(memberName := v)
    case MemberType => m.(memberType := v)
    case SiteNo => m.(siteNo := v)
    case ContactDetails => m.(contactDetails := v)
    case MemberClass => m.(memberClass := Some(v))
    case AdmissionDate => m.(admissionDate := Some(v))
    case Address => m.(address := Some(v))
    case ShareNo => m.(shareNo := Some(v))
    case NoOfShare => m.(noOfShare := Some(v))
    case ShareCapitalAmount => m.(shareCapitalAmount := Some(v))
    case Gender => m.(gender := Some(v))
    case Caste => m.(caste := Some(v))
    case Aadhaar => m.(aadhaar := Some(v))
    case FamilyCard => m.(familyCard := Some(v))
    case VoterID => m.(voterID := Some(v))
    case Pan => m.(pan := Some(v))
    case AdmissionFeePaid => m.(admissionFeePaid := Some(v))
    case NomineeName => m.(nomineeName := Some(v))
    case Relationship => m.(relationship := Some(v))
    case TotalAmount => m.(totalAmount := Some(v))
    case PaidAmount => m.(paidAmount := Some(v))
    case RemainingAmount => m.(remainingAmount := Some(v))
    case ModeOfPayment => m.(modeOfPayment := Some(v))
  }

  // The four records the register starts with.
  const Seed001: Member := Member(
    "001", "Rajesh Kumar", "Regular", "1",
    "9876543210", Some("A"), Some("2020-01-15"), Some("123 Main Street, Delhi"),
    Some("SH001"), Some("5"), Some("50000"), Some("Male"),
    Some("General"), Some("1234-5678-9012"), Some("FC001"), Some("VID001"),
    Some("ABCDE1234F"), Some("5000"), Some("Priya Kumar"), Some("Wife"),
    Some("100000"), Some("75000"), Some("25000"), Some("Bank Transfer"))

  const Seed002: Member := Member(
    "002", "Priya Sharma", "Associate", "2",
    "9876543211", Some("B"), Some("2020-03-20"), Some("456 Park Avenue, Mumbai"),
    Some("SH002"), Some("3"), Some("30000"), Some("Female"),
    Some("OBC"), Some("2234-5678-9012"), Some("FC002"), Some("VID002"),
    Some("BCDEF2345G"), Some("3000"), Some("Amit Sharma"), Some("Husband"),
    Some("60000"), Some("60000"), Some("0"), Some("Cheque"))

  const Seed003: Member := Member(
    "003", "Amit Patel", "Regular", "1",
    "9876543212", Some("A"), Some("2021-06-10"), Some("789 Garden Road, Pune"),
    Some("SH003"), Some("7"), Some("70000"), Some("Male"),
    Some("General"), Some("3234-5678-9012"), Some("FC003"), Some("VID003"),
    Some("CDEFG3456H"), Some("7000"), Some("Sunita Patel"), Some("Wife"),
    Some("150000"), Some("50000"), Some("100000"), Some("Cash"))

  const Seed010: Member := Member(
    "010", "Sunita Singh", "Premium", "4",
    "9876543220", Some("A+"), Some("2019-12-05"), Some("321 Elite Colony, Bangalore"),
    Some("SH010"), Some("10"), Some("100000"), Some("Female"),
    Some("SC"), Some("4234-5678-9012"), Some("FC010"), Some("VID010"),
    Some("DEFGH4567I"), Some("10000"), Some("Raj Singh"), Some("Son"),
    Some("200000"), Some("150000"), Some("50000"), Some("Online"))

  const SeedMembers: seq<Member> := [Seed001, Seed002, Seed003, Seed010]
}
