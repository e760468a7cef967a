/**
 * The registry's record type, its two access PINs and the seed list the
 * application starts from.
 */
module Constants {
  import opened Text

  /** Whether the promotional book was handed over; the source's string union `'Yes' | 'No'`. */
  datatype Received = Yes | No

  /** The string the record holds for its `Received` field. */
  function ReceivedText(r: Received): (s: string)
    ensures s == "Yes" || s == "No"
    ensures s == "Yes" <==> r == Yes
  {
    match r
    case Yes => "Yes"
    case No => "No"
  }

  /** One registry entry; `uid` identifies it and `createdAt` is an ISO timestamp. */
  datatype Vip = Vip(
    uid: string,
    fullName: string,
    position: string,
    state: string,
    email: string,
    phone: string,
    bookTitle: string,
    received: Received,
    dateReceived: string,
    adminName: string,
    rating: int,
    flags: string,
    createdBy: string,
    createdAt: string,
    notes: string)

  /** A record as the form submits it for a new entry: every field but `uid` and `createdAt`. */
  datatype VipDraft = VipDraft(
    fullName: string,
    position: string,
    state: string,
    email: string,
    phone: string,
    bookTitle: string,
    received: Received,
    dateReceived: string,
    adminName: string,
    rating: int,
    flags: string,
    createdBy: string,
    notes: string)

  /** The draft part of a record (the record without its identity fields). */
  function DraftOf(v: Vip): VipDraft {
    VipDraft(v.fullName, v.position, v.state, v.email, v.phone, v.bookTitle, v.received,
             v.dateReceived, v.adminName, v.rating, v.flags, v.createdBy, v.notes)
  }

  /** `{ ...draft, UID: uid, Created_At: createdAt }`. */
  function WithIdentity(d: VipDraft, uid: string, createdAt: string): (v: Vip)
    ensures v.uid == uid && v.createdAt == createdAt
    ensures DraftOf(v) == d
  {
    Vip(uid, d.fullName, d.position, d.state, d.email, d.phone, d.bookTitle, d.received,
        d.dateReceived, d.adminName, d.rating, d.flags, d.createdBy, createdAt, d.notes)
  }

  /** Splitting a record into draft and identity and joining them again gives the record back. */
  lemma IdentityRoundTrip(v: Vip)
    ensures WithIdentity(DraftOf(v), v.uid, v.createdAt) == v
  {
  }

  /**
   * The record's field values as strings, in declaration order, as
   * `Object.values(vip).map(String)` gives them.
   */
  function FieldStrings(v: Vip): (fs: seq<string>)
    ensures |fs| == 15
    ensures v.uid in fs && v.fullName in fs && v.notes in fs
  {
    [v.uid, v.fullName, v.position, v.state, v.email, v.phone, v.bookTitle,
     ReceivedText(v.received), v.dateReceived, v.adminName, IntToString(v.rating),
     v.flags, v.createdBy, v.createdAt, v.notes]
  }

  const ADMIN_PIN: string := "1234"
  const SUPER_ADMIN_PIN: string := "5678"

  /** The two PINs differ, so at most one access level matches a PIN. */
  lemma PinsDistinct()
    ensures ADMIN_PIN != SUPER_ADMIN_PIN
  {
  }

  const INITIAL_VIP_DATA: seq<Vip> := [
    Vip("uid_1", "Ravi Singh", "MP", "Maharashtra", "ravi.singh@example.com", "9876543210",
        "The Grand Challenge", Yes, "2025-10-01", "admin1", 5, "", "admin",
        "2023-01-15T10:00:00Z", "Met during the annual conference."),
    Vip("uid_2", "Priya Sharma", "Councilor", "Karnataka", "priya.sharma@example.com", "9876543211",
        "", No, "", "", 0, "", "searcher",
        "2023-02-20T11:30:00Z", "Follow-up required."),
    Vip("uid_3", "Ajay Kumar", "MLA", "Kerala", "ajay.k@example.com", "9876543212",
        "Economic Futures", Yes, "2025-09-22", "admin2", 4, "", "admin",
        "2023-03-10T09:00:00Z", ""),
    Vip("uid_4", "Sunita Reddy", "MP", "Andhra Pradesh", "sunita.r@example.com", "9876543213",
        "", No, "", "", 0, "", "admin",
        "2023-04-05T14:00:00Z", "Contact person: Mr. Verma."),
    Vip("uid_5", "Vikram Mehta", "MLA", "Gujarat", "vikram.mehta@example.com", "9876543214",
        "Innovate and Lead", Yes, "2025-10-05", "admin1", 5, "", "admin",
        "2023-05-11T16:45:00Z", "Very interested in chapter 3."),
    Vip("uid_6", "Ajay K. Sharma", "Councilor", "Maharashtra", "ajay.sharma@example.com", "9876543215",
        "", No, "", "", 0, "", "searcher",
        "2023-06-18T12:00:00Z", "")
  ]

  /** No two records of the list share a `uid`. */
  predicate UidsDistinct(vips: seq<Vip>) {
    forall i, j :: 0 <= i < j < |vips| ==> vips[i].uid != vips[j].uid
  }

  lemma SeedUidsDistinct()
    ensures UidsDistinct(INITIAL_VIP_DATA)
  {
  }

  /** A seed record that has not received the book carries no receipt date. */
  lemma SeedNoDateUnlessReceived()
    ensures forall v :: v in INITIAL_VIP_DATA && v.received == No ==> v.dateReceived == ""
  {
  }

  /** Every seed rating lies in the form slider's range 0..5. */
  lemma SeedRatingsInRange()
    ensures forall v :: v in INITIAL_VIP_DATA ==> 0 <= v.rating <= 5
  {
  }
}
