/**
 * The certification routes of `certifications.js`: the user's list with its
 * dates formatted and newest issue first, the status counts of `/stats`, and
 * creating a certification after checking its required fields.
 */
module Certifications {
  import opened Collections
  import opened Sorting
  import opened Calendar
  import opened Tables

  /** A `certifications` row together with the user it belongs to. */
  datatype OwnedCertification = OwnedCertification(userId: int, cert: CertificationRow)

  function OwnedCert(o: OwnedCertification): CertificationRow { o.cert }

  /** `WHERE user_id = ?` */
  function UserCertifications(rows: seq<OwnedCertification>, userId: int): (r: seq<CertificationRow>)
    ensures forall c :: c in r <==> OwnedCertification(userId, c) in rows
  {
    var own := (o: OwnedCertification) => o.userId == userId;
    var mine := Filter(rows, own);
    FilterMembers(rows, own);
    MapMembers(mine, OwnedCert);
    Map(mine, OwnedCert)
  }

  // ---------------------------------------------------------------------------
  // GET /certifications

  /** A listed certification, its dates as `DATE_FORMAT(..., '%Y-%m-%d')` renders them. */
  datatype CertificationView = CertificationView(
    id: int, name: string, issuer: string, issueDate: string, expiryDate: string,
    credentialId: string, status: string)

  function ViewOf(c: CertificationRow): CertificationView {
    CertificationView(c.id, c.name, c.issuer, FormatDate(c.issueDate), FormatDate(c.expiryDate),
                      c.credentialId, c.status)
  }

  /**
   * `ORDER BY issue_date DESC`: the name is the select list's alias, so the
   * rows are ordered by the formatted text, latest first.
   */
  predicate ByIssueDateDesc(a: CertificationView, b: CertificationView) {
    StringLe(b.issueDate, a.issueDate)
  }

  function ListOf(certs: seq<CertificationRow>): seq<CertificationView> {
    SortBy(Map(certs, ViewOf), ByIssueDateDesc)
  }

  lemma ByIssueDateDescIsTotalPreorder()
    ensures TotalPreorder(ByIssueDateDesc)
  {
    forall a, b ensures ByIssueDateDesc(a, b) || ByIssueDateDesc(b, a) {
      StringLeTotal(a.issueDate, b.issueDate);
    }
    forall a, b, c | ByIssueDateDesc(a, b) && ByIssueDateDesc(b, c) ensures ByIssueDateDesc(a, c) {
      StringLeTransitive(c.issueDate, b.issueDate, a.issueDate);
    }
  }

  /**
   * The list holds one view per certification, exactly the views of the
   * user's certifications and each as often, each showing its certification's issue and expiry
   * dates as `YYYY-MM-DD`, ordered latest issue date first.
   */
  lemma ListFacts(certs: seq<CertificationRow>)
    ensures |ListOf(certs)| == |certs|
    ensures multiset(ListOf(certs)) == multiset(Map(certs, ViewOf))
    ensures forall v :: v in ListOf(certs) <==> exists c :: c in certs && v == ViewOf(c)
    ensures forall i, j :: 0 <= i < j < |ListOf(certs)| ==>
      StringLe(ListOf(certs)[j].issueDate, ListOf(certs)[i].issueDate)
    ensures forall v :: v in ListOf(certs) ==>
      exists c :: c in certs && v.id == c.id && ShowsDate(v.issueDate, c.issueDate) && ShowsDate(v.expiryDate, c.expiryDate)
  {
    ListMembers(certs);
    ListDates(certs);
    ByIssueDateDescIsTotalPreorder();
    SortBySorted(Map(certs, ViewOf), ByIssueDateDesc);
    ListPermutes(certs);
  }

  lemma ListMembers(certs: seq<CertificationRow>)
    ensures |ListOf(certs)| == |certs|
    ensures forall v :: v in ListOf(certs) <==> exists c :: c in certs && v == ViewOf(c)
  {
    SortByMapMembers(certs, ViewOf, ByIssueDateDesc);
  }

  lemma ListDates(certs: seq<CertificationRow>)
    ensures forall v :: v in ListOf(certs) ==>
      exists c :: c in certs && v.id == c.id && ShowsDate(v.issueDate, c.issueDate) && ShowsDate(v.expiryDate, c.expiryDate)
  {
    ListMembers(certs);
    forall v | v in ListOf(certs)
      ensures exists c :: c in certs && v.id == c.id && ShowsDate(v.issueDate, c.issueDate) && ShowsDate(v.expiryDate, c.expiryDate)
    {
      var c :| c in certs && v == ViewOf(c);
      assert v.id == c.id && ShowsDate(v.issueDate, c.issueDate) && ShowsDate(v.expiryDate, c.expiryDate);
    }
  }

  lemma ListPermutes(certs: seq<CertificationRow>)
    ensures multiset(ListOf(certs)) == multiset(Map(certs, ViewOf))
  {
    SortByPermutes(Map(certs, ViewOf), ByIssueDateDesc);
  }

  // ---------------------------------------------------------------------------
  // GET /certifications/stats

  datatype CertificationStats = CertificationStats(total: nat, active: nat, expiringSoon: nat, expired: nat)

  function IsActive(c: CertificationRow): bool { c.status == "active" }
  function IsExpiring(c: CertificationRow): bool { c.status == "expiring" }
  function IsExpired(c: CertificationRow): bool { c.status == "expired" }
  function IsActiveOrExpiring(c: CertificationRow): bool { IsActive(c) || IsExpiring(c) }

  /** `COUNT(*)` and the three `COUNT(CASE WHEN status = ... THEN 1 END)`; `|| 0` leaves counts as they are. */
  function StatsOf(certs: seq<CertificationRow>): CertificationStats {
    CertificationStats(|certs|, CountBy(certs, IsActive), CountBy(certs, IsExpiring), CountBy(certs, IsExpired))
  }

  /**
   * The three statuses are distinct, so their counts together are at most the
   * total; without certifications every count is 0.
   */
  lemma StatsFacts(certs: seq<CertificationRow>)
    ensures StatsOf(certs).active + StatsOf(certs).expiringSoon + StatsOf(certs).expired <= StatsOf(certs).total
    ensures certs == [] ==> StatsOf(certs) == CertificationStats(0, 0, 0, 0)
    ensures (forall i :: 0 <= i < |certs| ==> certs[i].status == "active") ==>
      StatsOf(certs).active == StatsOf(certs).total
  {
    CountByUnion(certs, IsActive, IsExpiring, IsActiveOrExpiring);
    CountByDisjoint(certs, IsActiveOrExpiring, IsExpired);
    if forall i :: 0 <= i < |certs| ==> certs[i].status == "active" {
      FilterKeepsAll(certs, IsActive);
      CountByIsFilterLength(certs, IsActive);
    }
  }

  // ---------------------------------------------------------------------------
  // POST /certifications

  /**
   * The request body. A string field is falsy when empty; a date is `None`
   * when missing or empty; `status` is optional.
   */
  datatype CertificationInput = CertificationInput(
    name: string, issuer: string, issueDate: Option<SqlDate>, expiryDate: Option<SqlDate>,
    credentialId: string, status: Option<string>)

  datatype CreateOutcome =
    | MissingFields                     // 400
    | Created(cert: CertificationRow)   // 201, echoing the stored fields and the new id

  /** `!name || !issuer || !issue_date || !expiry_date || !credential_id` */
  predicate MissingRequired(input: CertificationInput) {
    input.name == "" || input.issuer == "" || input.issueDate.None? || input.expiryDate.None?
    || input.credentialId == ""
  }

  /** The row stored, and echoed, for a complete request. */
  function NewCertification(id: int, input: CertificationInput): CertificationRow
    requires !MissingRequired(input)
  {
    CertificationRow(id, input.name, input.issuer, input.issueDate.value, input.expiryDate.value,
                     input.credentialId, StatusOrActive(input.status))
  }

  function CreateOutcomeOf(id: int, input: CertificationInput): CreateOutcome {
    if MissingRequired(input) then MissingFields else Created(NewCertification(id, input))
  }

  function AfterCreate(rows: seq<OwnedCertification>, id: int, userId: int, input: CertificationInput)
    : seq<OwnedCertification>
  {
    if MissingRequired(input) then rows else rows + [OwnedCertification(userId, NewCertification(id, input))]
  }

  /**
   * A request missing a required field is refused and stores nothing; a
   * complete one stores exactly one row, echoed back with the id, its fields
   * those given and its status 'active' when none was given.
   */
  lemma CreateFacts(rows: seq<OwnedCertification>, id: int, userId: int, input: CertificationInput)
    ensures CreateOutcomeOf(id, input) == MissingFields <==>
      input.name == "" || input.issuer == "" || input.issueDate.None? || input.expiryDate.None? ||
      input.credentialId == ""
    ensures MissingRequired(input) ==> AfterCreate(rows, id, userId, input) == rows
    ensures CreateOutcomeOf(id, input).Created? ==>
      var c := CreateOutcomeOf(id, input).cert;
      && AfterCreate(rows, id, userId, input) == rows + [OwnedCertification(userId, c)]
      && c.id == id && c.name == input.name && c.issuer == input.issuer
      && Some(c.issueDate) == input.issueDate && Some(c.expiryDate) == input.expiryDate
      && c.credentialId == input.credentialId
      && (input.status.None? ==> c.status == "active")
      && (input.status.Some? && input.status.value != "" ==> c.status == input.status.value)
  {
  }

  /**
   * Storing a certification without a status gives its owner one more in the
   * total and among the active ones, and leaves every other user's
   * statistics as they were.
   */
  lemma CreateCountsActive(rows: seq<OwnedCertification>, id: int, userId: int, other: int, input: CertificationInput)
    requires !MissingRequired(input) && input.status.None? && other != userId
    ensures StatsOf(UserCertifications(AfterCreate(rows, id, userId, input), userId)).total ==
            StatsOf(UserCertifications(rows, userId)).total + 1
    ensures StatsOf(UserCertifications(AfterCreate(rows, id, userId, input), userId)).active ==
            StatsOf(UserCertifications(rows, userId)).active + 1
    ensures UserCertifications(AfterCreate(rows, id, userId, input), other) == UserCertifications(rows, other)
  {
    var o := OwnedCertification(userId, NewCertification(id, input));
    var mineNew := (x: OwnedCertification) => x.userId == userId;
    var theirs := (x: OwnedCertification) => x.userId == other;
    FilterConcat(rows, [o], mineNew);
    FilterConcat(rows, [o], theirs);
    var mine := Filter(rows, mineNew);
    assert Map(mine + [o], OwnedCert) == Map(mine, OwnedCert) + [o.cert];
    assert UserCertifications(rows + [o], userId) == UserCertifications(rows, userId) + [o.cert];
    CountByConcat(UserCertifications(rows, userId), [o.cert], IsActive);
    assert Filter(rows + [o], theirs) == Filter(rows, theirs);
  }

  /** The certifications of every user, with the auto-increment counter. */
  class CertificationTable {
    var rows: seq<OwnedCertification>
    var nextId: int

    constructor()
      ensures rows == [] && nextId == 1
    {
      rows := [];
      nextId := 1;
    }

    /** `GET /certifications` */
    function List(userId: int): seq<CertificationView>
      reads this
    {
      ListOf(UserCertifications(rows, userId))
    }

    /** `GET /certifications/stats` */
    function Stats(userId: int): CertificationStats
      reads this
    {
      StatsOf(UserCertifications(rows, userId))
    }

    /** `POST /certifications`: the id is spent only when a row is stored. */
    method Create(userId: int, input: CertificationInput) returns (r: CreateOutcome)
      modifies this
      ensures r == CreateOutcomeOf(old(nextId), input)
      ensures rows == AfterCreate(old(rows), old(nextId), userId, input)
      ensures nextId == if r.Created? then old(nextId) + 1 else old(nextId)
    {
      r := CreateOutcomeOf(nextId, input);
      if r.Created? {
        rows := rows + [OwnedCertification(userId, r.cert)];
        nextId := nextId + 1;
      }
    }
  }
}
