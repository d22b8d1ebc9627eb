/**
 * The server's coupon record and the shape of an incoming create or update
 * request, as the coupons table and the controller see them.
 */
module CouponRecord {
  import opened Optional

  /** The discount mechanisms the `in:` rule accepts for `type`. */
  datatype CouponType = Percentage | FreeShipping | FixedAmount

  /** The operator-controlled states the `in:` rule accepts for `status`. */
  datatype Status = Active | Inactive | Expired

  const TypeNames: set<string> := {"percentage", "free_shipping", "fixed_amount"}
  const StatusNames: set<string> := {"active", "inactive", "expired"}

  function TypeName(t: CouponType): string {
    match t
    case Percentage => "percentage"
    case FreeShipping => "free_shipping"
    case FixedAmount => "fixed_amount"
  }

  /** Reads a `type` string; only the three enum names are recognised. */
  function TypeNamed(s: string): (t: Option<CouponType>)
    ensures t.Some? <==> s in TypeNames
    ensures t.Some? ==> TypeName(t.value) == s
  {
    if s == "percentage" then Some(Percentage)
    else if s == "free_shipping" then Some(FreeShipping)
    else if s == "fixed_amount" then Some(FixedAmount)
    else None
  }

  function StatusName(st: Status): string {
    match st
    case Active => "active"
    case Inactive => "inactive"
    case Expired => "expired"
  }

  /** Reads a `status` string; only the three enum names are recognised. */
  function StatusNamed(s: string): (st: Option<Status>)
    ensures st.Some? <==> s in StatusNames
    ensures st.Some? ==> StatusName(st.value) == s
  {
    if s == "active" then Some(Active)
    else if s == "inactive" then Some(Inactive)
    else if s == "expired" then Some(Expired)
    else None
  }

  /**
   * A JSON value sent for `value`: `Number` for a JSON number or a string PHP
   * reads as a number, `Text` for any other string.
   */
  datatype Amount = Number(x: real) | Text(s: string)

  /**
   * A value sent for `expiry_date`: text that parses as a calendar date
   * (given as its day number) or text that does not parse.
   */
  datatype DateInput = OnDay(day: int) | Unparsed(text: string)

  /** How one request field arrives: not sent, sent as null, or sent with a value. */
  datatype Field<+T> = Absent | Null | Given(v: T)

  /** The five fields of a create or update request body. */
  datatype Request = Request(
    code: Field<string>,
    kind: Field<string>,
    value: Field<Amount>,
    status: Field<string>,
    expiry: Field<DateInput>)

  /**
   * A stored coupon. `expiry` is a day number; `created` is the creation stamp
   * that stands for `created_at` (only its order matters).
   */
  datatype Coupon = Coupon(
    id: int,
    code: string,
    kind: CouponType,
    value: Option<Amount>,
    status: Status,
    expiry: int,
    created: nat)

  /** The characters PHP's `trim` strips; `required` rejects a string made only of them. */
  const TrimmedChars: set<char> := {' ', '\t', '\n', '\r', '\0', '\U{000B}'}

  predicate IsBlank(s: string) {
    forall i :: 0 <= i < |s| ==> s[i] in TrimmedChars
  }

  /** A `value` that passes Laravel's `required` test (not null, not a blank string). */
  predicate AmountFilled(a: Amount) {
    a.Number? || !IsBlank(a.s)
  }

  /** An `expiry_date` that passes Laravel's `required` test. */
  predicate DateFilled(d: DateInput) {
    d.OnDay? || !IsBlank(d.text)
  }

  const MaxCodeLength := 50

  /**
   * What the write rules guarantee of every stored record: a non-blank code of
   * at most 50 characters, and a numeric value unless the type is free_shipping.
   */
  predicate WellFormed(c: Coupon) {
    && !IsBlank(c.code)
    && |c.code| <= MaxCodeLength
    && (c.kind != FreeShipping ==> c.value.Some? && c.value.value.Number?)
  }

  predicate CodesDistinct(rows: map<int, Coupon>) {
    forall a, b :: a in rows && b in rows && a != b ==> rows[a].code != rows[b].code
  }

  /** The coupons table: keyed by id, every record well formed, codes pairwise distinct. */
  predicate TableInvariant(rows: map<int, Coupon>) {
    && (forall id :: id in rows ==> rows[id].id == id && WellFormed(rows[id]))
    && CodesDistinct(rows)
  }
}
