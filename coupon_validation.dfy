/**
 * The controller's two declarative rule sets (create and update) as pure
 * functions. Each field's rules run in their written order with Laravel's
 * validator semantics: `sometimes` skips an absent field, a failed implicit
 * rule (`required`, `required_unless`) ends that field's checks, `nullable`
 * and a blank string skip the non-implicit rules, and `unique` runs only when
 * the field has no earlier error. The result maps each failing field to the
 * rules it failed, in order; no failing field means the request is accepted.
 */
module CouponValidation {
  import opened Optional
  import opened CouponRecord

  datatype FieldName = CodeField | TypeField | ValueField | StatusField | ExpiryField

  const AllFields: set<FieldName> := {CodeField, TypeField, ValueField, StatusField, ExpiryField}

  /** The rules that can fail (Laravel's message keys). */
  datatype Rule = Required | RequiredUnless | Unique | Max | In | Numeric | Date | After

  type Errors = map<FieldName, seq<Rule>>

  /** The create rule set, or the update rule set for the record with this id. */
  datatype Mode = OnCreate | OnUpdate(id: int)

  /**
   * `unique:coupons,code` on create; `unique:coupons,code,{id}` on update,
   * which ignores the record being updated. Codes compare exactly.
   */
  predicate Taken(rows: map<int, Coupon>, code: string, mode: Mode) {
    exists id :: id in rows && rows[id].code == code && (mode.OnUpdate? ==> id != mode.id)
  }

  /** `sometimes`: in the update rule set an absent field is not validated at all. */
  predicate Skipped<T>(f: Field<T>, mode: Mode) {
    mode.OnUpdate? && f.Absent?
  }

  /** `[sometimes|]required|unique|string|max:50` on `code`. */
  function CodeErrors(f: Field<string>, rows: map<int, Coupon>, mode: Mode): (errs: seq<Rule>)
    ensures errs == [] <==>
      Skipped(f, mode) || (f.Given? && !IsBlank(f.v) && |f.v| <= MaxCodeLength && !Taken(rows, f.v, mode))
    ensures Unique in errs ==> f.Given? && Taken(rows, f.v, mode)
  {
    if Skipped(f, mode) then []
    else if !(f.Given? && !IsBlank(f.v)) then [Required]
    else
      var unique := if Taken(rows, f.v, mode) then [Unique] else [];
      var max := if |f.v| > MaxCodeLength then [Max] else [];
      unique + max
  }

  /** `[sometimes|]required|in:...` on `type` and on `status`. */
  function EnumErrors(f: Field<string>, names: set<string>, mode: Mode): (errs: seq<Rule>)
    ensures errs == [] <==> Skipped(f, mode) || (f.Given? && f.v in names && !IsBlank(f.v))
  {
    if Skipped(f, mode) then []
    else if !(f.Given? && !IsBlank(f.v)) then [Required]
    else if f.v in names then []
    else [In]
  }

  /**
   * `required_unless:type,free_shipping|numeric|nullable` on `value`, in both
   * rule sets. The condition reads the request's own `type` and nothing else.
   */
  function ValueErrors(f: Field<Amount>, kind: Field<string>): (errs: seq<Rule>)
    ensures errs == [] <==>
      (f.Given? && f.v.Number?) ||
      (kind == Given("free_shipping") && !(f.Given? && f.v.Text? && !IsBlank(f.v.s)))
  {
    if kind != Given("free_shipping") && !(f.Given? && AmountFilled(f.v)) then [RequiredUnless]
    else if f.Given? && f.v.Text? && !IsBlank(f.v.s) then [Numeric]
    else []
  }

  /**
   * `[sometimes|]required|date|after:today` on `expiry_date`. Text the model
   * counts as unparsed is reported as failing both `date` and `after`; text
   * that only `date` refuses but `after` still reads is outside this model.
   */
  function ExpiryErrors(f: Field<DateInput>, today: int, mode: Mode): (errs: seq<Rule>)
    ensures errs == [] <==> Skipped(f, mode) || (f.Given? && f.v.OnDay? && f.v.day > today)
  {
    if Skipped(f, mode) then []
    else if !(f.Given? && DateFilled(f.v)) then [Required]
    else match f.v
      case OnDay(d) => if d > today then [] else [After]
      case Unparsed(_) => [Date, After]
  }

  function FieldErrors(req: Request, rows: map<int, Coupon>, today: int, mode: Mode, n: FieldName): seq<Rule> {
    match n
    case CodeField => CodeErrors(req.code, rows, mode)
    case TypeField => EnumErrors(req.kind, TypeNames, mode)
    case ValueField => ValueErrors(req.value, req.kind)
    case StatusField => EnumErrors(req.status, StatusNames, mode)
    case ExpiryField => ExpiryErrors(req.expiry, today, mode)
  }

  /**
   * Runs every field's rules and collects all failures in one map (the
   * validator is not fail-fast); only failing fields are keys.
   */
  function Validate(req: Request, rows: map<int, Coupon>, today: int, mode: Mode): (errs: Errors)
    ensures forall n :: n in errs <==> FieldErrors(req, rows, today, mode, n) != []
    ensures forall n :: n in errs ==> errs[n] == FieldErrors(req, rows, today, mode, n)
  {
    EveryFieldListed();
    map n | n in AllFields && FieldErrors(req, rows, today, mode, n) != [] :: FieldErrors(req, rows, today, mode, n)
  }

  lemma EveryFieldListed()
    ensures forall n: FieldName :: n in AllFields
  {
    forall n: FieldName ensures n in AllFields {
      match n
      case CodeField =>
      case TypeField =>
      case ValueField =>
      case StatusField =>
      case ExpiryField =>
    }
  }

  predicate Accepted(req: Request, rows: map<int, Coupon>, today: int, mode: Mode) {
    Validate(req, rows, today, mode) == map[]
  }

  /** Every supplied field holds a value of the field's type (what `??` then copies). */
  predicate Typed(req: Request) {
    && (req.kind.Given? ==> TypeNamed(req.kind.v).Some?)
    && (req.status.Given? ==> StatusNamed(req.status.v).Some?)
    && (req.expiry.Given? ==> req.expiry.v.OnDay?)
  }

  /** The four fields a create must supply, each well typed. */
  predicate Complete(req: Request) {
    && req.code.Given? && req.kind.Given? && req.status.Given? && req.expiry.Given?
    && Typed(req)
  }

  /** Acceptance is exactly "no field has an error". */
  lemma AcceptedIff(req: Request, rows: map<int, Coupon>, today: int, mode: Mode)
    ensures Accepted(req, rows, today, mode) <==>
      forall n :: FieldErrors(req, rows, today, mode, n) == []
  {
  }

  /** What an accepted request guarantees, field by field. */
  lemma AcceptedFields(req: Request, rows: map<int, Coupon>, today: int, mode: Mode)
    requires Accepted(req, rows, today, mode)
    ensures Typed(req)
    ensures mode.OnCreate? ==> Complete(req)
    ensures !req.code.Null? && !req.kind.Null? && !req.status.Null? && !req.expiry.Null?
    ensures req.code.Given? ==>
      !IsBlank(req.code.v) && |req.code.v| <= MaxCodeLength && !Taken(rows, req.code.v, mode)
    ensures req.expiry.Given? ==> req.expiry.v.day > today
    ensures req.kind == Given("free_shipping") || (req.value.Given? && req.value.v.Number?)
  {
    AcceptedIff(req, rows, today, mode);
    assert FieldErrors(req, rows, today, mode, CodeField) == [];
    assert FieldErrors(req, rows, today, mode, TypeField) == [];
    assert FieldErrors(req, rows, today, mode, ValueField) == [];
    assert FieldErrors(req, rows, today, mode, StatusField) == [];
    assert FieldErrors(req, rows, today, mode, ExpiryField) == [];
  }

  /**
   * On create, `code` is rejected exactly when it is missing, null, blank,
   * longer than 50 characters, or equal to some stored record's code.
   */
  lemma CreateCodeRule(req: Request, rows: map<int, Coupon>, today: int)
    ensures CodeField in Validate(req, rows, today, OnCreate) <==>
      || !req.code.Given?
      || IsBlank(req.code.v)
      || |req.code.v| > MaxCodeLength
      || (exists id :: id in rows && rows[id].code == req.code.v)
  {
  }

  /**
   * On update, an absent `code` is not checked; a supplied one is rejected
   * exactly when it is null, blank, too long, or the code of another record.
   */
  lemma UpdateCodeRule(req: Request, rows: map<int, Coupon>, today: int, self: int)
    ensures CodeField in Validate(req, rows, today, OnUpdate(self)) <==>
      && !req.code.Absent?
      && (|| req.code.Null?
          || IsBlank(req.code.v)
          || |req.code.v| > MaxCodeLength
          || (exists id :: id in rows && id != self && rows[id].code == req.code.v))
  {
  }

  /** Resubmitting a record's own code in an update is not a duplicate. */
  lemma OwnCodeNotDuplicate(req: Request, rows: map<int, Coupon>, today: int, self: int)
    requires TableInvariant(rows) && self in rows
    requires req.code == Given(rows[self].code)
    ensures CodeField !in Validate(req, rows, today, OnUpdate(self))
  {
  }

  /**
   * `type` and `status` must name one of their enum values: always on create,
   * and on update whenever the field is sent at all.
   */
  lemma EnumRules(req: Request, rows: map<int, Coupon>, today: int, mode: Mode)
    ensures TypeField !in Validate(req, rows, today, mode) <==>
      (mode.OnUpdate? && req.kind.Absent?) || (req.kind.Given? && TypeNamed(req.kind.v).Some?)
    ensures StatusField !in Validate(req, rows, today, mode) <==>
      (mode.OnUpdate? && req.status.Absent?) || (req.status.Given? && StatusNamed(req.status.v).Some?)
  {
    var errs := Validate(req, rows, today, mode);
    assert TypeField !in errs <==> EnumErrors(req.kind, TypeNames, mode) == [];
    assert StatusField !in errs <==> EnumErrors(req.status, StatusNames, mode) == [];
    assert forall s :: s in TypeNames ==> !IsBlank(s) by {
      forall s | s in TypeNames ensures !IsBlank(s) {
        assert s[0] !in TrimmedChars;
      }
    }
    assert forall s :: s in StatusNames ==> !IsBlank(s) by {
      forall s | s in StatusNames ensures !IsBlank(s) {
        assert s[0] !in TrimmedChars;
      }
    }
  }

  /**
   * `value` passes exactly when it is a number, or when the request's own
   * `type` is free_shipping and `value` is absent, null, blank or a number.
   */
  lemma ValueRule(req: Request, rows: map<int, Coupon>, today: int, mode: Mode)
    ensures ValueField !in Validate(req, rows, today, mode) <==>
      || (req.value.Given? && req.value.v.Number?)
      || (req.kind == Given("free_shipping") && !(req.value.Given? && req.value.v.Text? && !IsBlank(req.value.v.s)))
  {
  }

  /**
   * `expiry_date` must be a day strictly after today: checked always on
   * create, and on update only when the field is sent.
   */
  lemma ExpiryRule(req: Request, rows: map<int, Coupon>, today: int, mode: Mode)
    ensures ExpiryField !in Validate(req, rows, today, mode) <==>
      (mode.OnUpdate? && req.expiry.Absent?) || (req.expiry.Given? && req.expiry.v.OnDay? && req.expiry.v.day > today)
  {
  }

  /** The boundary of `after:today`: today fails, tomorrow passes. */
  lemma ExpiryBoundary(req: Request, rows: map<int, Coupon>, today: int, mode: Mode)
    ensures req.expiry == Given(OnDay(today)) ==> Validate(req, rows, today, mode)[ExpiryField] == [After]
    ensures req.expiry == Given(OnDay(today + 1)) ==> ExpiryField !in Validate(req, rows, today, mode)
  {
  }

  /**
   * A free_shipping create needs no value, while the same request with
   * type percentage fails on `value` alone.
   */
  lemma {:induction false} FreeShippingNeedsNoValue(req: Request, rows: map<int, Coupon>, today: int)
    requires req.kind == Given("free_shipping") && req.value.Absent?
    requires Accepted(req, rows, today, OnCreate)
    ensures Validate(req.(kind := Given("percentage")), rows, today, OnCreate) == map[ValueField := [RequiredUnless]]
  {
    var req' := req.(kind := Given("percentage"));
    AcceptedIff(req, rows, today, OnCreate);
    var errs := Validate(req', rows, today, OnCreate);
    assert FieldErrors(req, rows, today, OnCreate, CodeField) == [];
    assert FieldErrors(req, rows, today, OnCreate, StatusField) == [];
    assert FieldErrors(req, rows, today, OnCreate, ExpiryField) == [];
    assert FieldErrors(req', rows, today, OnCreate, TypeField) == [] by {
      assert !IsBlank("percentage") by { assert "percentage"[0] !in TrimmedChars; }
    }
    assert errs.Keys == {ValueField} by {
      forall n ensures n in errs <==> n == ValueField {
        assert FieldErrors(req', rows, today, OnCreate, n) != [] <==> n == ValueField;
      }
    }
  }

  /**
   * The update rule for `value` does not look at the stored type: an update
   * that sends neither `type` nor `value` is rejected on `value`, whatever the
   * record holds. In particular a status-only update never succeeds.
   */
  lemma UpdateWithoutTypeNeedsValue(req: Request, rows: map<int, Coupon>, today: int, self: int)
    requires req.kind.Absent? && req.value.Absent?
    ensures Validate(req, rows, today, OnUpdate(self))[ValueField] == [RequiredUnless]
  {
  }
}
