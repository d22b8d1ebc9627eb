/**
 * The coupon controller's table operations: `index`, `show`, `store`,
 * `update` and `destroy` over the coupons table. The table is a map from id
 * to record; ids come from an auto-increment counter and `created_at` is
 * reduced to a creation stamp from a second counter.
 */
module CouponController {
  import opened Optional
  import opened CouponRecord
  import opened CouponValidation

  /**
   * The controller's answer: `Ok` carries the coupon of a 200/201 body,
   * `Deleted` the 200 of `destroy`, `Invalid` the 422 error map and
   * `NotFound` the 404.
   */
  datatype Reply = Ok(coupon: Coupon) | Deleted | Invalid(errors: Errors) | NotFound

  /** The record `Coupon::create` inserts for an accepted create request. */
  function NewCoupon(req: Request, id: int, stamp: nat): (c: Coupon)
    requires Complete(req)
    ensures c.id == id && c.created == stamp
    ensures c.code == req.code.v
    ensures TypeName(c.kind) == req.kind.v && StatusName(c.status) == req.status.v
    ensures req.expiry == Given(OnDay(c.expiry))
    ensures c.value.Some? <==> req.value.Given?
    ensures req.value.Given? ==> c.value.value == req.value.v
  {
    Coupon(
      id,
      req.code.v,
      TypeNamed(req.kind.v).value,
      if req.value.Given? then Some(req.value.v) else None,
      StatusNamed(req.status.v).value,
      req.expiry.v.day,
      stamp)
  }

  /**
   * The record after `$coupon->update`: every field is `$request->field ??
   * $coupon->field`, so a field that is absent or null keeps its stored value.
   */
  function Merge(c: Coupon, req: Request): (r: Coupon)
    requires Typed(req)
    ensures r.id == c.id && r.created == c.created
    ensures req.kind.Given? ==> TypeName(r.kind) == req.kind.v
    ensures req.status.Given? ==> StatusName(r.status) == req.status.v
    ensures req.expiry.Given? ==> req.expiry == Given(OnDay(r.expiry))
    ensures req.value.Null? ==> r.value == c.value
  {
    c.(code := if req.code.Given? then req.code.v else c.code,
       kind := if req.kind.Given? then TypeNamed(req.kind.v).value else c.kind,
       value := if req.value.Given? then Some(req.value.v) else c.value,
       status := if req.status.Given? then StatusNamed(req.status.v).value else c.status,
       expiry := if req.expiry.Given? then req.expiry.v.day else c.expiry)
  }

  /**
   * An accepted update overlays the request on the record: a supplied field
   * replaces the stored one, an omitted or null field keeps it, and the id
   * and creation stamp never change.
   */
  lemma UpdateOverlay(c: Coupon, req: Request, rows: map<int, Coupon>, today: int)
    requires Accepted(req, rows, today, OnUpdate(c.id))
    ensures Typed(req)
    ensures Merge(c, req).id == c.id && Merge(c, req).created == c.created
    ensures Merge(c, req).code == if req.code.Given? then req.code.v else c.code
    ensures req.kind.Given? ==> TypeName(Merge(c, req).kind) == req.kind.v
    ensures !req.kind.Given? ==> Merge(c, req).kind == c.kind
    ensures Merge(c, req).value == if req.value.Given? then Some(req.value.v) else c.value
    ensures req.status.Given? ==> StatusName(Merge(c, req).status) == req.status.v
    ensures !req.status.Given? ==> Merge(c, req).status == c.status
    ensures Merge(c, req).expiry == if req.expiry.Given? then req.expiry.v.day else c.expiry
  {
    AcceptedFields(req, rows, today, OnUpdate(c.id));
  }

  /** Because the merge uses `??`, no accepted update can clear a stored value. */
  lemma ValueNeverCleared(c: Coupon, req: Request, rows: map<int, Coupon>, today: int)
    requires Accepted(req, rows, today, OnUpdate(c.id))
    requires c.value.Some?
    ensures Typed(req) && Merge(c, req).value.Some?
  {
    AcceptedFields(req, rows, today, OnUpdate(c.id));
  }

  /**
   * An accepted create keeps the table invariant: the new record is well
   * formed and its code differs from every existing code.
   */
  lemma CreateKeepsInvariant(rows: map<int, Coupon>, req: Request, today: int, id: int, stamp: nat)
    requires TableInvariant(rows) && id !in rows
    requires Accepted(req, rows, today, OnCreate)
    ensures Complete(req) && TableInvariant(rows[id := NewCoupon(req, id, stamp)])
  {
    AcceptedFields(req, rows, today, OnCreate);
    var c := NewCoupon(req, id, stamp);
    var rows' := rows[id := c];
    forall a, b | a in rows' && b in rows' && a != b
      ensures rows'[a].code != rows'[b].code
    {
      if a == id {
        assert !Taken(rows, c.code, OnCreate);
      } else if b == id {
        assert !Taken(rows, c.code, OnCreate);
      }
    }
  }

  /**
   * An accepted update keeps the table invariant: the merged record is well
   * formed (a non-free_shipping type still has a numeric value) and its code
   * is unique among the other records.
   */
  lemma UpdateKeepsInvariant(rows: map<int, Coupon>, id: int, req: Request, today: int)
    requires TableInvariant(rows) && id in rows
    requires Accepted(req, rows, today, OnUpdate(id))
    ensures Typed(req) && TableInvariant(rows[id := Merge(rows[id], req)])
  {
    AcceptedFields(req, rows, today, OnUpdate(id));
    var c := Merge(rows[id], req);
    var rows' := rows[id := c];
    assert WellFormed(c);
    forall a, b | a in rows' && b in rows' && a != b
      ensures rows'[a].code != rows'[b].code
    {
      if req.code.Given? && (a == id || b == id) {
        assert !Taken(rows, c.code, OnUpdate(id));
      }
    }
  }

  /**
   * Once a create has succeeded, a second create with the same code is
   * rejected on `code`, whatever else it carries and whenever it is sent.
   */
  lemma SecondCreateWithSameCode(rows: map<int, Coupon>, req: Request, today: int, id: int, stamp: nat,
                                 req2: Request, today2: int)
    requires id !in rows && Accepted(req, rows, today, OnCreate)
    requires req2.code == req.code
    ensures Complete(req)
    ensures CodeField in Validate(req2, rows[id := NewCoupon(req, id, stamp)], today2, OnCreate)
  {
    AcceptedFields(req, rows, today, OnCreate);
    var rows' := rows[id := NewCoupon(req, id, stamp)];
    assert rows'[id].code == req2.code.v;
    assert Taken(rows', req2.code.v, OnCreate);
  }

  /** A hard delete keeps the table invariant. */
  lemma DeleteKeepsInvariant(rows: map<int, Coupon>, id: int)
    requires TableInvariant(rows)
    ensures TableInvariant(rows - {id})
  {
  }

  /** Newest first: creation stamps strictly decrease along the list. */
  predicate NewestFirst(list: seq<Coupon>) {
    forall i, j :: 0 <= i < j < |list| ==> list[i].created > list[j].created
  }

  predicate StampsDistinct(rows: map<int, Coupon>) {
    forall a, b :: a in rows && b in rows && a != b ==> rows[a].created != rows[b].created
  }

  /** The coupons table behind the controller. */
  class CouponStore {
    var rows: map<int, Coupon>
    /** The next auto-increment id. */
    var nextId: int
    /** The next creation stamp (stands for the clock behind `created_at`). */
    var clock: nat

    ghost predicate Valid()
      reads this
    {
      && TableInvariant(rows)
      && StampsDistinct(rows)
      && 0 < nextId
      && (forall id :: id in rows ==> id < nextId && rows[id].created < clock)
    }

    constructor ()
      ensures Valid() && rows == map[]
    {
      rows := map[];
      nextId := 1;
      clock := 0;
    }

    /** `index`: every stored record, newest first (`Coupon::latest()->get()`). */
    method Index() returns (list: seq<Coupon>)
      requires Valid()
      ensures NewestFirst(list)
      ensures forall i :: 0 <= i < |list| ==> list[i].id in rows && rows[list[i].id] == list[i]
      ensures forall id :: id in rows ==> rows[id] in list
    {
      list := [];
      var t := clock;
      while t > 0
        invariant t <= clock
        invariant NewestFirst(list)
        invariant forall i :: 0 <= i < |list| ==> list[i].id in rows && rows[list[i].id] == list[i]
        invariant forall i :: 0 <= i < |list| ==> list[i].created >= t
        invariant forall id :: id in rows && rows[id].created >= t ==> rows[id] in list
      {
        t := t - 1;
        if id :| id in rows && rows[id].created == t {
          list := list + [rows[id]];
        }
      }
    }

    /** `show`: the record with this id, or 404. */
    method Show(id: int) returns (r: Reply)
      ensures id in rows ==> r == Ok(rows[id])
      ensures id !in rows ==> r == NotFound
    {
      if id in rows {
        r := Ok(rows[id]);
      } else {
        r := NotFound;
      }
    }

    /** `store`: validate with the create rule set, then insert. */
    method Store(req: Request, today: int) returns (r: Reply)
      requires Valid()
      modifies this
      ensures Valid()
      ensures !Accepted(req, old(rows), today, OnCreate) ==>
        && r == Invalid(Validate(req, old(rows), today, OnCreate))
        && rows == old(rows) && nextId == old(nextId) && clock == old(clock)
      ensures Accepted(req, old(rows), today, OnCreate) ==>
        && Complete(req)
        && r.Ok? && r.coupon.id !in old(rows)
        && r.coupon == NewCoupon(req, r.coupon.id, r.coupon.created)
        && rows == old(rows)[r.coupon.id := r.coupon]
        && (forall id :: id in old(rows) ==> old(rows)[id].created < r.coupon.created)
    {
      var errs := Validate(req, rows, today, OnCreate);
      if errs != map[] {
        return Invalid(errs);
      }
      CreateKeepsInvariant(rows, req, today, nextId, clock);
      var c := NewCoupon(req, nextId, clock);
      rows := rows[nextId := c];
      nextId := nextId + 1;
      clock := clock + 1;
      r := Ok(c);
    }

    /**
     * `update`: 404 for a missing id (checked before validation); otherwise
     * validate with the update rule set, then merge with `??`.
     */
    method Update(id: int, req: Request, today: int) returns (r: Reply)
      requires Valid()
      modifies this
      ensures Valid() && nextId == old(nextId) && clock == old(clock)
      ensures id !in old(rows) ==> r == NotFound && rows == old(rows)
      ensures id in old(rows) && !Accepted(req, old(rows), today, OnUpdate(id)) ==>
        r == Invalid(Validate(req, old(rows), today, OnUpdate(id))) && rows == old(rows)
      ensures id in old(rows) && Accepted(req, old(rows), today, OnUpdate(id)) ==>
        && Typed(req)
        && r == Ok(Merge(old(rows)[id], req))
        && rows == old(rows)[id := r.coupon]
    {
      if id !in rows {
        return NotFound;
      }
      var errs := Validate(req, rows, today, OnUpdate(id));
      if errs != map[] {
        return Invalid(errs);
      }
      UpdateKeepsInvariant(rows, id, req, today);
      var c := Merge(rows[id], req);
      rows := rows[id := c];
      r := Ok(c);
    }

    /** `destroy`: 404 for a missing id, otherwise a hard delete. */
    method Destroy(id: int) returns (r: Reply)
      requires Valid()
      modifies this
      ensures Valid() && nextId == old(nextId) && clock == old(clock)
      ensures id !in old(rows) ==> r == NotFound && rows == old(rows)
      ensures id in old(rows) ==> r == Deleted && rows == old(rows) - {id}
    {
      if id !in rows {
        return NotFound;
      }
      DeleteKeepsInvariant(rows, id);
      rows := rows - {id};
      r := Deleted;
    }
  }
}
