/**
 * The React client's in-memory coupon list: the edits `App` makes to its
 * `coupons` state after a save or a delete, and the expiry hint it shows.
 * None of these talk to the server.
 */
module CouponList {
  import opened Optional

  /**
   * What the date picker left in the form's `expired_date`: a valid day, `null`
   * after the picker was cleared, or a dayjs object that is not a valid date
   * (a half-typed entry).
   */
  datatype PickedDate = Picked(day: int) | Cleared | Unreadable

  /**
   * The `expired_date` text `format("YYYY-MM-DD")` writes into a list entry:
   * the picked day, or the text "Invalid Date".
   */
  datatype DateText = DayText(day: int) | InvalidDate

  /**
   * The form state the edit screen hands to `handleSave`: code, type, status
   * and the picked expiry date.
   */
  datatype Form = Form(code: string, kind: string, status: string, expiredDate: PickedDate)

  /**
   * `formData.expired_date.format("YYYY-MM-DD")`; a cleared picker holds `null`,
   * on which the call throws.
   */
  function Formatted(d: PickedDate): (r: DateText)
    requires !d.Cleared?
    ensures r.DayText? <==> d.Picked?
    ensures d.Picked? ==> r.day == d.day
  {
    match d
    case Picked(day) => DayText(day)
    case Unreadable => InvalidDate
  }

  /**
   * One coupon object in the list. `expiredDate` is the day the form wrote
   * (objects as the server sends them do not have it), `createdAt` the text of
   * `created_at`, and `other` every further property the object carries
   * (`value`, `expiry_date`, `updated_at`, ...) as JSON text.
   */
  datatype Entry = Entry(
    id: int,
    code: string,
    kind: string,
    status: string,
    expiredDate: Option<DateText>,
    createdAt: Option<string>,
    other: map<string, string>)

  predicate DistinctIds(list: seq<Entry>) {
    forall i, j :: 0 <= i < j < |list| ==> list[i].id != list[j].id
  }

  /**
   * `{...c, ...formData, expired_date: ...}`: the form's four properties
   * replace the entry's, and every other property keeps its old value.
   */
  function Overlay(e: Entry, form: Form): (r: Entry)
    requires !form.expiredDate.Cleared?
    ensures r.id == e.id && r.createdAt == e.createdAt && r.other == e.other
    ensures r.code == form.code && r.kind == form.kind && r.status == form.status
    ensures r.expiredDate == Some(Formatted(form.expiredDate))
  {
    e.(code := form.code, kind := form.kind, status := form.status, expiredDate := Some(Formatted(form.expiredDate)))
  }

  /**
   * The edit branch of `handleSave`: `coupons.map(c => c.id === id ? overlay : c)`.
   * The edit keeps the length and every entry's id.
   */
  function Edited(list: seq<Entry>, id: int, form: Form): (r: seq<Entry>)
    requires !form.expiredDate.Cleared?
    ensures |r| == |list|
    ensures forall i :: 0 <= i < |list| ==> r[i].id == list[i].id
  {
    if list == [] then []
    else
      var rest := Edited(list[1..], id, form);
      assert forall i :: 1 <= i < |list| ==> list[i] == list[1..][i - 1];
      [if list[0].id == id then Overlay(list[0], form) else list[0]] + rest
  }

  /**
   * The edit keeps the length and the position of every entry; exactly the
   * entries whose id matches become overlays, all others are unchanged.
   */
  lemma {:induction false} EditedAt(list: seq<Entry>, id: int, form: Form, i: int)
    requires !form.expiredDate.Cleared? && 0 <= i < |list|
    ensures list[i].id == id ==> Edited(list, id, form)[i] == Overlay(list[i], form)
    ensures list[i].id != id ==> Edited(list, id, form)[i] == list[i]
  {
    if i > 0 {
      EditedAt(list[1..], id, form, i - 1);
    } else if |list| > 1 {
      EditedAt(list[1..], id, form, 0);
    }
  }

  /** Saving the same form twice is the same as saving it once. */
  lemma {:induction false} EditedIdempotent(list: seq<Entry>, id: int, form: Form)
    requires !form.expiredDate.Cleared?
    ensures Edited(Edited(list, id, form), id, form) == Edited(list, id, form)
  {
    if list != [] {
      EditedIdempotent(list[1..], id, form);
    }
  }

  /** The largest id in a non-empty list (`Math.max(...coupons.map(c => c.id))`). */
  function MaxId(list: seq<Entry>): (m: int)
    requires |list| > 0
    ensures forall i :: 0 <= i < |list| ==> list[i].id <= m
    ensures exists i :: 0 <= i < |list| && list[i].id == m
  {
    if |list| == 1 then list[0].id
    else
      var rest := MaxId(list[1..]);
      assert forall i :: 1 <= i < |list| ==> list[i] == list[1..][i - 1];
      if list[0].id >= rest then list[0].id else rest
  }

  /**
   * The entry the create branch builds: an id above every existing id
   * (`max + 1`), the form's properties, the `created_at` text supplied by the
   * caller, and nothing else.
   */
  function NewEntry(list: seq<Entry>, form: Form, createdAt: string): (e: Entry)
    requires |list| > 0 && !form.expiredDate.Cleared?
    ensures forall i :: 0 <= i < |list| ==> list[i].id < e.id
    ensures e.code == form.code && e.kind == form.kind && e.status == form.status
    ensures e.expiredDate == Some(Formatted(form.expiredDate))
    ensures e.createdAt == Some(createdAt) && e.other == map[]
  {
    Entry(MaxId(list) + 1, form.code, form.kind, form.status, Some(Formatted(form.expiredDate)), Some(createdAt), map[])
  }

  /**
   * The create branch of `handleSave`: `[...coupons, newCoupon]`. One entry is
   * added at the end, the others stay as they were, and the new id is larger
   * than every existing id.
   */
  function Appended(list: seq<Entry>, form: Form, createdAt: string): (r: seq<Entry>)
    requires |list| > 0 && !form.expiredDate.Cleared?
    ensures |r| == |list| + 1 && r[..|list|] == list
    ensures forall i :: 0 <= i < |list| ==> list[i].id < r[|list|].id
    ensures r[|list|].code == form.code && r[|list|].createdAt == Some(createdAt)
  {
    list + [NewEntry(list, form, createdAt)]
  }

  /** Because the new id is fresh, a create keeps ids distinct. */
  lemma AppendedKeepsDistinct(list: seq<Entry>, form: Form, createdAt: string)
    requires |list| > 0 && !form.expiredDate.Cleared? && DistinctIds(list)
    ensures DistinctIds(Appended(list, form, createdAt))
  {
    var r := Appended(list, form, createdAt);
    forall i, j | 0 <= i < j < |r| ensures r[i].id != r[j].id {
      if j < |list| {
        assert r[i] == list[i] && r[j] == list[j];
      } else {
        assert r[i] == list[i];
      }
    }
  }

  /** `handleDelete`: `coupons.filter(c => c.id !== id)`. */
  function Without(list: seq<Entry>, id: int): (r: seq<Entry>)
    ensures |r| <= |list|
    ensures forall e :: e in r <==> e in list && e.id != id
  {
    if list == [] then []
    else (if list[0].id == id then [] else [list[0]]) + Without(list[1..], id)
  }

  /** The filter works piece by piece, which is what keeps the survivors in order. */
  lemma {:induction false} WithoutConcat(a: seq<Entry>, b: seq<Entry>, id: int)
    ensures Without(a + b, id) == Without(a, id) + Without(b, id)
  {
    if a == [] {
      assert a + b == b;
    } else {
      assert (a + b)[1..] == a[1..] + b;
      WithoutConcat(a[1..], b, id);
    }
  }

  /** Deleting an id that no entry has leaves the list as it was. */
  lemma {:induction false} WithoutAbsent(list: seq<Entry>, id: int)
    requires forall i :: 0 <= i < |list| ==> list[i].id != id
    ensures Without(list, id) == list
  {
    if list != [] {
      WithoutAbsent(list[1..], id);
    }
  }

  lemma WithoutSingle(e: Entry)
    ensures Without([e], e.id) == []
  {
  }

  lemma WithoutAround(before: seq<Entry>, e: Entry, after: seq<Entry>)
    ensures Without(before + [e] + after, e.id) == Without(before, e.id) + Without(after, e.id)
  {
    WithoutConcat(before + [e], after, e.id);
    WithoutConcat(before, [e], e.id);
    WithoutSingle(e);
  }

  /**
   * With distinct ids, deleting the id of entry k removes that entry alone
   * and keeps the rest in their original order.
   */
  lemma WithoutRemovesOne(list: seq<Entry>, k: int)
    requires DistinctIds(list) && 0 <= k < |list|
    ensures Without(list, list[k].id) == list[..k] + list[k + 1..]
  {
    var id := list[k].id;
    var before, after := list[..k], list[k + 1..];
    assert list == before + [list[k]] + after;
    forall i | 0 <= i < |before| ensures before[i].id != id {
      assert before[i] == list[i];
    }
    forall i | 0 <= i < |after| ensures after[i].id != id {
      assert after[i] == list[k + 1 + i];
    }
    WithoutAround(before, list[k], after);
    WithoutAbsent(before, id);
    WithoutAbsent(after, id);
  }

  /** Deleting keeps distinct ids distinct. */
  lemma {:induction false} WithoutKeepsDistinct(list: seq<Entry>, id: int)
    requires DistinctIds(list)
    ensures DistinctIds(Without(list, id))
  {
    if list != [] {
      WithoutKeepsDistinct(list[1..], id);
      var rest := Without(list[1..], id);
      if list[0].id != id {
        assert forall e :: e in rest ==> e in list[1..];
        forall j | 0 <= j < |rest| ensures rest[j].id != list[0].id {
          assert rest[j] in list[1..];
        }
      }
    }
  }

  const MsPerDay := 86_400_000

  /** The calendar day of an instant given in milliseconds. */
  function DayOf(t: int): int {
    t / MsPerDay
  }

  /**
   * `isDateExpired`: `dayjs(date).isBefore(dayjs(), "day")` compares calendar
   * days only. `None` stands for a date dayjs cannot place in time: a missing
   * date (`dayjs(undefined)` reads as now) or an invalid one (its time is
   * `NaN`); neither is ever before today. Otherwise a date is expired exactly
   * when it lies before the first instant of today, so any instant of today,
   * even one earlier than now, is not expired.
   */
  function IsDateExpired(date: Option<int>, now: int): (r: bool)
    ensures r <==> date.Some? && date.value < DayOf(now) * MsPerDay
  {
    date.Some? && DayOf(date.value) < DayOf(now)
  }

  /** Once shown expired, a date stays expired as time moves on. */
  lemma ExpiredStaysExpired(t: int, now: int, later: int)
    requires now <= later && IsDateExpired(Some(t), now)
    ensures IsDateExpired(Some(t), later)
  {
  }

  /**
   * The table row's hint for a list entry: a day text is read as that day's
   * midnight, so it is expired exactly when the day is before today; the text
   * "Invalid Date" and a missing `expired_date` are never expired.
   */
  function EntryExpired(e: Entry, now: int): (r: bool)
    ensures r <==> e.expiredDate.Some? && e.expiredDate.value.DayText? && e.expiredDate.value.day < DayOf(now)
  {
    var date := match e.expiredDate
      case Some(DayText(d)) => Some(d * MsPerDay)
      case _ => None;
    assert e.expiredDate.Some? && e.expiredDate.value.DayText? ==>
      DayOf(e.expiredDate.value.day * MsPerDay) == e.expiredDate.value.day;
    IsDateExpired(date, now)
  }

  /**
   * Saving an unreadable date stores "Invalid Date" on the edited entry, which
   * the list then never shows as expired, whatever day it is.
   */
  lemma UnreadableDateNeverExpired(list: seq<Entry>, id: int, form: Form, i: int, now: int)
    requires form.expiredDate.Unreadable? && 0 <= i < |list| && list[i].id == id
    ensures !EntryExpired(Edited(list, id, form)[i], now)
  {
    EditedAt(list, id, form, i);
  }

  /** The `coupons` state of the `App` component. */
  class CouponListState {
    var coupons: seq<Entry>

    /** The state after `fetchCoupons` stored the server's list. */
    constructor (fetched: seq<Entry>)
      ensures coupons == fetched
    {
      coupons := fetched;
    }

    /**
     * `handleSave`: with a selected coupon, overlay the form on every entry
     * with its id; otherwise append a new entry with a fresh id. With a
     * cleared date picker `format` throws before `setCoupons` runs, so the
     * list stays as it was (in the edit branch only a matching entry calls
     * `format`, and with none the mapped list equals the old one anyway). The
     * create branch needs a non-empty list (`Math.max()` of nothing is not an
     * id).
     */
    method HandleSave(selected: Option<Entry>, form: Form, createdAt: string)
      requires selected.None? && !form.expiredDate.Cleared? ==> |coupons| > 0
      modifies this
      ensures form.expiredDate.Cleared? ==> coupons == old(coupons)
      ensures !form.expiredDate.Cleared? && selected.Some? ==>
        coupons == Edited(old(coupons), selected.value.id, form)
      ensures !form.expiredDate.Cleared? && selected.None? ==>
        coupons == Appended(old(coupons), form, createdAt)
    {
      if form.expiredDate.Cleared? {
        return;
      }
      if selected.Some? {
        coupons := Edited(coupons, selected.value.id, form);
      } else {
        coupons := Appended(coupons, form, createdAt);
      }
    }

    /** `handleDelete`: keep the entries whose id differs. */
    method HandleDelete(id: int)
      modifies this
      ensures coupons == Without(old(coupons), id)
    {
      coupons := Without(coupons, id);
    }
  }
}
