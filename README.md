# Coupon Manager: verified model of the coupon write rules and the client list

Coupon Manager is a Laravel API with a React client. Both manage discount
coupons. This Dafny project models the two places where the system makes
decisions:

- **The server's coupon controller** (`CouponController`). The create and
  update rule sets are pure functions (module `CouponValidation`). They
  follow the Laravel validator's semantics:
  - each field's rules run in their written order;
  - `sometimes` skips an absent field;
  - a failed `required` or `required_unless` ends that field's checks;
  - `nullable` and blank strings skip the other rules;
  - `unique` runs only when the field has no earlier error.

  The result maps each failing field to the rules it failed. The table
  operations `index`, `show`, `store`, `update` and `destroy` are methods of
  the class `CouponStore`. The class holds the table as a `map` from id to
  record, an auto-increment id counter, and a creation stamp that stands for
  `created_at` (module `CouponController`). Record and request shapes are in
  `CouponRecord`.
- **The client's coupon list** (module `CouponList`). `handleSave` (edit or
  create) and `handleDelete` are methods of `CouponListState`. They reassign
  its `coupons` sequence through pure functions that mirror the JavaScript
  `map`, spread and `filter`. The expiry hint `isDateExpired` compares
  calendar days.

Dates on the server are day numbers, and "today" is a parameter. On the
client, instants are milliseconds, and "now" and the `created_at` text are
parameters.

Where the documented intent and the code disagree, the model follows the
code:

- The `value` rule reads only the request's own `type`. It never reads the
  stored type of the record being updated. So an update that sends neither
  `type` nor `value` is always rejected on `value`, and that includes an
  update that only changes `status` (`UpdateWithoutTypeNeedsValue`).
- The update merge uses `??`. A field sent as null keeps its stored value,
  so an update can never clear `value` (`ValueNeverCleared`).
- An update is checked for a missing id before validation. A missing id
  gives 404 even when the body is invalid.

What still holds: every accepted write keeps the table invariant
(`TableInvariant`). The invariant says:

- codes are pairwise distinct;
- every code is non-blank and at most 50 characters;
- every coupon whose type is not free_shipping has a numeric value.

## Model

| member | source | states |
|---|---|---|
| `CouponRecord.TypeNamed` | LaravelApi/app/Http/Controllers/Api/CouponController.php:43 | a `type` string is recognised iff it is percentage, free_shipping or fixed_amount, and the recognised value names that string back |
| `CouponRecord.StatusNamed` | LaravelApi/app/Http/Controllers/Api/CouponController.php:45 | a `status` string is recognised iff it is active, inactive or expired, and the recognised value names that string back |
| `CouponValidation.CodeErrors` | LaravelApi/app/Http/Controllers/Api/CouponController.php:122 | `code` has no error iff it is skipped (absent on update) or it is a non-blank string of at most 50 characters used by no other record; a `unique` error implies a colliding record exists |
| `CouponValidation.EnumErrors` | LaravelApi/app/Http/Controllers/Api/CouponController.php:123 | `type`/`status` has no error iff it is skipped (absent on update) or it is a non-blank member of the enum |
| `CouponValidation.ValueErrors` | LaravelApi/app/Http/Controllers/Api/CouponController.php:44 | `value` has no error iff it is a number, or the request's `type` is free_shipping and `value` is not a non-numeric, non-blank string |
| `CouponValidation.ExpiryErrors` | LaravelApi/app/Http/Controllers/Api/CouponController.php:46 | `expiry_date` has no error iff it is skipped (absent on update) or it parses to a day strictly after today |
| `CouponValidation.Validate` | LaravelApi/app/Http/Controllers/Api/CouponController.php:41-47 | one map holds every failing field, with exactly that field's failed rules; fields without errors are not keys |
| `CouponValidation.AcceptedIff` | LaravelApi/app/Http/Controllers/Api/CouponController.php:49-54 | a request is accepted iff no field has an error |
| `CouponValidation.AcceptedFields` | LaravelApi/app/Http/Controllers/Api/CouponController.php:121-134 | an accepted request is well typed, has no null in code/type/status/expiry, has a valid unique code when one is sent, has an expiry after today when one is sent, and is free_shipping or carries a numeric value; on create it supplies all four required fields |
| `CouponValidation.CreateCodeRule` | LaravelApi/app/Http/Controllers/Api/CouponController.php:42 | on create, `code` fails iff it is missing, null, blank, longer than 50, or equal to any stored code |
| `CouponValidation.UpdateCodeRule` | LaravelApi/app/Http/Controllers/Api/CouponController.php:122 | on update, `code` fails iff it is sent and is null, blank, longer than 50, or the code of another record |
| `CouponValidation.OwnCodeNotDuplicate` | LaravelApi/app/Http/Controllers/Api/CouponController.php:122 | resubmitting a record's own code in its update is not a duplicate |
| `CouponValidation.EnumRules` | LaravelApi/app/Http/Controllers/Api/CouponController.php:123-125 | `type` and `status` pass iff they name an enum value; on update an absent field also passes |
| `CouponValidation.ValueRule` | LaravelApi/app/Http/Controllers/Api/CouponController.php:124 | `value` passes iff it is numeric, or the request's type is free_shipping and value is absent, null, blank or numeric (both rule sets) |
| `CouponValidation.ExpiryRule` | LaravelApi/app/Http/Controllers/Api/CouponController.php:126 | `expiry_date` passes iff it is a day strictly after today; on update an absent field also passes |
| `CouponValidation.ExpiryBoundary` | LaravelApi/app/Http/Controllers/Api/CouponController.php:46 | expiry today fails with exactly `after`; expiry tomorrow passes |
| `CouponValidation.FreeShippingNeedsNoValue` | LaravelApi/app/Http/Controllers/Api/CouponController.php:44 | an accepted free_shipping create without value, changed to type percentage, fails on `value` alone with `required_unless` |
| `CouponValidation.UpdateWithoutTypeNeedsValue` | LaravelApi/app/Http/Controllers/Api/CouponController.php:124 | an update sending neither type nor value fails on `value` with `required_unless`, whatever the stored record holds |
| `CouponController.NewCoupon` | LaravelApi/app/Http/Controllers/Api/CouponController.php:56-62 | the inserted record carries the supplied code, type, status and expiry day, and the supplied value exactly when one was sent, with the given id and stamp |
| `CouponController.Merge` | LaravelApi/app/Http/Controllers/Api/CouponController.php:136-142 | the merged record keeps id and creation stamp, takes each sent type, status and expiry, and keeps the stored value when `value` is null |
| `CouponController.UpdateOverlay` | LaravelApi/app/Http/Controllers/Api/CouponController.php:136-142 | after an accepted update each sent field replaces the stored one; each absent or null field keeps it; id and creation stamp are unchanged |
| `CouponController.ValueNeverCleared` | LaravelApi/app/Http/Controllers/Api/CouponController.php:139 | no accepted update turns a stored value into null |
| `CouponController.CreateKeepsInvariant` | LaravelApi/app/Http/Controllers/Api/CouponController.php:41-62 | an accepted create keeps codes pairwise distinct and every record well formed |
| `CouponController.UpdateKeepsInvariant` | LaravelApi/app/Http/Controllers/Api/CouponController.php:121-142 | an accepted update keeps codes pairwise distinct and every record well formed, including "numeric value unless free_shipping" |
| `CouponController.SecondCreateWithSameCode` | LaravelApi/app/Http/Controllers/Api/CouponController.php:42 | after one successful create, any later create with the same code is rejected on `code` |
| `CouponController.DeleteKeepsInvariant` | LaravelApi/app/Http/Controllers/Api/CouponController.php:173 | removing a record keeps the table invariant |
| `CouponController.CouponStore.Index` | LaravelApi/app/Http/Controllers/Api/CouponController.php:20 | returns stored records only, every stored record, strictly newest first |
| `CouponController.CouponStore.Show` | LaravelApi/app/Http/Controllers/Api/CouponController.php:84-96 | the record with the id, or not-found when there is none; nothing changes |
| `CouponController.CouponStore.Store` | LaravelApi/app/Http/Controllers/Api/CouponController.php:38-76 | a rejected create returns the full error map and changes nothing; an accepted one inserts exactly one new record under a fresh id, newer than every record, leaves the others unchanged and keeps the invariant |
| `CouponController.CouponStore.Update` | LaravelApi/app/Http/Controllers/Api/CouponController.php:109-156 | a missing id gives not-found; a rejected update gives the error map; in both cases nothing changes; an accepted one replaces only that record with the merge and keeps the invariant |
| `CouponController.CouponStore.Destroy` | LaravelApi/app/Http/Controllers/Api/CouponController.php:161-186 | a missing id gives not-found and changes nothing; otherwise exactly that record is removed |
| `CouponList.Formatted` | coupon_manager/src/App.js:75 | a valid picked day formats to that day's text and an unreadable pick to "Invalid Date"; a cleared picker cannot be formatted |
| `CouponList.Overlay` | coupon_manager/src/App.js:72-76 | the edited entry takes the form's code, type, status and expired date; id, created_at and every other property keep their old values |
| `CouponList.EditedAt` | coupon_manager/src/App.js:69-79 | the edit keeps the length; the entries with the selected id become overlays and every other entry is unchanged in its position |
| `CouponList.Edited` | coupon_manager/src/App.js:69-79 | the edit keeps the list's length and every entry's id, so distinct ids stay distinct |
| `CouponList.EditedIdempotent` | coupon_manager/src/App.js:69-79 | saving the same form twice equals saving it once |
| `CouponList.MaxId` | coupon_manager/src/App.js:88 | the result is at least every id and is the id of some entry |
| `CouponList.NewEntry` | coupon_manager/src/App.js:87-92 | the new entry's id is above every existing id; it carries the form's code, type, status and formatted date and the supplied `created_at`, and nothing else |
| `CouponList.Appended` | coupon_manager/src/App.js:93 | create appends exactly one entry at the end, keeps the existing ones in place, and the new id is above every existing id |
| `CouponList.AppendedKeepsDistinct` | coupon_manager/src/App.js:87-93 | create keeps ids distinct |
| `CouponList.Without` | coupon_manager/src/App.js:114 | an entry survives the delete iff it was in the list and its id differs |
| `CouponList.WithoutConcat` | coupon_manager/src/App.js:114 | the filter distributes over concatenation, so survivors keep their original order |
| `CouponList.WithoutAbsent` | coupon_manager/src/App.js:114 | deleting an id no entry has leaves the list unchanged |
| `CouponList.WithoutRemovesOne` | coupon_manager/src/App.js:113-120 | with distinct ids, deleting entry k's id yields the list without entry k, in order |
| `CouponList.WithoutKeepsDistinct` | coupon_manager/src/App.js:114 | the delete keeps ids distinct |
| `CouponList.IsDateExpired` | coupon_manager/src/App.js:122-124 | a date is expired iff it lies before the first instant of today; any instant of today is not expired, and a missing or invalid date never is |
| `CouponList.ExpiredStaysExpired` | coupon_manager/src/App.js:122-124 | a date shown expired stays expired at any later time |
| `CouponList.EntryExpired` | coupon_manager/src/App.js:211-222 | a row shows expired iff its `expired_date` is a day before today; a row without one, or with "Invalid Date", never does |
| `CouponList.UnreadableDateNeverExpired` | coupon_manager/src/App.js:75 | an edit saved with an unreadable date leaves an entry that is never shown expired |
| `CouponList.CouponListState.HandleSave` | coupon_manager/src/App.js:66-101 | with a cleared date picker the list is unchanged (the `format` call throws); otherwise, with a selected coupon the list becomes the edit of the old list, and without one the old list with the new entry appended |
| `CouponList.CouponListState.HandleDelete` | coupon_manager/src/App.js:113-120 | the list becomes the old list filtered by id |

## Left out

- The `catch (Exception)` branches returning 500 are not modelled. They come from storage faults inside Eloquent, which this model does not include.
- The JSON envelope and status codes are not modelled as such. `Ok`, `Deleted`, `Invalid` and `NotFound` stand for 200/201, 200, 422 and 404.
- Uniqueness is exact string equality. The database collation, which could make it case-insensitive, is not part of this model.
- Everything runs sequentially. The race between the uniqueness check and the insert is not modelled.
- `created_at` is reduced to a creation counter used only for newest-first order, so no two records tie. Real `created_at` values have one-second resolution, and the database orders records created in the same second as it likes; ties in `created_at` are not modelled. `updated_at` is not modelled.
- Dates are day numbers. Carbon and strtotime parsing is reduced to "parses to a day or not".
  - Laravel's `date` rule (strtotime plus checkdate) refuses some text that `after:today` (Carbon) still reads, such as "2027-02-30" or "tomorrow". Laravel then reports `date` alone; the model reports every unparsed input as failing both `date` and `after`. Acceptance is the same either way.
  - A date-time later today would pass `after:today` in Laravel, which compares timestamps. It is not modelled.
- Laravel's error message strings are reduced to the name of the failed rule.
- `code`, `type` and `status` are always strings in the model.
  - A JSON number or boolean there would fail `string` or `in`. Whether `unique` also fires for a number depends on the database and is not modelled.
- PHP's `is_numeric` on strings is not spelled out. `Amount.Number` stands for JSON numbers and numeric strings, and `Amount.Text` for every other string.
- Framework middleware that may trim strings, or turn empty strings into null, before validation is not part of this model. Blank strings are treated as the validator itself treats them.
- `LaravelApi/routes/api.php` and `LaravelApi/routes/web.php` only wire routes. They are not part of this model.
- `LaravelApi/app/Models/Coupon.php` supplies only the record fields and the date cast.
- Only the `formData` shape is taken from `coupon_manager/src/screens/CreateEditCoupon.js`.
- The rest of `App.js` is not modelled: rendering, the `fetchCoupons` network call, snackbar, loading state, `handleBack` and `handleEdit`. The `CouponListState` constructor stands for the list that `fetchCoupons` stored.
- CouponListState.HandleSave: the create branch with a date that can be formatted requires a non-empty list. On an empty list, `Math.max()` gives `-Infinity` and the new id is not a number, which this model does not represent.
- The client's `created_at` text (`new Date().toISOString()`) is a parameter. `expired_date` is kept as a day number, or as the text "Invalid Date", instead of the `YYYY-MM-DD` text.
- CouponList.Form: the date picker's value is reduced to a valid day, `null` (a cleared picker) or an invalid date. The TypeError a cleared picker raises is modelled only as "the list is unchanged"; the form staying open is outside this model.
- CouponList.DayOf: day boundaries come from dividing milliseconds by the day length. The local time-zone offset that dayjs applies is not modelled.
- The client uses `expired_date` and the server uses `expiry_date`. The model does not make the two consistent; server fields ride along in `Entry.other`.
