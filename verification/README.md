# User directory and validators, in Dafny

This project models the logic of a small two-language demo application. The
Python side keeps an in-memory user directory (`UserService`) with
create/read/update/delete, plus order queries (`OrderService`). It uses record
types with `to_dict` and string helpers: email check, date prefix, phone
number clean-up and age range. The TypeScript side has an append-only user
store whose emails must be unique, string validators (blank check,
email regular expression, input sanitiser), a price range check, a greeting,
and a bearer-token middleware that admits the administrator.

Layout, one module per file:

- `wrappers.dfy`: `Option` and `Result`.
- `text.dfy`: `strip`/`trim`, `split`/`join` on one character, and character
  removal. It is shared by both sides.
- `py_utils.dfy`: `python_app/utils.py`.
- `models.dfy`: `python_app/models.py`.
- `service.dfy`: `python_app/service.py`. `UserService` is a class whose
  methods change its `users` field. `OrderService` is a class too, but only
  its queries are modelled: they read a given `orders` list and change
  nothing.
- `service_scenarios.dfy`: concrete runs of the user service, proved from the
  method contracts.
- `validation.dfy`: `src/utils/validation.ts`.
- `user_store.dfy`: `src/services/userService.ts`. The module-level array is
  a class `Store`.
- `app_utils.dfy`: `src/utils.ts`.
- `auth.dfy`: `src/middleware/auth.ts`, as a decision function.
- `email_checks.dfy`: how the Python and TypeScript email checks relate.

Behaviour of the code that the model keeps and proves:

- Ids are `max + 1` over the ids currently stored. Deleting the highest id
  lets the next create reuse it (`ServiceScenarios.IdReusedAfterDelete`).
- `update_user` writes the new name before it validates the email. An
  invalid email therefore raises after the name has changed
  (`ServiceScenarios.PartialUpdateOnBadEmail`).
- `update_user` does not check that the email is unique
  (`ServiceScenarios.UpdateCanDuplicateEmail`).
- `update_user` changes only the name and the email; the id and the creation
  time stay as they were.
- `update_user` returns `None` for an unknown id.
- `create_user` rejects an email that another user already has.

## Model

| member | source | states |
|---|---|---|
| Text.Strip | python_app/service.py:33-34 | the stripped text is no longer than the input and neither starts nor ends with whitespace |
| Text.StripIsInfix | python_app/service.py:44 | the stripped text is the input with some whitespace removed from the front and some from the back, and nothing else changed |
| Text.StripEmptyIff | python_app/service.py:33 | `strip()` yields "" exactly when the text is whitespace only, which is the blank-name test |
| Text.StripIdempotent | python_app/service.py:44 | stripping a stored (already stripped) name again changes nothing |
| Text.JoinSplit | python_app/utils.py:9 | joining the pieces of `split(sep)` with `sep` gives back the text |
| Text.SplitJoin | python_app/utils.py:9 | a list of separator-free pieces is recovered by splitting its join |
| Text.Without | python_app/utils.py:48 | removing a set of characters leaves none of them and never lengthens the text |
| Text.WithoutKeepsOthers | python_app/utils.py:48 | every other character survives removal exactly as often as it occurred |
| Text.WithoutTwice | python_app/utils.py:48 | two successive removals equal one removal of the union of the sets |
| Text.WithoutIdempotent | python_app/utils.py:48 | removing the same characters again changes nothing |
| PyUtils.ValidateEmailIff | python_app/utils.py:5-9 | `validate_email(s)` holds iff some '.' lies after the first '@' and before any second '@'; "" fails |
| PyUtils.ValidateEmailOfParts | python_app/utils.py:9 | `local@domain`, with no '@' in either part and a '.' in the domain, is accepted |
| PyUtils.FormatDate | python_app/utils.py:11-13 | the result is a prefix of the input of length min(len, 10) |
| PyUtils.FormatPhoneNumberIsOnePass | python_app/utils.py:46-48 | the four chained `replace` calls equal one removal of '-', ' ', '(' and ')' |
| PyUtils.FormatPhoneNumberStripsSeparators | python_app/utils.py:46-48 | no separator is left, every other character keeps its count, and a second application changes nothing |
| PyUtils.ValidateUserAgeRange | python_app/utils.py:36-38 | an age is valid iff 1 <= age <= 149; 0 and 150 fail, 1 and 149 pass |
| Models.NewOrder | python_app/models.py:23-29 | a new order is "pending" and carries its id, user, items, total and construction time as given |
| Models.UserToDict | python_app/models.py:14-20 | `User.to_dict` has exactly the keys id, name, email, created_at |
| Models.UserDictRoundTrip | python_app/models.py:8-20 | the user is read back from its dictionary, so each key maps to its own field and the constructor stores its arguments as given |
| Models.OrderToDict | python_app/models.py:31-39 | `Order.to_dict` has exactly the keys order_id, user_id, items, total, status, created_at |
| Models.OrderDictRoundTrip | python_app/models.py:23-39 | the order is read back from its dictionary, so each key maps to its own field |
| Service.UserService.GetAllUsers | python_app/service.py:17-18 | returns the stored list itself; in a valid service its ids are distinct and every name and email is well formed |
| Service.FindUser | python_app/service.py:20-30 | the position found is the first record matching the id or the email; None means no record matches |
| Service.MaxId | python_app/service.py:43 | `max(ids, default=0)`: 0 for no users, otherwise an upper bound attained by some user |
| Service.NextIdIsFresh | python_app/service.py:43 | the new id exceeds every stored id, is found nowhere in the list, and is 1 for an empty list |
| Service.StrippedNameIsStored | python_app/service.py:44 | a non-blank name, once stripped, has no surrounding whitespace and strips to itself |
| Service.AppendKeepsWellFormed | python_app/service.py:43-45 | appending a record whose id exceeds all others, with a checked name and email, keeps ids distinct and fields well formed |
| Service.UpdateKeepsWellFormed | python_app/service.py:53-61 | replacing one record, same id, with a checked or unchanged name and email keeps the list well formed |
| Service.ReplaceKeepsIdsAndTimes | python_app/service.py:53-61 | replacing one record by one with the same id and creation time leaves every id and creation time in place |
| Service.RemoveKeepsWellFormed | python_app/service.py:65-68 | removing a record by position keeps the list well formed |
| Service.CreatedUserIsFound | python_app/service.py:43-46 | after the append, lookup by the new id finds the new record at the end |
| Service.DeletedIdIsGone | python_app/service.py:65-68 | with distinct ids, the removed id is no longer found |
| Service.AliceAddressValid | python_app/service.py:13 | the seed address "alice@example.com" passes `validate_email` |
| Service.BobAddressValid | python_app/service.py:14 | the seed address "bob@example.com" passes `validate_email` |
| Service.SeedNameStored | python_app/service.py:13-14 | the seed names "Alice" and "Bob" are non-blank with no surrounding whitespace |
| Service.PairIsWellFormed | python_app/service.py:12-15 | two records with different ids and checked fields form a well-formed list |
| Service.Seed | python_app/service.py:11-15 | the seed list (Alice 1, Bob 2, each with its own creation time) has distinct ids, stored names and valid emails |
| Service.UserService.constructor | python_app/service.py:11-15 | the service starts with exactly the two seed users, each stamped with its own creation time, well formed |
| Service.UserService.GetUserById | python_app/service.py:20-24 | returns the first user with that id; None iff no user has it |
| Service.UserService.GetUserByEmail | python_app/service.py:26-30 | returns the first user whose email equals the text; None iff none does |
| Service.UserService.CreateUser | python_app/service.py:32-46 | a missing (None), empty or blank name raises "Name is required and cannot be empty"; then a non-empty email that fails the format raises "Invalid email format"; then one already stored raises "Email already exists". Each error leaves the list unchanged. Otherwise exactly `User(max+1, name.strip(), email, now)` is appended and returned, and the list stays well formed |
| Service.UserService.UpdateUser | python_app/service.py:48-63 | an unknown id returns None and changes nothing. A blank supplied name raises "Name cannot be empty" and changes nothing. A bad non-empty email raises "Invalid email format" after the name was written. Otherwise the stripped name and the email as given (the empty string included) replace only the supplied fields of that one record. Ids and creation times never change, and the list stays well formed |
| Service.UserService.DeleteUser | python_app/service.py:65-70 | returns True iff a user had the id; then exactly that first record is removed, the others kept in order, and the id is gone; otherwise nothing changes |
| Service.SelectOrders | python_app/service.py:97-101 | the comprehension keeps only selected orders, never more than there were |
| Service.SelectOrdersMembers | python_app/service.py:97-101 | an order is in the result iff it is in the list and selected |
| Service.SelectOrdersConcat | python_app/service.py:97-101 | selecting from a + b gives the selection from a followed by the selection from b, so the result keeps the list order |
| Service.SelectOrdersCounts | python_app/service.py:97-101 | each selected order is kept exactly as often as it occurs, each other one dropped |
| Service.FindOrder | python_app/service.py:103-107 | the position found is the first order with that id; None means none has it |
| Service.OrderService.constructor | python_app/service.py:74-76 | a new order service has no orders and holds the given user service |
| Service.OrderService.GetAllOrders | python_app/service.py:94-95 | returns the stored list itself; each order in it is among the orders of its own status and of its own user |
| Service.OrderService.GetOrdersByStatus | python_app/service.py:97-98 | the result is the in-order selection of the orders with that status, each as often as in the list, and no other |
| Service.OrderService.GetOrdersByUser | python_app/service.py:100-101 | the result is the in-order selection of the orders of that user, each as often as in the list, and no other |
| Service.OrderService.GetOrderById | python_app/service.py:103-107 | returns the first order with that id, and None iff there is none |
| ServiceScenarios.StripKeepsStoredName | python_app/service.py:44 | a name with no surrounding whitespace strips to itself |
| ServiceScenarios.BobIsSecond | python_app/service.py:12-15 | in the seed list, id 2 is found at position 1 (Bob) |
| ServiceScenarios.PlainName | python_app/service.py:44 | "Eve" and "Bobby" are stored as given |
| ServiceScenarios.BadIsRejected | python_app/utils.py:9 | "bad" has no '@' and fails `validate_email` |
| ServiceScenarios.MissingNameRejected | python_app/service.py:33-34 | `create_user(None, ...)` raises "Name is required and cannot be empty" and the two seed users stay the only ones |
| ServiceScenarios.IdReusedAfterDelete | python_app/service.py:43 | after deleting Bob (id 2), the next create hands out id 2 again |
| ServiceScenarios.UpdateCanDuplicateEmail | python_app/service.py:58-61 | Bob's email can be updated to Alice's; both then hold "alice@example.com" |
| ServiceScenarios.PartialUpdateOnBadEmail | python_app/service.py:53-60 | updating Bob with name "Bobby" and email "bad" raises "Invalid email format", yet the name is now "Bobby" |
| Validation.IsValidStringIff | src/utils/validation.ts:5-7 | `isValidString(v)` iff v is a string holding a non-whitespace character; non-strings, "" and whitespace-only strings fail |
| Validation.ValidEmailHasPattern | src/utils/validation.ts:9-12 | every accepted address decomposes as L@A.B with L, A, B non-empty and free of whitespace and '@' |
| Validation.PatternIsValidEmail | src/utils/validation.ts:9-12 | every such L@A.B is accepted |
| Validation.IsValidEmailMatchesPattern | src/utils/validation.ts:9-12 | both directions: accepted iff of the shape L@A.B |
| Validation.AcceptedEmailShape | src/utils/validation.ts:10 | an accepted address has exactly one '@' and no whitespace |
| Validation.SanitizeInput | src/utils/validation.ts:18-20 | the output has no '<' or '>' and is never longer than the input |
| Validation.SanitizeInputNotIdempotent | src/utils/validation.ts:19 | "< a" sanitises to " a", which sanitises to "a": trimming before removal makes it non-idempotent |
| Validation.SanitizeBracketThenSpace | src/utils/validation.ts:19 | "< a" is kept by the trim and loses only its '<' |
| Validation.BracketRemoved | src/utils/validation.ts:19 | removing the brackets of "< a" gives " a" |
| Validation.SanitizeLeadingSpace | src/utils/validation.ts:19 | " a" sanitises to "a" |
| Validation.LeadingSpaceTrimmed | src/utils/validation.ts:19 | trimming " a" gives "a" |
| UserStore.AfterCreateKeepsEmailsDistinct | src/services/userService.ts:11-15 | one `createUser` call keeps the stored emails pairwise distinct |
| UserStore.ReplayKeepsEmailsDistinct | src/services/userService.ts:9-15 | after any sequence of calls from the empty store, no two stored users share an email |
| UserStore.ReplayListsInsertionOrder | src/services/userService.ts:18-20 | with distinct emails every call succeeds and the store lists the inputs in insertion order |
| UserStore.Store.ListUsers | src/services/userService.ts:18-20 | lists the stored users as they are held; in a valid store their emails are pairwise distinct |
| UserStore.CreateAllThenList | src/services/userService.ts:9-20 | a new store fed the inputs by successive `createUser` calls lists what `Replay` gives: distinct emails always, and exactly the inputs in creation order when their emails differ |
| UserStore.Store.constructor | src/services/userService.ts:9 | the store starts empty |
| UserStore.Store.CreateUser | src/services/userService.ts:11-16 | a taken email raises "Email already exists" and leaves the store alone; any other input, whatever its name or role, is appended and returned; distinct emails are kept |
| AppUtils.GreetRecoversName | src/utils.ts:2-4 | the greeting is "Hello, " + name + "! 👋": the name sits between a 7-character prefix and a 3-character suffix |
| AppUtils.GreetInjective | src/utils.ts:2-4 | different names give different greetings |
| AppUtils.IsValidPriceRange | src/utils.ts:32-34 | a price is valid iff 0 < p < 1000000; both bounds fail |
| AppUtils.ValidateEmailAgrees | src/utils.ts:57-60 | `validateEmail` agrees with `isValidEmail` on every input and accepts exactly the L@A.B shape |
| AppUtils.ValidateEmailRejects | src/utils.ts:58 | "", any text without '@' and any text holding whitespace are rejected |
| Auth.RequireAuth | src/middleware/auth.ts:11-30 | unauthorized iff the header is missing or does not start with "Bearer ". The admin is admitted iff ADMIN_TOKEN is set and the header is "Bearer " + ADMIN_TOKEN. Every other header is forbidden, and with no ADMIN_TOKEN nothing is admitted |
| Auth.Decision.Status | src/middleware/auth.ts:14-29 | a missing or non-"Bearer " header answers 401, a wrong token 403, and an admitted request sends no status |
| Auth.Decision.ErrorMessage | src/middleware/auth.ts:14-28 | an error body is sent exactly when a status is: "Unauthorized - Missing or invalid token" with 401, "Forbidden - Invalid token" with 403 |
| Auth.AdmittedHeader | src/middleware/auth.ts:18-29 | for a "Bearer " header the token is the rest of it; it admits iff it equals ADMIN_TOKEN, otherwise forbidden |
| Auth.PrefixIsExact | src/middleware/auth.ts:14-16 | "bearer …" and "Bearer" without the space are unauthorized |
| Auth.EmptyAdminTokenAdmitsBareBearer | src/middleware/auth.ts:18-20 | an ADMIN_TOKEN set to "" admits the bare header "Bearer " |
| EmailChecks.TsAcceptedImpliesPyAccepted | python_app/utils.py:9 | every address the TypeScript pattern accepts also passes the Python check |
| EmailChecks.PyCheckIsWeaker | python_app/utils.py:9 | "@." passes the Python check and fails the TypeScript pattern |

## Left out

- HTTP wiring is not modelled: routes, status-code mapping, the Flask and Express apps and `listen`. Configuration from the environment is not modelled either. `ADMIN_TOKEN` is a parameter of `Auth.RequireAuth`.
- `requireAuth`'s effects are returned as a `Decision`: writing `req.user`, calling `next`, and `res.status(...).json(...)`.
- `OrderService.create_order` is not modelled. It uses floating-point tax and discount arithmetic and random order ids. No operation of the model therefore adds orders; the order queries hold for any list of orders.
- The floating-point helpers of both sides are not modelled (discount, total, tax, percentage, currency formatting, division), nor `isValidNumber` (NaN and Infinity). `AppUtils.IsValidPrice` works on exact reals.
- Date code is not modelled: `formatDate` and `calculateAge` in src/utils.ts, and `datetime.now()`. The creation time is a parameter `now`, kept as the ISO text that `isoformat()` gives. `dist/utils.js` is a compiled copy and is not modelled again.
- Text.IsSpace: only the ASCII whitespace characters (space, tab, line feed, vertical tab, form feed, carriage return) are modelled. Python's `str.strip()` also removes U+001C to U+001F, U+0085, U+00A0 and the other Unicode spaces; JavaScript's `trim()` and `\s` also remove U+00A0, U+FEFF, U+2028, U+2029 and the other space separators. A name made only of such a character, for example `"\x1c"`, is rejected by `create_user` but stored by `Service.UserService.CreateUser`; the same holds for the TypeScript blank check and email pattern.
- AppUtils.GreetRecoversName: lengths count Unicode code points. JavaScript's `length` counts the emoji as two UTF-16 units.
- Aliasing is not modelled. `get_all_users`, `get_user_by_*`, `update_user` and `listUsers` hand out live objects or the live array. TypeScript's `createUser` stores and returns the caller's own object, so a later change the caller makes to it also changes the stored user. In the model, records are values and the lists are returned as values.
- Service.UserService.UpdateUser: the in-place `user.name = ...` on the shared object is modelled as replacing that record in the list.
- Python's `ValueError` is a `Result.Err` carrying the message.
- Service.UserService.CreateUser: the name is a string or None (`data.get('name')` on a request without one). A name of another JSON type, on which `name.strip()` would raise `AttributeError`, is not modelled.
- `update_user`'s `None` is `Ok(None)`.
- Text.Split: its own contract states only the number of pieces. What the pieces are is stated by `Text.JoinSplit` and `Text.SplitJoin`.
