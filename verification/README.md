# Research-services tracker: a Dafny model of its domain rules

This project models the domain rules of a Django application. The
application sells research services, runs workshops, takes service requests
and shows client testimonials. Underneath the pages and ORM queries there is
a small core of rules. This project states those rules as pure Dafny
functions over immutable records and proves properties about them.

- **Requests** (tracker/models.py). The deadline and overdue rules, a
  customer's request counts, a workshop's registered count, capacity and
  timing, feature-list parsing, and the one-row-per-(workshop, customer)
  rule.
- **Handlers** (tracker/views_frontend.py). The testimonial backfill, the
  workshop sign-up get-or-create, the staff accept/complete/cancel actions,
  the previous-month computation of the report page, and the contact and
  service-request forms. Each handler is a function from the tables before
  the request to the tables after it, plus an outcome value.
- **Admin columns** (tracker/admin.py). Price range, participant count,
  question preview, status colour, rating stars, and the single-row rule for
  the company profile.
- **Account views** (tracker/views.py). The username and email availability
  probes, the login-identifier lookup, the logout redirect chain, the
  workshop feed, and the default full name of a new customer.
- **Form validators** (tracker/forms.py). Password confirmation, the
  duplicate-email check, and `save`.

Modelling conventions:

- The database is a `Db` record of sequences.
- A primary key is a position in its table. A foreign key is such a
  position.
- Timestamps are integer seconds.
- A `Decimal` column is an `int`. Its rendering is an opaque function
  parameter.
- Nullable columns and absent request parameters are `Option`s. Python
  truthiness is written out: `Truthy` for strings, `TruthyNum` for numbers.
- Django's `get` is the three-way `Base.Get`: no row, one row, or several.
  So every `get_or_create` in the handlers can also fail, as in the source.
- `str.strip`, `str.split`, `str(int)` and `'c' * n` are modelled in the
  `Text` module with Python's semantics, including Python's set of
  whitespace characters.

Modules:

- `Base`: options, counting, and lookups.
- `Text`: the Python string operations.
- `Models`: records and model methods.
- `Testimonials`: the backfill.
- `Frontend`: the handlers.
- `AdminDisplay`: the admin columns.
- `Forms`: the form validators.
- `Accounts`: the account and JSON views.

The model follows the code where a stricter design would differ:

- Status actions are plain assignments from any status.
- `complete` stamps `completed_at` every time it runs.
- Registration never looks at capacity.
- A cancelled request past its deadline counts as overdue.

## Model

| member | source | states |
|---|---|---|
| Models.DaysUntilDeadline | tracker/models.py:159-163 | none exactly when there is no deadline; otherwise the day count `d` satisfies `d*86400 <= deadline-now < (d+1)*86400`, i.e. `timedelta.days` rounded toward minus infinity |
| Models.DaysSignFollowsDeadline | tracker/models.py:159-163 | the day count is negative exactly when the deadline has passed |
| Models.OverdueIffNegativeDays | tracker/models.py:165-168 | overdue exactly when not completed and the day count exists and is negative, so `cancelled` is not exempt |
| Models.CancelledPastDeadlineIsOverdue | tracker/models.py:166-167 | a cancelled request past its deadline is overdue |
| Models.CompletedNeverOverdue | tracker/models.py:165-168 | a completed request, or one without a deadline, is never overdue |
| Models.CompletedAtMostTotal | tracker/models.py:36-40 | a customer's completed-request count never exceeds the total request count |
| Models.RegistrationCountPartition | tracker/models.py:198-199 | registered, attended, cancelled and no-show rows partition a workshop's rows; only `registered` rows make up the count |
| Models.RegistrationCountAppend | tracker/models.py:198-199 | a new row raises the count by one exactly when it is a `registered` row of that workshop |
| Models.UncappedNeverFull | tracker/models.py:201-204 | a null or zero capacity never makes a workshop full |
| Models.UpcomingPastExclusive | tracker/models.py:206-210 | never both upcoming and past; neither exactly when the date equals now |
| Models.FeaturesList | tracker/models.py:119-123 | empty text gives no items; every item is non-empty, stripped and has no line break |
| Models.NoNewlineSurvives | tracker/models.py:122 | stripping and dropping blank lines never introduces a line break |
| Models.FeaturesOfOneLine | tracker/models.py:122 | a single line contributes its stripped text, or nothing when blank |
| Models.FeaturesOfTwoParts | tracker/models.py:122 | text split at a line break gives the features of each side, in order: one item per non-blank line |
| Models.FeaturesRoundTrip | tracker/models.py:119-123 | stripped non-empty items written one per line parse back to the same items |
| Text.SplitJoinsBack | tracker/models.py:122 | joining the parts of a split with the separator gives back the split text |
| Text.SplitAppend | tracker/models.py:122 | the parts of `a`, separator, `b` are the parts of `a` followed by the parts of `b` |
| Testimonials.Template | tracker/views_frontend.py:28-34 | each of the five quote templates contains the service name |
| Testimonials.Quotes | tracker/views_frontend.py:28-34 | there are five quotes and each mentions the service name |
| Testimonials.Generate | tracker/views_frontend.py:36-46 | a generated testimonial has rating 5, is published, is not featured, carries the request's (customer, service) key and quotes a template with the service name |
| Testimonials.Backfill | tracker/views_frontend.py:15-46 | the pass only appends: the old table is a prefix of the new one, and every new row has the generated shape |
| Testimonials.HasTestimonialGrows | tracker/views_frontend.py:22-25 | a key found in a table is still found after rows are appended |
| Testimonials.BackfillCovers | tracker/views_frontend.py:21-27 | after a pass every completed request with a service has a testimonial with its key |
| Testimonials.BackfillFresh | tracker/views_frontend.py:21-27 | every new row comes from an eligible request and its key had no row before it, so two requests with one key never give two rows |
| Testimonials.BackfillSaturated | tracker/views_frontend.py:21-27 | a pass over requests that are all covered writes nothing |
| Testimonials.BackfillIdempotent | tracker/views_frontend.py:15-46 | a second pass, at any time and with any quote picks, leaves the table unchanged |
| Testimonials.NoServiceNoTestimonial | tracker/views_frontend.py:27 | a completed request without a service yields no testimonial |
| Frontend.DisplayName | tracker/views_frontend.py:352 | the default customer name is the user's full name, or the username when that is empty |
| Frontend.CustomerForUser | tracker/views_frontend.py:350-353 | the email get-or-create fails exactly when two customers share the email; otherwise the picked row is the only holder of the email and at most one row, named after the user, is appended |
| Frontend.RegisterWorkshop | tracker/views_frontend.py:343-370 | an inactive or missing workshop changes nothing; an existing pair is returned as the only row for that pair, and no row is added; otherwise exactly one `registered` row is appended; a failure means duplicate customer emails or duplicate pair rows |
| Frontend.RegisterKeepsPairsUnique | tracker/models.py:230 | registration preserves the one-row-per-(workshop, customer) rule |
| Frontend.RegisterIgnoresCapacity | tracker/views_frontend.py:356-360 | a new row is added to a full workshop and the registered count then exceeds the capacity |
| Frontend.RegisterNewPairSucceeds | tracker/views_frontend.py:348-360 | with unique customer emails, a user without a row for an open workshop always gets one |
| Frontend.RegisterTwice | tracker/views_frontend.py:356-365 | a second registration of the same user returns the first call's row and changes nothing |
| Frontend.ApplyAction | tracker/views_frontend.py:660-672 | only status, `updated_at` and `completed_at` can change; `completed_at` changes only to now, on completion; any change is by one of the three actions |
| Frontend.ActionsIgnorePriorStatus | tracker/views_frontend.py:660-672 | from any status: accept gives `accepted`, complete gives `completed` stamped now, cancel gives `cancelled` and keeps `completed_at` |
| Frontend.CompleteTwiceRestamps | tracker/views_frontend.py:664-667 | completing again moves `completed_at` to the second time; cancelling a completed request keeps the old stamp |
| Frontend.UnknownActionChangesNothing | tracker/views_frontend.py:660-672 | any other action leaves the request as it was |
| Frontend.AdminRequests | tracker/views_frontend.py:645-676 | non-staff and unknown ids change nothing; otherwise only the chosen request changes, and only by its action |
| Frontend.PreviousMonth | tracker/views_frontend.py:797-800 | for a month in 1..12 the result is a month in 1..12, exactly one month earlier |
| Frontend.JanuaryFollowsDecember | tracker/views_frontend.py:799-800 | January's predecessor is December of the previous year |
| Frontend.CustomerByNameAndPhone | tracker/views_frontend.py:215-219 | fails exactly when two customers have the name and phone, or none has them and the email is taken; otherwise the picked row is the only one with the name and phone, and a new row, appended only when none had them, carries the email, name and phone |
| Frontend.FileContactRequest | tracker/views_frontend.py:221-235 | exactly one pending request is appended, with no deadline, no budget and no completion time; it is linked to a service exactly when the id parses and names an existing service; an unparsable id fails after the row is saved |
| Frontend.ContactFields | tracker/views_frontend.py:209-241 | missing exactly when one of the four required fields is empty; a missing field writes nothing; failed exactly when the customer lookup raises or a non-empty service id does not parse; nothing is written when no request is added; only customers and requests change, with at most one new customer, which carries the submitted name, phone and email; the request belongs to the only customer with that name and phone and carries the subject and message |
| Frontend.Contact | tracker/views_frontend.py:199-241 | the same, stated on the raw fields after stripping |
| Frontend.ContactFindsCustomer | tracker/views_frontend.py:215-227 | a contact from the name and phone of exactly one customer is filed under that customer and adds no customer |
| Frontend.ContactTwiceSameCustomer | tracker/views_frontend.py:215-227 | sending the same contact form twice files both requests under one customer, and the second adds no customer |
| Frontend.ParseNullable | tracker/views_frontend.py:298-299 | `''` stores null; anything else is stored parsed, or rejected when it does not parse |
| Frontend.SubmitServiceRequest | tracker/views_frontend.py:268-306 | not found exactly when the service is missing or inactive; login required exactly when the user is anonymous; missing exactly when the stripped title or description is empty, and these three change nothing; failed exactly when two customers share the user's email or a non-empty deadline or budget does not parse; a submitted request is pending, for this service, not completed, stores the converted deadline and budget (null for an empty field), and belongs to the only customer row with the user's email |
| Frontend.ServiceRequestFields | tracker/views_frontend.py:268-306 | the same outcomes on the stripped title and description; in addition, a new customer row is the one named after the user, and only customers and requests change |
| Frontend.FileServiceRequest | tracker/views_frontend.py:293-301 | the insert fails exactly when a non-empty deadline or budget does not parse, and then appends no request; otherwise one pending, uncompleted request for this service is appended, whose deadline and budget are the converted fields, null for an empty field |
| Frontend.ServiceRequestTwice | tracker/views_frontend.py:286-301 | submitting the same request twice succeeds again, adds no customer and files under the first request's customer |
| AdminDisplay.PriceRange | tracker/admin.py:52-57 | "Price upon request" exactly when the lower price is falsy; with both prices, "$", the lower price, " - $" and the upper price, and nothing else; with only the lower price, "From $" followed by it |
| AdminDisplay.PriceRangeReadBack | tracker/admin.py:52-57 | when prices render without spaces and parse back, the text determines the lower price when it is set and the upper price when both are set |
| AdminDisplay.ParticipantCount | tracker/admin.py:148-153 | contains '/' exactly when the capacity is truthy; otherwise it parses back to the registered count |
| AdminDisplay.ParticipantCountReadBack | tracker/admin.py:148-153 | splitting on '/' and parsing recovers the count and, when capped, the capacity |
| AdminDisplay.QuestionPreview | tracker/admin.py:381-382 | questions of at most 75 characters are unchanged; longer ones become their first 75 characters followed by "...", 78 in all |
| AdminDisplay.QuestionPreviewIdempotent | tracker/admin.py:381-382 | previewing a preview changes nothing |
| AdminDisplay.StatusColour | tracker/admin.py:105-117 | the colour differs from '#999' exactly when the status is one of the five request statuses |
| AdminDisplay.StatusColoursDistinct | tracker/admin.py:106-112 | different request statuses get different colours |
| AdminDisplay.RatingStars | tracker/admin.py:188-191 | exactly `rating` star characters, none for a rating of zero or less |
| AdminDisplay.RatingStarsInjective | tracker/admin.py:188-190 | for positive ratings the stars determine the rating |
| AdminDisplay.ApplyProfileOp | tracker/admin.py:253-257 | a delete never changes the table; an add changes it exactly when it is empty |
| AdminDisplay.ProfileStaysSingle | tracker/admin.py:253-257 | under any sequence of admin actions there is never more than one profile, and an existing one is never removed |
| Forms.CleanPassword2 | tracker/forms.py:55-61 | rejects exactly when both passwords are non-empty and differ; otherwise returns password2 unchanged |
| Forms.ResetCleanPassword2 | tracker/forms.py:346-352 | the reset form's rule accepts and rejects exactly the pairs the registration form's rule does |
| Forms.CleanEmail | tracker/forms.py:49-53 | rejects exactly when a user holds the identical email; otherwise returns it unchanged |
| Forms.SaveUser | tracker/forms.py:63-70 | the new user's username and email are both the cleaned email |
| Forms.CleanEmailKeepsUnique | tracker/forms.py:49-53 | saving a user that passed the check keeps emails unique under exact comparison |
| Forms.CleanEmailCaseless | tracker/forms.py:49-53 | the corrected check rejects exactly when a user holds the email up to ASCII case |
| Forms.CaselessRejectsMore | tracker/forms.py:49-53 | the corrected check rejects everything the original does |
| Forms.CleanEmailCaselessKeepsUnique | tracker/forms.py:49-53 | saving a user that passed the corrected check keeps emails unique up to case |
| Accounts.UsernameCheck | tracker/views.py:267-295 | after stripping, shorter than 3 characters is malformed; otherwise taken exactly when some user has that username, available exactly when none has |
| Accounts.NameAvailability | tracker/views.py:275-290 | on a stripped name: malformed exactly when shorter than 3 characters, taken exactly when long enough and held by some user, available exactly when long enough and held by none |
| Accounts.UsernameTakenOnceUsed | tracker/views.py:275-290 | a stripped name reported available is reported taken once a user holds it |
| Accounts.EmailCheck | tracker/views.py:298-326 | after stripping, an address without '@' is malformed; otherwise taken exactly when a user or a customer holds it, and available exactly when neither does |
| Accounts.AddressAvailability | tracker/views.py:304-320 | on a stripped address: malformed exactly when it has no '@', taken exactly when a user or a customer holds it, available exactly when neither does |
| Accounts.AvailableEmailPassesForm | tracker/views.py:304-320 | an address the probe calls available passes the registration form's duplicate check, and after that registration the probe calls it taken |
| Accounts.ResolveLoginIdentifier | tracker/views.py:94-102 | an identifier without '@' is used as the username; with '@' a single case-insensitive email match gives that user's username, no match falls back to the identifier, and two matches are a server error |
| Accounts.ResolveNeverFails | tracker/views.py:95-100 | when emails are unique up to case, resolution never fails |
| Accounts.OwnEmailResolves | tracker/views.py:95-98 | a user's own email, in any ASCII case, resolves to that user's username |
| Accounts.CaseVariantRegistrationBreaksLogin | tracker/views.py:97 | the exact-match duplicate check admits an email differing only in case, after which logging in with it fails |
| Accounts.CaselessRegistrationKeepsLogin | tracker/views.py:95-100 | with the corrected check, registration keeps emails unique up to case and login never fails |
| Accounts.FirstTruthy | tracker/views.py:135 | the first non-empty candidate is the result; the default when there is none |
| Accounts.LogoutRedirect | tracker/views.py:131-136 | the redirect target is never empty and prefers the query-string `next` |
| Accounts.LogoutIsFirstTruthy | tracker/views.py:135 | the target is the first non-empty one of GET next, POST next, the configured URL, and 'home' |
| Accounts.WorkshopPriceJson | tracker/views.py:391 | '0' for a null or zero price, the price's text otherwise |
| Accounts.WorkshopPriceReadBack | tracker/views.py:391 | with a rendering that parses back, the price text parses to the price, and a null price to zero |
| Accounts.Upcoming | tracker/views.py:379-382 | every kept id is in the order and active and not yet started; every such id of the order is kept |
| Accounts.UpcomingAppend | tracker/views.py:379-382 | filtering keeps the order: the filter of a concatenation is the concatenation of the filters |
| Accounts.WorkshopsJson | tracker/views.py:376-398 | the entries are the first `room` of the filtered ids, in order, or all of them when fewer; each carries its workshop's title, price text, registered count and fullness |
| Accounts.WorkshopsJsonComplete | tracker/views.py:376-398 | when no more than `room` workshops qualify, every active workshop of the order that has not started is listed |
| Accounts.WorkshopsJsonAppend | tracker/views.py:376-398 | the feed of `a` then `b` is the feed of `a` followed by the feed of `b` in the room left |
| Accounts.WorkshopsFeed | tracker/views.py:377-398 | with the view's limit of ten: at most ten entries, all listed workshops when no more than ten qualify and exactly ten otherwise, in date order, each describing its workshop |
| Accounts.DefaultFullName | tracker/views.py:48 | the default name is the prefix of the email before its first '@', or all of it when there is none |
| Accounts.DefaultFullNameOfAddress | tracker/views.py:48 | for `local@domain` with no '@' in `local`, the default name is `local` |

## Left out

- ORM mechanics are not modelled: querysets, `select_related`, ordering, and pagination. Tables are sequences in their iteration order. The date ordering and `[:10]` of the workshop feed are an `order` argument and a `room` argument.
- HTML rendering, `messages`, redirects, templates and `format_html` markup are not modelled. A handler returns an outcome value instead.
- Authentication, sessions, password hashing and `authenticate`/`login` are not modelled. The login lookup returns the username that would be passed to `authenticate`.
- `random.choice` of the testimonial quote is not modelled. It becomes an arbitrary `pick` function, and the properties hold for every pick.
- The floating-point percentages of the report page are not modelled. Only the previous-month arithmetic is.
- Decimal-to-string rendering is not modelled. It is an opaque `fmt` parameter.
- Parsing of posted ids, dates and amounts by Django's field conversions is not modelled. These are opaque `parse…` parameters.
- Frontend.AdminRequests: takes the request id as an integer. A `request_id` that is not a number raises an uncaught `ValueError` in the view, and that path is not modelled.
- Accounts.UsernameCheck: a non-string JSON value, or a malformed body, is not modelled. The view answers such a request with status 400.
- Accounts.EmailCheck: a non-string JSON value, or a malformed body, is not modelled. The view answers such a request with status 400.
- Accounts.ResolveLoginIdentifier: `__iexact` is modelled as ASCII case folding. The database's Unicode case rules are not modelled.
- User creation in `user_register` is not modelled, beyond the default full name. The follow-up `get_or_create` calls are not modelled either.
- Races between concurrent get-or-create calls are not modelled.
- tracker/middleware.py, tracker/context_processors.py, tracker/urls.py and the `populate_sample_data` command are not part of this model. They are plumbing or data seeding.
- The service categories and the customer type choices are not used by the core. They are not modelled.
- Forms.SaveUser: always produces the new user. The `username` column is unique, so `save` raises an integrity error when another user already has the email as username. The user table of the model does not carry that constraint, and the lemmas that append `SaveUser(email)` assume the insert succeeds.
- Frontend.ApplyAction: does not enforce an order of transitions, because the code assigns the status from any state.
- Frontend.RegisterWorkshop: does not check capacity, because the code does not.
- Models.IsOverdue: exempts only `completed`, because the code does. A stricter design would also exempt `cancelled` and stamp `completed_at` only once.

## Findings

| source | as written | input that shows it | evidently intended | confidence | as-written member | corrected member |
|---|---|---|---|---|---|---|
| tracker/forms.py:51 | `clean_email` rejects only an exactly equal email, but login (tracker/views.py:97) looks users up with `email__iexact` and does not catch `MultipleObjectsReturned` | a user with email "A@x.com" exists and "a@x.com" registers; the check passes, and logging in as "a@x.com" then matches two users and raises | reject an email already held up to case, as the login lookup compares | medium, not executed | Accounts.CaseVariantRegistrationBreaksLogin | Forms.CleanEmailCaseless |
