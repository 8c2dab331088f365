# Manual-enrollment orders and offer-email formatting, in Dafny

This project models two small pieces of the ecommerce service.

**Order endpoints.** The manual-enrollment endpoint takes a batch of learners who paid for a course outside the shop. It turns each one into a free order that is completed at once. The model covers:

- the required-field validator and its error message;
- the per-enrollment decision: validation, unknown course, existing completed order (the idempotent path), placement failure or a new order;
- the batch driver and the 400 answer to a request without `enrollments`;
- `handle_successful_order`, which marks every line and then the order COMPLETE;
- the visibility rule of the order list (`filter_queryset`);
- the status decision of `fulfill`, including how `email_opt_in` is read.

The data store is abstracted as three things:

- the known course ids, each mapped to the non-audit seat product sold for it;
- the orders placed so far, in creation order;
- a count of placement attempts.

Placing a free order is an opaque `Placer`: a function of the attempt number that yields an order number or fails.

**Offer e-mails and benefits.** These are specified by their tests, because the implementations are not part of this model. The model covers:

- `format_email`: tolerant `{NAME}` substitution with a dictionary that leaves unknown names in place.
- `_remove_exponent_and_trailing_zeros`: exact decimal normalisation. Decimals are coefficient/exponent pairs, as Python's `Decimal` holds them.
- `format_benefit_value`: a percentage or a fixed amount, shown as text.

Modules:

| file | module | contents |
|---|---|---|
| `wrappers.dfy` | `Wrappers` | `Option` and `Result` |
| `seqs.dfy` | `Seqs` | `Filter`, subsequences |
| `text.dfy` | `Text` | digits, `str()` of integers, `Join`, substring search |
| `json_values.dfy` | `JsonValues` | JSON scalars with Python truthiness and `str()` |
| `order_model.dfy` | `OrderModel` | orders, lines, `handle_successful_order`, the completed-order lookup |
| `manual_enrollment.dfy` | `ManualEnrollment` | validator, per-enrollment step, batch, request |
| `order_views.dfy` | `OrderViews` | `filter_queryset`, `fulfill` |
| `decimals.dfy` | `Decimals` | decimals, normal form, `str()` and a plain-notation subset of `Decimal(str)` |
| `benefit_format.dfy` | `BenefitFormat` | `format_benefit_value` |
| `email_format.dfy` | `EmailFormat` | placeholder substitution, `format_email` |
| `email_examples.dfy` | `EmailExamples` | the broken-template scenarios of the tests |

Where the code and its documentation disagree, the model follows the code. The class docstring of the manual-enrollment view shows the missing-field message with a misspelling ("enrollmment") and with backquoted names. The code writes "Missing required enrollment data: " with single-quoted names, which is also what the endpoint's test expects. The model uses the code's message.

## Model

Paths are relative to the repository root; `orders.py` is `ecommerce/extensions/api/v2/views/orders.py`.

| member | source | states |
|---|---|---|
| ManualEnrollment.GetRequiredEnrollmentData | ecommerce/extensions/api/v2/views/orders.py:269-293 | Succeeds exactly when all four required fields are present and truthy, and then returns their four values in the order lms_user_id, username, email, course_run_key. Otherwise the error is "Missing required enrollment data: " followed by the quoted names of exactly the missing fields, in that fixed order, and at least one name is listed. |
| ManualEnrollment.MissingFields | ecommerce/extensions/api/v2/views/orders.py:281-287 | A field is listed exactly when it is one of the given fields and is absent or falsy. |
| ManualEnrollment.MissingFieldsInOrder | ecommerce/extensions/api/v2/views/orders.py:281-287 | The missing fields are listed in the order the fields are given (a subsequence of them), so the message always names them in the order lms_user_id, username, email, course_run_key. |
| ManualEnrollment.EmptyEnrollmentMessage | ecommerce/extensions/api/v2/views/orders.py:280-291 | An empty enrollment fails validation with the message listing all four fields: `'lms_user_id', 'username', 'email', 'course_run_key'`. |
| ManualEnrollment.EmptyEnrollmentRequest | ecommerce/extensions/api/v2/tests/views/test_orders.py:439-453 | A request whose only enrollment is `{}` gets 200 with exactly one result, `{status: failure, detail: <all four fields missing>}`, and the store is unchanged. |
| ManualEnrollment.CreateSingleOrder | ecommerce/extensions/api/v2/views/orders.py:185-267 | The result is the enrollment with every other field kept, plus a status of exactly success or failure and a string detail. The precedence is: validation failure (the validator's message, store untouched), then "Course not found", then an existing completed order (success, its number, nothing created), then "Failed to create free order" (one attempt used, no order). Otherwise it is a success with the new order's number, and the store gains exactly that order, completed, for the learner's seat on the site's partner. Courses never change and existing orders are never altered. |
| ManualEnrollment.CreateOrders | ecommerce/extensions/api/v2/views/orders.py:179-183 | One result per input enrollment, in input order. Each result is a result record for its own enrollment. The store only grows. Which result each entry is, is stated by CreateOrdersStepwise. |
| ManualEnrollment.CreateOrdersStepwise | ecommerce/extensions/api/v2/views/orders.py:179-183 | The batch is sequential. Entry i is the single-order result for the i-th enrollment, computed against the store that the enrollments before it left. The store after the first i+1 enrollments is the one that step leaves. |
| ManualEnrollment.CreateOrdersAppend | ecommerce/extensions/api/v2/views/orders.py:179-183 | Processing a list and then another list from the store the first left is the same as processing their concatenation. |
| ManualEnrollment.Create | ecommerce/extensions/api/v2/views/orders.py:155-183 | Without `enrollments`: 400 with status failure and detail "Invalid data. No `enrollments` field.", and nothing is processed (store unchanged). With it: 200 and one result record per enrollment, in order. Each entry is `_create_single_order`'s result for that enrollment against the store the earlier entries left. |
| ManualEnrollment.SuccessNamesCompletedOrder | ecommerce/extensions/api/v2/views/orders.py:232-267 | A success only happens for a valid enrollment of a known course. Its detail is the number of the first completed order of that learner for that seat in the store the step leaves. |
| ManualEnrollment.RepeatedEnrollmentIsIdempotent | ecommerce/extensions/api/v2/views/orders.py:232-239 | Repeating a successful enrollment against the store the first call left gives the same result and creates nothing, whatever placement would do. |
| ManualEnrollment.RepeatAgainstExtendedStore | ecommerce/extensions/api/v2/views/orders.py:232-239 | A success is reproduced unchanged against any later store with the same courses and more orders, and that store is left untouched. |
| ManualEnrollment.RepeatedBatchKeepsSuccesses | ecommerce/extensions/api/v2/tests/views/test_orders.py:502-514 | Re-running a batch against any extension of the store the first run left reproduces every result that succeeded. If all succeeded, the re-run leaves the store exactly as it found it. |
| ManualEnrollment.RepeatedRequestKeepsSuccesses | ecommerce/extensions/api/v2/tests/views/test_orders.py:502-514 | The same, for re-running the request directly after the first run: the second call reports the same order numbers for every success. |
| ManualEnrollment.ExtendIsResultFor | ecommerce/extensions/api/v2/views/orders.py:196-199 | `dict(enrollment, status=..., detail=...)` with status success or failure keeps every other field and adds only `status` and `detail`. |
| OrderModel.HandleSuccessfulOrder | ecommerce/extensions/api/v2/views/orders.py:335-342 | Every line becomes COMPLETE with its product kept, in the same order and number. The order becomes COMPLETE, and its number, owner and partner are unchanged. |
| OrderModel.CompleteLines | ecommerce/extensions/api/v2/views/orders.py:339-340 | Same number of lines, each with its product kept and status COMPLETE. |
| OrderModel.FindCompletedOrder | ecommerce/extensions/api/v2/views/orders.py:233-238 | None exactly when no order of the learner has a COMPLETE line for the seat. Otherwise it is the number of the first such order, and every order before it has none. |
| OrderModel.FindCompletedOrderStable | ecommerce/extensions/api/v2/views/orders.py:233-238 | Orders added later never change which completed order is found first. |
| OrderModel.FindCompletedOrderAppend | ecommerce/extensions/api/v2/views/orders.py:233-238 | When nothing was found, appending one order finds it exactly when it matches. |
| OrderViews.FilterQueryset | ecommerce/extensions/api/v2/views/orders.py:54-67 | Refused exactly when a non-staff user names a non-empty username other than their own. Otherwise an order is visible exactly when it is in the queryset, belongs to the site's partner, and, for a non-staff user, belongs to that user. The visible orders keep the queryset's order, and each visible order appears exactly as many times as in the queryset. |
| OrderViews.Fulfill | ecommerce/extensions/api/v2/views/orders.py:69-94 | 406 exactly when the order is not fulfillable, and then the signal is not sent and no order is returned. Otherwise the signal carries the opt-in flag. The answer is 500, with no order in it, exactly when the order is still fulfillable after the signal, and otherwise 200 with the processed order, which is no longer fulfillable. |
| OrderViews.EmailOptInExamples | ecommerce/extensions/api/v2/views/orders.py:77-78 | The opt-in is false when the parameter is absent, true for "True", and false for "False" and "true". |
| Decimals.StripTrailingZeros | ecommerce/extensions/offer/tests/test_utils.py:89-102 | The result is in normal form (no trailing fractional zero, no positive exponent) and equal in value to the input. |
| Decimals.RemoveExponentAndTrailingZeros | ecommerce/extensions/offer/tests/test_utils.py:89-102 | The result is in normal form and equal in value to the input. An integral value comes out with exponent 0. |
| Decimals.NormalizationIsCanonical | ecommerce/extensions/offer/tests/test_utils.py:89-102 | Two decimals are equal in value exactly when their normal forms are identical, and a decimal already in normal form is left as it is. |
| Decimals.NormalFormIs | ecommerce/extensions/offer/tests/test_utils.py:89-102 | A decimal equal in value to a normal form normalizes to exactly that normal form. |
| Decimals.ToString | ecommerce/extensions/offer/tests/test_utils.py:69-82 | Python's `str()` of a decimal, which gives the percentage text. The text is non-empty and opens with '-' exactly when the coefficient is negative. ParseToString proves that plain-notation text reads back. |
| Decimals.ParseToString | ecommerce/extensions/offer/tests/test_utils.py:89-102 | Round trip: the plain-notation text `str()` prints for a decimal reads back as the same coefficient and exponent. |
| Decimals.NormalizesOnePointZero | ecommerce/extensions/offer/tests/test_utils.py:90 | `Decimal('1.0')` normalizes to `Decimal('1')`, which prints as "1". |
| Decimals.NormalizesFiveThousand | ecommerce/extensions/offer/tests/test_utils.py:91 | `Decimal('5000.0')` normalizes to `Decimal('5000')`, not 5E+3, and prints as "5000". |
| Decimals.NormalizesOnePointFortyFive | ecommerce/extensions/offer/tests/test_utils.py:92 | `Decimal('1.45000')` normalizes to `Decimal('1.45')`. |
| Decimals.NormalizesFiveThousandPointFour | ecommerce/extensions/offer/tests/test_utils.py:93 | `Decimal('5000.40000')` normalizes to `Decimal('5000.4')`. |
| BenefitFormat.FormatBenefitValue | ecommerce/extensions/offer/tests/test_utils.py:69-87 | A fixed benefit is "$" followed by the currency-formatted value. A percentage is `str()` of the value's normal form followed by "%". |
| BenefitFormat.EqualPercentagesLookAlike | ecommerce/extensions/offer/tests/test_utils.py:69-82 | Percentages of equal value get the same text, so "35.00" and "35" both show as "35%". When both normal forms print in plain notation, the same text means the same value. |
| BenefitFormat.DollarSignMeansFixed | ecommerce/extensions/offer/tests/test_utils.py:69-87 | The text starts with "$" exactly when the benefit is a fixed amount. |
| BenefitFormat.PercentageReadsBack | ecommerce/extensions/offer/tests/test_utils.py:78-82 | For a percentage printed in plain notation (no exponent), the text without its "%" reads back as a decimal equal in value to the benefit's value and in normal form. |
| BenefitFormat.ThirtyFivePercent | ecommerce/extensions/offer/tests/test_utils.py:66-72 | A percentage benefit of 35.00 is shown as "35%". |
| EmailFormat.FormatEmail | ecommerce/extensions/offer/tests/test_utils.py:295-319 | The e-mail starts with the greeting as given and ends with the closing as given, neither substituted. With neither, it is the substituted template alone. Between the greeting's line break and the closing's line break stands exactly the substituted template. |
| EmailFormat.EveryOccurrenceReplaced | ecommerce/extensions/offer/tests/test_utils.py:49-56 | Wherever it stands, a known name's token is replaced by the value's text, with the text on both sides substituted independently, so repeats are all replaced. |
| EmailFormat.SubstituteKnown | ecommerce/extensions/offer/tests/test_utils.py:280-288 | A known token becomes its value's text. |
| EmailFormat.SubstituteUnknown | ecommerce/extensions/offer/tests/test_utils.py:281-290 | A brace expression whose name is not a key, `{}` and `{ abc d }` included, is copied character for character. |
| EmailFormat.SubstituteLiteral | ecommerce/extensions/offer/tests/test_utils.py:49-56 | Text without an opening brace is copied verbatim. |
| EmailFormat.SubstituteSplit | ecommerce/extensions/offer/tests/test_utils.py:49-56 | Substitution of text cut just before a '{' is the substitution of each side. |
| EmailFormat.Substitute | ecommerce/extensions/offer/tests/test_utils.py:49-56 | The body substitution of `format_email`. With an empty dictionary the text is unchanged. Its full meaning is given by SubstituteMeansFill and the Substitute* lemmas. |
| EmailFormat.SubstituteMeansFill | ecommerce/extensions/offer/tests/test_utils.py:49-56 | For a template cut into literal text and brace-free placeholder names, substitution equals the piece-by-piece meaning: literals stay, known names become their values, unknown names stay as tokens. |
| EmailFormat.NoKnownTokenIsIdentity | ecommerce/extensions/offer/tests/test_utils.py:49-56 | A template that contains no token of a known name comes out unchanged. |
| EmailFormat.FormatEmailShowsValue | ecommerce/extensions/offer/tests/test_utils.py:253-263 | If the template contains a known name's token, the value's text appears in the e-mail. |
| EmailFormat.FormatEmailShowsGreetingAndClosing | ecommerce/extensions/offer/tests/test_utils.py:264-265 | The greeting and the closing, when given, appear in the e-mail. |
| EmailExamples.BrokenTemplateBody | ecommerce/extensions/offer/tests/test_utils.py:49-56 | For any address and code, the broken template becomes its text with the e-mail address and both codes filled in. `{DOES_NOT_EXIST}`, `{}` and `{ abc d }` are kept. |
| EmailExamples.BrokenTemplateWithGreeting | ecommerce/extensions/offer/tests/test_utils.py:267-293 | With greeting 'hi {CODE} ' and closing ' bye {CODE}', the e-mail is the greeting, a line break, the filled body, a line break and the closing. The tokens in the greeting and closing are not substituted. |
| EmailExamples.BrokenTemplateNoGreeting | ecommerce/extensions/offer/tests/test_utils.py:295-319 | With no greeting or closing, the e-mail is the filled body alone. |

## Left out

- Django, Django REST Framework and ORM plumbing are framework behaviour. This covers querysets, transactions, serializers, authentication, permission classes and throttling. The store is an abstract value instead.
- The `OrderFilter` filtering that `filter_queryset` applies first is not part of this model, so the model starts from its result.
- `_get_learner_user` (create or update the user) is not modelled. The learner is identified by the username's text, and the e-mail and LMS id updates to the user record are left out.
- The seat lookup assumes each known course has one non-audit seat product. The model maps the course id to it, and the case of a course without such a seat is not modelled.
- The discount offer (`_get_or_create_discount_offer`, `Applicator`) and the pricing inside `place_free_order` are not modelled. Placement is an opaque step that yields an order number or fails.
- Uniqueness of order numbers is not modelled: the `Placer` may return a number that an order in the store already has, and no lemma relies on numbers being distinct.
- The status pipelines behind `set_status` (allowed transitions) are not part of this model. `handle_successful_order` sets COMPLETE directly.
- `is_fulfillable` and the `post_checkout` receivers are parameters: a predicate and a state transition. The serializer's output is the order itself.
- Logging, `audit_log` and `logger.exception` have no observable effect on results.
- The `enrollments` field is assumed to hold a list of JSON objects, and field values are JSON scalars (null, bool, int, str). Nested values are not modelled.
- The course lookup and the learner lookup use `str()` of the submitted value, as a Django character field coerces it.
- The dispatch of offer e-mails to the external mail queue is fire-and-forget I/O, as in the `send_*` tests of test_utils.py:104-227.
- The implementation of `format_email` is not part of this model, so it is specified from its tests.
  - The greeting is followed by a line break and the closing is preceded by one.
  - The tests compare whitespace-split words, so they do not pin down this separator.
- Format specifications and conversions inside braces (`{CODE:>10}`, `{CODE!r}`) and doubled braces are not modelled. A brace expression is either a known name or copied verbatim.
- `add_currency` is not shown and is a parameter of `format_benefit_value`.
- The resolution of a benefit's proxy class to its type is not modelled. A benefit carries its type directly.
- Decimal contexts, precision and rounding, NaN, infinities and negative zero are not modelled. Decimals are exact coefficient/exponent pairs.
- Decimals.ParseToString: reading text covers plain notation only. Exponent notation such as "5E+3" is printed but never read back.
- BenefitFormat.PercentageReadsBack: proved only for percentages whose normal form prints without an exponent. A value below 10^-6 (printed like "1E-7%") is formatted by the model but not read back, for the same reason as above.
- BenefitFormat.EqualPercentagesLookAlike: "same text means same value" is proved only when both normal forms print in plain notation, for the same reason.
- The decimal tests compare by value (`Decimal` equality). The model proves the stronger identity of coefficient and exponent.
