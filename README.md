# Escrow marketplace backend: QRIS codec, order lifecycle and input rules in Dafny

This project models the parts of an Indonesian escrow-marketplace backend that hold logic of their own.

- **QRIS payload generator** (`utils/qris.js`). A merchant's static QRIS string is an EMVCo Merchant-Presented-Mode payload. The generator turns it into a dynamic one for a given amount:
  - it drops the old CRC;
  - it flips the first point-of-initiation object `010211` to `010212`;
  - it inserts the amount object `54LL<digits>` in front of the country code `5802ID`;
  - it appends a fresh CRC-16/CCITT-FALSE checksum.

  The module also covers the format check and the extraction of merchant name and city.
- **The `crc16` routine.** It is modelled twice:
  - as the JavaScript loop does it, on a 32-bit register that is masked only at the end;
  - as the textbook 16-bit register.

  A lemma shows that the two agree.
- **Escrow order lifecycle** (`server.js` route handlers). Five tables sit in one `Store` class as maps from row ids to rows: orders, payments, payment proofs, cancellation requests and fund releases. Each handler is one method:
  - its early `return res.status(4xx)` branches become the cases of its postcondition;
  - its `.insert`/`.update` calls become the new state of the maps.

  Every handler keeps an invariant. Payments, cancellation requests and fund releases point to existing orders, and they carry that order's total, seller and requester.
- **Order numbers** `ORD-YYYYMMDD-NNNNN`.
- **Phone normalisation** to the `+62` form.
- **Password rules**: the strength check and its Indonesian error message.

Files:
- `base.dfy`: `Option` and `Result`.
- `strings.dfy`: the JavaScript string operations used. `replace` with a string pattern changes only the first occurrence; also `split`/`join`, `padStart`, `trim` and the `\s` class.
- `numerals.dfy`: digit strings in any base, and `parseInt`.
- `crc16.dfy`, `qris.dfy`, `password.dfy`, `phone.dfy`, `order_number.dfy`, `escrow.dfy`: the core itself.

Inputs from outside the program are parameters of the model:
- the clock (`now`, the order date);
- `Math.random()` (the five-digit draw);
- the caller's identity;
- whether the seller created an order in the last two minutes (`recentOrder`);
- the legacy 2.5% fee (`legacyFee`).

## Model

| member | source | states |
|---|---|---|
| Crc16.Crc16 | utils/qris.js:17-33 | For every string, the nested loops over the 32-bit register produce the textbook CRC-16/CCITT-FALSE text `Checksum(s)`. It is exactly 4 uppercase hex digits, and their value is the 16-bit register. |
| Crc16.Checksum | utils/qris.js:32 | The checksum is four uppercase hex digits whose value is the 16-bit register of the string. `Crc16.Crc16` and `Crc16.HexTextFormat` prove it. |
| Crc16.RegistersAgree | utils/qris.js:20-30 | The low 16 bits of the never-masked JavaScript register equal the register of the textbook algorithm, which masks at every step. |
| Crc16.ShiftedByteBits | utils/qris.js:21 | `charCode << 8`, seen in the low 16 bits, is the character's low byte followed by eight zero bits. |
| Crc16.HexTextFormat | utils/qris.js:32 | `toString(16).toUpperCase().padStart(4,'0')` of a 16-bit value is 4 uppercase hex digits that read back as that value. |
| Crc16.UpperHexText | utils/qris.js:32 | Upper-casing lower-case hex text gives the upper-case hex numeral of the same number. |
| Crc16.EmptyChecksum | utils/qris.js:18-32 | The checksum of the empty string is `FFFF`, the initial register. |
| Crc16.LowBytesOnly | utils/qris.js:21 | Two strings whose characters agree in their low bytes have the same register and the same checksum. |
| Crc16.FeedSeparates | utils/qris.js:21-29 | From one register, two different bytes lead to different registers. |
| Crc16.SuffixKeepsApart | utils/qris.js:20-30 | Two different registers stay different after any common suffix is fed. |
| Crc16.SingleChangeDetected | utils/qris.js:20-32 | Changing one character to one with a different low byte always changes the checksum. |
| Strings.ReplaceFirst | utils/qris.js:66 | `replace` with a string pattern changes the first occurrence only. Without an occurrence the string is returned unchanged. |
| Strings.JoinSplit | utils/qris.js:70 | Joining the pieces of a `split` with the separator gives back the string. |
| Strings.SplitJoin | utils/passwordValidator.js:33 | Splitting a `join` gives back the pieces when no piece holds the separator's first character. |
| Qris.StripCrc | utils/qris.js:62 | Drops the last four characters. A string shorter than four becomes empty, because `substring` clamps a negative end to 0. |
| Qris.FlipShape | utils/qris.js:64-66 | Only the first `010211` changes, and only in its sixth character (`1` to `2`). Without one the string is unchanged. |
| Qris.FlipKeepsOnce | utils/qris.js:66-72 | Flipping the indicator neither creates nor destroys an occurrence of `5802ID`. |
| Qris.SplitInTwo | utils/qris.js:70-74 | `split("5802ID")` has exactly two parts if and only if `5802ID` occurs exactly once. |
| Qris.GenerateDynamic | utils/qris.js:50-96 | The invalid-string error is raised iff the payload is missing or empty. The invalid-amount error is raised iff the payload is present and the amount is missing or not positive. The full case split is `Qris.GenerateDynamicOutcome`, and the output is described by `Qris.GenerateDynamicPayload` and `Qris.GenerateDynamicChecksum`. |
| Qris.Message | utils/qris.js:52-95 | Only the country-code error carries the `Failed to generate dynamic QRIS: ` prefix, because only it is thrown inside the `try`. |
| Qris.MessagesDistinct | utils/qris.js:52-95 | The three error messages are pairwise different, so a caller can tell the errors apart. |
| Qris.GenerateDynamicOutcome | utils/qris.js:50-74 | When each error is raised, as four iffs. A missing or empty payload comes first. A missing, non-integral or non-positive amount comes next. A stripped payload without exactly one `5802ID` comes last. Success happens exactly otherwise. |
| Qris.GenerateDynamicPayload | utils/qris.js:62-90 | A successful result is the signed payload: the flipped string with the amount object inserted right before its only `5802ID`. |
| Qris.GenerateDynamicLength | utils/qris.js:62-90 | A successful output is exactly as long as the input plus the amount object: four CRC characters are dropped and four are appended. |
| Qris.GenerateDynamicChecksum | utils/qris.js:81-90 | The output is as long as the input plus the amount object. Its last four characters are uppercase hex and equal the CRC of everything before them. |
| Qris.LengthFieldDecodes | utils/qris.js:80 | A length up to 99, padded to two digits, is two decimal digits that read back as the length. |
| Qris.AmountTag | utils/qris.js:79-81 | The amount object starts with `54` and ends with the decimal digits of the amount, after two length characters. The length field reads back as the digit count by `Qris.AmountTagDecodes`. |
| Qris.AmountTagDecodes | utils/qris.js:79-81 | The amount object is `54`, the two-digit length and the digits. It is 4 characters longer than the digits and parses back to the amount. |
| Qris.AmountTagExample | utils/qris.js:76-81 | 50000 gives `540550000`. |
| Qris.ValidateFormat | utils/qris.js:104-115 | True iff the input is a string of length at least 100 that starts with `00020101` and contains `5802ID`. |
| Qris.GeneratedStaysValid | utils/qris.js:50-115 | A payload that passes the format check still passes it after an amount has been added. |
| Qris.Shortest | utils/qris.js:131 | The lazy `(.+?)` group: the shortest run of non-line-terminator characters that is followed by one of the lookahead IDs. |
| Qris.FirstMatch | utils/qris.js:131 | The leftmost position where the pattern matches, with the shortest group there. Without a match, none exists at any position. |
| Qris.ExtractField | utils/qris.js:131-141 | Null iff the pattern matches nowhere. Otherwise the chosen match's group, cut to the declared two-digit length, hence at most 99 characters. |
| Qris.ExtractMerchantInfo | utils/qris.js:123-148 | Name from tag `59` up to `60`/`61`/`62`/`63`, city from tag `60` up to `61`/`62`/`63`. A non-string input leaves both null. |
| Qris.ExtractEncoded | utils/qris.js:131-141 | A `tag LL value` object followed by a lookahead ID, anywhere in the payload, is read back as its value. This holds when the pattern matches nowhere before the object, the value holds no line terminator, and no lookahead ID starts inside the value after its first character. |
| Qris.CategoryCodeShadowsName | utils/qris.js:131-134 | In `52 04 5999 53 03 360 59 02 AB 60 02 JK`, the name pattern first matches at the `59` inside the merchant category code `5999`. The name read is `53033`, not `AB`. |
| Password.AnyChar | utils/passwordValidator.js:7-9 | `/[...]/.test(s)` holds iff some character of `s` is in the class. |
| Password.ValidatePasswordStrength | utils/passwordValidator.js:4-21 | Each requirement holds iff its property holds: length ≥ 8, an `A`–`Z`, a `0`–`9`, a symbol of `!@#$%^&*(),.?":{}\|<>`. `isValid` iff all four hold. The message is `Password is strong` exactly when valid, and the weak-password text otherwise. |
| Password.GetPasswordErrorMessage | utils/passwordValidator.js:23-34 | Null iff every requirement holds. Otherwise the prefix followed by the missing fragments joined by `", "`. |
| Password.MissingOrder | utils/passwordValidator.js:26-29 | The missing fragments are those of the false requirements, in the order length, upper case, number, symbol. |
| Password.MissingMembers | utils/passwordValidator.js:26-29 | A fragment is listed iff its requirement is false. |
| Password.MissingSorted | utils/passwordValidator.js:26-29 | Every listed item is one of the four fragments, and they appear in the fixed order. |
| Password.NoMessageWhenValid | utils/passwordValidator.js:12-31 | No fragment is missing exactly when the password is valid. |
| Password.MessageListsMissing | utils/passwordValidator.js:33 | Splitting the joined list at `", "` recovers the missing fragments. |
| Phone.NormalizePhone | server.js:648-667 | The result never holds white space, dashes or parentheses. |
| Phone.StoredPhone | server.js:648-674 | The stored phone is null iff no phone is given or it is only separators. Otherwise it is the normalised, non-empty number. |
| Phone.NormalizeIdempotent | server.js:651-667 | Normalising twice is normalising once. |
| Phone.LocalFormsAgree | server.js:653-664 | `08…`, `8…` and `+628…` forms of the same subscriber number all become `+628…`. |
| Phone.SeparatorsIgnored | server.js:651 | A separator anywhere in the input does not change the result. |
| Phone.InternationalKept | server.js:662-664 | A separator-free number already in the `+62…` form is kept exactly as it is. |
| Phone.CleanedKeptIff | server.js:655-666 | The result is the cleaned input exactly when that text starts with neither `08` nor `8`. Every other form (`+62…`, `62…`, `021…`) is kept as entered, minus separators. |
| OrderNumber.GenerateOrderNumber | server.js:85-92 | An order number has 18 characters: `ORD-`, eight date digits, `-`, five digits. |
| OrderNumber.DateStampShape | server.js:86-87 | The ISO date without its dashes is the 4-digit year, 2-digit month and 2-digit day side by side. |
| OrderNumber.PaddedDecimal | server.js:88-90 | A draw below 10^5, padded to five digits, has five digits and reads back as the draw. |
| OrderNumber.OrderNumberRoundTrip | server.js:85-92 | Parsing an order number gives back the date and the random draw. |
| OrderNumber.OrderNumberInjective | server.js:85-92 | Different dates or draws give different order numbers. |
| Escrow.ParseStatus | server.js:1249-1261 | An accepted status name is the name of a status other than `verification`. |
| Escrow.ParseStatusNames | server.js:1249-1261 | Exactly the seven listed statuses can be set by hand. `verification` cannot. |
| Escrow.OrderAmounts | server.js:1034-1047 | Amounts are missing iff `total_amount` is. With all three fields they are taken as given. Otherwise the fee is the legacy fee, and price plus fee equals the total. |
| Escrow.GivenId | server.js:1547 | An id from a request body counts as given iff it is present and not 0, since 0 is falsy. A given id is returned unchanged. |
| Escrow.ReasonAccepted | server.js:1291 | An accepted reason is present and at least 10 characters long. A reason made only of white space is refused. A reason of at least 10 characters that neither starts nor ends with white space is accepted. |
| Escrow.ParseAction | server.js:1704-1706 | Only `approve` and `reject` are accepted, and only `approve` approves. The cancellation decision at server.js:1841-1845 makes the same check. |
| Escrow.OrNull | server.js:1558 | `x \|\| null` keeps a non-empty string and turns an empty or missing one into null. The same holds for `admin_notes` at server.js:1872. |
| Escrow.Store.CreateOrder | server.js:1024-1147 | The guard cases:<br>• a missing title gives 400;<br>• missing amounts give 400;<br>• a product price below 10000 gives 400;<br>• the cooldown gives 429.<br>Otherwise 201, with one new `awaiting_payment` order (the caller as seller) and one `pending` payment for its total. Both get the next row ids, which start at 1. A bank account id that is missing or 0 is stored as null (`bank_account_id \|\| null`). Nothing changes on an error. |
| Escrow.Store.SetStatus | server.js:1245-1276 | An unlisted status gives 400. A missing order gives 500. Otherwise only that order's status changes, whatever it was. |
| Escrow.Store.Cancel | server.js:1285-1392 | Checked in order:<br>• a reason shorter than 10 after trimming gives 400;<br>• a missing order gives 404;<br>• a caller who is not the seller gives 403;<br>• an already cancelled order gives 400;<br>• a `completed`/`delivered` order gives 400.<br>Without a proof, the order is cancelled with reason, canceller and time (`cancelled_immediately: true`). With a proof, one new `pending` request is filed and the order is untouched (`false`). |
| Escrow.Store.ConfirmReceived | server.js:1464-1513 | 404, then 403 unless the caller is the buyer, then 400 unless `paid`/`shipped`/`delivered`. Otherwise the order becomes `completed` and one `pending` fund release for its total goes to its seller. |
| Escrow.Store.SubmitProof | server.js:1544-1632 | 400 when the payment id or the order id is missing or 0, with nothing changed. Otherwise a `pending` proof is stored. The order goes to `verification` from any status and takes the caller as buyer if there is one. The payment goes to `awaiting_verification`. |
| Escrow.Store.DecideProof | server.js:1700-1804 | 400 for another action, 404 for a missing proof. Approve: proof `approved`, order `paid`, payment `paid`. Reject: proof `rejected`, order `awaiting_payment`, payment `rejected`. The proof's prior status is not checked. |
| Escrow.Store.DecideCancellation | server.js:1835-1913 | 400 for another action, 404 for a missing request, 400 unless `pending`. Approve: the request is `approved` and the order is cancelled with the request's reason and requester. Reject: only the request changes, to `rejected`. |
| Escrow.Store.Deliver | server.js:1916-1968 | 404, then 400 unless `paid`/`shipped`. Otherwise the order becomes `delivered` and one `pending` fund release for its total goes to its seller. |
| Escrow.Store.CompleteRelease | server.js:1971-2033 | A missing release gives 500. Otherwise the release becomes `completed`, with the transfer time and the admin. A supplied `transfer_proof` or `transfer_note` replaces the stored one. An absent one is `undefined`, so the update leaves that column as it was. The release's order becomes `completed`. The `if (data.order_id)` test always passes, because row ids are at least 1. There is no check of the release's prior status. |
| Escrow.DeliverThenConfirm | server.js:1480-1503 | After an admin delivery (server.js:1929-1956), the buyer can still confirm. One order then holds two distinct pending fund releases for the same total and seller. |
| Escrow.CancelThenSubmitProof | server.js:1576-1583 | A proof uploaded after an immediate cancellation (server.js:1337-1359) moves the cancelled order to `verification`. It keeps its cancellation time and gains a buyer. |

## Left out

- HTTP routing, authentication middleware and Supabase calls are left out. Each handler is one atomic step over the maps. A handler's status code stands for its JSON response. The admin routes assume `requireAdmin` let the caller through.
- Storage failures are left out: a failing insert or update, the `.single()` error on a missing row except where the code turns that into a 500, and `throw` inside `try`. Payment-creation failure after order creation is also out.
- Row ids are positive integers. A path parameter such as `/orders/0` cannot be written, and no row has id 0. Body ids go through `Escrow.GivenId`, which treats 0 as absent, as the `!payment_id` test does.
- Escrow.Store.CompleteRelease: an explicit JSON `null` for `transfer_proof` or `transfer_note` would clear the column. The model does not tell it apart from an absent field, which keeps the stored value.
- Foreign keys are not modelled. A proof may name an order or payment that does not exist, and the updates of those rows then change nothing.
- Escrow.Store.Cancel: a proof exists is modelled as membership in the proofs table. With two or more proofs, `maybeSingle` returns an error and no data, which would send the code down the immediate-cancel path. This is not modelled.
- Race windows between check and write are not modelled, because every handler is atomic here.
- The notifications and their messages are left out, because they are I/O.
- Escrow.Store.CreateOrder: amounts are taken as the integers `parseInt` returns. `NaN` is not modelled, though a `NaN` price would pass the minimum check as written. The legacy fee `Math.ceil(total * 0.025)` is floating point and is taken as the input `legacyFee`. The two-minute cooldown is the boolean `recentOrder`, because it compares wall-clock times. `order_number` is the input `orderNumber`, to be produced by `OrderNumber.GenerateOrderNumber`.
- Timestamps other than `cancelled_at`, `delivered_at`, `reviewed_at` and `transferred_at` are not stored. `updated_at` and `created_at` are among them.
- Phone.NormalizePhone: only string phones are modelled. A truthy non-string would make `replace` throw, giving a 500.
- Shapes of the route inputs that the model does not take are left out. A reason that is not a string would make `trim` throw. A SubmitProof amount is taken as a number, so `amount ? parseInt(amount) : null` turns 0 into null.
- Strings are sequences of characters. A character outside the Basic Multilingual Plane counts as one here, where JavaScript counts two UTF-16 units. This affects the password length, `substring` and `charCodeAt` in `crc16`.
- Qris.GenerateDynamic: the amount is an exact integer, and the amount object carries its full decimal digits. In the code, amounts above 2^53 lose precision. From 10^21 on, `parseInt` first turns the number into exponent text (`"1e+21"`, `"1.5e+21"`) and stops at the `.` or `e`. The amount object then carries only the leading digit: 10^21 is encoded as `54011`, an amount of 1. Neither effect is modelled.
- Qris.GenerateDynamic: anything whose type is not a string or an integral number is one `None` case.
- Qris.ExtractEncoded: the read-back is proved only for an object before which the pattern matches nowhere. On a standard payload an earlier match can exist, for instance in a category code starting with `59` (`Qris.CategoryCodeShadowsName`).
- Qris.AmountTagDecodes needs at most 99 digits. The source writes a longer length field unpadded and does not check it.
- OrderNumber.GenerateOrderNumber: years are limited to 0-9999. `toISOString` writes other years with a sign and six digits.
- Auto-cancel, coupons, shipping, login and registration, OTP, email management and notifications delivery are not part of this model. They are storage calls, timers or HTTP proxies.

## Code notes

The model follows the code as written. Some of its behaviour is probably not what an escrow service intends:

- **A second cancellation request is not rejected.** One would expect a second request to be refused while one is pending. The code does not check, and `Escrow.Store.Cancel` files another `pending` request.
- **A fund release can be completed again.** Completing a release twice would reasonably be an error or a no-op. `Escrow.Store.CompleteRelease` updates the release unconditionally.
- **One order can get two fund releases.** An escrow should release the funds of an order once. Delivery followed by confirmation creates two releases: `Escrow.DeliverThenConfirm`.
- **Proof handling has no status guards.** Proof submission and proof decision check neither the order's status nor the proof's: `Escrow.Store.SubmitProof`, `Escrow.Store.DecideProof`, `Escrow.CancelThenSubmitProof`.
- **`PATCH /orders/:id/status` can set `cancelled` without the cancellation fields.** It can also move an order out of `cancelled`.
- **Price plus fee need not equal the total.** The new amount format takes the three numbers independently, so `total_amount = product_price + platform_fee` holds only on the legacy path.
- **A missing `010211` is not an error.** The code leaves the payload unchanged (`Qris.FlipShape`).
- **The merchant name can be read from the wrong object.** The name pattern scans for `59` anywhere, not at object boundaries. A merchant category code starting with `59` (object `52 04 59xx`) is matched before the real name object `59`. The text read then comes from the objects after the category code (`Qris.CategoryCodeShadowsName`). The city pattern is open to the same mistake: any earlier `60` followed by two digits, such as the end of the currency object `53 03 360` before `58 02 ID`, is matched first.
- **An absurdly large amount becomes a tiny one.** From 10^21 on, `Number.isInteger` accepts the amount (utils/qris.js:56), but `String(parseInt(amount))` keeps only the digit before the exponent (utils/qris.js:79). A payment of 10^21 is offered as 1 without any error. The model does not reproduce this; see "## Left out".
- **The CRC uses only the low byte of each character code.** Characters with the same low byte give the same checksum (`Crc16.LowBytesOnly`). A single changed character is detected only when its low byte changes (`Crc16.SingleChangeDetected`).
