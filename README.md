# FOX faucet frame: cooldown evaluator and claim gate

This project models the core of a Farcaster frame that hands out a small
amount of the FOX token. It has two parts.

- **The cooldown evaluator**, `checkInteractionTime` (lib/utils.ts). It takes
  the time of a requester's last claim and decides whether 24 hours have
  passed. It also renders the time still to wait as `HH:MM:SS`.
  Module `Utils` models it. Module `JsText` models the JavaScript built-ins
  the rendering uses, together with their inverses: `toString` with
  `ParseDecimal`, `padStart`, and `join` with `split`.
- **The claim gate**, `handleRequest` (app/frames/route.tsx). It reads the
  faucet's two balances, then walks a fixed ladder of checks. The ladder ends
  in one of six screens: home, to-do list, no verified address, wait,
  transfer error, or tokens received. Module `FramesRoute` models it.
  - `Respond` is a pure function. It gives the screen, the ordered
    collaborator calls and the claim rows appended by one request.
  - The class `Faucet` holds the `fox_claims` table as a `seq` field and
    keeps a ghost log of the calls. Its method `HandleRequest` performs the
    handler's steps in order. It is proved to produce exactly what
    `Respond` says.

Instants are integer milliseconds passed in as parameters. The test
`diff / (1000 * 60 * 60) >= 24` is modelled as `diff >= 86_400_000`. For an
integer `diff`, the double quotient cannot round up to 24, so the two tests
agree.

The model follows the code in two places where one could expect otherwise.
One could expect a last claim that lies in the future to be clamped to a
24-hour wait. The code does not do this: the wait comes out longer than a
day, and the hours field shows 24 or more (`Utils.FutureClaimNotClamped`).
The code also never takes hours modulo 24.

The answers of the collaborators are the fields of an `Env` value:
- the clock;
- the two balances;
- how the transfer ends: simulation reverted, write failed, or a receipt;
- whether the store accepts the claim row, and the timestamp it gives that row.

## Model

| member | source | states |
|---|---|---|
| Utils.RemainingMs | lib/utils.ts:7 | the remaining milliseconds are zero exactly when at least a day has passed |
| Utils.RemainingSeconds | lib/utils.ts:9 | the whole seconds are the floor of the remaining milliseconds over 1000 |
| Utils.Decompose | lib/utils.ts:9-14 | minutes and seconds are below 60, and hours*3600 + minutes*60 + seconds gives back the total |
| Utils.DecomposeUnique | lib/utils.ts:9-14 | a clock with minutes and seconds below 60 is the decomposition of its own total, so the decomposition is the only one |
| Utils.Field | lib/utils.ts:17-19 | a field is at least two characters, and exactly two when the number is below 100 |
| Utils.FieldParses | lib/utils.ts:17-19 | a padded field is all digits and parses back to its number |
| Utils.FieldOf | lib/utils.ts:17-19 | below 100 a field is its tens digit followed by its units digit, with a leading '0' below 10 |
| Utils.FieldHasNoColon | lib/utils.ts:17-19 | a field never contains the ':' separator |
| Utils.FormatFields | lib/utils.ts:16-20 | the rendering is hours, ':', minutes, ':', seconds |
| Utils.FormatClock | lib/utils.ts:16-20 | no contract of its own; FormatFields, FormatSplits, FormatRoundTrip, FormatLength and ClockDigits state what the joined rendering is |
| Utils.FormatSplits | lib/utils.ts:16-20 | splitting the rendering on ':' gives back exactly the three fields |
| Utils.FormatRoundTrip | lib/utils.ts:16-20 | splitting and parsing the rendering gives back the clock it came from |
| Utils.FormatLength | lib/utils.ts:16-20 | the rendering is at least 8 characters, and exactly 8 when every field is below 100 |
| Utils.ClockDigits | lib/utils.ts:16-20 | a clock with fields below 100 renders as two digits, ':', two digits, ':', two digits |
| Utils.RendersHourMinuteSecond | lib/utils.ts:9-20 | 3661 seconds render as "01:01:01" |
| Utils.RendersSecondsOnly | lib/utils.ts:9-20 | 59 seconds render as "00:00:59" |
| Utils.RendersZero | lib/utils.ts:9-20 | zero seconds render as "00:00:00" |
| Utils.CheckInteractionTime | lib/utils.ts:1-26 | has24HoursPassed holds exactly when now - last >= 86_400_000 ms |
| Utils.HoursTestIsIntegerTest | lib/utils.ts:4-6 | the source's test `diff / 3_600_000 >= 24`, read over the reals, holds exactly when `diff >= 86_400_000`, the integer test the model makes |
| Utils.FormattedTimeReadsBack | lib/utils.ts:9-20 | the returned string parses to hours, minutes below 60 and seconds below 60 that add up to the whole seconds still to wait |
| Utils.PassedShowsZero | lib/utils.ts:6-20 | once a day has passed, the remaining seconds are 0 and the string is "00:00:00" |
| Utils.WithinWindow | lib/utils.ts:4-9 | within the day the verdict is "not passed", the remaining time is 86_400_000 - diff, lies in (0, 86_400_000], and is floored to at most 86400 whole seconds |
| Utils.FutureClaimNotClamped | lib/utils.ts:4-11 | a last claim after now gives "not passed", more than a day to wait, and an hours field of at least 24 |
| Utils.RemainingNonIncreasing | lib/utils.ts:4-9 | as now advances, the remaining milliseconds and whole seconds never grow |
| Utils.PassedFlipsOnce | lib/utils.ts:4-6 | the verdict never goes back from "passed"; it is "not passed" at last + 86_399_999 and "passed" at last + 86_400_000 |
| Utils.WindowFormatLength | lib/utils.ts:7-20 | whenever now is not before the last claim, the string is exactly 8 characters |
| JsText.DigitChar | lib/utils.ts:17-19 | a digit's character is a decimal digit character whose value is the digit |
| JsText.ToDecimal | lib/utils.ts:17-19 | toString gives at least one digit, all digits, no leading zero, one digit exactly below 10, and at most two exactly below 100 |
| JsText.OneDigit | lib/utils.ts:17-19 | a number below 10 renders as its single digit |
| JsText.TwoDigits | lib/utils.ts:17-19 | a number from 10 to 99 renders as its tens digit then its units digit |
| JsText.ParseToDecimal | lib/utils.ts:17-19 | parsing toString's digits gives the number back |
| JsText.Repeat | lib/utils.ts:17-19 | the fill run has the requested length and holds only the fill character |
| JsText.PadStart | lib/utils.ts:17-19 | padStart reaches the width, never cuts: the input is the suffix, and everything before it is the fill character |
| JsText.PadOne | lib/utils.ts:17-19 | padding one character to width 2 puts one fill character in front |
| JsText.PadTwo | lib/utils.ts:17-19 | padding two characters to width 2 changes nothing |
| JsText.ParseLeadingZeros | lib/utils.ts:17-19 | leading '0' characters do not change the parsed value |
| JsText.ZerosParseToZero | lib/utils.ts:17-19 | a run of '0' characters parses to 0 |
| JsText.ParsePadded | lib/utils.ts:17-19 | a zero-padded decimal is all digits and parses back to its number |
| JsText.NoSepInDigits | lib/utils.ts:17-20 | a non-digit separator does not occur in a string of digits |
| JsText.JoinThree | lib/utils.ts:16-20 | joining three parts puts the separator between neighbours only |
| JsText.Join | lib/utils.ts:16-20 | no contract of its own; JoinThree gives the three-part join, and SplitJoin shows that split undoes it |
| JsText.Split | lib/utils.ts:16-20 | split always yields at least one part |
| JsText.SplitWithoutSep | lib/utils.ts:16-20 | a string without the separator splits into itself alone |
| JsText.SplitAtSep | lib/utils.ts:16-20 | splitting at the first separator yields the prefix, then the split of the rest |
| JsText.SplitJoin | lib/utils.ts:16-20 | split undoes join when no part contains the separator |
| FramesRoute.TodoMarks | app/frames/route.tsx:86-101 | the to-do list has one line per flag; a line's box holds 'x' exactly when its flag is true; the lines name Like and Follow |
| FramesRoute.Checkbox | app/frames/route.tsx:91-92 | a to-do line is `[ `, the mark, ` ] ` and the task: 6 characters longer than the task, marked 'x' exactly when the task is done, and ending with the task |
| FramesRoute.TodoItems | app/frames/route.tsx:90-92 | no contract of its own; TodoMarks states that there is one line per flag, in the order Like, Follow, each marked exactly when its flag holds |
| FramesRoute.MostRecentClaim | app/frames/route.tsx:119-124 | the query's answer is absent exactly when the fid has no row; otherwise it is the claimed_at of one of the fid's rows and at least every other one |
| FramesRoute.Plan | app/frames/route.tsx:55-144 | no contract of its own; the ladder's outcomes are stated by NoMessageShowsHome, SocialChecksShowTodo, NoAddressShowsNotice, CooldownShowsWait and PaysWhenEligible |
| FramesRoute.Respond | app/frames/route.tsx:38-193 | no contract of its own; TransferOnlyAfterCooldown, CallsFollowLadder, PayoutToFirstAddress, InsertOnlyAfterReceipt, SavedOnlyWhenEligible and SavedKeepsSpacing state what one request does |
| FramesRoute.Settle | app/frames/route.tsx:144-192 | no contract of its own; SettleOpensWithQuery, FailedTransferSavesNothing, ReceiptShownRegardlessOfInsert and InsertOnlyAfterReceipt state the try block and the insert |
| FramesRoute.NoMessageShowsHome | app/frames/route.tsx:38-83 | without a message: the home screen with both balances, only the two balance reads, no query, no transfer and no row |
| FramesRoute.SocialChecksShowTodo | app/frames/route.tsx:86-101 | a missing like or follow gives the to-do list and only the balance reads: no query, no transfer, no row |
| FramesRoute.NoAddressShowsNotice | app/frames/route.tsx:103-116 | with both social checks passed and no verified address: the notice screen and only the balance reads |
| FramesRoute.WithinDayIsMostRecent | app/frames/route.tsx:119-128 | a claim of the fid less than a day old exists exactly when the most recent claim, the one the handler tests, is less than a day old |
| FramesRoute.CooldownShowsWait | app/frames/route.tsx:128-142 | in cooldown, the wait screen shows the display name and exactly the evaluator's formattedTime; the calls end at the query and no row is saved |
| FramesRoute.PaysWhenEligible | app/frames/route.tsx:128-156 | outside the cooldown, the request goes on to the payout to the first verified address for the fixed amount |
| FramesRoute.TransferOnlyAfterCooldown | app/frames/route.tsx:86-156 | a transfer is attempted exactly when the social checks and the address check pass and no claim of the fid is less than a day old |
| FramesRoute.CallsFollowLadder | app/frames/route.tsx:42-172 | the calls always follow the order balances, query, simulate, write, insert, possibly stopping early, and always include both balance reads |
| FramesRoute.PayoutToFirstAddress | app/frames/route.tsx:144-156 | every simulate and write call pays the first verified address 333_000_000_000_000 base units |
| FramesRoute.InsertOnlyAfterReceipt | app/frames/route.tsx:156-176 | an insert happens only when the write returned a receipt, right after that write, and records fid, custody address and payout address |
| FramesRoute.FailedTransferSavesNothing | app/frames/route.tsx:148-169 | a reverted simulation or a failed write shows the error message, makes no insert and saves no row |
| FramesRoute.ReceiptShownRegardlessOfInsert | app/frames/route.tsx:156-192 | a submitted transfer shows the receipt whether or not the store accepts the row; the row is saved exactly when the store accepts it |
| FramesRoute.SavedOnlyWhenEligible | app/frames/route.tsx:128-176 | a row is saved only for a request that passed every check, and it is the payout's row |
| FramesRoute.AppendKeepsSpacing | app/frames/route.tsx:128-176 | appending a row a day or more after every earlier row of its fid keeps all claims of each fid a day apart |
| FramesRoute.SavedKeepsSpacing | app/frames/route.tsx:128-176 | when the store's clock is not behind the handler's, one request keeps all claims of each fid a day apart |
| FramesRoute.Faucet.constructor | app/frames/route.tsx:119-124 | the claims table starts with the given rows and the call log starts empty |
| FramesRoute.Faucet.QueryLastClaim | app/frames/route.tsx:119-124 | the query logs itself and answers with the most recent claimed_at of the fid |
| FramesRoute.Faucet.InsertClaim | app/frames/route.tsx:172-176 | the insert logs itself and appends the stamped row exactly when the store accepts it |
| FramesRoute.Faucet.HandleRequest | app/frames/route.tsx:38-193 | the screen, the call log and the new table are those of Respond; a well-spaced table stays well spaced when the store's clock is not behind |
| FramesRoute.Faucet.ClaimOrWait | app/frames/route.tsx:119-192 | from the query on, the screen, the calls and the new rows are those of Respond |
| FramesRoute.Faucet.AwaitCooldown | app/frames/route.tsx:119-142 | the query is logged; a wait screen comes back exactly in cooldown, showing the display name and the evaluator's formattedTime of the most recent claim |
| FramesRoute.Faucet.Payout | app/frames/route.tsx:144-192 | simulate, write and insert in that order, stopping at the first failure with its error message; the receipt screen and the row otherwise |

## Left out

- Reading the clock and parsing dates (`new Date()`) are left out. The current time and the last claim time are integer-millisecond parameters.
- The floating-point division in `diffHours` is replaced by the exact integer comparison described above.
- `Number.prototype.toString` switches to exponent notation at 1e21 and above. `JsText.ToDecimal` always gives plain digits. No wait anywhere near that long can arise.
- At app/frames/route.tsx:125 the handler passes the query's row array (`data`, or null on error) to `checkInteractionTime`, whose parameter is a timestamp string. The model passes the most recent `claimed_at` instead. With no prior claim, the evaluator is not consulted and the requester is eligible. What JavaScript makes of the array or null is not modelled. As written, `new Date(data)` of a row array is an invalid date: `has24HoursPassed` is false, `formattedTime` is "NaN:NaN:NaN", and the result is always truthy. So every requester whose claims query succeeds gets the wait screen, and only a failed query (null, read as the epoch) reaches the transfer. The model's payout path is the intended behaviour, not the one the code shows.
- A failing claims query (`error` at app/frames/route.tsx:119) is not modelled. The query always answers from the table.
- Rendering is left out: JSX, `div_style`, the buttons, the chain name, and the block explorer link. Each screen keeps only the data it shows.
- `formatEther` and `formatUnits` of the balances are left out. The home screen carries the raw balances.
- The frames.js hub middleware that validates and parses the message is left out. The message arrives already parsed.
- The two balance reads (app/frames/route.tsx:42-52) always answer in the model. A rejected read ends the request before any check, with no screen, no query and no transfer; that outcome is not modelled.
- The network clients (viem and supabase) are collaborators whose answers come from `Env`. A thrown error's `message` is the string carried by the failed transfer outcome.
- `console.error` logging is left out.
- The `GET` and `POST` exports are left out. They are the same handler.
- Concurrent requests for the same fid are left out. They can both pass the cooldown check before either inserts. The model handles one request at a time, and `SavedKeepsSpacing` is proved only under that assumption.
- FramesRoute.Faucet.ClaimOrWait: does not itself state that the claims of a fid stay a day apart. `HandleRequest` states it, after the call.
