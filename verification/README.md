# Babysitting back end: a verified model of its state machines and allocators

The system books babysitters. This project models the parts of it whose correctness depends on several functions at
once. A table is a sequence of rows, a service call or a job is one step taken at explicit clock readings, and a run is
any sequence of steps. Services that update fields and rows are classes whose methods are proved against functions on
values; the theorems about runs are lemmas about those functions.

| file | what it holds |
|---|---|
| `Bookings.dfy`, `BookingService.dfy` | the booking table, its steps (create, confirm, cancel, the two halves of the expiry job, complete, users coming and going), and the methods that take them |
| `Lifecycle.dfy`, `Expiry.dfy`, `Deadlines.dfy` | closed rows, histories read from columns, the expiry job interleaved with other steps, deadlines and reminders |
| `Cancellations.dfy`, `Statistics.dfy` | the cancellation count and the report's counters over runs |
| `Text.dfy`, `BookingCode.dfy`, `UniqueCodes.dfy`, `UserCodes.dfy` | padded decimal codes, string order against numeric order, and the two code allocators |
| `Chat.dfy`, `ChatService.dfy`, `Mailboxes.dfy`, `Pairs.dfy` | conversations with soft deletion, their refinement of clock-free mailboxes, one conversation per pair |
| `Points.dfy`, `Terms.dfy`, `Images.dfy` | the points ledger, versioned terms, image ordering |
| `Pricing.dfy`, `Schedule.dfy`, `Validation.dfy`, `Comments.dfy` | salary rounding, the calendar grid, flattening of validation errors, comment grouping |
| `Wrappers.dfy` | options, results and error kinds |

## Where the code does less than one would expect

Each of these is a lemma with a concrete case or an exact condition.

- Remaining time is floored to whole seconds, so a booking limited by its first start can expire up to 999 ms before
  that start. It never does exactly when the start is a whole number of seconds after creation
  (`Deadlines.NeverEarlyIff`); `Deadlines.ExpiryCanBeEarly` gives a request that passes validation and does.
- The jobs select through inner joins. A pending booking without slots never expires (`Expiry.NoSlotsNeverExpires`),
  nor one whose babysitter or parent is deleted whenever the job selects (`Deadlines.ExpiryDueIff`).
- The completion job's update has no status guard. Run as two steps it would respect closed rows exactly when no
  cancel took effect on a selected row in between (`Lifecycle.SplitCompletionSafeIff`, `Lifecycle.SplitCompletionOverwritesCancel`).
- An expired booking is stored like a cancellation by the babysitter: the automatic-reject counter is always zero
  (`Statistics.CountersPartition`), and expiries weigh in the cancellation count (`Cancellations.CountIsWithdrawals`).
- Booking codes stay fresh for one number more than the padding holds, ten million a city and month; then the maximum
  is stuck and the unique column refuses every further request of that month (`UniqueCodes.CreateSucceedsIff`). Until
  then the column is never needed (`UniqueCodes.AllocatorDistinctIff`, `UniqueCodes.ColumnIdleIff`).
- A message is hidden by a restore that reads the same millisecond (`Mailboxes.RestoringMessageVisibleIff`).
- A conversation with oneself has two rows, so deleting it once leaves it readable. Deletion hides a conversation exactly
  when the user has no second live row there (`Mailboxes.DeletionHidesIff`); in a reachable table, exactly when it is not
  such a conversation with both rows live (`Mailboxes.DeletionHidesUnlessSelf`).
- `createConversation` looks up by messages, so it duplicates a conversation that was opened but never written in
  (`Pairs.CreateConversationKeepsPairsIff`, `Pairs.CreateConversationDuplicatesOpened`).
- A term update that leaves out the title, the content or the type counts as a change of text and makes a new version
  (`Terms.EditableRowCarriesUpdate`).
- `errorFormatter` throws on a node with neither constraints nor children, keeping what it wrote before
  (`Validation.CompletesIff`, `Validation.StopsAtBareNode`). It is called only by the exception factories of the two
  gateways' validation pipes (`apps/user-gateway/src/main.ts:38-39`, `apps/admin-gateway/src/main.ts:40-41`), and
  nothing in them rules such a node out; whether class-validator ever hands one over is outside this repository.
- The reminder named after 23 hours is sent at 16 hours (`apps/cron-svc/src/app.service.ts:103-108`);
  `Deadlines.RemindedExactlyOnce` holds for any number of hours.

## Model

| member | source | states |
|---|---|---|
| Lifecycle.ClosedForever | apps/booking-svc/src/booking/booking.service.ts:513-601 | over every run a draft, cancelled or completed booking never changes again, in any column |
| Lifecycle.FieldsTellHistory | apps/booking-svc/src/booking/booking.service.ts:513-601 | in every reachable table each row's status, dates, reason and reject flag are exactly the list of steps that took effect on it |
| Lifecycle.HistoryFromColumns | apps/cron-svc/src/booking/booking.service.ts:147-182 | ever confirmed, cancelled or expired can be read off the columns; a reject was never confirmed, a dated non-reject cancellation always was |
| Lifecycle.SplitCompletionSafeIff | apps/cron-svc/src/booking/booking.service.ts:156-182 | with any steps between its select and its update the completion job keeps every closed row if and only if no cancel took effect meanwhile on a row it had selected |
| Lifecycle.SplitCompletionOverwritesCancel | apps/cron-svc/src/booking/booking.service.ts:174-179 | for every acceptable request that is confirmed and whose slot has ended, a cancel between the two halves is overwritten by completed |
| Expiry.ExpiryIsSafe | apps/cron-svc/src/booking/booking.service.ts:147-154 | whatever runs between select and update, expiry changes only rows still pending and past their deadline at the select, and only their status and reject flag |
| Expiry.ExpiryIsPrompt | apps/cron-svc/src/app.service.ts:117-130 | a job selecting at or past the deadline of an untouched pending booking expires it, through any steps of others in between |
| Expiry.NotBeforeDeadline | apps/cron-svc/src/booking/booking.service.ts:137-154 | no run of jobs that select before its deadline changes a pending booking |
| Expiry.NoSlotsNeverExpires | apps/cron-svc/src/booking/booking.service.ts:117-121 | a pending booking without slots is never expired by any run |
| Expiry.ExpiredIffDelivered | apps/cron-svc/src/app.service.ts:117-130 | over any run without a confirm or cancel of it, steps and jobs interleaved at will, a waiting booking is expired if and only if some job selects it, both users live, at or past its deadline, and next updates; otherwise it is unchanged |
| Expiry.NewBookingWaits | apps/booking-svc/src/booking/booking.service.ts:392-406 | a pending booking requested in any reachable table meets the conditions of that theorem |
| Expiry.ExpiredIffTicked | apps/cron-svc/src/app.service.ts:117-130 | over any schedule of uninterrupted jobs, ticks missing or not, a booking is expired if and only if some tick came at or past its deadline |
| Deadlines.ExpiryDueIff | apps/cron-svc/src/booking/booking.service.ts:112-145 | the window of 0 hours selects exactly the pending, joined rows whose deadline has come |
| Deadlines.SelectedForExpiryIff | apps/cron-svc/src/booking/booking.service.ts:117-135 | expiry selects a booking if and only if it is pending, has a slot, its sitter and its parent are live, and its deadline has come |
| Deadlines.RemindedIff | apps/cron-svc/src/booking/booking.service.ts:112-145 | a reminder selects a booking if and only if it is pending, has a slot, its sitter is live, and the remaining time is in the window; the parent does not matter |
| Deadlines.DeadlineRounding | libs/core/databases/postgres/entities/booking.entity.ts:137-163 | flooring moves the deadline forward by less than a second, by nothing if and only if it is a whole number of seconds |
| Deadlines.NeverEarlyIff | libs/core/databases/postgres/entities/booking.entity.ts:137-163 | expiry never fires before createdAt + min(48 h, time to the first start) if and only if that time is a whole number of seconds |
| Deadlines.ExpiryCanBeEarly | libs/core/databases/postgres/entities/booking.entity.ts:151-156 | every acceptable request for a valid six-hour slot 5400.5 s ahead gives a booking that is due half a second before it starts |
| Deadlines.RemainingAfterTicks | libs/core/databases/postgres/entities/booking.entity.ts:158-162 | remaining seconds fall by exactly 3600 an hour until the clamp at 0 |
| Deadlines.RemindedExactlyOnce | apps/cron-svc/src/booking/booking.service.ts:137-144 | with hourly ticks a booking that stays pending gets exactly one notice, counted with multiplicity over all ticks, if more than w-1 hours remain at the first and the tick named comes, and none otherwise |
| BookingService.LoadedBooking.CountDown | libs/core/databases/postgres/entities/booking.entity.ts:137-163 | remainingTime is the time to the deadline in seconds rounded up, 0 exactly from the deadline on, untouched unless pending |
| BookingService.BookingTable.CreateBooking | apps/booking-svc/src/booking/booking.service.ts:369-432 | appends the new booking, or refuses with its error and leaves the table |
| BookingService.BookingTable.ConfirmBooking | apps/booking-svc/src/booking/booking.service.ts:568-601 | sets status and date of a pending booking and nothing else; missing and other bookings are refused; takes the confirm step of the run theorems |
| BookingService.BookingTable.CancelBooking | apps/booking-svc/src/booking/booking.service.ts:513-566 | sets status by who cancels, reject flag by the old status, reason and date, and nothing else; missing and closed bookings are refused; takes the cancel step |
| BookingService.BookingTable.UpdateBookingRejectAfter48Hours | apps/cron-svc/src/booking/booking.service.ts:147-154 | turns over exactly the named rows that are still pending |
| BookingService.BookingTable.RejectedBookingAfter48Hours | apps/cron-svc/src/app.service.ts:117-130 | an uninterrupted job notifies of, once each, and expires exactly the pending bookings with slots, live sitter and live parent past their deadline |
| BookingService.BookingTable.UpdateStatusBookingComplete | apps/cron-svc/src/booking/booking.service.ts:156-182 | completes exactly the confirmed bookings without a slot still to end; takes the completion step |
| Bookings.GetReminderBooking | apps/cron-svc/src/booking/booking.service.ts:112-145 | selects exactly the pending rows with joined slots and users whose remaining time is in the half-open window, each once and in table order |
| Bookings.NewBookingHolds | apps/booking-svc/src/booking/booking.service.ts:392-405 | a new row has the status asked for, the request's users and slots, its city or else the sitter's, and the sitter's rate for the paid time rounded once, or 0 without slots |
| Bookings.NewBookingRefusedIff | apps/booking-svc/src/booking/booking.service.ts:369-374 | a request is refused if and only if sitter, country or city is missing or the sitter deleted, or its code is in use |
| Bookings.LiveAfterRun | apps/cron-svc/src/app.service.ts:117-130 | a user counts as live in a run exactly as the last change of that user says |
| Bookings.RunKeepsRows | apps/booking-svc/src/booking/booking.service.ts:369-601 | no step removes a row or changes its code, users, city, slots, price or creation time |
| Cancellations.CountIsWithdrawals | apps/booking-svc/src/booking/booking.service.ts:343-351 | over every run the count grows by the babysitter's cancellations of confirmed bookings plus the babysitter's expiries |
| Statistics.CountersMissUnseen | apps/report-svc/src/statistics/statistics.service.ts:73-109 | in any table the counters miss exactly parent-cancelled rows without a reject flag |
| Statistics.CountersPartition | apps/report-svc/src/statistics/statistics.service.ts:73-119 | in every reachable table the eight counters partition the non-draft bookings of the range, and automatic rejects are zero |
| Statistics.CountersTellHistory | apps/report-svc/src/statistics/statistics.service.ts:73-119 | in every reachable table each counter's condition holds of a booking if and only if its history says so: who cancelled it, and whether it had been confirmed |
| Statistics.TotalIsNumber | apps/report-svc/src/statistics/statistics.service.ts:73-119 | in any table each total is the number of bookings in the range that its condition matches |
| Statistics.NonDraftIsNumber | apps/report-svc/src/statistics/statistics.service.ts:46-56 | the compared total is the number of non-draft bookings in the range |
| Statistics.TotalsTellHistory | apps/report-svc/src/statistics/statistics.service.ts:46-119 | in every reachable table each of the eight totals is the number of bookings created between the dates whose history is the one it stands for |
| UniqueCodes.AllocatorDistinctIff | apps/booking-svc/src/booking/booking.service.ts:434-456 | with the unique column taken away, all codes of a run, over all cities, months and steps, are distinct if and only if no city's month has more than ten million bookings |
| UniqueCodes.ColumnIdleIff | libs/core/databases/postgres/entities/booking.entity.ts:43-44 | a run with the unique column equals the run without it under exactly the same condition |
| UniqueCodes.CreateSucceedsIff | apps/booking-svc/src/booking/booking.service.ts:369-456 | an acceptable request succeeds if and only if its city's month has fewer than ten million bookings, and its code prints its place in the month |
| UniqueCodes.FreshIff | apps/booking-svc/src/booking/booking.service.ts:434-456 | the allocated code is new if and only if the month is below that number |
| UniqueCodes.CurrentIsCount | apps/booking-svc/src/booking/booking.service.ts:439-455 | the parsed maximum is the number of bookings of the month, stuck at the last number that fits the padding |
| UniqueCodes.FreshWithGaps | apps/booking-svc/src/booking/booking.service.ts:434-456 | over any table of printed codes with gaps, in any order, whose codes of the month fit the padding, the allocated code is a printed one and new |
| UniqueCodes.PurgesKeepDistinct | apps/cron-svc/src/user/user.service.ts:25-47 | over any run of requests and hard deletions of users with their bookings, without the unique column, codes stay distinct while each request's month holds no code past the padding |
| UniqueCodes.SurvivorsAre | libs/core/databases/postgres/entities/booking.entity.ts:105-111 | a hard deletion removes exactly the bookings whose sitter or parent is deleted |
| BookingCode.ReadBack | libs/utils/helpers/booking.helper.ts:11-22 | splitting and parsing a printed code gives its number back |
| BookingCode.CodeLayout | libs/utils/helpers/booking.helper.ts:11-22 | a code is 704, the city in two digits or more, year and month together, and the next number in seven digits or more, joined by dashes |
| BookingCode.CodeTextInjective | libs/utils/helpers/booking.helper.ts:11-22 | equal codes come from the same city, year, month and number, though year and month have no separator |
| BookingCode.OrderOfCodes | libs/utils/helpers/booking.helper.ts:11-22 | in a city's month string order of codes is numeric order up to 9,999,999 |
| BookingCode.OverflowSortsBelow | libs/utils/helpers/booking.helper.ts:16 | the first number past the padding sorts below the last padded one |
| Text.LexIsNumeric | libs/utils/helpers/booking.helper.ts:16 | for digit strings of one length string order is numeric order and printing is injective |
| Text.MaxTextIs | apps/booking-svc/src/booking/booking.service.ts:439-446 | MAX over strings is the one member that bounds all rows |
| Text.ParsePadded | apps/booking-svc/src/booking/booking.service.ts:452-455 | parsing a padded print gives the number, at any width |
| UserCodes.AllocationIsFresh | apps/auth-svc/src/session/session.service.ts:581-612 | over any table of well-formed codes the new code is the role's greatest number plus one and differs from every code of every role; it fails if and only if the role has no prefix or has used its last eight-digit number |
| UserCodes.CurrentIsGreatest | apps/auth-svc/src/session/session.service.ts:599-612 | the number read is the greatest of the role, 0 without users |
| UserCodes.AllocatorKeepsDistinct | apps/auth-svc/src/session/session.service.ts:581-612 | with the unique column taken away, every run of sign-ups keeps codes well formed and distinct, and equals the run with the column |
| UserCodes.PrintedUser | libs/utils/user.util.ts:13-36 | a number below 10^8 prints to a well-formed code of the role that reads back as the number |
| UserCodes.PrintedPrefix | libs/utils/user.util.ts:13-36 | AB704 if and only if babysitter, UR410 if and only if parent, MN410 if and only if manager, then eight digits; administrators get no code |
| UserCodes.SessionService.SetPassword | apps/auth-svc/src/session/session.service.ts:551-597 | refuses without an active sign-up code of that address; uses an accepted code up even when the call then fails; inserts the allocated user, or refuses and leaves the users |
| Mailboxes.TablesAreMailboxes | apps/chat-svc/src/conversation/conversation.service.ts:194-236 | for every run on a strictly increasing clock a user reads in a conversation exactly the messages since the last join or restore: the timestamps implement a clock-free mailbox |
| Mailboxes.MailboxesFromEmpty | apps/chat-svc/src/conversation/conversation.service.ts:194-236 | the same from empty tables, for every user who never addresses oneself, in every conversation |
| Mailboxes.TwoRowsIffSelf | apps/chat-svc/src/message/message.service.ts:121-137 | in every reachable table a user has two rows in a conversation if and only if it is one with oneself |
| Mailboxes.DeletionHidesIff | apps/chat-svc/src/conversation/conversation.service.ts:335-361 | deleting a readable conversation hides it if and only if the user has no second live row in it |
| Mailboxes.DeletionHidesUnlessSelf | apps/chat-svc/src/conversation/conversation.service.ts:335-361 | in every reachable table: if and only if it is not a conversation with oneself whose rows are both live |
| Mailboxes.DeletedNeverReappears | apps/chat-svc/src/conversation/conversation.service.ts:335-361 | over every run after a deletion, what the user reads there is an end of what was sent there after it, letter by letter |
| Mailboxes.PartnerLosesNothing | apps/chat-svc/src/conversation/conversation.service.ts:335-361 | a deletion changes no one else's view and no other conversation |
| Mailboxes.SeenIffRead | apps/chat-svc/src/conversation/conversation.service.ts:217-222 | over every run a message keeps its place and letter, and is seen if and only if it was before or its own receiver had an accepted read of that conversation since |
| Mailboxes.SentIsSeenIffRead | apps/chat-svc/src/message/message.service.ts:59-66 | a sent message becomes the last row, unseen, and is seen later if and only if its receiver reads the conversation after it |
| Mailboxes.RestoringMessageVisibleIff | apps/chat-svc/src/message/message.service.ts:82-99 | the message that restores a user is readable if and only if its reading is after the restore's |
| Mailboxes.SelfConversationSurvivesDeletion | apps/chat-svc/src/message/message.service.ts:121-137 | a run that shows it: a note to oneself, still readable after its deletion |
| Pairs.PairsUniqueRun | apps/chat-svc/src/message/message.service.ts:101-153 | over every run two distinct users share at most one conversation, deleted participants included |
| Pairs.LookupIsSymmetric | apps/chat-svc/src/message/message.service.ts:140-153 | the lookup does not depend on who asks |
| Pairs.BothLiveAfterMessage | apps/chat-svc/src/message/message.service.ts:44-55 | after a message without a conversation id both sides are live in the pair's conversation |
| Pairs.CreateConversationKeepsPairsIff | apps/chat-svc/src/conversation/conversation.service.ts:142-192 | the separate creation keeps pairs unique if and only if the pair has a message or shares no conversation |
| Pairs.CreateConversationIs | apps/chat-svc/src/conversation/conversation.service.ts:142-192 | a pair without a message gets one new conversation with both sides live; a pair with one gets nothing new |
| Pairs.AdminsUniqueRun | apps/chat-svc/src/conversation/conversation.service.ts:363-392 | over every run a user has at most one conversation with the administration, the only kind with one participant |
| Pairs.CreateConversationDuplicatesOpened | apps/chat-svc/src/conversation/conversation.service.ts:142-192 | for any two users, opening the chat page and then creating the conversation leaves the pair with two |
| ChatService.ChatTables.RestoreParticipant | apps/chat-svc/src/message/message.service.ts:82-99 | a participant becomes live, with a new createdAt if and only if the row was deleted; every other row stays |
| ChatService.ChatTables.UpdateConversationTimestamp | apps/chat-svc/src/message/message.service.ts:155-162 | changes updatedAt alone, in every row of the one conversation |
| ChatService.ChatTables.CreateOrRestoreConversation | apps/chat-svc/src/message/message.service.ts:101-138 | finds and restores the pair's conversation, or creates it with both sides live or both away |
| ChatService.ChatTables.CreateMessage | apps/chat-svc/src/message/message.service.ts:27-70 | takes the send step, appends the unseen message to the conversation it answers with, and stamps all its participants |
| ChatService.ChatTables.DeleteConversation | apps/chat-svc/src/conversation/conversation.service.ts:335-361 | takes the delete step, dating only the user's own live row; refused unless there is one |
| ChatService.ChatTables.ReadConversation | apps/chat-svc/src/conversation/conversation.service.ts:194-236 | answers with the messages newer than the reader's row, and marks exactly the messages of that conversation addressed to the reader; a refused read changes no message |
| ChatService.ChatTables.GetConversationByUserId | apps/chat-svc/src/conversation/conversation.service.ts:238-281 | takes the open step, creating a missing conversation with both sides away, and answers with the reader's row in it |
| Points.RunIsBalanced | apps/point-svc/src/point/point.service.ts:51-169 | after any interleaving each babysitter has one row, its total is the sum of its log, each pointAfter is its prefix sum |
| Points.CapsAreExact | apps/point-svc/src/point/point.service.ts:63-150 | each day the log holds exactly min(cap, events): 1 login, 5 comments, 5 posts |
| Points.DailyLimits | apps/point-svc/src/point/point.service.ts:63-150 | in numbers: at most 1 login, 5 comments and 5 posts a day are paid, and all of them once there are that many |
| Points.TotalIsPayPlusRatings | apps/point-svc/src/point/point.service.ts:51-169 | a total is exactly the capped daily pay plus the valid ratings |
| Points.TotalBound | libs/common/constants/constant.ts:11-18 | after D days a total is at most 3.6 D plus the ratings |
| Points.PointService.UpsertPoint | apps/point-svc/src/point/point.service.ts:51-61 | adds to the babysitter's row or inserts it, and answers with its id |
| Points.PointService.TypeLogin | apps/point-svc/src/point/point.service.ts:63-92 | takes the login step of the run theorems |
| Points.PointService.TypeCapped | apps/point-svc/src/point/point.service.ts:94-150 | takes the comment or the post step, which share their code and cap |
| Points.PointService.TypeRating | apps/point-svc/src/point/point.service.ts:152-169 | takes the rating step; ratings outside 1 to 5 are refused |
| Points.PointService.AddPointEvent | apps/point-svc/src/point/point.service.ts:32-49 | takes the step of any kind |
| Terms.RunIsVersioned | apps/config-svc/src/term-policy/term-policy.service.ts:116-197 | over every run a row's version is its place in its lineage and it is editable if and only if it is the newest |
| Terms.FrozenForever | apps/config-svc/src/term-policy/term-policy.service.ts:164-191 | frozen rows never change again, and no row ever changes its text, lineage or version |
| Terms.OneEditablePerLineage | apps/config-svc/src/term-policy/term-policy.service.ts:154-197 | each lineage has exactly one editable row, with the highest version |
| Terms.VersionsAreConsecutive | apps/config-svc/src/term-policy/term-policy.service.ts:184-191 | a lineage's versions are exactly the tenths from 0.1 up to its size |
| Terms.VersionsGrow | apps/config-svc/src/term-policy/term-policy.service.ts:184-191 | a later row of a lineage has a greater version |
| Terms.EditableRowCarriesUpdate | apps/config-svc/src/term-policy/term-policy.service.ts:168-191 | after an accepted update the one editable row of the lineage carries it, as a new shown version if and only if the text is not repeated |
| Terms.MaxOrder | apps/config-svc/src/term-policy/term-policy.service.ts:144-152 | the greatest order number in use, or 0 |
| Terms.OrdersCountSaves | apps/config-svc/src/term-policy/term-policy.service.ts:134-152 | over every run the greatest order number is the number of terms saved: lineages are numbered without gaps |
| Terms.SavedTermIs | apps/config-svc/src/term-policy/term-policy.service.ts:116-142 | a saved term carries the text, settings and status asked for, as version 0.1 of the next lineage |
| Terms.TermPolicyService.SaveTerm | apps/config-svc/src/term-policy/term-policy.service.ts:116-142 | appends the term as asked for as the first version of a lineage above every order in use, or refuses |
| Terms.TermPolicyService.UpdateTerm | apps/config-svc/src/term-policy/term-policy.service.ts:154-197 | takes the update step; answers a bare success or the new version; missing and frozen rows are refused |
| Pricing.PriceIgnoresOrder | apps/booking-svc/src/booking/booking.service.ts:494-511 | slot lists that are permutations of each other cost the same |
| Pricing.PriceIgnoresCut | apps/booking-svc/src/booking/booking.service.ts:494-511 | cutting a slot keeps the price when its break, if any, goes to one part |
| Pricing.PricingApart | apps/booking-svc/src/booking/booking.service.ts:494-511 | pricing two lists apart or together differs by at most 1 |
| Pricing.PriceFloor | apps/user-gateway/src/booking/dto/create-booking.dto.ts:28-44 | n validated slots cost at least round(5 n rate) |
| Pricing.PriceOfPaidTime | apps/booking-svc/src/booking/booking.service.ts:494-511 | the price is the paid milliseconds of all slots times the hourly rate, rounded once |
| Pricing.PriceOfOneSlot | apps/booking-svc/src/booking/booking.service.ts:494-511 | one slot costs its hours, less one for a break, times the rate, rounded |
| Pricing.Round | apps/booking-svc/src/booking/booking.service.ts:510 | the nearest integer, halves upward, for negative amounts too |
| Schedule.GetSchedule | apps/config-svc/src/meta-data/meta-data.service.ts:134-161 | whole weeks of consecutive days; a month's grid holds each of its days exactly once and has 28, 35 or 42 days, each length with its exact condition |
| Schedule.DaysBetween | apps/config-svc/src/meta-data/meta-data.service.ts:145-148 | the loop pushes exactly the consecutive days from start to end |
| Schedule.OccursOnce | apps/config-svc/src/meta-data/meta-data.service.ts:152-157 | a run of consecutive days holds each day of its range once and no other |
| Schedule.WeekdayCounts | apps/config-svc/src/meta-data/meta-data.service.ts:139-152 | weekdays advance by one a day and repeat every seven, anchored at Thursday 1 January 1970 |
| Validation.ErrorFormatter | libs/utils/validation.util.ts:3-26 | flattening through the shared object equals writing the pure list of reports over it, and completes if and only if every node it reaches has constraints, or children that all do |
| Validation.CompletesIff | libs/utils/validation.util.ts:17-22 | the pure list is complete if and only if every node reached has something to report |
| Validation.StopsAtBareNode | libs/utils/validation.util.ts:20 | after any reportable nodes, a node with neither constraints nor children stops the flattening: earlier reports are kept, later ones lost |
| Validation.LastReportWins | libs/utils/validation.util.ts:19-22 | a key holds the text of the last report that names it |
| Validation.ConstraintReported | libs/utils/validation.util.ts:20-22 | a node with constraints reports the text of its last one, or the default text when it has none, under its own name |
| Validation.DottedIs | libs/utils/validation.util.ts:13-15 | a key is its parent and the names of its path, each after a dot; an empty parent or an empty first name leaves no dot |
| Validation.UnnamedKeysKept | libs/utils/validation.util.ts:8-22 | keys no report names are untouched |
| Comments.GetCommentsByPost | apps/post-svc/src/post-comment/post-comment.service.ts:57-70 | in root order, each root with exactly its replies in their original order |
| Comments.RepliesKeepOrder | apps/post-svc/src/post-comment/post-comment.service.ts:45-66 | a root's replies are all those that name it, at increasing places of the input |
| Comments.GroupingConserves | apps/post-svc/src/post-comment/post-comment.service.ts:45-70 | no reply of the page is lost, duplicated or invented, and no other is included |
| Images.OrdersStayDistinct | apps/auth-svc/src/account/account.service.ts:793-843 | over every run of replace, set-default and delete a user's orders stay distinct |
| Images.OneAvatar | apps/auth-svc/src/user-image/user-image.service.ts:43-74 | over every run a user has at most one image of order 0 |
| Images.ReplaceGivesRequest | apps/auth-svc/src/account/account.service.ts:793-843 | after a replacement the user's images are exactly those of the request, each with its own url, its place in it, and its id or else one no row or request had; an id named twice keeps its last place |
| Images.ReplaceKeepsUnnamed | apps/auth-svc/src/account/account.service.ts:798-843 | another user's image stays if and only if the request does not name its id |
| Images.SetDefaultNumbers | apps/auth-svc/src/user-image/user-image.service.ts:58-68 | set-default gives each image of the user a number below n, the chosen one 0, and changes nothing else in it |
| Images.SetDefaultUsesNumberOnce | apps/auth-svc/src/user-image/user-image.service.ts:58-68 | every number below n is used, once |
| Images.SetDefaultLosesNone | apps/auth-svc/src/user-image/user-image.service.ts:58-70 | no image of the user is lost or doubled |
| Images.SetDefaultKeepsSequence | apps/auth-svc/src/user-image/user-image.service.ts:60-67 | behind the chosen image the others keep the sequence they were loaded in |
| Images.SetDefaultTouchesNoOneElse | apps/auth-svc/src/user-image/user-image.service.ts:45-70 | other users' images are untouched |
| Images.SaveAllIs | apps/auth-svc/src/user-image/user-image.service.ts:70 | saving a list overwrites rows by id, the last of an id winning, and keeps the others |
| Images.ImageTable.UpdateUserImages | apps/auth-svc/src/account/account.service.ts:793-843 | takes the replace step, so each image of the request is a row with its own url and place |
| Images.ImageTable.SetUserImageAsDefault | apps/auth-svc/src/user-image/user-image.service.ts:43-74 | takes the set-default step; an image the user does not have is refused |
| Images.ImageTable.DeleteUserImageById | apps/auth-svc/src/user-image/user-image.service.ts:25-41 | takes the delete step; refused, and nothing changed, unless the user has the image |

## Left out

How the model reads the source:

- Row ids are positions in a table, in order of insertion; image ids are numbers, and new ones are unused. The order in
  which a query without ORDER BY returns rows is the table order.
- What createBooking looks up in other tables (babysitters, cities, countries) and which users are live are parameters
  of a step. Two cities never share a code, which the database generates.
- One clock reading stands for the readings one createBooking call takes, so a call straddling the end of a month is not
  modelled. A reading carries its local year and month; years have four digits. The calendar counts days by number:
  daylight saving is not modelled.
- Strings are compared by code point. The codes compared here differ only in digits, so collations agree on them.
- A job takes one reading for all the rows it loads.
- parseInt is modelled on text without a sign or leading blanks, which every stored code is.
- Points and term versions are whole tenths, and prices are exact rationals with one final rounding: floating point is
  not modelled.
- confirmBooking, cancelBooking, the completion job, and each call with several writes are atomic; crashes between two
  writes are not modelled. The expiry job is split into its two steps.
- A reminder and the send step it leads to are one step; notification texts, push, mail, sockets and files are not part
  of this model.

What the members named here do not state:

- UniqueCodes.PurgesKeepDistinct: one direction; once a month holds a code past the padding and deletions have made gaps,
  the stuck maximum may or may not repeat a code.
- Points.PointService.TypeCapped: one method for typeComment and typePost, whose code differs only in the kind.
- UserCodes.SessionService.SetPassword: says nothing of the password and of the token it answers with, which stands
  here for the inserted user; upper-casing the given one-time code is left to the caller.
- ChatService.ChatTables.ReadConversation: all messages at once, without pages; seenAt is not modelled.
- ChatService.ChatTables.CreateMessage: the pre-signed file addresses in the answer are not modelled.
- ChatService.ChatTables.GetConversationByUserId: the partner's profile in the answer is not modelled.
- Bookings.GetReminderBooking: languages and other columns selected for the notification are not modelled.

What the system does that is not modelled:

- Gateways, controllers, request validation beyond the minimum working time, pagination, sessions, one-time codes,
  favourites, reactions, FAQ and ranking: each would only add easy members.
- User codes counted rather than read from the maximum (social sign-in, createBabysitter, createManager): mixed with the
  modelled scheme they do not keep codes unique.
- Cached average ratings, which edits and deletions of ratings do not recompute.
- Mute, pin and the conversation list of chat; muting and pinning do not change what is readable.
- generateSalary, a one-line comprehension.
