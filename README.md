# Live polling: a verified model

The system is a classroom live-polling service. A teacher creates a poll and starts one timed
multiple-choice question at a time. Students join the poll's room under a display name and answer
once each. Everyone in the room sees the running tally; when the teacher ends the question or its
countdown runs out, everyone gets the final results. The teacher can kick a student. A history
page lists every question asked in a poll with its percentages.

This project models the core of that system in Dafny:

- **The server's socket handlers** (`backend/src/socketHandlers/socketHandler.js`). They are a
  class, `SessionCoordinator.Coordinator`, whose fields are:
  - the poll documents;
  - the registry of running countdowns;
  - the answer registry;
  - what each connection remembers about itself;
  - the outbox of emitted events.

  Each handler is one method. Its contract states the new state and the events it emits, for
  every refusal and for the success path. Each handler also keeps a store invariant,
  `Store.StoreInv`:
  - each poll is well formed;
  - at most one question of a poll is open;
  - votes equal the recorded answers;
  - every running countdown belongs to the active question of its poll;
  - every active question has a countdown.
- **The poll document schema** (`backend/src/models/Poll.js`), with the defaults it fills in and
  the `required` fields a save rejects.
- **The tally.** It gives counts, rounded percentages and the total, and relates them to the
  stored votes.
- **The unique display-name loop.** It is a method with a loop, proved against a function that
  describes the first free name.
- **The student pages:**
  - the join form's poll-id clean-up and validation;
  - the poll page's socket event handlers (connection, question, countdown, results, chat, feedback and removal), answer submission, score keeping and countdown display.
- **The teacher dashboard:**
  - option editing between two and six rows;
  - starting and ending questions;
  - the `canStartQuestion` gate;
  - restoring a poll after a reload.
- **The history page's percentage table.**
- **The two client-side state containers** (the socket state and the poll state). Each is a class
  whose reducers assign fields in place.

## Model

| member | source | states |
|---|---|---|
| Decimal.NatToString | backend/src/socketHandlers/socketHandler.js:42 | the decimal rendering of a number is a non-empty digit string |
| Decimal.ValueOfNatToString | backend/src/socketHandlers/socketHandler.js:42 | reading the decimal rendering back gives the number again |
| Decimal.NatToStringInjective | backend/src/socketHandlers/socketHandler.js:42 | different numbers render differently |
| Decimal.IntToString | frontend/src/pages/StudentPoll.jsx:169 | a negative number renders as a minus sign followed by the rendering of its magnitude |
| Decimal.PadStart2 | frontend/src/pages/StudentPoll.jsx:169 | `padStart(2, '0')` keeps the string as its suffix and fills up to two characters with zeros, only on the left |
| Decimal.ValueOfLeadingZero | frontend/src/pages/StudentPoll.jsx:169 | a leading zero does not change the value a digit string reads as |
| Decimal.ValueOfPadded | frontend/src/pages/StudentPoll.jsx:169 | a zero-padded rendering still reads back as the number |
| Text.TrimStart | frontend/src/pages/StudentJoin.jsx:23 | the result is a suffix of the input, everything cut is whitespace, and it does not start with whitespace |
| Text.TrimEnd | frontend/src/pages/StudentJoin.jsx:23 | the result is a prefix of the input, everything cut is whitespace, and it does not end with whitespace |
| Text.Trim | frontend/src/pages/StudentJoin.jsx:18 | trimming gives the empty string exactly when the input is all whitespace; otherwise it neither starts nor ends with whitespace |
| Text.TrimStartBlankPrefix | frontend/src/pages/StudentJoin.jsx:23 | leading whitespace before a visible character is exactly what `trimStart` removes |
| Text.TrimEndBlankSuffix | frontend/src/pages/StudentJoin.jsx:23 | trailing whitespace after a visible character is exactly what `trimEnd` removes |
| Text.TrimSurrounded | frontend/src/pages/StudentJoin.jsx:23 | trimming a trimmed text surrounded by whitespace gives that text back |
| Text.TrimmedUnchanged | frontend/src/pages/StudentJoin.jsx:23 | a text that starts and ends with a visible character is its own trim |
| Text.TrimKeepsAbsent | frontend/src/pages/StudentJoin.jsx:41 | trimming never introduces a character that was not there |
| Text.Before | frontend/src/pages/StudentJoin.jsx:41 | `split(c)[0]` is the prefix before the first `c`, and contains no `c` |
| Text.AfterLast | frontend/src/pages/StudentJoin.jsx:36-37 | the last element of `split(c)` is the suffix after the last `c`, and contains no `c` |
| Text.BeforeAbsent | frontend/src/pages/StudentJoin.jsx:41 | splitting on a character that is absent keeps the whole string |
| Text.NotContainsMissingChar | frontend/src/pages/StudentJoin.jsx:26 | a pattern with a character the string lacks does not occur in the string |
| PollModel.NewOption | backend/src/models/Poll.js:3-7 | a new option has no votes and is not marked correct |
| PollModel.NewQuestion | backend/src/models/Poll.js:9-24 | a new question keeps its id, text, options and start time, and has the 60-second default time limit, no answers, no end time, and results not saved |
| PollModel.NewSession | backend/src/models/Poll.js:26-31 | a session records its connection, name, tab and the time it joined |
| PollModel.NewChatMessage | backend/src/models/Poll.js:33-38 | a chat message records its text, sender and role and is stamped with the time it was sent |
| PollModel.NewPoll | backend/src/routes/polls.js:37-43 | a new poll has no questions, sessions or chat, no current question, and none active |
| PollModel.NewPollSavable | backend/src/models/Poll.js:40-41 | a new poll can be saved exactly when its title is non-empty |
| Tally.RoundPercent | backend/src/socketHandlers/socketHandler.js:219 | the percentage is 0 with no answers; otherwise it is `votes/total*100` rounded half up |
| Tally.PercentAtMost100 | backend/src/socketHandlers/socketHandler.js:306 | an option never shows more than 100 percent |
| Tally.PercentMonotone | backend/src/socketHandlers/socketHandler.js:306 | more votes never show a smaller percentage |
| Tally.PercentOfAll | backend/src/socketHandlers/socketHandler.js:306 | an option with every vote shows exactly 100 percent |
| Tally.Counts | backend/src/socketHandlers/socketHandler.js:304-305 | the counts are the options' votes, index by index |
| Tally.Percentages | backend/src/socketHandlers/socketHandler.js:304-307 | the percentages are each option's rounded share, index by index |
| Tally.TallyOf | backend/src/socketHandlers/socketHandler.js:300-314 | the broadcast tally is the number of answers, the counts and the percentages of that total |
| Tally.NoAnswersAllZero | backend/src/socketHandlers/socketHandler.js:219 | with no answers every percentage is 0 |
| Tally.RoundingSlackBounds | backend/src/socketHandlers/socketHandler.js:219 | rounding moves each share by at most half a percent |
| Tally.RoundingSlackSum | backend/src/socketHandlers/socketHandler.js:219 | the total rounding error is what separates the sum of the percentages from 100 |
| Tally.PercentagesSumNear100 | backend/src/socketHandlers/socketHandler.js:217-220 | when the votes add up to the total, the percentages add up to 100, give or take half a point per option |
| Tally.FirstCorrect | backend/src/socketHandlers/socketHandler.js:317 | finds the first option marked correct, or reports that there is none |
| Tally.CorrectAnswer | backend/src/socketHandlers/socketHandler.js:317-322 | the correct answer sent is the text of the first option marked correct, and is null exactly when no option is marked |
| Roster.Candidate | backend/src/socketHandlers/socketHandler.js:42 | candidate 0 is the name itself; each later candidate extends the name with a numbered suffix |
| Roster.CandidateInjective | backend/src/socketHandlers/socketHandler.js:42 | different suffix numbers give different names |
| Roster.Tried | backend/src/socketHandlers/socketHandler.js:41-44 | the names tried before step k are exactly candidates 0 to k-1 |
| Roster.TriedSize | backend/src/socketHandlers/socketHandler.js:41-44 | k steps try k different names, so the loop cannot go on longer than the roster is long |
| Roster.SubsetSize | backend/src/socketHandlers/socketHandler.js:41-44 | a subset is no larger than its superset; this bounds the loop |
| Roster.FreeStep | backend/src/socketHandlers/socketHandler.js:41-44 | the search stops at a candidate not on the roster, and every earlier candidate is taken |
| Roster.AssignedNameIsFirstFree | backend/src/socketHandlers/socketHandler.js:38-44 | the assigned name is the first candidate that nobody on the roster has |
| Roster.FirstFreeNameUnique | backend/src/socketHandlers/socketHandler.js:38-44 | there is only one first free name, so the specification picks the name outright |
| Roster.FreeNameKept | backend/src/socketHandlers/socketHandler.js:38-41 | a name nobody has is kept unchanged |
| Roster.TakenNameDecorated | backend/src/socketHandlers/socketHandler.js:41-43 | a taken name becomes `name (n)` for some n of at least 1 |
| Roster.ThirdAlice | backend/src/socketHandlers/socketHandler.js:38-44 | a third "Alice", after "Alice" and "Alice (1)", becomes "Alice (2)" |
| Roster.AssignDisplayName | backend/src/socketHandlers/socketHandler.js:38-44 | the loop returns the first free name, and that name is not on the roster |
| Roster.Participants | backend/src/socketHandlers/socketHandler.js:68-73 | the broadcast roster lists every session's connection id and name, in order |
| Roster.Names | backend/src/socketHandlers/socketHandler.js:39 | the roster's names, in session order |
| Roster.FindSession | backend/src/socketHandlers/socketHandler.js:265 | finds the first session of a connection, or reports that it has none |
| Roster.WithoutSocket | backend/src/socketHandlers/socketHandler.js:421 | removing a connection leaves only sessions of other connections, all taken from the original |
| Roster.WithoutSocketAppend | backend/src/socketHandlers/socketHandler.js:455 | the removal distributes over concatenation |
| Roster.WithoutSocketSingle | backend/src/socketHandlers/socketHandler.js:455 | a single session is dropped exactly when it belongs to the connection |
| Roster.WithoutSocketAbsent | backend/src/socketHandlers/socketHandler.js:455 | removing a connection with no session changes nothing |
| Roster.WithoutSocketIdempotent | backend/src/socketHandlers/socketHandler.js:421 | removing the same connection twice is removing it once |
| Roster.WithoutSocketKeepsOthers | backend/src/socketHandlers/socketHandler.js:421 | every session of another connection survives a removal |
| PollLifecycle.OrElse | backend/src/socketHandlers/socketHandler.js:286 | `a \|\| b` on optional strings: the first one if it is set and non-empty, otherwise the second |
| PollLifecycle.FindQuestion | backend/src/socketHandlers/socketHandler.js:252 | finds the first question with the id, or reports that there is none |
| PollLifecycle.CountChoosing | backend/src/socketHandlers/socketHandler.js:283-290 | no more answers choose an option than there are answers |
| PollLifecycle.SumCountsSnoc | backend/src/socketHandlers/socketHandler.js:283-290 | an extra answer adds one to the count of the option it chose |
| PollLifecycle.SumCountsAll | backend/src/socketHandlers/socketHandler.js:283-290 | when every answer's index is in range, the per-option counts add up to the number of answers |
| PollLifecycle.SumCountsEmpty | backend/src/socketHandlers/socketHandler.js:145 | no answers give no counts |
| PollLifecycle.SumVotesFrom | backend/src/socketHandlers/socketHandler.js:283-290 | when votes match answers, the votes of a range of options add up to the answers choosing them |
| PollLifecycle.TotalVotesEqualsAnswers | backend/src/socketHandlers/socketHandler.js:300 | in a well-formed question the options' votes add up to the number of answers |
| PollLifecycle.EffectiveTimeLimit | backend/src/socketHandlers/socketHandler.js:141 | a missing or zero time limit becomes 60; any other limit is kept |
| PollLifecycle.OpenOption | backend/src/socketHandlers/socketHandler.js:136-140 | a new option keeps its text, has no votes, and is correct only when it was flagged correct |
| PollLifecycle.OpenQuestion | backend/src/socketHandlers/socketHandler.js:132-146 | a started question has the fresh id, the text, its options one for one, the effective limit, the start time, and no answers and no end |
| PollLifecycle.OpenQuestionFresh | backend/src/socketHandlers/socketHandler.js:132-146 | a started question is well formed and has no votes |
| PollLifecycle.WithAnswer | backend/src/socketHandlers/socketHandler.js:283-295 | recording an answer appends it, raises the chosen option's votes by one and leaves every other option as it was, marks the results saved on the first answer and otherwise keeps the flag, and keeps the question's id, text, limit and times |
| PollLifecycle.WithAnswerKeepsInvariant | backend/src/socketHandlers/socketHandler.js:283-295 | a new answer keeps the question well formed, adds one vote to the chosen option, and leaves the other options alone |
| PollLifecycle.Closed | backend/src/socketHandlers/socketHandler.js:206-207 | closing stamps the end time, marks the results saved, and keeps options and answers |
| PollLifecycle.ClosedKeepsTally | backend/src/socketHandlers/socketHandler.js:213-227 | closing does not change the tally |
| PollLifecycle.NewPollInvariant | backend/src/routes/polls.js:37-43 | a new poll is well formed |
| PollLifecycle.AtMostOneOpen | backend/src/socketHandlers/socketHandler.js:119-124 | a well-formed poll has at most one question without an end time |
| PollLifecycle.InactiveAllClosed | backend/src/socketHandlers/socketHandler.js:119-124 | in a well-formed poll with no active question, every question has ended |
| PollLifecycle.CurrentIndex | backend/src/socketHandlers/socketHandler.js:195 | an active well-formed poll's current question exists and has not ended |
| PollLifecycle.WithStartedQuestion | backend/src/socketHandlers/socketHandler.js:148-150 | starting appends the question, makes it current and marks the poll active, and keeps the roster and chat |
| PollLifecycle.StartKeepsInvariant | backend/src/socketHandlers/socketHandler.js:119-150 | starting a question with a new id on an inactive well-formed poll keeps it well formed |
| PollLifecycle.Finalised | backend/src/socketHandlers/socketHandler.js:206-208 | ending closes that question only, marks the poll inactive, and keeps the current question id |
| PollLifecycle.FinaliseKeepsInvariant | backend/src/socketHandlers/socketHandler.js:206-208 | ending the current question keeps the poll well formed, with every question ended |
| PollLifecycle.Answered | backend/src/socketHandlers/socketHandler.js:283-297 | an answer changes only its own question, and not the poll's activity |
| PollLifecycle.AnswerKeepsInvariant | backend/src/socketHandlers/socketHandler.js:264-297 | a first answer from a connection and tab, with a valid index, keeps the poll well formed |
| PollLifecycle.WithSession | backend/src/socketHandlers/socketHandler.js:55-59 | a join appends a session and touches nothing else |
| PollLifecycle.WithoutSessionsOf | backend/src/socketHandlers/socketHandler.js:421 | a kick or disconnect filters the roster and touches nothing else |
| PollLifecycle.WithChatMessage | backend/src/socketHandlers/socketHandler.js:344-349 | a chat message is appended and nothing else changes |
| PollLifecycle.RosterEditsKeepInvariant | backend/src/socketHandlers/socketHandler.js:55-59 | roster and chat edits keep a poll well formed |
| PollLifecycle.FinaliseKeepsSavable | backend/src/socketHandlers/socketHandler.js:206-209 | ending a question never makes the poll unsavable |
| PollLifecycle.AnswerKeepsSavable | backend/src/socketHandlers/socketHandler.js:283-297 | recording an answer never makes the poll unsavable |
| PollLifecycle.StartSavable | backend/src/socketHandlers/socketHandler.js:132-151 | a started question saves exactly when its id, its text and every option text are non-empty |
| PollLifecycle.RosterEditsKeepSavable | backend/src/socketHandlers/socketHandler.js:55-60 | a join saves exactly when the new session has an id and a name; a removal always saves |
| PollLifecycle.LateJoinTimeLeft | backend/src/socketHandlers/socketHandler.js:81-84 | a late joiner's countdown is never negative and never above the limit |
| PollLifecycle.LateJoinTimeLeftMonotone | backend/src/socketHandlers/socketHandler.js:81-84 | joining later never shows more time left |
| PollLifecycle.LateJoinMatchesTicks | backend/src/socketHandlers/socketHandler.js:81-84 | after n whole seconds the late-join countdown is the limit minus n, floored at zero, matching the timer's ticks |
| Protocol.RosterBroadcast | backend/src/socketHandlers/socketHandler.js:68-73 | the roster goes to the poll's room and lists one participant per session, in order, with that session's connection id and name |
| Protocol.OptionTexts | backend/src/socketHandlers/socketHandler.js:162 | the options broadcast are the option texts, in order |
| Store.AuthError | backend/src/socketHandlers/socketHandler.js:477-496 | a teacher-only request is refused with an error exactly when the connection's token is not a valid teacher token |
| Store.EmptyStoreInv | backend/src/socketHandlers/socketHandler.js:5-7 | the empty store and registries satisfy the invariant |
| Store.TimerKeysIssued | backend/src/socketHandlers/socketHandler.js:552 | every running countdown times a question issued for the poll it reports to |
| Store.ActiveQuestionsDistinct | backend/src/socketHandlers/socketHandler.js:132 | two active polls never share a current question id |
| Store.NoStaleTimer | backend/src/socketHandlers/socketHandler.js:126-129 | a poll with no active question has no countdown for its last question |
| Store.AddPollKeepsStore | backend/src/routes/polls.js:37-45 | adding a new poll keeps the store invariant |
| Store.SameIdsKeepIssued | backend/src/socketHandlers/socketHandler.js:297 | an edit that keeps every question id keeps the id ownership |
| Store.SameActivityKeepsTimers | backend/src/socketHandlers/socketHandler.js:297 | an edit that keeps a poll's activity keeps the countdowns consistent |
| Store.QuietUpdateKeepsStore | backend/src/socketHandlers/socketHandler.js:297 | saving a well-formed poll with the same ids and activity keeps the store invariant |
| Store.StartKeepsStore | backend/src/socketHandlers/socketHandler.js:148-154 | starting a question with a fresh id on an inactive poll keeps the store invariant |
| Store.StartStep | backend/src/socketHandlers/socketHandler.js:119-129 | once the start checks pass, the poll is inactive, clearing its old countdown changes nothing, and the new id can be issued |
| Store.JoinStepInto | backend/src/socketHandlers/socketHandler.js:55-60 | whichever way the save of a joined session goes, the polls it leaves behind keep the store invariant |
| Store.StartStepInto | backend/src/socketHandlers/socketHandler.js:127-151 | whichever way the save of a started question goes, the maps it leaves behind keep the store invariant |
| Store.StartKeepsIssued | backend/src/socketHandlers/socketHandler.js:132-148 | appending a question under a freshly issued id keeps every question id owned by its poll |
| Store.StartKeepsTimers | backend/src/socketHandlers/socketHandler.js:148-168 | making the new question current and starting its countdown keeps every countdown owned by an active poll and every active poll timed |
| Store.FinaliseKeepsStore | backend/src/socketHandlers/socketHandler.js:206-211 | ending the current question and dropping its countdown keeps the store invariant |
| Store.FinaliseKeepsTimers | backend/src/socketHandlers/socketHandler.js:206-211 | closing the current question and dropping its countdown keeps countdowns and active polls matched |
| Store.ExpireStepInto | backend/src/socketHandlers/socketHandler.js:509-525 | a countdown reaching zero, dropped and followed by the expiry, keeps the store invariant |
| Store.TickKeepsStore | backend/src/socketHandlers/socketHandler.js:503-507 | a countdown tick keeps the store invariant |
| Store.JoinCheck | backend/src/socketHandlers/socketHandler.js:26-35 | a join proceeds exactly when poll id and name are given and the poll exists; otherwise it gets the matching error |
| Store.TeacherJoinCheck | backend/src/socketHandlers/socketHandler.js:371-384 | a teacher join proceeds exactly when authorised, with a poll id, for an existing poll |
| Store.StartCheck | backend/src/socketHandlers/socketHandler.js:107-124 | a start proceeds exactly when authorised, with a poll id and a question, for an existing poll with no running question; a missing id or question is ignored silently |
| Store.EndCheck | backend/src/socketHandlers/socketHandler.js:180-204 | an end proceeds exactly when authorised, for an active poll whose current question exists and has not ended |
| Store.AlreadyAnswered | backend/src/socketHandlers/socketHandler.js:267-269 | a submission is a repeat exactly when some stored answer has the same connection or the same tab |
| Store.StoredAnswerBlocks | backend/src/socketHandlers/socketHandler.js:267-269 | once an answer is stored, its connection and its tab both count as having answered, and earlier answerers stay answered |
| Store.AnswerTab | backend/src/socketHandlers/socketHandler.js:265-266 | a submission is attributed to the connection's tab, else the session's, else the request's, else the connection id |
| Store.AlreadyAnsweredIsNotNew | backend/src/socketHandlers/socketHandler.js:267-269 | the duplicate check refuses exactly the answers that are not new by connection or by tab |
| Store.SubmitCheck | backend/src/socketHandlers/socketHandler.js:241-280 | an answer proceeds exactly when the fields are present, the poll and question exist, the question is the active one, the student has not answered, and the index is in range |
| Store.DuplicateRefusedBeforeIndex | backend/src/socketHandlers/socketHandler.js:264-280 | a second answer is refused as a duplicate, whatever index it names |
| Store.FinalisedOnce | backend/src/socketHandlers/socketHandler.js:190-209 | after an end, a second end is refused with "No active question to end", and no countdown remains for that poll |
| Store.KickCheck | backend/src/socketHandlers/socketHandler.js:409-418 | a kick proceeds exactly when authorised, with a poll and a target, for an existing poll; a missing poll id or target is ignored |
| SessionCoordinator.CatchUpSendsCurrentQuestion | backend/src/socketHandlers/socketHandler.js:76-95 | a late joiner of an active poll gets exactly the current question, with a non-negative countdown; otherwise nothing |
| SessionCoordinator.Coordinator.constructor | backend/src/socketHandlers/socketHandler.js:5-7 | the server starts with no polls, countdowns, answer registry or connections, and the invariant holds |
| SessionCoordinator.Coordinator.Connect | backend/src/socketHandlers/socketHandler.js:18 | a new connection is remembered with no data |
| SessionCoordinator.Coordinator.CreatePoll | backend/src/routes/polls.js:29-55 | a request with a title and at least two options stores a new empty poll; any other is refused and stores nothing; the invariant is kept |
| SessionCoordinator.Coordinator.StudentJoin | backend/src/socketHandlers/socketHandler.js:22-102 | a refused join sends its error only; an accepted one assigns the first free name and remembers poll, name and tab; if the save succeeds it appends the session and sends the renamed notice, the roster and any running question; the invariant is kept |
| SessionCoordinator.Coordinator.TeacherJoin | backend/src/socketHandlers/socketHandler.js:369-404 | a refused teacher join sends its error; an accepted one sends the roster to the teacher only |
| SessionCoordinator.Coordinator.StartQuestion | backend/src/socketHandlers/socketHandler.js:105-175 | refusals send their error and change nothing; an accepted start clears the stale countdown, stores the question, registers it, broadcasts it and starts its countdown at the effective limit; the invariant is kept |
| SessionCoordinator.Coordinator.JoinPoll | backend/src/socketHandlers/socketHandler.js:38-95 | past the checks: the connection remembers poll, first free name and tab; if the save succeeds the session is stored and the join events are sent, otherwise only the generic failure |
| SessionCoordinator.CatchUp | backend/src/socketHandlers/socketHandler.js:75-95 | at most one event, a question start to the joining connection, sent exactly when the poll has a running question that can be found |
| SessionCoordinator.JoinEvents | backend/src/socketHandlers/socketHandler.js:63-95 | a renamed joiner is told its name first; then the roster goes to the room; then the catch-up |
| SessionCoordinator.Coordinator.BeginQuestion | backend/src/socketHandlers/socketHandler.js:126-174 | past the checks: the stale countdown is cleared and the id issued; a question that passes validation is stored, registered, broadcast with its option texts and timed; otherwise the sender gets the generic failure and nothing else changes |
| SessionCoordinator.Coordinator.EndQuestion | backend/src/socketHandlers/socketHandler.js:178-234 | refusals send their error; an accepted end closes the question, drops its countdown and broadcasts the final tally; the invariant is kept |
| SessionCoordinator.Coordinator.SubmitAnswer | backend/src/socketHandlers/socketHandler.js:237-330 | refusals send their error; an accepted answer adds one vote, records the answer, broadcasts the new tally and sends the student whether they were right and the correct answer; the invariant is kept |
| SessionCoordinator.Coordinator.Chat | backend/src/socketHandlers/socketHandler.js:333-366 | a message to a known poll is stored and broadcast to the room when the save succeeds, and nothing is sent when it fails; a message to an unknown poll is broadcast without being stored |
| SessionCoordinator.Coordinator.KickStudent | backend/src/socketHandlers/socketHandler.js:407-445 | an accepted kick removes the target's sessions, tells the target and disconnects it if it is connected, and broadcasts the new roster |
| SessionCoordinator.Coordinator.Disconnect | backend/src/socketHandlers/socketHandler.js:448-472 | the connection is forgotten; if it had joined a poll, its sessions are removed and the room gets the new roster |
| SessionCoordinator.Coordinator.Tick | backend/src/socketHandlers/socketHandler.js:499-553 | each tick broadcasts the seconds left; at zero the countdown is dropped, and a question still open is closed and its final tally broadcast |
| SessionCoordinator.Coordinator.ExpireQuestion | backend/src/socketHandlers/socketHandler.js:513-540 | at expiry, a question of an existing poll that is found and still open is closed, saved and its final tally broadcast; in every other case nothing changes |
| StudentJoinForm.FirstParamMatch | frontend/src/pages/StudentJoin.jsx:27 | finds the leftmost place where `pollId=` is followed by a non-separator, or reports that there is none |
| StudentJoinForm.ParamValue | frontend/src/pages/StudentJoin.jsx:27 | the captured value is the longest prefix without `&` or `?` |
| StudentJoinForm.ParamValueWhole | frontend/src/pages/StudentJoin.jsx:27 | a value with no separator is captured whole |
| StudentJoinForm.ExtractParam | frontend/src/pages/StudentJoin.jsx:26-31 | with no match the input is kept; otherwise the result is the value after the first match |
| StudentJoinForm.StripUrl | frontend/src/pages/StudentJoin.jsx:34-38 | a URL-looking input is cut to the part of its last path segment before the first `?` or `&`, so it has no `/`, `?` or `&`; other input is kept |
| StudentJoinForm.QueryCut | frontend/src/pages/StudentJoin.jsx:37 | splitting a segment on `?` and then on `&` keeps exactly the prefix before its first `?` or `&` |
| StudentJoinForm.CutFurther | frontend/src/pages/StudentJoin.jsx:37-41 | cutting a prefix that ends at the first separator once more at a new character ends at the first of the larger separator set |
| StudentJoinForm.Cleanup | frontend/src/pages/StudentJoin.jsx:41 | the cleaned id is the trimmed prefix of the input before its first `?`, `&` or `#`, so it has none of them and no surrounding whitespace |
| StudentJoinForm.SeparatorCut | frontend/src/pages/StudentJoin.jsx:41 | the three splits keep exactly the prefix before the first `?`, `&` or `#` |
| StudentJoinForm.NormalisePollId | frontend/src/pages/StudentJoin.jsx:23-41 | the result has no `?`, `&` or `#` and is trimmed; an input with no `pollId=` parameter and no URL look is cut at its first separator and trimmed |
| StudentJoinForm.IsObjectId | frontend/src/pages/StudentJoin.jsx:49 | an id is accepted exactly when it has 24 characters, all hexadecimal digits of either case |
| StudentJoinForm.ObjectIdExamples | frontend/src/pages/StudentJoin.jsx:45-49 | a 24-digit id is accepted in lower and upper case; a 23-character id and one with a `g` are refused |
| StudentJoinForm.HandleSubmit | frontend/src/pages/StudentJoin.jsx:15-56 | errors come in the source's order: blank name, empty id, malformed id; the form navigates exactly when the name is visible and the cleaned id is 24 hex digits, carrying that id and the trimmed name |
| StudentJoinForm.NormalisedIsClean | frontend/src/pages/StudentJoin.jsx:23-41 | whatever is typed, the cleaned id has no `?`, `&` or `#` and is trimmed |
| StudentJoinForm.ObjectIdIsPlain | frontend/src/pages/StudentJoin.jsx:49 | a valid poll id contains no URL syntax and no `pollId=` |
| StudentJoinForm.CleanupObjectId | frontend/src/pages/StudentJoin.jsx:41 | clean-up leaves a valid poll id unchanged |
| StudentJoinForm.BareIdAccepted | frontend/src/pages/StudentJoin.jsx:15-56 | a valid id typed with surrounding spaces is accepted as that id |
| StudentJoinForm.LinkParamAccepted | frontend/src/pages/StudentJoin.jsx:23-41 | a pasted link with a `pollId=` parameter yields the id after the parameter |
| StudentJoinForm.LinkTrimmed | frontend/src/pages/StudentJoin.jsx:23 | such a link is unchanged by trimming |
| StudentJoinForm.LinkEdges | frontend/src/pages/StudentJoin.jsx:23 | such a link starts and ends with a visible character |
| StudentJoinForm.LinkExtracted | frontend/src/pages/StudentJoin.jsx:26-30 | the parameter step keeps exactly the id that follows the link's first `pollId=` |
| StudentJoinForm.LinkFirstMatch | frontend/src/pages/StudentJoin.jsx:27 | the parameter in such a link is the first match |
| StudentJoinForm.ParamValuePrefix | frontend/src/pages/StudentJoin.jsx:27 | the capture stops at the first separator |
| StudentJoinForm.PageUrlAccepted | frontend/src/pages/StudentJoin.jsx:34-41 | a pasted page URL ending in a valid id yields that id |
| StudentJoinForm.AfterLastSegment | frontend/src/pages/StudentJoin.jsx:36-37 | the last path segment of `path/segment` is the segment |
| SocketSlice.Reset | frontend/src/store/slices/socketSlice.js:44-51 | `resetSocket` restores the initial state, except that the student's name is kept |
| SocketSlice.ResetIdempotent | frontend/src/store/slices/socketSlice.js:44-51 | resetting twice is resetting once |
| SocketSlice.ResetForgetsSession | frontend/src/store/slices/socketSlice.js:44-51 | states that differ only in what a reset clears reset to the same state |
| SocketSlice.ChatOrEmpty | frontend/src/store/slices/socketSlice.js:35-37 | a missing chat payload installs an empty chat |
| SocketSlice.SocketState.constructor | frontend/src/store/slices/socketSlice.js:3-11 | the state starts disconnected, with no countdown, no name and no chat |
| SocketSlice.SocketState.SetSocket | frontend/src/store/slices/socketSlice.js:17-19 | only the socket changes |
| SocketSlice.SocketState.SetConnected | frontend/src/store/slices/socketSlice.js:20-22 | only the connection flag changes |
| SocketSlice.SocketState.SetTimeLeft | frontend/src/store/slices/socketSlice.js:23-25 | only the countdown changes |
| SocketSlice.SocketState.SetStudentName | frontend/src/store/slices/socketSlice.js:26-28 | only the name changes |
| SocketSlice.SocketState.SetHasAnswered | frontend/src/store/slices/socketSlice.js:29-31 | only the answered flag changes |
| SocketSlice.SocketState.SetKickedOut | frontend/src/store/slices/socketSlice.js:32-34 | only the kicked flag changes |
| SocketSlice.SocketState.SetChatMessages | frontend/src/store/slices/socketSlice.js:35-37 | only the chat changes, to the payload or to empty |
| SocketSlice.SocketState.AddChatMessage | frontend/src/store/slices/socketSlice.js:38-40 | the message is appended; earlier messages and everything else stay |
| SocketSlice.SocketState.ClearChatMessages | frontend/src/store/slices/socketSlice.js:41-43 | only the chat changes, to empty |
| SocketSlice.SocketState.ResetSocket | frontend/src/store/slices/socketSlice.js:44-51 | the state becomes the reset of the old state, and the name is kept |
| PollSlice.Cleared | frontend/src/store/slices/pollSlice.js:30-35 | `clearPoll` restores the initial state, except that the history is kept |
| PollSlice.ClearedIdempotent | frontend/src/store/slices/pollSlice.js:30-35 | clearing twice is clearing once |
| PollSlice.ClearedDependsOnHistoryOnly | frontend/src/store/slices/pollSlice.js:30-35 | two states clear to the same state exactly when their histories agree |
| PollSlice.PollState.constructor | frontend/src/store/slices/pollSlice.js:3-9 | the state starts with no poll, question, results, participants or history |
| PollSlice.PollState.SetCurrentPoll | frontend/src/store/slices/pollSlice.js:15-17 | only the current poll changes |
| PollSlice.PollState.SetCurrentQuestion | frontend/src/store/slices/pollSlice.js:18-20 | only the current question changes |
| PollSlice.PollState.SetResults | frontend/src/store/slices/pollSlice.js:21-23 | only the results change |
| PollSlice.PollState.SetParticipants | frontend/src/store/slices/pollSlice.js:24-26 | only the participants change |
| PollSlice.PollState.SetPollHistory | frontend/src/store/slices/pollSlice.js:27-29 | only the history changes |
| PollSlice.PollState.ClearPoll | frontend/src/store/slices/pollSlice.js:30-35 | the state becomes the cleared old state; the history is kept |
| StudentPollPage.JsRemainder60 | frontend/src/pages/StudentPoll.jsx:168 | JavaScript's `%` by 60: the ordinary remainder for non-negative input, and never positive for negative input |
| StudentPollPage.TwoDigitsAtMost | frontend/src/pages/StudentPoll.jsx:169 | a number below 100 renders in at most two digits |
| StudentPollPage.FormatTime | frontend/src/pages/StudentPoll.jsx:166-170 | the display has at least five characters; for a non-negative count it is minutes, a colon and two digits of seconds below 60, and reading both back gives the count again |
| StudentPollPage.ClockReadsBack | frontend/src/pages/StudentPoll.jsx:166-170 | padded minutes and seconds of a count read back as that count |
| StudentPollPage.ClockParts | frontend/src/pages/StudentPoll.jsx:169 | joining padded minutes and seconds with a colon keeps both readable at fixed places |
| StudentPollPage.StartingTimeLeft | frontend/src/pages/StudentPoll.jsx:68 | the countdown starts at the sent time left, or at the time limit when that is missing or zero |
| StudentPollPage.LateJoinCountdownShown | frontend/src/pages/StudentPoll.jsx:68 | a late joiner is shown the server's time left, or the whole limit once that has run out to zero |
| StudentPollPage.AfterFeedback | frontend/src/pages/StudentPoll.jsx:86-101 | feedback for a question already counted is ignored; otherwise one more attempt is counted, one more correct answer if it was right, and the question is remembered |
| StudentPollPage.AfterFeedbackKeepsValid | frontend/src/pages/StudentPoll.jsx:86-101 | the score never counts more correct answers than attempts |
| StudentPollPage.FeedbackCountedOnce | frontend/src/pages/StudentPoll.jsx:87-89 | repeated feedback for the same question counts once |
| StudentPollPage.ScoreCountsQuestions | frontend/src/pages/StudentPoll.jsx:86-101 | after any sequence of feedback, the attempts are the number of distinct questions, and no more are correct than attempted |
| StudentPollPage.QuestionIdsSnoc | frontend/src/pages/StudentPoll.jsx:86-101 | the questions heard about after one more piece of feedback are the earlier ones plus that feedback's question |
| StudentPollPage.FeedbackToast | frontend/src/pages/StudentPoll.jsx:90-96 | a right answer gets the success toast; a wrong one gets an error naming the correct answer, or "That was incorrect." when there is none |
| StudentPollPage.StudentPage.constructor | frontend/src/pages/StudentPoll.jsx:13-27 | the page starts waiting, with no selection and no score, and the name defaults to "Student" |
| StudentPollPage.StudentPage.OnConnect | frontend/src/pages/StudentPoll.jsx:39-50 | only the connected flag changes, to true, and the join request carries the page's poll id, student name and tab id |
| StudentPollPage.StudentPage.OnDisconnect | frontend/src/pages/StudentPoll.jsx:52-54 | only the connected flag changes, to false |
| StudentPollPage.StudentPage.OnChatMessage | frontend/src/pages/StudentPoll.jsx:82-84 | only the chat changes: the received message is appended after the earlier ones |
| StudentPollPage.StudentPage.OnKickedOut | frontend/src/pages/StudentPoll.jsx:108-113 | only the kicked-out flag changes, to true |
| StudentPollPage.StudentPage.OnQuestionStarted | frontend/src/pages/StudentPoll.jsx:61-72 | the question is shown with its starting countdown; the answered flag and the selection are cleared |
| StudentPollPage.StudentPage.SelectOption | frontend/src/pages/StudentPoll.jsx:272 | a click selects the option unless the question was answered |
| StudentPollPage.StudentPage.OnTimeLeft | frontend/src/pages/StudentPoll.jsx:74-76 | only the countdown changes |
| StudentPollPage.StudentPage.OnResultUpdate | frontend/src/pages/StudentPoll.jsx:78-80 | only the results change |
| StudentPollPage.StudentPage.OnAnswerFeedback | frontend/src/pages/StudentPoll.jsx:86-101 | the score moves as `AfterFeedback` says, a toast shows exactly when the feedback is not ignored, and the score stays valid |
| StudentPollPage.StudentPage.OnQuestionEnded | frontend/src/pages/StudentPoll.jsx:103-106 | the final results are shown and the countdown becomes 0 |
| StudentPollPage.StudentPage.HandleSubmitAnswer | frontend/src/pages/StudentPoll.jsx:138-153 | nothing happens without a selection, after an answer, or without a question; otherwise the question counts as answered, and the request with poll, question, option, name, socket and tab goes out exactly when there is a socket |
| TeacherDashboardPage.AddOption | frontend/src/pages/TeacherDashboard.jsx:172-176 | below six rows a blank row is appended; at six nothing changes |
| TeacherDashboardPage.WithoutIndex | frontend/src/pages/TeacherDashboard.jsx:180 | filtering out an index removes exactly that element; an index out of range removes nothing |
| TeacherDashboardPage.RemoveOption | frontend/src/pages/TeacherDashboard.jsx:178-182 | above two rows the row at the index goes; at two nothing changes; never fewer than two |
| TeacherDashboardPage.RemoveUndoesAdd | frontend/src/pages/TeacherDashboard.jsx:172-182 | removing the row just added gives the form back |
| TeacherDashboardPage.EditsKeepBounds | frontend/src/pages/TeacherDashboard.jsx:172-182 | adding and removing keep the form between two and six rows |
| TeacherDashboardPage.ValidOptions | frontend/src/pages/TeacherDashboard.jsx:190 | every kept row has visible text, and no more rows are kept than were given |
| TeacherDashboardPage.ValidOptionsMembers | frontend/src/pages/TeacherDashboard.jsx:190 | the filter keeps exactly the rows with visible text: a row is kept if and only if it was given and its text is not blank |
| TeacherDashboardPage.ValidOptionsAppend | frontend/src/pages/TeacherDashboard.jsx:190 | the filter distributes over concatenation |
| TeacherDashboardPage.RequestOptions | frontend/src/pages/TeacherDashboard.jsx:205 | each sent option carries its text and an explicit correctness flag |
| TeacherDashboardPage.WellFormedRequestAccepted | frontend/src/pages/TeacherDashboard.jsx:201-208 | a request the form sends is accepted by the server whenever no question is running there, and the question it opens can be saved |
| TeacherDashboardPage.RestoredQuestionAsWritten | frontend/src/pages/TeacherDashboard.jsx:46-56 | as written: the restored question is the one the poll's current question id names, whether or not it is running |
| TeacherDashboardPage.RestoreAsWrittenBlocksAfterEnd | frontend/src/pages/TeacherDashboard.jsx:46-56 | as written, after a question ends, a reload still restores it and blocks new starts, though the server would accept one |
| TeacherDashboardPage.RestoredQuestion | frontend/src/pages/TeacherDashboard.jsx:46-56 | corrected: the restored question is the current question only while the poll is active |
| TeacherDashboardPage.RestoreBlocksExactlyWhenServerRefuses | frontend/src/pages/TeacherDashboard.jsx:46-56 | corrected: a reload blocks starts exactly when the server would refuse a start because a question is running |
| TeacherDashboardPage.TeacherDashboard.constructor | frontend/src/pages/TeacherDashboard.jsx:18-26 | the form starts empty with two blank rows, a 60-second limit, and starts allowed |
| TeacherDashboardPage.TeacherDashboard.SetQuestionText | frontend/src/pages/TeacherDashboard.jsx:308 | the question text becomes the typed text |
| TeacherDashboardPage.TeacherDashboard.SetTimeLimit | frontend/src/pages/TeacherDashboard.jsx:297 | the time limit becomes the chosen one |
| TeacherDashboardPage.TeacherDashboard.HandleAddOption | frontend/src/pages/TeacherDashboard.jsx:172-176 | the rows become `AddOption` of the old rows, within two to six |
| TeacherDashboardPage.TeacherDashboard.HandleRemoveOption | frontend/src/pages/TeacherDashboard.jsx:178-182 | the rows become `RemoveOption` of the old rows, within two to six |
| TeacherDashboardPage.TeacherDashboard.EditOptionText | frontend/src/pages/TeacherDashboard.jsx:329-333 | only that row's text changes |
| TeacherDashboardPage.TeacherDashboard.SetOptionCorrect | frontend/src/pages/TeacherDashboard.jsx:345-363 | only that row's correctness flag changes |
| TeacherDashboardPage.TeacherDashboard.HandleStartQuestion | frontend/src/pages/TeacherDashboard.jsx:184-214 | alerts come in the source's order and leave the form alone; otherwise the form is reset, starts are held back, and a well-formed request with the visible options goes out exactly when there is a socket |
| TeacherDashboardPage.TeacherDashboard.HandleEndQuestion | frontend/src/pages/TeacherDashboard.jsx:216-222 | without a poll or a question on screen the teacher is alerted; otherwise the end request goes out when there is a socket |
| TeacherDashboardPage.TeacherDashboard.RestorePoll | frontend/src/pages/TeacherDashboard.jsx:39-65 | without a poll id, a login, a socket or a fetched poll nothing changes; otherwise the poll is shown, a running question is put back on screen and blocks starts, and the teacher rejoins |
| TeacherDashboardPage.TeacherDashboard.OnConnect | frontend/src/pages/TeacherDashboard.jsx:77-80 | only the connected flag changes, to true |
| TeacherDashboardPage.TeacherDashboard.OnDisconnect | frontend/src/pages/TeacherDashboard.jsx:82-84 | only the connected flag changes, to false |
| TeacherDashboardPage.TeacherDashboard.OnChatMessage | frontend/src/pages/TeacherDashboard.jsx:86-88 | only the chat changes: the received message is appended after the earlier ones |
| TeacherDashboardPage.TeacherDashboard.OnParticipantsUpdate | frontend/src/pages/TeacherDashboard.jsx:117-119 | only the participants change |
| TeacherDashboardPage.TeacherDashboard.OnResultUpdate | frontend/src/pages/TeacherDashboard.jsx:121-123 | only the results change |
| TeacherDashboardPage.TeacherDashboard.OnQuestionStarted | frontend/src/pages/TeacherDashboard.jsx:125-134 | the question is shown, old results are cleared, and starts are blocked |
| TeacherDashboardPage.TeacherDashboard.OnQuestionEnded | frontend/src/pages/TeacherDashboard.jsx:136-139 | the final results are shown and starts are allowed again |
| PollHistoryView.HistoryTotal | frontend/src/pages/PollHistory.jsx:67 | the total is the number of answers, or 0 when the list is missing |
| PollHistoryView.HistoryPercentages | frontend/src/pages/PollHistory.jsx:68-71 | the loop fills one entry per option index, each the rounded share; a missing option list leaves the table empty |
| PollHistoryView.VoteAtMostSum | frontend/src/pages/PollHistory.jsx:70 | one option's votes never exceed all the votes |
| PollHistoryView.HistoryMatchesLiveTally | frontend/src/pages/PollHistory.jsx:65-71 | for a well-formed stored question, the history shows the same total and percentages as the live tally did, none above 100 |
| PollHistoryView.EntryOf | frontend/src/pages/PollHistory.jsx:74-98 | an entry is headed "Question n" and shows the question's text, one text per option in order equal to that option's text, and each option's share |
| PollHistoryView.RenderHistory | frontend/src/pages/PollHistory.jsx:43-104 | a missing poll shows "Poll not found"; a poll with no questions shows "No questions asked yet."; otherwise every question is listed in order, numbered from one |
| PollHistoryView.HeadingsDistinct | frontend/src/pages/PollHistory.jsx:75 | no two listed questions share a heading |

## Left out

- The socket transport is not modelled. Rooms, `emit` and `disconnect` become events appended to the coordinator's outbox; event delivery and ordering across connections are outside the model.
- The database is an in-memory map from poll id to document. `findById` reads it and `save` writes it back. A save fails only through the schema's `required` fields (`Savable`); connection failures are not modelled. A malformed poll id that would raise a cast error is treated like a missing poll.
- Each handler runs as one atomic step. The interleavings that the `await`s allow between concurrent handlers are not modelled.
- JWT verification is abstracted to a credential value: a valid teacher token, none, a non-teacher token, or an invalid one. The `role` that `authTeacher` writes into the socket data is not kept.
- The clock, `setInterval` and `uuidv4` become parameters. `SessionCoordinator.Coordinator.Tick` is one timer firing. That a new question id is fresh is a precondition of `SessionCoordinator.Coordinator.StartQuestion`.
- `Math.round` over floating-point division is modelled exactly, as rounding half up on rationals. Floating-point error at exact halves is not modelled.
- SessionCoordinator.Coordinator.StartQuestion: the request's question is typed, so a `start_question` whose `question` has no `options` array (the `question.options.map` throw, answered with "Failed to start question" after the stale timer is cleared) is not modelled, and `isCorrect` is an optional boolean, so a truthy non-boolean value that `!!` turns into true is not modelled either.
- `submit_answer` with an `optionIndex` that is not an integer is not modelled: the index is an optional integer.
- The answer registry (`studentAnswers` in the server) is written when a question starts and never read; the model keeps the write.
- SessionCoordinator.Coordinator.KickStudent: the target's disconnect is an event in the outbox. The `disconnect` handler it triggers on the target's side is a separate `Disconnect` call.
- SessionCoordinator.Coordinator.CreatePoll: the REST route's teacher-token check and its HTTP responses are not modelled. The option list is reduced to its length, because the route stores none of it.
- SessionCoordinator.Coordinator.Chat: the message length in the log line and the ISO timestamp format are not modelled.
- `encodeURIComponent` on the navigation URL is not modelled: `StudentJoinForm.Navigation` carries the raw name.
- `localStorage` is not modelled: the tab id, the stored chat history and the remembered poll id are inputs.
- StudentPollPage.StudentPage.OnKickedOut: the two-second timer that then navigates to the removal notice is not modelled; routing is outside the model.
- Rendering, loading states, `alert`/`toast` display and routing are not modelled. `handleCreatePoll` and `handleKick` on the dashboard and `handleExit` on the student page are not modelled; they only call the reducers and requests that are modelled.
- TeacherDashboardPage.TeacherDashboard.EditOptionText and TeacherDashboardPage.TeacherDashboard.SetOptionCorrect: the source copies the row array shallowly and mutates the shared row object. The model replaces the row as a value, so aliasing between renders is not captured.
- TeacherDashboardPage.TeacherDashboard.SetTimeLimit: `Number(e.target.value)` is taken to yield one of the select's integer values; NaN is not modelled.
- TeacherDashboardPage.TeacherDashboard.RestorePoll: the teacher-token guard is the `signedIn` parameter. The fetch is a parameter; a failed fetch is `None`. It uses the corrected restore check (see Findings).

## Findings

| source | as written | input that shows it | evidently intended | confidence | as-written member | corrected member |
|---|---|---|---|---|---|---|
| frontend/src/pages/TeacherDashboard.jsx:46-56 | after a reload, the dashboard treats the poll's `currentQuestionId` as a running question and sets `canStartQuestion` to false. The server keeps that id after a question ends (backend/src/socketHandlers/socketHandler.js:206-208). | start a question, end it, then reload the dashboard: the ended question is restored and "Start question" is refused, although `start_question` would be accepted | restore a question only while `isQuestionActive` is true, so that the dashboard blocks starts exactly when the server refuses them | high (not executed) | TeacherDashboardPage.RestoreAsWrittenBlocksAfterEnd | TeacherDashboardPage.RestoreBlocksExactlyWhenServerRefuses |
