# qa-sys: a verified model of the service's stateful core

qa-sys is a question-and-answer system: an HTTP gateway in front of a gRPC service that keeps its
data in PostgreSQL, its sessions and view counts in Redis, and sends votes through Pulsar. This
project models the parts whose correctness spans several calls or several processes, and proves what
they keep over every run.

`dafny verify dfyconfig.toml` checks the whole project.

## How it is organised

| module | what it models |
|---|---|
| `Wrappers`, `Integers`, `Decimal`, `Text`, `Utf8` | results, 64-bit casts, decimal text, splitting at a separator, UTF-8 (section 3 of RFC 3629) |
| `Base64`, `Cbc`, `Aes` | the token cipher: Base64 (sections 3.5 and 4 of RFC 4648), PKCS#7 padding (section 6.3 of RFC 5652) and CBC (section 6.2 of NIST SP 800-38A) over an arbitrary keyed block permutation |
| `Token`, `Gateway` | the token grammar, bearer-token extraction and the authentication middleware |
| `Sessions`, `UserService` | registration, login, logout and verification as a timed state machine, and the calls that change the user table and the session store in place |
| `VoteLedger`, `VoteRepository`, `VotePipeline`, `VoteReply` | the vote tables and transactions, the repository with its consumer loop, the asynchronous pipeline as a step machine, and the optimistic reply |
| `ReadCounter`, `ReadCountMachine` | the write-behind view counter: one flush in place, and any number of flushers interleaved with views |
| `Pages` | the keyset walk over questions and the offset pages of answers |

Every state machine is a total function `Next` on explicit steps: one SQL transaction, one Redis
command, one clock read or one broker action is one step, a step that is not enabled changes nothing,
and a run is any sequence of steps. A read of data that no step changes, as of a registered user's row,
is joined with the step that uses it, and the token check of a verification or a logout carries its
own time. Failing statements, crashes, redelivery, lost confirmations, store
outages and duplicated or stale scans are steps or step parameters, so a theorem about `Run` is a
theorem about every interleaving. The repositories are classes whose methods change their tables and
hashes in place; each method is tied to the function that the lemmas are about.

## What turned out not to hold

- A vote message is not always acknowledged in the end. The messages no run ever acknowledges are
  exactly those with an unknown action and those that would change the votes of a deleted answer
  (`VotePipeline.AckedInSomeRunIff`, `VotePipeline.PoisonIsReachable`).
- Messages of different users do not always commute: two that compete for the last room in one
  answer's bigint count are told apart by their order, and no others are
  (`VoteLedger.MessagesCommuteIff`, `VotePipeline.CompetitionIsReachable`).
- The optimistic vote reply is honoured exactly if the action is "down", or "up" with room left in the
  count: any other action is answered like "down" and is then never handled
  (`VoteReply.ReplyHonouredIff`, `VoteReply.SomeRepliesAreNotHonoured`).
- Pending view counts can go negative: when flushers overlap
  (`ReadCountMachine.OverlappingFlushersGoNegative`), and with a single flusher when a scan lists a
  field twice (`ReadCountMachine.RepeatedFieldGoesNegative`). A view whose row was read before then
  shows 2^64 - 1. No increment is lost either way. Counts stay non-negative exactly if no hash write
  takes more than its field holds (`ReadCountMachine.NeverNegativeIff`), and a hash write does so
  exactly if, since its scan, more was subtracted from the field than was added
  (`ReadCountMachine.HashWriteLeaves`). Flushers that do not overlap and scans without repeats are
  enough (`ReadCountMachine.OneAtATimeNeverOverdraws`).
- A flush fails unless every listed field names a live question and every write succeeds, so the
  leftover field of one deleted question stops every flush that lists it
  (`ReadCounter.RoundsEndIff`, `ReadCountMachine.LeftoverFieldStopsFlushes`). A failed hash write
  leaves its row raised and its field not lowered (`ReadCounter.FailedFlushLeaves`).
- The guard meant to reject answer page 0 cannot fire, because the subtraction gives -1; page 0 is
  refused by its negative offset (`Pages.FindLatestAnswersOkIff`).
- State 1 of `verify_token` does not always mean a live session. For a token that checks, the reply has
  state 1 exactly if its session is live or the session store fails with any text but "session not
  found" (`Sessions.StateOneIff`); in the second case it names nobody, so it is right only for a user
  registered under the empty name (`Sessions.StateOneVouchesIff`). The token of a user who has logged
  out gets such a reply when the store times out (`Sessions.LoggedOutTokenGetsStateOne`). The gateway
  refuses the empty name, so no such request gets through (`Sessions.AdmittedPrincipalOwnsSession`).

## Model

| member | source | states |
|---|---|---|
| Aes.RoundTrip | crates/core/src/aes.rs:93-134 | for every text, key, IV and size that `new` accepts, encryption succeeds and decrypting gives the text back |
| Aes.DecryptCanonical | crates/core/src/aes.rs:114-134 | whatever decrypts is exactly what encrypting its plaintext writes |
| Aes.DecryptIffEncrypt | crates/core/src/aes.rs:61-134 | encryption and decryption are inverse relations over all pairs of texts |
| Aes.CiphertextShape | crates/core/src/aes.rs:93-107 | the exact length of a ciphertext and its alphabet |
| Aes.NewIff | crates/core/src/aes.rs:61-86 | exactly which keys and initial vectors are accepted, and the refusal of the others |
| Aes.EncryptedBlocks | crates/core/src/aes.rs:93-107 | a ciphertext is the Base64 of blocks, each the encryption of the exclusive or of a block of the padded text and the ciphertext block before it, or the initial vector |
| Aes.DecryptRefusals | crates/core/src/aes.rs:114-134 | the refusals of decryption told apart: not canonical Base64, not an encryption of padded data, an encryption of bytes that are not UTF-8 |
| Base64.RoundTrip | crates/core/src/aes.rs:106-106 | decoding undoes encoding for all bytes |
| Base64.Canonical | crates/core/src/aes.rs:115-117 | only canonical Base64 is decoded: re-encoding gives the same text |
| Base64.GroupText | crates/core/src/aes.rs:106-106 | how a group is written: the characters of the alphabet for its sextets, then padding |
| Base64.SextetsAreBits | crates/core/src/aes.rs:106-106 | four sextets are the 24 bits of three bytes |
| Cbc.XorBlockIsXor | crates/core/src/aes.rs:101-103 | the exclusive or sets exactly the bits that differ |
| Cbc.DecryptEncrypt | crates/core/src/aes.rs:95-103 | CBC decryption undoes encryption for any block permutation, key, IV and number of blocks |
| Cbc.EncryptDecrypt | crates/core/src/aes.rs:119-130 | CBC encryption undoes decryption |
| Cbc.EncryptChains | crates/core/src/aes.rs:93-103 | every ciphertext block is the encryption of its plaintext block combined with the ciphertext block before it, or the initial vector |
| Cbc.PadBytes | crates/core/src/aes.rs:95-103 | padding goes up to the next multiple of 16 and every added byte is the number of added bytes |
| Cbc.UnpadPad | crates/core/src/aes.rs:95-103 | padded data is whole blocks and unpads to the data |
| Cbc.PadUnpad | crates/core/src/aes.rs:119-130 | what unpads is exactly what padding writes |
| Utf8.RoundTrip | crates/core/src/aes.rs:133-133 | decoding the bytes of a text gives the text |
| Utf8.Canonical | crates/core/src/aes.rs:133-133 | only one byte string decodes to a text |
| Utf8.EncodeCharForm | crates/core/src/aes.rs:95-103 | the four forms of UTF-8, each the shortest for its character |
| Token.IssuedTokenChecks | crates/qa-svc/src/application/app.rs:130-137 | an issued token is read back as its openid until its expiry and is expired from then on |
| Token.CheckPayloadIff | crates/qa-svc/src/application/app.rs:74-99 | exactly which payloads are accepted for an openid |
| Token.CheckPayloadFields | crates/qa-svc/src/application/app.rs:80-99 | how a three-field payload is answered, by its openid's length, its third field and the clock |
| Token.MalformedIff | crates/qa-svc/src/application/app.rs:74-89 | any payload that is not three fields is malformed |
| Token.UndecryptableIff | crates/qa-svc/src/application/app.rs:65-73 | the empty token is refused, and so is any that is not an encryption |
| Token.CheckTokenAnswers | crates/qa-svc/src/application/app.rs:65-100 | any other token is answered as its payload is |
| Token.CheckTokenIff | crates/qa-svc/src/application/app.rs:65-100 | exactly which strings are accepted: encryptions of unexpired three-field payloads with a 32-byte openid |
| Gateway.AuthorizationTokenIff | crates/gateway/src/router.rs:107-126 | exactly which headers yield a given token: "bearer" in any case, a space, and 1 to 512 characters without white space |
| Gateway.RoutesArePublicIff | crates/gateway/src/router.rs:29-67 | exactly five paths are public; the other twelve routes are not |
| Gateway.IssuedTokenPasses | crates/gateway/src/router.rs:107-126 | every token login can issue is at most 128 characters and passes the gateway unchanged |
| Gateway.VerifyToken | crates/gateway/src/router.rs:73-105 | the middleware goes on exactly for the five public paths and for verified names of 1 to 64 bytes, records exactly that name and token, and how each failure is answered |
| Sessions.RunKeepsInv | crates/qa-svc/src/application/app.rs:106-266 | users, sessions and pending logins stay consistent over every run |
| Sessions.VerifiedNameOwnsOpenid | crates/qa-svc/src/application/app.rs:226-266 | in every reachable world and store condition, a verified name is the one owner of the token's openid, the token was unexpired when checked and the session is live when looked up |
| Sessions.VerifyRefusesIff | crates/qa-svc/src/application/app.rs:231-240 | exactly which tokens are refused and with which code |
| Sessions.StateOneIff | crates/qa-svc/src/application/app.rs:231-265 | exactly when the reply has state 1: the token checks and its session is live, or the store fails with any text but "session not found" |
| Sessions.ContainsIff | crates/qa-svc/src/application/app.rs:241-241 | the reply's test for "session not found" is a substring test |
| Sessions.StateOneVouchesIff | crates/qa-svc/src/application/app.rs:238-265 | exactly when state 1 means that the named user owns a live session of the token's openid |
| Sessions.LoggedOutTokenGetsStateOne | crates/qa-svc/src/application/app.rs:248-254 | a run after which a logged-out token, verified while the store times out, gets state 1 |
| Sessions.LogoutRevokesEveryToken | crates/qa-svc/src/application/app.rs:170-195 | after a logout every token of that openid, whenever it was checked, is refused until a session is saved for it again |
| Sessions.TokenLastsADay | crates/qa-svc/src/application/app.rs:130-137 | a login stamped at some time carries a token that is good for 86400 whole seconds |
| Sessions.SessionLastsADay | crates/qa-svc/src/core/user.rs:101-133 | a saved session is found for exactly 86400 seconds unless it is removed or saved again, and tokens of its openid are answered accordingly |
| Sessions.LoginAgainIff | crates/qa-svc/src/application/app.rs:111-152 | the right password begins a login exactly if no session of the user is found, and that login saves one |
| Sessions.LoginStepsInOrder | crates/qa-svc/src/application/app.rs:122-152 | a login takes its steps in order and once, and touches no other login |
| Sessions.HeldAnswers | crates/qa-svc/src/core/user.rs:101-133 | exactly what an issued token is answered, by when it was checked and when its session is looked up; a held session outlives the token it was saved for |
| Sessions.IssuedTokenStaysUsable | crates/qa-svc/src/application/app.rs:122-152 | after a saved login, and unless the session is removed, the token verifies to the user's name at every second before its expiry and no later; a look-up after the check still finds the session until the session's own deadline |
| Sessions.AdmittedPrincipalOwnsSession | crates/gateway/src/router.rs:82-100 | a principal the gateway admits owns a live session whose openid the token carries, even while the store fails |
| Sessions.IssuedTokenAdmitted | crates/gateway/src/router.rs:128-137 | an issued token is admitted exactly if it was unexpired when checked, its session is live, as it is until the expiry, and the name has 1 to 64 bytes |
| UserService.UserService.UserRegister | crates/qa-svc/src/application/app.rs:196-223 | registration is the machine's step; which refusal is given for a failing look-up, an existing name and a failing insert, and that none of them changes anything |
| UserService.UserService.UserLogin | crates/qa-svc/src/application/app.rs:106-168 | a login is the machine's five steps in a row; its refusal and the issued token |
| UserService.RefusalIff | crates/qa-svc/src/application/app.rs:111-166 | a login is let through exactly if the machine may begin it and its session can be written; which refusal is given exactly when |
| UserService.UserService.UserLogout | crates/qa-svc/src/application/app.rs:170-195 | a logout is the machine's step; it succeeds exactly for a valid token with the store up, and which refusal is given exactly when |
| UserService.UserService.Get | crates/qa-svc/src/core/user.rs:101-119 | a session is found exactly while live and the store up |
| UserService.UserService.Set | crates/qa-svc/src/core/user.rs:120-133 | the session is stored with its lifetime, or nothing changes |
| UserService.UserService.Del | crates/qa-svc/src/core/user.rs:134-146 | the session is removed, or nothing changes |
| VoteLedger.HandleKeepsInv | crates/qa-svc/src/core/user_vote.rs:34-142 | handling any message keeps one row per user and answer and every count equal to its rows |
| VoteLedger.AddKeepsInv | crates/qa-svc/src/core/answer.rs:44-58 | a new answer, with its fresh id, keeps the invariant |
| VoteLedger.AddIsExact | crates/qa-svc/src/core/answer.rs:44-58 | a new answer has the next id and no votes, and leaves everything else as it was |
| VoteLedger.UpdateIsExact | crates/qa-svc/src/core/answer.rs:60-74 | an update changes exactly the content of exactly that answer |
| VoteLedger.DeleteIsExact | crates/qa-svc/src/core/answer.rs:76-88 | a deletion removes exactly that answer, and only for its author |
| VoteLedger.CancelIsExact | crates/qa-svc/src/core/user_vote.rs:104-142 | a cancellation deletes exactly one row, succeeds exactly for a live answer, and the clamp at zero never bites |
| VoteLedger.VoteRefusedIff | crates/qa-svc/src/core/user_vote.rs:64-102 | exactly when the vote transaction is refused, and why |
| VoteLedger.CancelRefusedIff | crates/qa-svc/src/core/user_vote.rs:104-142 | exactly when the cancel transaction is refused, and why; a count is never left negative, whatever the tables are |
| VoteLedger.HandleOkIff | crates/qa-svc/src/core/user_vote.rs:34-62 | exactly which messages are handled, and which of them take effect |
| VoteLedger.HandleSetsRow | crates/qa-svc/src/core/user_vote.rs:34-62 | a handled message leaves its own vote as asked and every other vote alone |
| VoteLedger.HandleTwice | crates/qa-svc/src/core/user_vote.rs:45-55 | handling a message again succeeds and changes nothing |
| VoteLedger.MessagesCommuteIff | crates/qa-svc/src/core/user_vote.rs:34-142 | messages for different answers or users leave the same tables in either order, except exactly when they compete for the last room in one answer's count |
| VoteRepository.PlaceholdersNameOneToLen | crates/qa-svc/src/core/user_vote.rs:26-32 | the generated list names parameters 1 to the length, in order |
| VoteRepository.BatchSelects | crates/qa-svc/src/core/user_vote.rs:175-195 | with the batch's placeholders and bindings the query selects exactly the listed targets the user voted for |
| VoteRepository.VoteRepository.VoteAnswer | crates/qa-svc/src/core/user_vote.rs:64-102 | the insert-and-count transaction, rolled back by any failing statement; a commit whose confirmation is lost stands although an error is returned |
| VoteRepository.VoteRepository.CancelVoteAnswer | crates/qa-svc/src/core/user_vote.rs:104-142 | the delete-and-count transaction, rolled back by any failing statement; a commit whose confirmation is lost stands although an error is returned |
| VoteRepository.VoteRepository.HandlerAnswerAgree | crates/qa-svc/src/core/user_vote.rs:34-62 | look-up, decision and transaction, with a fault at any statement or at the confirmation |
| VoteRepository.VoteRepository.IsBatchVoted | crates/qa-svc/src/core/user_vote.rs:165-201 | a key for exactly the listed ids for which the single look-up holds; an error exactly if a query is made and fails |
| VoteRepository.VoteRepository.HasAgreedFlags | crates/qa-svc/src/application/app.rs:569-587 | the list shows for each answer the flag the detail call would show, none when the look-up fails |
| VoteRepository.StatusAfter | crates/qa-svc/src/core/user_vote.rs:236-276 | what ends the consumer loop and whether with an error |
| VoteRepository.VoteRepository.Consumer | crates/qa-svc/src/core/user_vote.rs:222-276 | the loop computes the fold of its turns over whatever is delivered, its counter is the number of acks, and counts and votes stay in agreement |
| VotePipeline.RunKeepsInv | crates/qa-svc/src/core/user_vote.rs:222-276 | the pipeline invariant, with the consumer's position and remembered look-up, holds over every run |
| VotePipeline.CountsAgreeWithVotes | crates/qa-svc/src/core/user_vote.rs:64-142 | in every reachable state every live answer's count equals its votes, no user has two, and no vote names an answer still to come |
| VotePipeline.VotesAreLastWriterWins | crates/qa-svc/src/core/user_vote.rs:237-274 | a vote is recorded exactly if the last applied message for its answer and user was "up", under redelivery and crashes |
| VotePipeline.AckedWereApplied | crates/qa-svc/src/core/user_vote.rs:252-271 | every acknowledged message is a decodable one that was itself handled, and every entry of the history is such a message |
| VotePipeline.AckedWhenInPlace | crates/qa-svc/src/core/user_vote.rs:260-270 | when a message is acknowledged it is the last one handled, and its vote is as it asks |
| VotePipeline.AckLeaves | crates/qa-svc/src/core/user_vote.rs:268-271 | what an acknowledgement does, and what a failing one does |
| VotePipeline.CounterIsAcks | crates/qa-svc/src/core/user_vote.rs:235-271 | in every run the counter is the number of acknowledgements since the consumer was started |
| VotePipeline.UnhandledStaysUnacked | crates/qa-svc/src/core/user_vote.rs:254-265 | exactly when a transaction ends with its message handled; any other end acknowledges nothing and changes no table, except that a commit whose confirmation is lost stands |
| VotePipeline.PendingCancelIsExact | crates/qa-svc/src/core/user_vote.rs:104-142 | a cancellation about to run deletes one row and lowers the count by one, although answers may have come and gone since its look-up |
| VotePipeline.RedeliveryIsNoOp | crates/qa-svc/src/core/user_vote.rs:260-270 | a message whose effect is in place is acknowledged without changing any table |
| VotePipeline.DeletionFreezesVotes | crates/qa-svc/src/core/answer.rs:76-88 | only the author deletes an answer; from then on it is gone and its votes never change in any run |
| VotePipeline.EditStepsAreExact | crates/qa-svc/src/core/answer.rs:44-88 | answers added, updated and deleted while the consumer is anywhere |
| VotePipeline.PoisonIsNeverAcked | crates/qa-svc/src/core/user_vote.rs:261-265 | a message that cannot succeed is never acknowledged in any run |
| VotePipeline.PoisonIsReachable | crates/qa-svc/src/core/user_vote.rs:261-265 | a run after which a vote for an answer deleted meanwhile is acknowledged in no later run |
| VotePipeline.AckedInSomeRunIff | crates/qa-svc/src/core/user_vote.rs:252-271 | from any reachable state a message that is not already handled can still be acknowledged in some run exactly if it is not poison |
| VotePipeline.TurnRefinesMachine | crates/qa-svc/src/core/user_vote.rs:246-272 | one turn of the loop is the machine's deliver, look-up, transaction and ack, with any fault |
| VotePipeline.LoopRefinesMachine | crates/qa-svc/src/core/user_vote.rs:236-276 | over any events, shutdown, stream end and undecodable messages included, the loop's tables, acks and counter are those of a run of the machine |
| VotePipeline.LoopKeepsLedger | crates/qa-svc/src/core/user_vote.rs:236-276 | after a whole consumer run from a reachable state counts and votes agree, only handled messages were acknowledged, and each vote is as the last handled message asked |
| VotePipeline.CompetitionIsReachable | crates/qa-svc/src/core/user_vote.rs:83-102 | a run after which two votes on an answer with room for one leave different tables in the two orders |
| VoteReply.ReplyHonouredIff | crates/qa-svc/src/application/app.rs:393-456 | exactly when the published message takes effect and leaves the replied count, with unrelated steps in between |
| VoteReply.SomeRepliesAreNotHonoured | crates/qa-svc/src/application/app.rs:415-434 | runs after which an unknown action, and a vote for a full answer, are accepted and not honoured |
| VoteReply.ReplyDoesNotUnderflow | crates/qa-svc/src/application/app.rs:429-434 | a reply to a cancellation is one less than the stored count and never negative |
| VoteReply.PublishesIff | crates/qa-svc/src/application/app.rs:405-448 | a message is sent exactly for a found answer whose vote is not already as asked; refusals send nothing |
| VoteReply.RepliesIff | crates/qa-svc/src/application/app.rs:393-456 | exactly which reply is given when, the replied count, and the fields of the message |
| ReadCounter.TurnsMove | crates/qa-svc/src/core/question.rs:118-135 | what leaves the hash enters the row, however fields repeat and whatever arrives meanwhile |
| ReadCounter.FlushDrains | crates/qa-svc/src/core/question.rs:60-137 | a flush that has not failed has moved exactly what was pending at the scan and left exactly what arrived after it |
| ReadCounter.FlushCompletesIff | crates/qa-svc/src/core/question.rs:37-43 | working off given pages fails exactly if a listed field does not name a live question or a write fails, and is done exactly if it does not fail and cursor 0 came back |
| ReadCounter.RoundsEndIff | crates/qa-svc/src/core/question.rs:60-137 | the flush loop fails exactly if a scan goes unanswered, a listed field does not name a live question or a write fails, and is done exactly if none of these and cursor 0 came back |
| ReadCounter.TurnsStopAt | crates/qa-svc/src/core/question.rs:118-130 | when a page fails at a field, for any reason, the fields before it are flushed and nothing after it is touched |
| ReadCounter.FlushStopsAt | crates/qa-svc/src/core/question.rs:60-137 | a failed flush is a completed flush of everything before the failing field, across pages, and that field's turn |
| ReadCounter.FailedTurnLeaves | crates/qa-svc/src/core/question.rs:22-58 | what a failing turn leaves: nothing changed, or after a failed hash write the row raised and the field not lowered, or after a lost reply both |
| ReadCounter.FailedFlushLeaves | crates/qa-svc/src/core/question.rs:60-137 | on any error the questions listed before the failing field are drained and all others untouched but for arrivals and what the failing turn still did |
| ReadCounter.FlushedFieldIsZero | crates/qa-svc/src/core/question.rs:60-137 | an undisturbed flush that has not failed leaves a field it lists once at 0 and its row raised by what the field held |
| ReadCounter.SecondFlushChangesNothing | crates/qa-svc/src/core/question.rs:60-137 | after such a flush, flushing again any fields it listed once changes nothing |
| ReadCounter.QuestionRepository.Incr | crates/qa-svc/src/core/question.rs:243-260 | the field is incremented unless it is full; the reply is the new value as a u64 |
| ReadCounter.QuestionRepository.UpdateReadCount | crates/qa-svc/src/core/question.rs:22-58 | row first, then the field, stopping where a write fails; a write whose reply is lost stands |
| ReadCounter.QuestionRepository.RedisCmd | crates/qa-svc/src/core/question.rs:101-137 | one scan, sent the cursor, whose reply is worked off field by field; an unanswered scan changes nothing |
| ReadCounter.QuestionRepository.HandlerRedisToPg | crates/qa-svc/src/core/question.rs:60-99 | the loop follows the cursors the server returns until cursor 0 or the first error, as far as the server is followed |
| ReadCountMachine.RunKeepsInv | crates/qa-svc/src/core/question.rs:22-58 | every question stays balanced over every interleaving |
| ReadCountMachine.AddQuestionIsExact | crates/qa-svc/src/core/question.rs:155-170 | a new question has the next id and nothing read, and leaves everything else as it was |
| ReadCountMachine.DeleteQuestionIsExact | crates/qa-svc/src/core/question.rs:186-199 | a deletion removes exactly that question, only for its author, and leaves its field |
| ReadCountMachine.FlusherStepsInOrder | crates/qa-svc/src/core/question.rs:60-137 | a flusher works its batch off in order |
| ReadCountMachine.ReadsAreConserved | crates/qa-svc/src/core/question.rs:22-58 | row plus field equals all increments plus what flushers have added and not yet subtracted, abandoned amounts included |
| ReadCountMachine.FieldsAreCanonical | crates/qa-svc/src/core/question.rs:243-260 | every field of the hash, in every run, is some id as `incr` writes it |
| ReadCountMachine.TurnRefinesMachine | crates/qa-svc/src/core/question.rs:118-130 | one turn of a flush, with the increments that arrive meanwhile, any fault and any overflow, is the machine's increments and writes |
| ReadCountMachine.FlushRefinesMachine | crates/qa-svc/src/core/question.rs:60-137 | a whole flush over pages is a run of the machine made of one flusher's own steps and of increments |
| ReadCountMachine.FlushConserves | crates/qa-svc/src/core/question.rs:60-137 | after a flush from any reachable state row plus field is still all increments and what is owed |
| ReadCountMachine.LeftoverFieldStopsFlushes | crates/qa-svc/src/core/question.rs:116-130 | a run after which the field of a deleted question is left and every flush whose first page lists it fails |
| ReadCountMachine.DisplayedCount | crates/qa-svc/src/application/app.rs:458-489 | a view fails exactly if its field is full, and otherwise shows the exact number of increments, its own included, plus what is owed, less what flushes moved meanwhile, wrapped only if that is negative |
| ReadCountMachine.LaterViewShowsMore | crates/qa-svc/src/application/app.rs:471-483 | undisturbed views are exact, so a later one shows strictly more |
| ReadCountMachine.FieldNegativeIff | crates/qa-svc/src/core/question.rs:46-55 | in every run a field is negative exactly if more was subtracted from it than was ever incremented |
| ReadCountMachine.HashWriteLeaves | crates/qa-svc/src/core/question.rs:22-58 | a hash write leaves what was incremented since its scan less what others subtracted since then, and overdraws exactly if that is negative |
| ReadCountMachine.NeverNegativeIff | crates/qa-svc/src/core/question.rs:46-55 | no field is ever negative in a run exactly if no hash write takes more than its field holds |
| ReadCountMachine.OneAtATimeNeverOverdraws | crates/qa-svc/src/core/question.rs:60-99 | flushers that do not overlap, even if some crash, and scans that list no field twice never overdraw |
| ReadCountMachine.OverlappingFlushersGoNegative | crates/qa-svc/src/core/question.rs:46-55 | a run in which overlapping flushers drive a field to -2 and a view shows 2^64 - 1 |
| ReadCountMachine.RepeatedFieldGoesNegative | crates/qa-svc/src/core/question.rs:110-118 | the same with one flusher whose scan lists the field twice |
| Pages.PageShape | crates/qa-svc/src/core/question.rs:207-240 | one page is descending, in reach of its cursor, full unless it is the end, and skips nothing |
| Pages.LatestQuestionOkIff | crates/qa-svc/src/core/question.rs:207-240 | exactly which requests are refused and why; limit 0 ends at once |
| Pages.CursorIsLastId | crates/qa-svc/src/application/app.rs:514-537 | the cursor of a page is its last id, on the last page too, and 0 if the page is empty |
| Pages.WalkReturnsEachStableQuestionOnce | crates/qa-svc/src/application/app.rs:499-539 | under any writes between pages the walk ends, descends strictly, and returns every question present throughout exactly once |
| Pages.PageCountIsLeast | crates/qa-svc/src/domain/entity/answer.rs:57-83 | the page count is the least that holds all rows, and a page is the end exactly if nothing follows |
| Pages.PageCountFits | crates/qa-svc/src/domain/entity/answer.rs:73-73 | the page count never exceeds the number of rows, so it never overflows |
| Pages.TryNewIff | crates/qa-svc/src/domain/entity/answer.rs:57-83 | exactly which page arithmetic is refused and why; the other fields are what was passed in |
| Pages.FindLatestAnswersOkIff | crates/qa-svc/src/core/answer.rs:102-147 | exactly which requests are answered, and why each other one is refused |
| Pages.AnsweredRequest | crates/qa-svc/src/core/answer.rs:115-146 | what every answered request holds, past the last page too and with the table changing between its queries: the rows with as many larger ids as the offset says, and the total, size and page of the reply |
| Pages.AnswerPage | crates/qa-svc/src/core/answer.rs:115-146 | every page up to the page count is answered without overflow and holds exactly its window of the rows |
| Pages.PagesPartitionAnswers | crates/qa-svc/src/core/answer.rs:102-147 | pages 1 to the page count together are all the question's answers in descending order, each once |
| Decimal.ParseRoundTrip | crates/qa-svc/src/application/app.rs:91-93 | reading back a written i64 gives it, over the whole range |
| Decimal.ParseI64Iff | crates/qa-svc/src/application/app.rs:91-93 | exactly which texts are read as which number |
| Text.SplitJoin | crates/qa-svc/src/application/app.rs:74-86 | splitting what was joined gives the parts back |

## Left out

- The PostgreSQL, Redis and Pulsar clients, pools, configuration, metrics, logging and shutdown: library plumbing; the stores keep only the meaning of each statement or command.
- The AES rounds, MD5 and UUID generation: an arbitrary keyed permutation of blocks, an arbitrary function, and the assumption that a new openid is not in use.
- JSON of messages and sessions, and the generated gRPC types: a message is decodable or not; a session that cannot be parsed is a store failure with some text.
- Isolation between database transactions: each transaction is one atomic step, and a crashed consumer's transaction is either done or gone when the next consumer starts.
- A second consumer or another writer of vote rows: the exclusive subscription is taken as given; without it one vote per user is not guaranteed by the schema.
- Deleting users, which no call of the service does; a registration or session write that takes effect although an error is returned.
- The limits of the text columns (50 characters, no NUL): every name is taken to be storable as it is.
- Clock differences between the service and Redis: both read one clock that never goes back.
- Timestamps, question and answer text beyond an answer's content, `reply_count`, the row ids of votes, session fields other than name and openid: nothing depends on them.
- The gateway's request validation and field copying: single-branch facts.
- ReadCounter.Transfer: its counts are unbounded, and overflowing a 64-bit counter is one of the writes that may fail; in `ReadCountMachine` the bounds are part of each step, and `TurnRefinesMachine` turns an overflow into that fault.
- ReadCountMachine.QuestionDetail: the Redis client turns a negative reply into a `u64` by two's complement here; the client library is not part of this model. One that refused such a reply would fail exactly the views whose field is negative after their increment.
- Integers.Wrapped: integer overflow of a replied or displayed count wraps, as in a release build; a debug build would panic instead.
- ReadCounter.FlushTurn: no question is added or deleted while a flush runs; `ReadCountMachine` interleaves both.
- ReadCounter.Rounds: that a scan lists every field present throughout is Redis's guarantee and is not assumed; results are about the fields that are listed.
- Pages.Walk: rows are represented by their ids; a page's other columns do not affect it.
