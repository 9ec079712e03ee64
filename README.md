# Question-log IRC bot — a Dafny model of its message handling

The bot (`question-log-bot.py`) sits in two IRC channels. It writes every
line said in the main channel `#inctf` to a transcript. It queues every
message beginning with `QUESTION:` posted in the chat channel `#inctf-chat`.
When one of the admins (`bithin`, `dnivra`, `seshagiri`) says `@next` in the
main channel, it announces the oldest queued question there. The queue lives
in memory, in the factory that outlives each connection. Every question is
also written to a sqlite table `questions(timestamp, nick, question, answered)`.
At startup the queue is rebuilt from the unanswered rows, in timestamp order.

The project has three modules:

- `Text` (`text.dfy`) holds the Python 2 string built-ins the bot relies on:
  `split` (with the first piece of `split(c, 1)`), `strip` over Python 2's six
  ASCII whitespace characters, and `startswith`.
- `QuestionStore` (`store.dfy`) models the table as a sequence of rows in
  insertion order. It has the three statements the bot runs:
  - the `INSERT` appends a row;
  - the `UPDATE` marks every row with the given nick and question;
  - the `SELECT` keeps the unanswered rows in a stable sort by timestamp.

  It also states how the table relates to the queue. The predicate `Mirrors`
  says that the queue is exactly the unanswered rows, in order. When it holds,
  the queue is what a restart would rebuild.
- `QuestionLogBot` (`bot.dfy`) has the configuration constants and the pure
  pieces of `privmsg`: the nick, the question text, the transcript line, the
  announcement and the collided-nick rule. It has two classes:
  - `LogBotFactory` owns the queue and the table;
  - `LogBot` is one connection's protocol object, with its transcript and the
    messages it sent.

  `LogBot.Privmsg` follows `privmsg` branch by branch. The factory's part of
  the question branch is `LogBotFactory.Enqueue`, and its part of the `@next`
  branch is `LogBotFactory.ServeNext`. The contract of `Privmsg` states the
  new transcript, outbox, queue and table in every case. It also states when
  the queue keeps mirroring the table.

In the model, the mirror holds only under two conditions: the clock never
goes back, and the question being served was not queued twice by the same
nick. The `UPDATE` marks every matching row. So serving one of two identical
questions marks both answered in the table, while the second stays in memory.
`QuestionStore.DuplicateLostOnRestart` exhibits such a state: a restart there
would lose the second question. In the program the mirror can break in two
more ways that the model leaves out: a write that fails (see "Left out"), and
messages handled before the startup `SELECT` has answered.

Three behaviours of the code are worth knowing, and the model has each of them:
- Question text: the code keeps only the text between the first and second
  colons of a `QUESTION:` message (line 77); anything after a second colon is
  dropped.
- Marking answered: the code's `UPDATE` marks every row with the served nick
  and question, not only the oldest one (line 132).
- No rollback: the head is popped from the queue before the `UPDATE` is
  issued, and nothing puts it back if that write fails (lines 89-91).

## Model

| member | source | states |
|---|---|---|
| Text.BeforeFirst | question-log-bot.py:66 | the result is a prefix of the input without the separator, followed by the separator when it is shorter, and it is the whole input exactly when the separator is absent |
| Text.BeforeFirstOf | question-log-bot.py:66 | a separator-free prefix followed by the separator is exactly the first piece |
| QuestionLogBot.Nick | question-log-bot.py:66 | the nick is the prefix of `nick!user@host` up to the first `!`, without any `!`, and is the whole identity when there is no `!` |
| Text.Split | question-log-bot.py:77 | splitting gives at least one piece and no piece contains the separator |
| Text.JoinSplit | question-log-bot.py:77 | joining the pieces with the separator gives back the string |
| Text.SplitJoin | question-log-bot.py:77 | separator-free pieces are recovered by splitting their join |
| Text.SplitFirstPiece | question-log-bot.py:77 | the first piece is the text before the first separator, and there is a second piece iff the separator occurs |
| Text.SplitAfterPrefix | question-log-bot.py:77 | a separator-free prefix followed by the separator is split off as the first piece, the rest split alone |
| Text.TrimLeft | question-log-bot.py:77 | the result is a suffix, all removed characters are whitespace, and it does not start with whitespace |
| Text.TrimRight | question-log-bot.py:77 | the result is a prefix, all removed characters are whitespace, and it does not end with whitespace |
| Text.Strip | question-log-bot.py:77 | the result neither starts nor ends with whitespace and sits in the input between a run of whitespace on each side |
| Text.TrimLeftOf | question-log-bot.py:77 | leading whitespace before a non-whitespace character is exactly what lstrip removes |
| Text.TrimRightOf | question-log-bot.py:77 | trailing whitespace after a non-whitespace character is exactly what rstrip removes |
| Text.StripUnique | question-log-bot.py:77 | strip recovers any text with non-whitespace ends from any surrounding whitespace |
| Text.StripIdempotent | question-log-bot.py:77 | stripping twice is stripping once |
| QuestionLogBot.IsQuestionPost | question-log-bot.py:76 | a question post is in the chat channel and starts with the marker, so it is never a main-channel line to log nor a private message |
| QuestionLogBot.IsAdvance | question-log-bot.py:84 | an `@next` request comes from an admin in the main channel, is never also a question post, and never comes from the bot itself |
| QuestionLogBot.QuestionText | question-log-bot.py:76-77 | for every message starting with `QUESTION:` the second piece exists, and the question is the stripped text between the marker and the next colon |
| QuestionLogBot.QuestionTextStopsAtColon | question-log-bot.py:77 | text after a second colon is dropped from the question |
| QuestionLogBot.QuestionTextWithoutColon | question-log-bot.py:76-77 | without a second colon the question is the whole stripped remainder, and the bare marker gives the empty question |
| QuestionLogBot.LogLine | question-log-bot.py:68 | the transcript line is `<`, the nick, `> ` and then the message verbatim |
| QuestionLogBot.LogLineRoundTrip | question-log-bot.py:68 | a transcript line `<nick> msg` parses back to its speaker and its message verbatim when the nick has no `>` |
| QuestionLogBot.Announcement | question-log-bot.py:90 | the announcement starts with the asker's nick, is as long as the nick, ` asked "`, the question and a closing quote, and ends with that quote |
| QuestionLogBot.Reply | question-log-bot.py:85-90 | the reply is `Queue is empty!` exactly when the queue is empty, since an announcement always ends with a quote |
| QuestionLogBot.AnnouncementRoundTrip | question-log-bot.py:90 | an announcement parses back to the nick and question it was made from when the nick has no space |
| QuestionLogBot.EmptyReplyIsNoAnnouncement | question-log-bot.py:86-87 | the empty-queue reply never parses as an announcement |
| QuestionLogBot.ReplyNamesServedQuestion | question-log-bot.py:85-93 | the reply to `@next` names the head of the queue exactly, or no question when the queue is empty |
| QuestionLogBot.AlterCollidedNick | question-log-bot.py:113 | the altered nickname is the refused one with one `^` appended |
| QuestionLogBot.AlteredTimes | question-log-bot.py:108-113 | after k collisions the nickname is the original followed by k carets |
| QuestionLogBot.AlteredNeverRepeats | question-log-bot.py:108-113 | different numbers of collisions give different nicknames, so the retries never cycle |
| QuestionStore.Entries | question-log-bot.py:153-157 | each row becomes the entry with its nick and question, one for one and in order |
| QuestionStore.Insert | question-log-bot.py:78-79 | the stored rows stay as they are and one row follows them; the unanswered rows gain exactly that new unanswered row, and the entries gain its nick and question |
| QuestionStore.MarkAnswered | question-log-bot.py:132 | the update keeps every row's timestamp, nick and question, and a row is answered afterwards iff it was before or it matches the nick and question |
| QuestionStore.Unanswered | question-log-bot.py:131 | the filter keeps exactly the stored rows with `answered = 0`; with `UnansweredOne` and `UnansweredAppend` it is the in-order filter |
| QuestionStore.UnansweredOne | question-log-bot.py:131 | a single row is selected exactly when it is not answered |
| QuestionStore.UnansweredAppend | question-log-bot.py:131 | the `answered = 0` filter distributes over concatenation, so it keeps the table's order |
| QuestionStore.UnansweredCounts | question-log-bot.py:131 | every unanswered row is kept as often as the table holds it, and no answered row is kept |
| QuestionStore.Without | question-log-bot.py:132 | the reference filter keeps exactly the rows not matching the nick and question |
| QuestionStore.UnansweredAfterMark | question-log-bot.py:132 | after the update, the unanswered rows are the old unanswered rows minus every row matching the served nick and question |
| QuestionStore.InsertByTime | question-log-bot.py:131 | inserting into a time-sorted sequence keeps it sorted and adds exactly the new row |
| QuestionStore.SortByTime | question-log-bot.py:131 | the result is sorted by timestamp and holds exactly the input's rows |
| QuestionStore.InsertByTimePermutes | question-log-bot.py:131 | insertion adds the row once to the multiset of rows |
| QuestionStore.SortByTimePermutes | question-log-bot.py:131 | sorting is a permutation, so duplicate rows are kept |
| QuestionStore.SortedPairwise | question-log-bot.py:131 | the step-by-step sortedness is the same as every earlier row having a timestamp no later than every later row |
| QuestionStore.SortedUnchanged | question-log-bot.py:131 | an already time-ordered sequence is returned unchanged, so ties keep insertion order |
| QuestionStore.SelectUnanswered | question-log-bot.py:131 | the selection is in timestamp order and holds exactly the unanswered rows |
| QuestionStore.SelectUnansweredPermutes | question-log-bot.py:131 | the selection is a permutation of the unanswered rows |
| QuestionStore.SelectCounts | question-log-bot.py:131 | the selection holds every unanswered row of the table as often as the table does, duplicates included, and no answered row |
| QuestionStore.Pending | question-log-bot.py:131-134 | the queue rebuilt at startup has one entry per unanswered row |
| QuestionStore.PendingFromTable | question-log-bot.py:152-157 | every entry of the rebuilt queue is the nick and question of an unanswered row of the table |
| QuestionStore.LastIsLatest | question-log-bot.py:131 | the last row of a time-ordered sequence has the latest timestamp |
| QuestionStore.WithoutAppend | question-log-bot.py:132 | filtering out a question distributes over concatenation |
| QuestionStore.WithoutSorted | question-log-bot.py:132 | filtering out a question keeps time order |
| QuestionStore.WithoutHead | question-log-bot.py:132 | filtering out the head's question, absent further on, removes just the head |
| QuestionStore.WithoutNone | question-log-bot.py:132 | filtering out a question that no row has changes nothing |
| QuestionStore.MirrorIsPending | question-log-bot.py:130-134 | a queue mirroring the table is exactly what the startup select would rebuild from it |
| QuestionStore.StartupMirrors | question-log-bot.py:133-134 | the rebuilt queue mirrors a table whose unanswered rows were stored in time order |
| QuestionStore.EnqueueKeepsMirror | question-log-bot.py:76-83 | appending a question to the queue and inserting its row keeps the mirror when its timestamp is not earlier than any stored one |
| QuestionStore.DequeueKeepsMirror | question-log-bot.py:89-91 | popping the head and marking its nick and question answered keeps the mirror when the head is not queued again further back |
| QuestionStore.MarkHeadAnswered | question-log-bot.py:89-91 | when the queue mirrors the table and its head is not queued again, the update removes exactly the oldest unanswered row |
| QuestionStore.SortedTail | question-log-bot.py:89 | dropping the oldest row keeps time order |
| QuestionStore.EntriesTail | question-log-bot.py:89 | popping the queue's head corresponds to dropping the first selected row |
| QuestionStore.SortedSnoc | question-log-bot.py:131 | a row no earlier than the last one can be appended without breaking time order |
| QuestionStore.AllAnswered | question-log-bot.py:131 | a table whose every row is answered selects nothing |
| QuestionStore.DuplicateLostOnRestart | question-log-bot.py:91 | for any nick and question asked twice, the two-row table mirrors the doubled queue; serving one copy marks both rows, so nothing is pending any more while one copy stays queued, and the mirror breaks |
| QuestionLogBot.LogBotFactory.constructor | question-log-bot.py:122-134 | the factory starts with the given table and the queue rebuilt from its unanswered rows in time order, mirroring the table when those rows were stored in time order |
| QuestionLogBot.LogBotFactory.RetrSuccess | question-log-bot.py:152-159 | the selected rows' nicks and questions are appended to the queue in order, and the table is untouched |
| QuestionLogBot.LogBotFactory.Enqueue | question-log-bot.py:76-83 | the queue gains the entry at its tail, the table gains one unanswered row stamped `now`, and the mirror is kept when no stored timestamp is later than `now` |
| QuestionLogBot.LogBotFactory.ServeNext | question-log-bot.py:84-91 | the reply is the empty-queue message or the head's announcement; the head is popped and every row with its nick and question is marked answered, or nothing changes when the queue is empty; the mirror is kept when the head is not queued again |
| QuestionLogBot.LogBotFactory.BuildProtocol | question-log-bot.py:139-142 | a new protocol object shares this factory and starts with an empty transcript and no messages sent |
| QuestionLogBot.LogBot.constructor | question-log-bot.py:140-141 | a protocol object is attached to its factory with an empty transcript and no messages sent |
| QuestionLogBot.LogBot.Privmsg | question-log-bot.py:64-94 | main-channel lines are logged; private messages change nothing else; a question post appends one entry and one unanswered row; `@next` from an admin sends and logs the reply, pops the head and marks it answered, or changes nothing when the queue is empty; every other message leaves queue and table alone; the mirror is kept under the two conditions above |

## Left out

- The Twisted transport is not modelled: connecting, signing on and joining (lines 43-62), and the `action` and `irc_NICK` callbacks (lines 96-104). They do nothing the queue depends on.
- Reconnection and connection failure (lines 144-150) are left out because they only drive the network.
- The asynchronous sqlite pool is replaced by immediate updates of `store`. An `INSERT` or `UPDATE` never fails and never reorders, and `retr_failure` (lines 161-162) is left out. One concrete failure this hides: Python 2's sqlite3 module, with its default text factory, refuses 8-bit byte strings. A question or nick containing non-ASCII bytes is therefore appended to the queue while its `INSERT` (and later its `UPDATE`) fails, and a restart loses that entry.
- QuestionLogBot.LogBotFactory.constructor: the startup `SELECT` is taken to complete inside the constructor. In the code its callback can run after the first messages.
- The clock is the `now` parameter of `Privmsg`. The transcript holds lines without the `[HH:MM:SS]` prefix that `MessageLogger.log` adds (line 30), and the file itself is not modelled.
- `print`, `__del__` and the `__main__` block are left out because they are process wiring.
- QuestionStore.SelectUnanswered: SQL leaves the order of rows with equal timestamps unspecified. The model keeps insertion order.
- QuestionLogBot.LogBotFactory.RetrSuccess: the `str()` conversion of the sqlite values is the identity here, because strings are sequences of characters.
- The transcript is kept per `LogBot`, as each connection opens its own logger. The appends to the shared file are not modelled.
