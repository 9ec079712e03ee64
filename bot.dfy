/** The message handling of the question-log IRC bot: the protocol object
    (one per connection) that logs the main channel, queues the questions
    posted in the chat channel and lets the admins serve them one at a time,
    and the factory that owns the queue and the question table for the whole
    life of the process. */
module QuestionLogBot {
  import opened Text
  import opened QuestionStore

  // The bot's fixed configuration (LogBot.nickname and LogBotFactory.__init__).
  const Nickname: string := "pappu"
  const Admins: seq<string> := ["bithin", "dnivra", "seshagiri"]
  const ChatChannel: string := "#inctf-chat"
  const MainChannel: string := "#inctf"
  const QuestionMarker: string := "QUESTION:"
  const NextCommand: string := "@next"
  const EmptyQueueReply: string := "Queue is empty!"

  /** A message the bot sends with `self.msg(channel, text)`. */
  datatype Outbound = Outbound(channel: string, text: string)

  /** `user.split('!', 1)[0]`: the nick of an IRC identity `nick!user@host`. */
  function Nick(user: string): (nick: string)
    ensures nick <= user && '!' !in nick
    ensures |nick| < |user| ==> user[|nick|] == '!'
    ensures '!' !in user ==> nick == user
  {
    BeforeFirst(user, '!')
  }

  /** `msg.split(':')[1].strip()`: the text between the marker's colon and
      the next colon (or the end), without surrounding whitespace. A message
      that starts with the marker always has that second piece. */
  function QuestionText(msg: string): (question: string)
    requires StartsWith(msg, QuestionMarker)
    ensures question == Strip(BeforeFirst(msg[|QuestionMarker|..], ':'))
  {
    var rest := msg[|QuestionMarker|..];
    assert msg == "QUESTION" + [':'] + rest;
    SplitAfterPrefix("QUESTION", rest, ':');
    SplitFirstPiece(rest, ':');
    Strip(Split(msg, ':')[1])
  }

  /** Text after a second colon is not part of the question. */
  lemma QuestionTextStopsAtColon(a: string, b: string)
    requires ':' !in a
    ensures StartsWith(QuestionMarker + a + ":" + b, QuestionMarker)
    ensures QuestionText(QuestionMarker + a + ":" + b) == Strip(a)
  {
    var msg := QuestionMarker + a + ":" + b;
    assert msg[..|QuestionMarker|] == QuestionMarker;
    assert msg[|QuestionMarker|..] == a + [':'] + b;
    BeforeFirstOf(a, ':', b);
  }

  /** A message with no second colon gives its whole stripped remainder,
      and the bare marker gives the empty question. */
  lemma QuestionTextWithoutColon(a: string)
    requires ':' !in a
    ensures StartsWith(QuestionMarker + a, QuestionMarker)
    ensures QuestionText(QuestionMarker + a) == Strip(a)
    ensures QuestionText(QuestionMarker) == ""
  {
    var msg := QuestionMarker + a;
    assert msg[..|QuestionMarker|] == QuestionMarker;
    assert msg[|QuestionMarker|..] == a;
    assert QuestionMarker[|QuestionMarker|..] == "";
    StripUnique("", "", "");
  }

  /** `"<%s> %s" % (nick, msg)`: the line handed to the transcript logger. */
  function LogLine(nick: string, msg: string): (line: string)
    ensures |line| == |nick| + |msg| + 3 && line[0] == '<'
    ensures line[1..|nick| + 1] == nick && line[|nick| + 1..|nick| + 3] == "> "
    ensures line[|nick| + 3..] == msg
  {
    "<" + nick + "> " + msg
  }

  /** Reads the speaker and the text back from a transcript line. */
  function ParseLogLine(line: string): Option<(string, string)> {
    if |line| == 0 || line[0] != '<' then None
    else
      var nick := BeforeFirst(line[1..], '>');
      var rest := line[1 + |nick|..];
      if |rest| >= 2 && rest[..2] == "> " then Some((nick, rest[2..])) else None
  }

  /** A transcript line names its speaker and keeps the message verbatim
      (IRC nicks never contain `>`). */
  lemma LogLineRoundTrip(nick: string, msg: string)
    requires '>' !in nick
    ensures ParseLogLine(LogLine(nick, msg)) == Some((nick, msg))
  {
    var line := LogLine(nick, msg);
    assert line[1..] == nick + ['>'] + (" " + msg);
    BeforeFirstOf(nick, '>', " " + msg);
    var rest := line[1 + |nick|..];
    assert rest == "> " + msg;
    assert rest[..2] == "> ";
    assert rest[2..] == msg;
  }

  /** `nick + " asked \"" + question + "\""`: the announcement of a served question. */
  function Announcement(e: Entry): (text: string)
    ensures |text| == |e.nick| + |AskedInfix| + |e.question| + 1
    ensures e.nick <= text && text[|text| - 1] == '"'
  {
    e.nick + " asked \"" + e.question + "\""
  }

  const AskedInfix: string := " asked \""

  /** Reads the asker and the question back from an announcement. */
  function ParseAnnouncement(text: string): Option<Entry> {
    var nick := BeforeFirst(text, ' ');
    var rest := text[|nick|..];
    if |rest| >= |AskedInfix| + 1 && rest[..|AskedInfix|] == AskedInfix && rest[|rest| - 1] == '"' then
      Some(Entry(nick, rest[|AskedInfix|..|rest| - 1]))
    else None
  }

  /** What the bot says when an admin asks for the next question. */
  function Reply(queue: seq<Entry>): (reply: string)
    ensures reply == EmptyQueueReply <==> queue == []
  {
    assert EmptyQueueReply[|EmptyQueueReply| - 1] == '!';
    if queue == [] then EmptyQueueReply else Announcement(queue[0])
  }

  /** An announcement names the asker and quotes the question verbatim
      (IRC nicks never contain a space). */
  lemma AnnouncementRoundTrip(e: Entry)
    requires ' ' !in e.nick
    ensures ParseAnnouncement(Announcement(e)) == Some(e)
  {
    AnnouncementSplits(e);
    var rest := AskedInfix + e.question + "\"";
    assert rest[..|AskedInfix|] == AskedInfix;
    assert rest[|AskedInfix|..|rest| - 1] == e.question;
  }

  lemma AnnouncementSplits(e: Entry)
    requires ' ' !in e.nick
    ensures BeforeFirst(Announcement(e), ' ') == e.nick
    ensures Announcement(e)[|e.nick|..] == AskedInfix + e.question + "\""
  {
    var tail := "asked \"" + e.question + "\"";
    assert Announcement(e) == e.nick + [' '] + tail;
    BeforeFirstOf(e.nick, ' ', tail);
    AnnouncementTail(e);
  }

  lemma AnnouncementTail(e: Entry)
    ensures Announcement(e)[|e.nick|..] == AskedInfix + e.question + "\""
  {
    assert Announcement(e) == e.nick + (AskedInfix + e.question + "\"");
  }

  /** The reply to an empty queue can not be mistaken for an announcement. */
  lemma EmptyReplyIsNoAnnouncement()
    ensures ParseAnnouncement(EmptyQueueReply) == None
  {
    EmptyReplyFirstWord();
    EmptyReplyRest();
  }

  lemma EmptyReplyFirstWord()
    ensures BeforeFirst(EmptyQueueReply, ' ') == "Queue"
  {
    assert EmptyQueueReply == "Queue" + [' '] + "is empty!";
    BeforeFirstOf("Queue", ' ', "is empty!");
  }

  lemma EmptyReplyRest()
    ensures EmptyQueueReply[5..][..|AskedInfix|] != AskedInfix
  {
    assert EmptyQueueReply[5..][..|AskedInfix|][1] == 'i';
  }

  /** The reply to `@next` tells exactly which question was served, or that none was. */
  lemma ReplyNamesServedQuestion(queue: seq<Entry>)
    requires queue != [] ==> ' ' !in queue[0].nick
    ensures ParseAnnouncement(Reply(queue)) == if queue == [] then None else Some(queue[0])
  {
    if queue == [] {
      EmptyReplyIsNoAnnouncement();
    } else {
      AnnouncementRoundTrip(queue[0]);
    }
  }

  /** `LogBot.alterCollidedNick`: a nickname the server refused is retried
      with `^` appended. */
  function AlterCollidedNick(nickname: string): (altered: string)
    ensures nickname < altered && |altered| == |nickname| + 1
    ensures altered[|nickname|] == '^'
  {
    nickname + "^"
  }

  /** The nickname tried after `k` collisions in a row. */
  function AlteredTimes(nickname: string, k: nat): (altered: string)
    ensures |altered| == |nickname| + k && nickname <= altered
    ensures forall i :: |nickname| <= i < |altered| ==> altered[i] == '^'
  {
    if k == 0 then nickname else AlterCollidedNick(AlteredTimes(nickname, k - 1))
  }

  /** Repeated collisions never bring back a nickname already tried. */
  lemma AlteredNeverRepeats(nickname: string, j: nat, k: nat)
    requires j != k
    ensures AlteredTimes(nickname, j) != AlteredTimes(nickname, k)
  {
    assert |AlteredTimes(nickname, j)| != |AlteredTimes(nickname, k)|;
  }

  /** The question branch of privmsg: a message in the chat channel that starts with the marker. */
  predicate IsQuestionPost(channel: string, msg: string): (post: bool)
    ensures post ==> channel != MainChannel && channel != Nickname && |msg| >= |QuestionMarker|
  {
    ChannelsDistinct();
    StartsWith(msg, QuestionMarker) && channel == ChatChannel
  }

  /** The operator branch of privmsg: exactly `@next`, from an admin, in the main channel. */
  predicate IsAdvance(nick: string, channel: string, msg: string): (advance: bool)
    ensures advance ==> !IsQuestionPost(channel, msg) && channel != Nickname && nick != Nickname
  {
    ChannelsDistinct();
    assert Nickname !in Admins by {
      assert forall a :: a in Admins ==> a[0] != Nickname[0];
    }
    channel == MainChannel && nick in Admins && msg == NextCommand
  }

  /** The bot's own nick and its two channels are three different names. */
  lemma ChannelsDistinct()
    ensures MainChannel != ChatChannel && MainChannel != Nickname && ChatChannel != Nickname
  {
    assert MainChannel[0] != Nickname[0] && ChatChannel[0] != Nickname[0];
    assert |MainChannel| != |ChatChannel|;
  }

  /** The queue `retr_success` builds on an empty one is the pending queue,
      and it mirrors a table whose unanswered rows were stored in time order. */
  lemma StartupQueue(rows: seq<Record>)
    ensures [] + Entries(SelectUnanswered(rows)) == Pending(rows)
    ensures SortedByTime(Unanswered(rows)) ==> Mirrors(Pending(rows), rows)
  {
    assert [] + Entries(SelectUnanswered(rows)) == Entries(SelectUnanswered(rows));
    if SortedByTime(Unanswered(rows)) {
      StartupMirrors(rows);
    }
  }

  /** `LogBotFactory`: the state shared by every connection of the process,
      the queue of pending questions and the question table. */
  class LogBotFactory {
    var questions: seq<Entry>
    var store: seq<Record>

    /** `__init__`, with the startup `SELECT` answered at once from `rows`,
        the table as the process finds it. */
    constructor (rows: seq<Record>)
      ensures store == rows
      ensures questions == Pending(rows)
      // When the unanswered rows were stored in time order, the queue starts out mirroring the table.
      ensures SortedByTime(Unanswered(rows)) ==> Mirrors(questions, store)
    {
      questions := [];
      store := rows;
      new;
      RetrSuccess(SelectUnanswered(rows));
      StartupQueue(rows);
    }

    /** `retr_success`: appends the nick and question of every selected row,
        in the order selected, behind whatever is already queued. */
    method RetrSuccess(rows: seq<Record>)
      modifies this`questions
      ensures questions == old(questions) + Entries(rows)
      ensures store == old(store)
    {
      var i := 0;
      while i < |rows|
        invariant 0 <= i <= |rows|
        invariant questions == old(questions) + Entries(rows[..i])
      {
        assert rows[..i + 1][..i] == rows[..i];
        questions := questions + [Entry(rows[i].nick, rows[i].question)];
        i := i + 1;
      }
      assert rows[..|rows|] == rows;
    }

    /** The question branch of privmsg: the `INSERT` of an unanswered row
        stamped `now`, and the append to the queue. */
    method Enqueue(nick: string, question: string, now: int)
      modifies this
      ensures questions == old(questions) + [Entry(nick, question)]
      ensures store == old(store) + [Record(now, nick, question, false)]
      ensures Mirrors(old(questions), old(store)) && (forall r :: r in old(store) ==> r.timestamp <= now) ==>
              Mirrors(questions, store)
    {
      if Mirrors(questions, store) && forall r :: r in store ==> r.timestamp <= now {
        EnqueueKeepsMirror(questions, store, now, nick, question);
      }
      store := Insert(store, now, nick, question);
      questions := questions + [Entry(nick, question)];
    }

    /** The `@next` branch of privmsg: pops the head of the queue and runs the
        `UPDATE` for its nick and question, or reports an empty queue. */
    method ServeNext() returns (reply: string)
      modifies this
      ensures reply == Reply(old(questions))
      ensures old(questions) == [] ==> questions == [] && store == old(store)
      ensures old(questions) != [] ==>
              questions == old(questions)[1..] && store == MarkAnswered(old(store), old(questions)[0])
      ensures Mirrors(old(questions), old(store)) &&
              (old(questions) != [] ==> old(questions)[0] !in old(questions)[1..]) ==>
              Mirrors(questions, store)
    {
      if questions == [] {
        reply := EmptyQueueReply;
      } else {
        var question := questions[0];
        if Mirrors(questions, store) && question !in questions[1..] {
          DequeueKeepsMirror(questions, store);
        }
        questions := questions[1..];
        reply := Announcement(question);
        store := MarkAnswered(store, question);
      }
    }

    /** `buildProtocol`: a new protocol object for a new connection, sharing this factory. */
    method BuildProtocol() returns (bot: LogBot)
      ensures fresh(bot) && bot.factory == this
      ensures bot.transcript == [] && bot.outbox == []
    {
      bot := new LogBot(this);
    }
  }

  /** `LogBot`: one connection's protocol object. `transcript` holds the
      lines handed to its logger, `outbox` the messages it sent. */
  class LogBot {
    const factory: LogBotFactory
    var transcript: seq<string>
    var outbox: seq<Outbound>

    constructor (factory: LogBotFactory)
      ensures this.factory == factory
      ensures transcript == [] && outbox == []
    {
      this.factory := factory;
      transcript := [];
      outbox := [];
    }

    /** `privmsg(user, channel, msg)`, with `now` standing for `int(time.time())`. */
    method Privmsg(user: string, channel: string, msg: string, now: int)
      modifies this, factory
      // Main-channel lines are logged first; an `@next` also logs the bot's reply.
      ensures transcript == old(transcript)
                + (if channel == MainChannel then [LogLine(Nick(user), msg)] else [])
                + (if IsAdvance(Nick(user), channel, msg)
                   then [LogLine(Nickname, Reply(old(factory.questions)))] else [])
      // Only an `@next` makes the bot speak, and only in the main channel.
      ensures outbox == old(outbox)
                + (if IsAdvance(Nick(user), channel, msg)
                   then [Outbound(MainChannel, Reply(old(factory.questions)))] else [])
      // A posted question joins the tail of the queue and gets one new unanswered row.
      ensures IsQuestionPost(channel, msg) ==>
                factory.questions == old(factory.questions) + [Entry(Nick(user), QuestionText(msg))] &&
                factory.store == old(factory.store) + [Record(now, Nick(user), QuestionText(msg), false)]
      // `@next` on an empty queue changes nothing; otherwise the head leaves
      // the queue and every row with its nick and question is marked answered.
      ensures IsAdvance(Nick(user), channel, msg) && old(factory.questions) == [] ==>
                factory.questions == [] && factory.store == old(factory.store)
      ensures IsAdvance(Nick(user), channel, msg) && old(factory.questions) != [] ==>
                factory.questions == old(factory.questions)[1..] &&
                factory.store == MarkAnswered(old(factory.store), old(factory.questions)[0])
      // Anything else leaves the queue and the table alone.
      ensures !IsQuestionPost(channel, msg) && !IsAdvance(Nick(user), channel, msg) ==>
                factory.questions == old(factory.questions) && factory.store == old(factory.store)
      // A private message to the bot has no effect at all.
      ensures channel == Nickname ==>
                transcript == old(transcript) && outbox == old(outbox) &&
                factory.questions == old(factory.questions) && factory.store == old(factory.store)
      // The queue keeps mirroring the table, as long as the clock does not go
      // back and the served question was not asked twice by the same nick.
      ensures Mirrors(old(factory.questions), old(factory.store)) &&
              (forall r :: r in old(factory.store) ==> r.timestamp <= now) &&
              (IsAdvance(Nick(user), channel, msg) && old(factory.questions) != [] ==>
                 old(factory.questions)[0] !in old(factory.questions)[1..]) ==>
              Mirrors(factory.questions, factory.store)
    {
      ChannelsDistinct();
      var nick := Nick(user);
      if channel == MainChannel {
        transcript := transcript + [LogLine(nick, msg)];
      }

      if channel == Nickname {
        return;
      }

      if StartsWith(msg, QuestionMarker) && channel == ChatChannel {
        var question := QuestionText(msg);
        factory.Enqueue(nick, question, now);
      } else if channel == MainChannel && nick in Admins && msg == NextCommand {
        var sendMsg := factory.ServeNext();
        outbox := outbox + [Outbound(MainChannel, sendMsg)];
        transcript := transcript + [LogLine(Nickname, sendMsg)];
      }
    }
  }
}
