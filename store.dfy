/** The `questions` table of the bot's sqlite database, as an in-memory
    sequence of rows in insertion order, with the three statements the bot
    runs against it, and the relation between that table and the bot's
    in-memory queue of pending questions. */
module QuestionStore {

  /** One element of the in-memory queue: the `{'nick': …, 'question': …}` dictionary. */
  datatype Entry = Entry(nick: string, question: string)

  /** One row of the table `questions(timestamp, nick, question, answered)`. */
  datatype Record = Record(timestamp: int, nick: string, question: string, answered: bool)

  function EntryOf(r: Record): Entry {
    Entry(r.nick, r.question)
  }

  /** The `(nick, question)` columns of a sequence of rows, in the same order. */
  function Entries(rows: seq<Record>): (es: seq<Entry>)
    ensures |es| == |rows|
    ensures forall i :: 0 <= i < |rows| ==> es[i] == EntryOf(rows[i])
  {
    if rows == [] then [] else Entries(rows[..|rows| - 1]) + [EntryOf(rows[|rows| - 1])]
  }

  /** `INSERT INTO questions(timestamp, nick, question, answered) values(?, ?, ?, 0)`:
      the stored rows stay as they are and the new, unanswered row follows them. */
  function Insert(store: seq<Record>, now: int, nick: string, question: string): (r: seq<Record>)
    ensures |r| == |store| + 1 && r[..|store|] == store
    ensures Unanswered(r) == Unanswered(store) + [Record(now, nick, question, false)]
    ensures Entries(r) == Entries(store) + [Entry(nick, question)]
  {
    var x := Record(now, nick, question, false);
    assert (store + [x])[..|store|] == store;
    store + [x]
  }

  /** `UPDATE questions set answered = 1 where nick = ? and question = ?`:
      every row with that nick and question is marked answered, whatever its
      timestamp; no row is added, removed or reordered. */
  function MarkAnswered(store: seq<Record>, e: Entry): (r: seq<Record>)
    ensures |r| == |store|
    ensures forall i :: 0 <= i < |store| ==>
              r[i].timestamp == store[i].timestamp && EntryOf(r[i]) == EntryOf(store[i]) &&
              (r[i].answered <==> store[i].answered || EntryOf(store[i]) == e)
  {
    if store == [] then []
    else
      var last := store[|store| - 1];
      MarkAnswered(store[..|store| - 1], e) + [last.(answered := last.answered || EntryOf(last) == e)]
  }

  /** The rows with `answered = 0`, in table order. */
  function Unanswered(store: seq<Record>): (r: seq<Record>)
    ensures forall x :: x in r <==> x in store && !x.answered
  {
    if store == [] then []
    else
      var last := store[|store| - 1];
      Unanswered(store[..|store| - 1]) + (if last.answered then [] else [last])
  }

  /** The rows of `rows` whose nick and question are not those of `e`, in order. */
  function Without(rows: seq<Record>, e: Entry): (r: seq<Record>)
    ensures forall x :: x in r <==> x in rows && EntryOf(x) != e
  {
    if rows == [] then []
    else
      var last := rows[|rows| - 1];
      Without(rows[..|rows| - 1], e) + (if EntryOf(last) == e then [] else [last])
  }

  /** Each row is no later than the next (the order `order by timestamp` produces). */
  predicate SortedByTime(rows: seq<Record>)
    decreases |rows|
  {
    |rows| <= 1 ||
    (SortedByTime(rows[..|rows| - 1]) && rows[|rows| - 2].timestamp <= rows[|rows| - 1].timestamp)
  }

  /** Puts `x` into a sorted sequence after every row whose timestamp is not later than its own. */
  function InsertByTime(sorted: seq<Record>, x: Record): (r: seq<Record>)
    requires SortedByTime(sorted)
    ensures SortedByTime(r)
    ensures forall y :: y in r <==> y in sorted || y == x
    ensures |r| == |sorted| + 1
    ensures r[|r| - 1] == x || (sorted != [] && r[|r| - 1] == sorted[|sorted| - 1])
    decreases |sorted|
  {
    if sorted == [] || sorted[|sorted| - 1].timestamp <= x.timestamp then
      AppendOne(sorted, x);
      sorted + [x]
    else
      var init, last := sorted[..|sorted| - 1], sorted[|sorted| - 1];
      SortedInit(sorted);
      Snoc(sorted);
      var ix := InsertByTime(init, x);
      AppendOne(ix, last);
      ix + [last]
  }

  /** `order by timestamp`: a stable sort, so rows with equal timestamps keep
      their table order. */
  function SortByTime(rows: seq<Record>): (r: seq<Record>)
    ensures SortedByTime(r)
    ensures forall y :: y in r <==> y in rows
  {
    if rows == [] then []
    else
      assert rows == rows[..|rows| - 1] + [rows[|rows| - 1]];
      InsertByTime(SortByTime(rows[..|rows| - 1]), rows[|rows| - 1])
  }

  /** One step of the sort: the last row is inserted into the sorted rest. */
  lemma SortByTimeStep(rows: seq<Record>)
    requires rows != []
    ensures SortByTime(rows) == InsertByTime(SortByTime(rows[..|rows| - 1]), rows[|rows| - 1])
  {
  }

  /** A row no earlier than the last of a sorted sequence goes at its end. */
  lemma InsertByTimeAtEnd(sorted: seq<Record>, x: Record)
    requires SortedByTime(sorted)
    requires sorted == [] || sorted[|sorted| - 1].timestamp <= x.timestamp
    ensures InsertByTime(sorted, x) == sorted + [x]
  {
  }

  /** A row earlier than the last of a sorted sequence goes before that last row. */
  lemma InsertByTimeStep(sorted: seq<Record>, x: Record)
    requires SortedByTime(sorted)
    requires sorted != [] && x.timestamp < sorted[|sorted| - 1].timestamp
    ensures InsertByTime(sorted, x) == InsertByTime(sorted[..|sorted| - 1], x) + [sorted[|sorted| - 1]]
  {
  }

  /** The rows before the last of a sorted sequence are sorted and no later than it. */
  lemma SortedInit(rows: seq<Record>)
    requires SortedByTime(rows) && rows != []
    ensures SortedByTime(rows[..|rows| - 1])
    ensures |rows| == 1 || rows[|rows| - 2].timestamp <= rows[|rows| - 1].timestamp
  {
  }

  lemma AppendOne(rows: seq<Record>, x: Record)
    ensures (rows + [x])[..|rows|] == rows && (rows + [x])[|rows|] == x
  {
  }

  /** A row no earlier than the last of a sorted sequence can be appended. */
  lemma SortedSnoc(rows: seq<Record>, x: Record)
    requires SortedByTime(rows)
    requires rows == [] || rows[|rows| - 1].timestamp <= x.timestamp
    ensures SortedByTime(rows + [x])
  {
    var t := rows + [x];
    AppendOne(rows, x);
    assert t[..|t| - 1] == rows;
    assert |rows| >= 1 ==> t[|t| - 2] == rows[|rows| - 1];
  }

  lemma Snoc(rows: seq<Record>)
    requires rows != []
    ensures rows == rows[..|rows| - 1] + [rows[|rows| - 1]]
  {
  }

  lemma MultisetSnoc(rows: seq<Record>)
    requires rows != []
    ensures multiset(rows) == multiset(rows[..|rows| - 1]) + multiset{rows[|rows| - 1]}
  {
    assert rows == rows[..|rows| - 1] + [rows[|rows| - 1]];
  }

  /** Inserting by time adds exactly one row. */
  lemma {:induction false} InsertByTimePermutes(sorted: seq<Record>, x: Record)
    requires SortedByTime(sorted)
    ensures multiset(InsertByTime(sorted, x)) == multiset(sorted) + multiset{x}
    decreases |sorted|
  {
    if sorted != [] && x.timestamp < sorted[|sorted| - 1].timestamp {
      var init := sorted[..|sorted| - 1];
      InsertByTimeStep(sorted, x);
      InsertByTimePermutes(init, x);
      MultisetSnoc(InsertByTime(sorted, x));
      MultisetSnoc(sorted);
    } else {
      InsertByTimeAtEnd(sorted, x);
      MultisetSnoc(sorted + [x]);
    }
  }

  /** Sorting neither loses nor duplicates a row. */
  lemma {:induction false} SortByTimePermutes(rows: seq<Record>)
    ensures multiset(SortByTime(rows)) == multiset(rows)
  {
    if rows != [] {
      var init, last := rows[..|rows| - 1], rows[|rows| - 1];
      SortByTimeStep(rows);
      SortByTimePermutes(init);
      InsertByTimePermutes(SortByTime(init), last);
      MultisetSnoc(rows);
    }
  }

  /** `SELECT nick, question from questions where answered = 0 order by timestamp`
      (the projection to nick and question is left to the caller, see Pending). */
  function SelectUnanswered(store: seq<Record>): (rows: seq<Record>)
    ensures SortedByTime(rows)
    ensures forall x :: x in rows <==> x in store && !x.answered
  {
    SortByTime(Unanswered(store))
  }

  /** The selection holds each unanswered row exactly as often as the table does. */
  lemma SelectUnansweredPermutes(store: seq<Record>)
    ensures multiset(SelectUnanswered(store)) == multiset(Unanswered(store))
  {
    SortByTimePermutes(Unanswered(store));
  }

  /** The selection keeps every unanswered row of the table, duplicates
      included, and no answered row. */
  lemma SelectCounts(store: seq<Record>, x: Record)
    ensures multiset(SelectUnanswered(store))[x] == if x.answered then 0 else multiset(store)[x]
  {
    SelectUnansweredPermutes(store);
    UnansweredCounts(store, x);
  }

  /** The queue a restart rebuilds from the table: one entry per unanswered row. */
  function Pending(store: seq<Record>): (queue: seq<Entry>)
    ensures |queue| == |Unanswered(store)|
  {
    SelectLength(store);
    Entries(SelectUnanswered(store))
  }

  lemma SelectLength(store: seq<Record>)
    ensures |SelectUnanswered(store)| == |Unanswered(store)|
  {
    SelectUnansweredPermutes(store);
    assert |SelectUnanswered(store)| == |multiset(SelectUnanswered(store))|;
  }

  /** Every entry of the rebuilt queue is the nick and question of an unanswered row. */
  lemma PendingFromTable(store: seq<Record>)
    ensures forall i :: 0 <= i < |Pending(store)| ==>
              exists x :: x in store && !x.answered && Pending(store)[i] == EntryOf(x)
  {
    var rows := SelectUnanswered(store);
    assert Pending(store) == Entries(rows);
    forall i | 0 <= i < |rows|
      ensures exists x :: x in store && !x.answered && Entries(rows)[i] == EntryOf(x)
    {
      var x := rows[i];
      assert x in rows;
      assert x in store && !x.answered && Entries(rows)[i] == EntryOf(x);
    }
  }

  // ----- Lemmas: sortedness -----

  /** The recursive definition of sortedness means what it says: any row is
      no later than every row after it, and conversely. */
  lemma {:induction false} SortedPairwise(rows: seq<Record>)
    ensures SortedByTime(rows) <==>
            forall i, j :: 0 <= i < j < |rows| ==> rows[i].timestamp <= rows[j].timestamp
    decreases |rows|
  {
    if |rows| > 1 {
      var init := rows[..|rows| - 1];
      SortedPairwise(init);
      if SortedByTime(rows) {
        forall i, j | 0 <= i < j < |rows| ensures rows[i].timestamp <= rows[j].timestamp {
          if j == |rows| - 1 && i < j - 1 {
            assert init[i].timestamp <= init[j - 1].timestamp;
          } else if j < |rows| - 1 {
            assert init[i].timestamp <= init[j].timestamp;
          }
        }
      } else if !SortedByTime(init) {
        var i, j :| 0 <= i < j < |init| && init[i].timestamp > init[j].timestamp;
        assert rows[i] == init[i] && rows[j] == init[j];
      }
    }
  }

  /** Every row of a sorted sequence is no later than its last row. */
  lemma LastIsLatest(sorted: seq<Record>, y: Record)
    requires SortedByTime(sorted) && y in sorted
    ensures y.timestamp <= sorted[|sorted| - 1].timestamp
  {
    SortedPairwise(sorted);
    var k :| 0 <= k < |sorted| && sorted[k] == y;
    if k < |sorted| - 1 {
      assert sorted[k].timestamp <= sorted[|sorted| - 1].timestamp;
    }
  }

  /** A table whose unanswered rows are already in timestamp order (as when
      every question was inserted with the current time) rebuilds them in
      table order: the queue survives a crash unchanged. */
  lemma {:induction false} SortedUnchanged(rows: seq<Record>)
    requires SortedByTime(rows)
    ensures SortByTime(rows) == rows
  {
    if rows != [] {
      var init, last := rows[..|rows| - 1], rows[|rows| - 1];
      SortedInit(rows);
      assert SortByTime(init) == init by {
        SortedUnchanged(init);
      }
      assert InsertByTime(init, last) == rows by {
        InsertByTimeAtEnd(init, last);
        Snoc(rows);
      }
      SortByTimeStep(rows);
    }
  }

  // ----- Lemmas: removing one entry's rows -----

  lemma WithoutStep(rows: seq<Record>, e: Entry)
    requires rows != []
    ensures Without(rows, e) ==
            Without(rows[..|rows| - 1], e) + (if EntryOf(rows[|rows| - 1]) == e then [] else [rows[|rows| - 1]])
  {
  }

  /** `Without` distributes over concatenation. */
  lemma {:induction false} WithoutAppend(a: seq<Record>, b: seq<Record>, e: Entry)
    ensures Without(a + b, e) == Without(a, e) + Without(b, e)
    decreases |b|
  {
    if b != [] {
      var b' := b[..|b| - 1];
      assert (a + b)[..|a + b| - 1] == a + b';
      assert (a + b)[|a + b| - 1] == b[|b| - 1];
      WithoutStep(a + b, e);
      WithoutStep(b, e);
      WithoutAppend(a, b', e);
      var t := if EntryOf(b[|b| - 1]) == e then [] else [b[|b| - 1]];
      assert (Without(a, e) + Without(b', e)) + t == Without(a, e) + (Without(b', e) + t);
    } else {
      assert a + b == a;
    }
  }

  /** Marking answered the rows of one entry removes exactly that entry's rows from the unanswered ones. */
  lemma {:induction false} UnansweredAfterMark(store: seq<Record>, e: Entry)
    ensures Unanswered(MarkAnswered(store, e)) == Without(Unanswered(store), e)
  {
    if store != [] {
      var init, last := store[..|store| - 1], store[|store| - 1];
      var m := MarkAnswered(store, e);
      assert m[..|m| - 1] == MarkAnswered(init, e);
      UnansweredAfterMark(init, e);
      WithoutAppend(Unanswered(init), if last.answered then [] else [last], e);
    }
  }

  /** Removing rows keeps a sorted sequence sorted. */
  lemma {:induction false} WithoutSorted(rows: seq<Record>, e: Entry)
    requires SortedByTime(rows)
    ensures SortedByTime(Without(rows, e))
  {
    if rows != [] {
      var init, last := rows[..|rows| - 1], rows[|rows| - 1];
      SortedInit(rows);
      WithoutSorted(init, e);
      WithoutStep(rows, e);
      var wi := Without(init, e);
      if EntryOf(last) != e {
        if wi != [] {
          assert wi[|wi| - 1] in init;
          LastIsLatest(init, wi[|wi| - 1]);
        }
        SortedSnoc(wi, last);
      } else {
        assert wi + [] == wi;
      }
    }
  }

  /** A sorted sequence whose head belongs to `e` and whose tail has no row of `e` loses exactly its head. */
  lemma WithoutHead(rows: seq<Record>, e: Entry)
    requires rows != [] && EntryOf(rows[0]) == e
    requires forall i :: 1 <= i < |rows| ==> EntryOf(rows[i]) != e
    ensures Without(rows, e) == rows[1..]
  {
    WithoutAppend([rows[0]], rows[1..], e);
    assert [rows[0]] + rows[1..] == rows;
    WithoutStep([rows[0]], e);
    assert [rows[0]][..0] == [];
    WithoutNone(rows[1..], e);
  }

  lemma {:induction false} WithoutNone(rows: seq<Record>, e: Entry)
    requires forall i :: 0 <= i < |rows| ==> EntryOf(rows[i]) != e
    ensures Without(rows, e) == rows
  {
    if rows != [] {
      var init := rows[..|rows| - 1];
      assert forall i :: 0 <= i < |init| ==> init[i] == rows[i];
      WithoutNone(init, e);
      WithoutStep(rows, e);
      Snoc(rows);
    }
  }

  // ----- Lemmas: the `answered = 0` filter -----

  lemma UnansweredStep(store: seq<Record>)
    requires store != []
    ensures Unanswered(store) ==
            Unanswered(store[..|store| - 1]) + (if store[|store| - 1].answered then [] else [store[|store| - 1]])
  {
  }

  /** A single row is kept exactly when it is not answered. */
  lemma UnansweredOne(x: Record)
    ensures Unanswered([x]) == if x.answered then [] else [x]
  {
    assert [x][..0] == [];
  }

  /** The filter distributes over concatenation, so it keeps the table's order. */
  lemma {:induction false} UnansweredAppend(a: seq<Record>, b: seq<Record>)
    ensures Unanswered(a + b) == Unanswered(a) + Unanswered(b)
    decreases |b|
  {
    if b != [] {
      var b' := b[..|b| - 1];
      assert (a + b)[..|a + b| - 1] == a + b';
      assert (a + b)[|a + b| - 1] == b[|b| - 1];
      UnansweredStep(a + b);
      UnansweredStep(b);
      UnansweredAppend(a, b');
      var t := if b[|b| - 1].answered then [] else [b[|b| - 1]];
      assert (Unanswered(a) + Unanswered(b')) + t == Unanswered(a) + (Unanswered(b') + t);
    } else {
      assert a + b == a;
    }
  }

  /** Every unanswered row of the table is kept as often as it is stored,
      and no answered row is kept. */
  lemma {:induction false} UnansweredCounts(store: seq<Record>, x: Record)
    ensures multiset(Unanswered(store))[x] == if x.answered then 0 else multiset(store)[x]
  {
    if store != [] {
      var init := store[..|store| - 1];
      UnansweredStep(store);
      UnansweredCounts(init, x);
      MultisetSnoc(store);
    }
  }

  // ----- The queue mirrors the table -----

  /** The in-memory queue mirrors the table when it lists the unanswered rows
      in table order and these are in timestamp order. */
  predicate Mirrors(queue: seq<Entry>, store: seq<Record>) {
    SortedByTime(Unanswered(store)) && queue == Entries(Unanswered(store))
  }

  /** A queue that mirrors the table is the queue a restart rebuilds from it:
      no pending question is lost, duplicated or reordered by a crash. */
  lemma MirrorIsPending(queue: seq<Entry>, store: seq<Record>)
    requires Mirrors(queue, store)
    ensures queue == Pending(store)
  {
    SortedUnchanged(Unanswered(store));
  }

  /** Rebuilding the queue from a table whose unanswered rows are in
      timestamp order gives a mirroring queue. */
  lemma StartupMirrors(store: seq<Record>)
    requires SortedByTime(Unanswered(store))
    ensures Mirrors(Pending(store), store)
  {
    SortedUnchanged(Unanswered(store));
  }

  /** Posting a question keeps the mirror, provided the clock has not gone
      back behind a stored timestamp. */
  lemma EnqueueKeepsMirror(queue: seq<Entry>, store: seq<Record>, now: int, nick: string, question: string)
    requires Mirrors(queue, store)
    requires forall r :: r in store ==> r.timestamp <= now
    ensures Mirrors(queue + [Entry(nick, question)], Insert(store, now, nick, question))
  {
    var rec := Record(now, nick, question, false);
    var u := Unanswered(store);
    var s' := store + [rec];
    assert s'[..|store|] == store;
    assert Unanswered(s') == u + [rec];
    assert (u + [rec])[..|u|] == u;
    if u != [] {
      assert u[|u| - 1] in store;
    }
    assert SortedByTime(u + [rec]);
    assert Entries(u + [rec]) == Entries(u) + [Entry(nick, question)];
  }

  /** Serving the head keeps the mirror, provided the same nick did not ask
      the same question again further back in the queue. */
  lemma DequeueKeepsMirror(queue: seq<Entry>, store: seq<Record>)
    requires Mirrors(queue, store)
    requires queue != [] && queue[0] !in queue[1..]
    ensures Mirrors(queue[1..], MarkAnswered(store, queue[0]))
  {
    var u := Unanswered(store);
    MarkHeadAnswered(queue, store);
    SortedTail(u);
    EntriesTail(u);
  }

  /** Marking the head's nick and question answered removes just the oldest
      unanswered row when no later unanswered row has them. */
  lemma MarkHeadAnswered(queue: seq<Entry>, store: seq<Record>)
    requires Mirrors(queue, store)
    requires queue != [] && queue[0] !in queue[1..]
    ensures Unanswered(MarkAnswered(store, queue[0])) == Unanswered(store)[1..]
  {
    var h := queue[0];
    var u := Unanswered(store);
    UnansweredAfterMark(store, h);
    forall i | 1 <= i < |u| ensures EntryOf(u[i]) != h {
      assert queue[1..][i - 1] == EntryOf(u[i]);
    }
    WithoutHead(u, h);
  }

  /** Dropping the oldest row keeps time order. */
  lemma SortedTail(rows: seq<Record>)
    requires SortedByTime(rows) && rows != []
    ensures SortedByTime(rows[1..])
  {
    SortedPairwise(rows);
    SortedPairwise(rows[1..]);
    forall i, j | 0 <= i < j < |rows| - 1 ensures rows[1..][i].timestamp <= rows[1..][j].timestamp {
      assert rows[1..][i] == rows[i + 1] && rows[1..][j] == rows[j + 1];
    }
  }

  /** The entries of all but the first row are all but the first entry. */
  lemma EntriesTail(rows: seq<Record>)
    requires rows != []
    ensures Entries(rows[1..]) == Entries(rows)[1..]
  {
    var rest := Entries(rows[1..]);
    forall i | 0 <= i < |rest| ensures rest[i] == Entries(rows)[1..][i] {
      assert rows[1..][i] == rows[i + 1];
    }
  }

  /** The proviso is needed: when the same nick asked the same question twice,
      serving the first copy marks both rows answered, so the second copy stays
      in the live queue but a restart no longer rebuilds it. */
  lemma DuplicateLostOnRestart(e: Entry, t1: int, t2: int)
    requires t1 <= t2
    ensures var store := [Record(t1, e.nick, e.question, false), Record(t2, e.nick, e.question, false)];
            Mirrors([e, e], store) && Pending(MarkAnswered(store, e)) == [] && !Mirrors([e], MarkAnswered(store, e))
  {
    var a, b := Record(t1, e.nick, e.question, false), Record(t2, e.nick, e.question, false);
    PairUnanswered(a, b);
    PairSorted(a, b);
    PairEntries(a, b);
    AllAnswered(MarkAnswered([a, b], e));
  }

  lemma PairUnanswered(a: Record, b: Record)
    requires !a.answered && !b.answered
    ensures Unanswered([a, b]) == [a, b]
  {
    assert [a][..0] == [];
    assert Unanswered([a]) == [a];
    assert [a, b][..1] == [a];
    assert Unanswered([a, b]) == Unanswered([a]) + [b];
  }

  lemma PairSorted(a: Record, b: Record)
    requires a.timestamp <= b.timestamp
    ensures SortedByTime([a, b])
  {
    assert [a, b][..1] == [a];
  }

  lemma PairEntries(a: Record, b: Record)
    ensures Entries([a, b]) == [EntryOf(a), EntryOf(b)]
  {
    assert [a, b][..1] == [a];
    assert [a][..0] == [];
  }

  /** A table whose every row is answered has nothing pending. */
  lemma {:induction false} AllAnswered(rows: seq<Record>)
    requires forall x :: x in rows ==> x.answered
    ensures Unanswered(rows) == []
  {
    if rows != [] {
      var init := rows[..|rows| - 1];
      assert forall x :: x in init ==> x in rows;
      AllAnswered(init);
      assert rows[|rows| - 1] in rows;
    }
  }
}
