/**
 What a log means: commands run in order, each in the database chosen by the last SELECT.  Executing
 a command is a parameter, `run`, of the data set, the database number and the command.
 */
module AofLog {
  import opened AofFormat

  /** A command together with the database it targets. */
  datatype Entry = Entry(db: nat, cmd: Cmd)

  function Lower(c: char): char {
    if 'A' <= c <= 'Z' then ((c as int) + 32) as char else c
  }

  function LowerAll(s: Bytes): Bytes {
    seq(|s|, i requires 0 <= i < |s| => Lower(s[i]))
  }

  /** Command lookup ignores case. */
  predicate IsSelect(c: Cmd) {
    |c| > 0 && LowerAll(c[0]) == "select"
  }

  function SelectCmd(db: nat): Cmd {
    ["SELECT", Dec(db)]
  }

  /** The database after running a command. */
  function DbAfter(db: nat, c: Cmd): nat {
    if IsSelect(c) && |c| == 2 && Strtol(c[1]) >= 0 then Strtol(c[1]) else db
  }

  /** The commands other than SELECT, each with the database it runs in. */
  function Replay(db: nat, cs: seq<Cmd>): seq<Entry>
    decreases |cs|
  {
    if cs == [] then []
    else if IsSelect(cs[0]) then Replay(DbAfter(db, cs[0]), cs[1..])
    else [Entry(db, cs[0])] + Replay(db, cs[1..])
  }

  function FinalDb(db: nat, cs: seq<Cmd>): nat
    decreases |cs|
  {
    if cs == [] then db else FinalDb(DbAfter(db, cs[0]), cs[1..])
  }

  // ---------- feedAppendOnlyFile ----------

  /** What one command adds to the log when `selected` is the database last selected there, -1 for none. */
  function Feed(selected: int, e: Entry): seq<Cmd> {
    (if e.db != selected then [SelectCmd(e.db)] else []) + [e.cmd]
  }

  function FeedAll(selected: int, es: seq<Entry>): seq<Cmd>
    decreases |es|
  {
    if es == [] then [] else Feed(selected, es[0]) + FeedAll(es[0].db, es[1..])
  }

  /** An untranslated command that a client can issue: it has a name, and SELECT is never propagated. */
  ghost predicate Proper(e: Entry) {
    e.cmd != [] && Fits(e.cmd) && !IsSelect(e.cmd) && e.db <= MAX_LEN
  }

  /** The SELECT text that the server formats directly is the printed SELECT command. */
  lemma SelectText(db: nat)
    ensures Print(SelectCmd(db)) ==
            "*2\r\n$6\r\nSELECT\r\n" + ("$" + Dec(|Dec(db)|) + "\r\n" + Dec(db) + "\r\n")
  {
    hide Dec;
    var c, d := SelectCmd(db), Dec(db);
    assert c[1..] == [d] && c[1..][1..] == [];
    assert PrintArgs(c[1..]) == PrintArg(d) + [];
    assert Print(c) == Header('*', 2) + PrintArg("SELECT") + PrintArg(d);
    SelectHead();
    assert PrintArg(d) == "$" + Dec(|d|) + "\r\n" + d + "\r\n";
  }

  lemma SelectHead()
    ensures Header('*', 2) + PrintArg("SELECT") == "*2\r\n$6\r\nSELECT\r\n"
  {
    hide Dec;
    SmallNumbers();
    assert Header('*', 2) == "*2\r\n" && Header('$', 6) == "$6\r\n";
    assert PrintArg("SELECT") == "$6\r\nSELECT\r\n";
  }

  lemma SmallNumbers()
    ensures Dec(2) == "2" && Dec(6) == "6"
  {
  }

  lemma SelectIsSelect(db: nat, other: nat)
    ensures IsSelect(SelectCmd(db)) && DbAfter(other, SelectCmd(db)) == db
  {
    assert LowerAll("SELECT") == "select";
    DecRoundTrip(db, []);
    assert Dec(db) + [] == Dec(db);
  }

  lemma {:induction false} ReplayConcat(db: nat, a: seq<Cmd>, b: seq<Cmd>)
    ensures Replay(db, a + b) == Replay(db, a) + Replay(FinalDb(db, a), b)
    ensures FinalDb(db, a + b) == FinalDb(FinalDb(db, a), b)
    decreases |a|
  {
    if a == [] {
      assert a + b == b;
    } else {
      assert (a + b)[1..] == a[1..] + b;
      ReplayConcat(DbAfter(db, a[0]), a[1..], b);
    }
  }

  lemma RunOne(e: Entry)
    requires e.cmd != [] && !IsSelect(e.cmd)
    ensures Replay(e.db, [e.cmd]) == [e] && FinalDb(e.db, [e.cmd]) == e.db
  {
    assert [e.cmd][1..] == [];
  }

  /** Feeding one command adds exactly that command, in its database, to what the log replays. */
  lemma FeedReplays(db: nat, selected: int, e: Entry)
    requires Proper(e) && (selected == -1 || selected == db)
    ensures Replay(db, Feed(selected, e)) == [e] && FinalDb(db, Feed(selected, e)) == e.db
  {
    SelectIsSelect(e.db, db);
    if e.db != selected {
      var cs := [SelectCmd(e.db), e.cmd];
      assert Feed(selected, e) == cs && cs[1..] == [e.cmd];
      RunOne(e);
    } else {
      assert Feed(selected, e) == [e.cmd];
      RunOne(e);
    }
  }

  lemma ReplayNothing(db: nat)
    ensures Replay(db, []) == []
  {
  }

  /** What the server logs replays as the same commands in the same databases. */
  lemma {:induction false} FeedAllReplays(db: nat, selected: int, es: seq<Entry>)
    requires (forall e | e in es :: Proper(e)) && (selected == -1 || selected == db)
    ensures Replay(db, FeedAll(selected, es)) == es
    decreases |es|
  {
    hide Feed, Replay, Proper;
    if es == [] { ReplayNothing(db); }
    if es != [] {
      FeedReplays(db, selected, es[0]);
      ReplayConcat(db, Feed(selected, es[0]), FeedAll(es[0].db, es[1..]));
      FeedAllReplays(es[0].db, es[0].db, es[1..]);
    }
  }

  lemma FeedFits(selected: int, e: Entry)
    requires Proper(e)
    ensures AllFit(Feed(selected, e))
  {
    DecShort(e.db);
  }

  lemma {:induction false} FeedAllFits(selected: int, es: seq<Entry>)
    requires forall e | e in es :: Proper(e)
    ensures AllFit(FeedAll(selected, es))
    decreases |es|
  {
    if es != [] {
      FeedFits(selected, es[0]);
      FeedAllFits(es[0].db, es[1..]);
    }
  }

  /** Printing and loading what was fed gives the same commands in the same databases. */
  lemma LogPreservesCommands(es: seq<Entry>)
    requires forall e | e in es :: Proper(e)
    ensures var r := Load(PrintAll(FeedAll(-1, es)));
            r.status == Loaded && Replay(0, r.cmds) == es
  {
    FeedAllFits(-1, es);
    LogRoundTrip(FeedAll(-1, es));
    FeedAllReplays(0, -1, es);
  }

  /** After losing any tail of bytes, what loads is a prefix of the commands fed, in the same databases. */
  lemma TruncatedLogPreservesPrefix(es: seq<Entry>, k: nat)
    requires (forall e | e in es :: Proper(e)) && k <= |PrintAll(FeedAll(-1, es))|
    ensures var r := Load(PrintAll(FeedAll(-1, es))[..k]);
            && (r.status == Loaded || r.status == UnexpectedEof)
            && Replay(0, r.cmds) <= es
            && r.cmds == FeedAll(-1, es)[..Whole(FeedAll(-1, es), k)]
  {
    var cs := FeedAll(-1, es);
    FeedAllFits(-1, es);
    PrefixLoads(cs, k);
    FeedAllReplays(0, -1, es);
    var n := Whole(cs, k);
    assert cs == cs[..n] + cs[n..];
    ReplayConcat(0, cs[..n], cs[n..]);
  }

  /**
   The server truncates what it loaded at `valid_up_to` and logs on, with no database selected: the file then loads clean
   as the commands that survived followed by the new ones.
   */
  lemma RecoveredLogContinues(es: seq<Entry>, k: nat, more: seq<Entry>)
    requires (forall e | e in es :: Proper(e)) && (forall e | e in more :: Proper(e))
    requires k <= |PrintAll(FeedAll(-1, es))|
    ensures var file := PrintAll(FeedAll(-1, es))[..k];
            var r := Load(file);
            && r.validUpTo <= |file|
            && var s := Load(file[..r.validUpTo] + PrintAll(FeedAll(-1, more)));
               s.status == Loaded && Replay(0, s.cmds) == Replay(0, r.cmds) + more
  {
    hide Load, PrintAll, Whole, Replay, FeedAll, Proper;
    var cs, ds := FeedAll(-1, es), FeedAll(-1, more);
    FeedAllFits(-1, es);
    FeedAllFits(-1, more);
    PrefixLoads(cs, k);
    var n := Whole(cs, k);
    WholeWithin(cs, k);
    assert cs == cs[..n] + cs[n..];
    PrintAllConcat(cs[..n], cs[n..]);
    var p := PrintAll(cs[..n]);
    assert PrintAll(cs)[..k][..|p|] == p;
    PrintAllConcat(cs[..n], ds);
    LogRoundTrip(cs[..n] + ds);
    ReplayConcat(0, cs[..n], ds);
    FeedAllReplays(FinalDb(0, cs[..n]), -1, more);
  }

  /** The commands within the first bytes end within them. */
  lemma {:induction false} WholeWithin(cs: seq<Cmd>, k: nat)
    ensures |PrintAll(cs[..Whole(cs, k)])| <= k
  {
    hide Print;
    if cs != [] && k >= |Print(cs[0])| {
      var n := Whole(cs[1..], k - |Print(cs[0])|);
      WholeWithin(cs[1..], k - |Print(cs[0])|);
      assert cs[..n + 1][1..] == cs[1..][..n];
    } else {
      assert cs[..0] == [];
    }
  }

  // ---------- the data set a log rebuilds ----------

  function RunAll<D>(run: (D, Entry) -> D, d: D, es: seq<Entry>): D
    decreases |es|
  {
    if es == [] then d else RunAll(run, run(d, es[0]), es[1..])
  }

  lemma {:induction false} RunAllConcat<D>(run: (D, Entry) -> D, d: D, a: seq<Entry>, b: seq<Entry>)
    ensures RunAll(run, d, a + b) == RunAll(run, RunAll(run, d, a), b)
    decreases |a|
  {
    if a == [] {
      assert a + b == b;
    } else {
      assert (a + b)[1..] == a[1..] + b;
      RunAllConcat(run, run(d, a[0]), a[1..], b);
    }
  }

  /** Loading starts from an empty data set in database 0. */
  function Rebuild<D>(run: (D, Entry) -> D, empty: D, cs: seq<Cmd>): D {
    RunAll(run, empty, Replay(0, cs))
  }

  /** The database a log ends in is the one the server believes is selected, if it believes any. */
  ghost predicate Tracks(selected: int, cs: seq<Cmd>) {
    selected == -1 || selected == FinalDb(0, cs)
  }

  lemma FeedRebuilds<D>(run: (D, Entry) -> D, empty: D, cs: seq<Cmd>, selected: int, e: Entry)
    requires Proper(e) && Tracks(selected, cs)
    ensures var cs' := cs + Feed(selected, e);
            Rebuild(run, empty, cs') == run(Rebuild(run, empty, cs), e) && Tracks(e.db, cs')
  {
    var more := Feed(selected, e);
    ReplayConcat(0, cs, more);
    FeedReplays(FinalDb(0, cs), selected, e);
    RunAllConcat(run, empty, Replay(0, cs), [e]);
    assert [e][1..] == [];
    assert RunAll(run, Rebuild(run, empty, cs), [e]) == run(Rebuild(run, empty, cs), e);
  }
}
