/**
 Which byte strings the loader accepts, whoever wrote them: a command is a line with a star and the number of its
 arguments, and an argument a line with a dollar and its length, its bytes, and two more.
 */
module AofGrammar {
  import opened AofFormat

  ghost predicate ArgText(t: Bytes, a: Bytes) {
    var n := LineLen(t, LINE_MAX);
    t != [] && t[0] == '$' && Strtol(t[1..n]) == |a| && |t| == n + |a| + 2 && t[n..n + |a|] == a
  }

  ghost predicate ArgsText(t: Bytes, args: Cmd) {
    if args == [] then t == []
    else exists k | 0 <= k <= |t| :: ArgText(t[..k], args[0]) && ArgsText(t[k..], args[1..])
  }

  ghost predicate CommandText(t: Bytes, c: Cmd) {
    var n := LineLen(t, LINE_MAX);
    t != [] && t[0] == '*' && |c| >= 1 && Strtol(t[1..n]) == |c| && ArgsText(t[n..], c)
  }

  ghost predicate LogText(t: Bytes, cs: seq<Cmd>) {
    if cs == [] then t == []
    else exists k | 0 <= k <= |t| :: CommandText(t[..k], cs[0]) && LogText(t[k..], cs[1..])
  }

  /** A line is the same in every prefix that holds it. */
  lemma {:induction false} LineOfPrefix(f: Bytes, k: nat, limit: nat)
    requires LineLen(f, limit) <= k <= |f|
    ensures LineLen(f[..k], limit) == LineLen(f, limit)
  {
    if f != [] && limit > 0 && k > 0 && f[0] != '\n' {
      assert f[..k][1..] == f[1..][..k - 1];
      LineOfPrefix(f[1..], k - 1, limit - 1);
    }
  }

  lemma ReadArgSound(f: Bytes)
    requires ReadArg(f).Arg?
    ensures var k := |f| - |ReadArg(f).rest|;
            0 <= k <= |f| && f[k..] == ReadArg(f).rest && ArgText(f[..k], ReadArg(f).arg)
  {
    hide LineLen, Strtol;
    var n, r := LineLen(f, LINE_MAX), ReadArg(f);
    var k := |f| - |r.rest|;
    LineOfPrefix(f, k, LINE_MAX);
    assert f[..k][1..n] == f[..n][1..];
    assert f[..k][n..n + |r.arg|] == f[n..][..|r.arg|];
    assert f[k..] == f[n..][|r.arg| + 2..];
  }

  lemma {:induction false} ReadArgsSound(f: Bytes, n: nat)
    requires ReadArgs(f, n).Args?
    ensures var r := ReadArgs(f, n);
            var k := |f| - |r.rest|;
            |r.args| == n && 0 <= k <= |f| && f[k..] == r.rest && ArgsText(f[..k], r.args)
  {
    hide ReadArg, ArgText;
    if n > 0 {
      var a := ReadArg(f);
      var i := |f| - |a.rest|;
      ReadArgSound(f);
      ReadArgsSound(a.rest, n - 1);
      var r, more := ReadArgs(f, n), ReadArgs(a.rest, n - 1);
      var k := |f| - |r.rest|;
      assert r.args[0] == a.arg && r.args[1..] == more.args;
      var j := |a.rest| - |more.rest|;
      assert f[k..] == f[i..][j..];
      assert f[..k][..i] == f[..i] && f[..k][i..] == f[i..][..j];
    }
  }

  /** A command that is read is written there. */
  lemma ReadCommandSound(f: Bytes)
    requires f != [] && ReadCommand(f).Args?
    ensures var r := ReadCommand(f);
            var k := |f| - |r.rest|;
            0 <= k <= |f| && f[k..] == r.rest && CommandText(f[..k], r.args)
  {
    hide LineLen, Strtol, ReadArgs, ArgsText;
    var n := LineLen(f, LINE_MAX);
    var line, rest := f[..n], f[n..];
    var argc := Strtol(line[1..]);
    ReadArgsSound(rest, argc);
    var r := ReadCommand(f);
    var k := |f| - |r.rest|;
    LineOfPrefix(f, k, LINE_MAX);
    assert f[..k][1..n] == line[1..];
    assert f[..k][n..] == rest[..k - n];
    assert f[k..] == rest[k - n..];
  }

  /**
   For every byte string, the loader runs the commands that are written up to `valid_up_to`, and no others; it stops at the
   end, or where no command can be read.
   */
  lemma {:induction false} LoadSound(f: Bytes)
    ensures var r := Load(f);
            && LogText(f[..r.validUpTo], r.cmds)
            && (r.status == Loaded ==> r.validUpTo == |f|)
            && (r.status != Loaded ==> f[r.validUpTo..] != [] && ReadCommand(f[r.validUpTo..]) == NoArgs(r.status))
    decreases |f|
  {
    hide ReadCommand, CommandText;
    if f != [] {
      var c := ReadCommand(f);
      if c.Args? {
        var i := |f| - |c.rest|;
        ReadCommandSound(f);
        LoadSound(c.rest);
        var r, more := Load(f), Load(c.rest);
        assert r.cmds[0] == c.args && r.cmds[1..] == more.cmds;
        var k := r.validUpTo;
        assert f[..k][..i] == f[..i] && f[..k][i..] == f[i..][..more.validUpTo];
        assert f[k..] == f[i..][more.validUpTo..];
      } else {
        FailsLoaded(f);
        assert f[0..] == f;
      }
    }
  }

  /** A command that cannot be read is not success. */
  lemma FailsLoaded(f: Bytes)
    requires f != [] && ReadCommand(f).NoArgs?
    ensures ReadCommand(f).why != Loaded
  {
    hide LineLen, Strtol, ReadArgs;
    var n := LineLen(f, LINE_MAX);
    var argc := Strtol(f[..n][1..]);
    if argc >= 1 { ArgsFailure(f[n..], argc); }
  }

  lemma {:induction false} ArgsFailure(f: Bytes, n: nat)
    ensures ReadArgs(f, n).NoArgs? ==> ReadArgs(f, n).why != Loaded
  {
    hide LineLen, Strtol;
    if n > 0 && ReadArg(f).Arg? { ArgsFailure(ReadArg(f).rest, n - 1); }
  }

  /** What the server prints is written so. */
  lemma PrintedText(c: Cmd)
    requires Fits(c) && c != []
    ensures CommandText(Print(c), c)
  {
    hide Print, ReadCommand, CommandText, Fits;
    CommandRoundTrip(c, []);
    assert Print(c) + [] == Print(c);
    ReadCommandSound(Print(c));
    assert Print(c)[..|Print(c)|] == Print(c);
  }
}
