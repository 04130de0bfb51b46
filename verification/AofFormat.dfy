/**
 The text of the append-only file: commands printed as RESP arrays of bulk strings, and the read loop
 that loads them back.  A byte is a `char`; a file is the sequence of its bytes.
 */
module AofFormat {
  type Bytes = seq<char>

  /** A command: its name and arguments. */
  type Cmd = seq<Bytes>

  // ---------- numbers ----------

  function Digit(d: nat): char
    requires d < 10
  {
    "0123456789"[d]
  }

  predicate IsDigit(c: char) {
    '0' <= c <= '9'
  }

  function DigitVal(c: char): nat
    requires IsDigit(c)
  {
    (c as int) - ('0' as int)
  }

  /** `ll2string` of a non-negative number. */
  function Dec(n: nat): (s: Bytes)
    ensures |s| > 0 && IsDigit(s[0]) && forall c | c in s :: IsDigit(c)
  {
    if n < 10 then [Digit(n)] else Dec(n / 10) + [Digit(n % 10)]
  }

  /** The number made of the leading digits, after those already read. */
  function Digits(s: Bytes, acc: nat): nat {
    if s == [] || !IsDigit(s[0]) then acc else Digits(s[1..], acc * 10 + DigitVal(s[0]))
  }

  predicate IsSpace(c: char) {
    c == ' ' || c == '\t' || c == '\n' || c == '\r' || c as int == 11 || c as int == 12
  }

  /** `strtol` in base ten, on a number that does not overflow. */
  function Strtol(s: Bytes): int {
    if s == [] then 0
    else if IsSpace(s[0]) then Strtol(s[1..])
    else if s[0] == '-' then -(Digits(s[1..], 0) as int)
    else if s[0] == '+' then Digits(s[1..], 0)
    else Digits(s, 0)
  }

  lemma {:induction false} DigitsSplit(a: Bytes, b: Bytes, acc: nat)
    requires forall c | c in a :: IsDigit(c)
    ensures Digits(a + b, acc) == Digits(b, Digits(a, acc))
  {
    if a == [] {
      assert a + b == b;
    } else {
      assert (a + b)[1..] == a[1..] + b;
      DigitsSplit(a[1..], b, acc * 10 + DigitVal(a[0]));
    }
  }

  lemma DigitRoundTrip(d: nat)
    requires d < 10
    ensures IsDigit(Digit(d)) && DigitVal(Digit(d)) == d
  {
  }

  lemma {:induction false} DecRoundTrip(n: nat, t: Bytes)
    requires t == [] || !IsDigit(t[0])
    ensures Digits(Dec(n) + t, 0) == n && Strtol(Dec(n) + t) == n
  {
    DecValue(n);
    DigitsSplit(Dec(n), t, 0);
  }

  lemma {:induction false} DecValue(n: nat)
    ensures Digits(Dec(n), 0) == n
  {
    DigitRoundTrip(n % 10);
    if n >= 10 {
      DecValue(n / 10);
      DigitsSplit(Dec(n / 10), [Digit(n % 10)], 0);
      assert [Digit(n % 10)][1..] == [];
    } else {
      assert [Digit(n)][1..] == [];
    }
  }

  /** Argument counts and lengths stay below this: the former are C `int`s, the latter lengths of strings in memory. */
  const MAX_LEN := 1_000_000_000_000_000_000

  lemma {:induction false} DecLength(n: nat, k: nat)
    requires k > 0 && n < Pow10(k)
    ensures |Dec(n)| <= k
  {
    if n >= 10 { DecLength(n / 10, k - 1); }
  }

  function Pow10(k: nat): nat {
    if k == 0 then 1 else 10 * Pow10(k - 1)
  }

  lemma DecShort(n: nat)
    requires n <= MAX_LEN
    ensures |Dec(n)| <= 20
  {
    assert Pow10(5) == 100_000;
    assert Pow10(10) == 10_000_000_000 by { assert Pow10(7) == 10_000_000; }
    assert Pow10(13) == 10_000_000_000_000;
    assert Pow10(16) == 10_000_000_000_000_000;
    assert Pow10(19) == 10_000_000_000_000_000_000;
    assert Pow10(20) == 10 * Pow10(19);
    DecLength(n, 20);
  }

  // ---------- printing: catAppendOnlyGenericCommand ----------

  const CRLF: Bytes := "\r\n"

  function Header(mark: char, n: nat): Bytes {
    [mark] + Dec(n) + CRLF
  }

  function PrintArg(a: Bytes): Bytes {
    Header('$', |a|) + a + CRLF
  }

  function PrintArgs(args: Cmd): Bytes {
    if args == [] then [] else PrintArg(args[0]) + PrintArgs(args[1..])
  }

  function Print(c: Cmd): Bytes {
    Header('*', |c|) + PrintArgs(c)
  }

  function PrintAll(cs: seq<Cmd>): Bytes {
    if cs == [] then [] else Print(cs[0]) + PrintAll(cs[1..])
  }

  // ---------- reading: the loop of loadAppendOnlyFile ----------

  const LINE_MAX := 127

  /** The length of the line `fgets` reads, at most `limit` bytes and up to a newline. */
  function LineLen(f: Bytes, limit: nat): (n: nat)
    ensures n <= |f| && n <= limit && (f != [] && limit > 0 ==> n > 0)
  {
    if f == [] || limit == 0 then 0 else if f[0] == '\n' then 1 else 1 + LineLen(f[1..], limit - 1)
  }

  /** Whether `fgets` stopped because the file ended. */
  predicate HitEof(line: Bytes, rest: Bytes) {
    rest == [] && |line| < LINE_MAX && (line == [] || line[|line| - 1] != '\n')
  }

  datatype Status = Loaded | UnexpectedEof | BadFormat | ReadError | NoMemory

  datatype ArgRead = Arg(arg: Bytes, rest: Bytes) | NoArg(why: Status)

  function ReadArg(f: Bytes): (r: ArgRead)
    ensures r.Arg? ==> |r.rest| < |f|
  {
    if f == [] then NoArg(UnexpectedEof)
    else
      var n := LineLen(f, LINE_MAX);
      var line, r := f[..n], f[n..];
      if line[0] != '$' then NoArg(BadFormat)
      else
        var len := Strtol(line[1..]);
        if len < 0 then NoArg(NoMemory)
        else if |r| < len then NoArg(UnexpectedEof)
        else if |r| - len < 2 then NoArg(UnexpectedEof)
        else Arg(r[..len], r[len + 2..])
  }

  datatype ArgsRead = Args(args: Cmd, rest: Bytes) | NoArgs(why: Status)

  function ReadArgs(f: Bytes, n: nat): (r: ArgsRead)
    ensures r.Args? ==> |r.rest| <= |f|
  {
    if n == 0 then Args([], f)
    else
      match ReadArg(f)
      case NoArg(why) => NoArgs(why)
      case Arg(a, rest) =>
        match ReadArgs(rest, n - 1)
        case NoArgs(why) => NoArgs(why)
        case Args(more, rest') => Args([a] + more, rest')
  }

  function ReadCommand(f: Bytes): (r: ArgsRead)
    requires f != []
    ensures r.Args? ==> |r.rest| < |f|
  {
    var n := LineLen(f, LINE_MAX);
    var line, r := f[..n], f[n..];
    if line[0] != '*' then NoArgs(BadFormat)
    else if |line| == 1 || line[1] == '\0' then NoArgs(if HitEof(line, r) then UnexpectedEof else ReadError)
    else
      var argc := Strtol(line[1..]);
      if argc < 1 then NoArgs(BadFormat) else ReadArgs(r, argc)
  }

  /** The commands run, how the loop ended, and `valid_up_to`. */
  datatype LoadResult = LoadResult(cmds: seq<Cmd>, status: Status, validUpTo: nat)

  function Load(f: Bytes): (r: LoadResult)
    ensures r.validUpTo <= |f|
    decreases |f|
  {
    if f == [] then LoadResult([], Loaded, 0)
    else
      match ReadCommand(f)
      case NoArgs(why) => LoadResult([], why, 0)
      case Args(c, rest) =>
        var r := Load(rest);
        LoadResult([c] + r.cmds, r.status, |f| - |rest| + r.validUpTo)
  }

  // ---------- a printed header read back, whole or cut short ----------

  lemma {:induction false} LineToNewline(a: Bytes, b: Bytes, limit: nat)
    requires '\n' !in a && |a| < limit
    ensures LineLen(a + "\n" + b, limit) == |a| + 1
  {
    var s := a + "\n" + b;
    if a != [] {
      assert s[1..] == a[1..] + "\n" + b;
      LineToNewline(a[1..], b, limit - 1);
    }
  }

  lemma {:induction false} LineToEnd(a: Bytes, limit: nat)
    requires '\n' !in a && |a| <= limit
    ensures LineLen(a, limit) == |a|
  {
    if a != [] { LineToEnd(a[1..], limit - 1); }
  }

  lemma HeaderLine(mark: char, n: nat, rest: Bytes)
    requires n <= MAX_LEN && mark != '\n'
    ensures LineLen(Header(mark, n) + rest, LINE_MAX) == |Header(mark, n)|
    ensures Strtol(Header(mark, n)[1..]) == n && |Header(mark, n)| > 2 && Header(mark, n)[0] == mark
    ensures IsDigit(Header(mark, n)[1])
  {
    DecShort(n);
    var a := [mark] + Dec(n) + "\r";
    assert Header(mark, n) + rest == a + "\n" + rest;
    LineToNewline(a, rest, LINE_MAX);
    DecRoundTrip(n, CRLF);
    assert Header(mark, n)[1..] == Dec(n) + CRLF;
  }

  /** A header cut before its end is one line with a number that is not negative. */
  lemma CutHeader(mark: char, n: nat, k: nat)
    requires n <= MAX_LEN && mark != '\n' && 0 < k < |Header(mark, n)|
    ensures var f := Header(mark, n)[..k];
            && LineLen(f, LINE_MAX) == k && f[0] == mark && Strtol(f[1..]) >= 0
            && f[k - 1] != '\n' && k < LINE_MAX && (k > 1 ==> IsDigit(f[1]))
  {
    DecShort(n);
    var w := [mark] + Dec(n) + "\r";
    var f := Header(mark, n)[..k];
    assert f == w[..k] && '\n' !in w;
    LineToEnd(f, LINE_MAX);
    NotNegative(f[1..]);
  }

  lemma NotNegative(s: Bytes)
    requires s == [] || IsDigit(s[0])
    ensures Strtol(s) >= 0
  {
  }

  // ---------- an argument, a command, a log ----------

  /** Argument lengths and the argument count are ones the server can hold. */
  ghost predicate Fits(c: Cmd) {
    |c| <= MAX_LEN && forall a | a in c :: |a| <= MAX_LEN
  }

  lemma ArgRoundTrip(a: Bytes, rest: Bytes)
    requires |a| <= MAX_LEN
    ensures ReadArg(PrintArg(a) + rest) == Arg(a, rest)
  {
    hide LineLen, Strtol, Dec;
    var h := Header('$', |a|);
    var f := PrintArg(a) + rest;
    assert f == h + (a + CRLF + rest);
    HeaderLine('$', |a|, a + CRLF + rest);
    assert f[..|h|] == h && f[|h|..] == a + CRLF + rest;
  }

  lemma CutArg(a: Bytes, k: nat)
    requires |a| <= MAX_LEN && k < |PrintArg(a)|
    ensures ReadArg(PrintArg(a)[..k]) == NoArg(UnexpectedEof)
  {
    hide LineLen, Strtol, Dec;
    var h := Header('$', |a|);
    var f := PrintArg(a)[..k];
    if 0 < k < |h| {
      CutHeader('$', |a|, k);
      assert f == h[..k] && f[..k] == f && f[k..] == [];
    } else if k >= |h| {
      var r := (a + CRLF)[..k - |h|];
      assert f == h + r;
      HeaderLine('$', |a|, r);
      assert f[..|h|] == h && f[|h|..] == r;
    }
  }

  lemma PrintArgsCons(args: Cmd, rest: Bytes)
    requires args != []
    ensures PrintArgs(args) + rest == PrintArg(args[0]) + (PrintArgs(args[1..]) + rest)
  {
    hide PrintArg;
    var p, q := PrintArg(args[0]), PrintArgs(args[1..]);
    assert (p + q) + rest == p + (q + rest);
  }

  lemma ReadArgsCons(f: Bytes, n: nat, a: Bytes, rest: Bytes, more: Cmd, rest': Bytes)
    requires n > 0 && ReadArg(f) == Arg(a, rest) && ReadArgs(rest, n - 1) == Args(more, rest')
    ensures ReadArgs(f, n) == Args([a] + more, rest')
  {
    hide ReadArg;
  }

  lemma NoArgsRoundTrip(rest: Bytes)
    ensures ReadArgs(PrintArgs([]) + rest, 0) == Args([], rest)
  {
    assert PrintArgs([]) + rest == rest;
  }

  lemma {:induction false} ArgsRoundTrip(args: Cmd, rest: Bytes)
    requires forall a | a in args :: |a| <= MAX_LEN
    ensures ReadArgs(PrintArgs(args) + rest, |args|) == Args(args, rest)
  {
    hide ReadArg, ReadArgs, PrintArg, PrintArgs;
    if args == [] {
      NoArgsRoundTrip(rest);
    } else {
      var first, others := args[0], args[1..];
      assert args == [first] + others;
      var more := PrintArgs(others) + rest;
      PrintArgsCons(args, rest);
      ArgRoundTrip(first, more);
      ArgsRoundTrip(others, rest);
      ReadArgsCons(PrintArgs(args) + rest, |args|, first, more, others, rest);
    }
  }

  lemma {:induction false} CutArgs(args: Cmd, k: nat)
    requires (forall a | a in args :: |a| <= MAX_LEN) && k < |PrintArgs(args)|
    ensures ReadArgs(PrintArgs(args)[..k], |args|) == NoArgs(UnexpectedEof)
  {
    hide ReadArg, PrintArg;
    var p, q := PrintArg(args[0]), PrintArgs(args[1..]);
    var f := PrintArgs(args)[..k];
    if k < |p| {
      assert f == p[..k];
      CutArg(args[0], k);
    } else {
      assert f == p + q[..k - |p|];
      ArgRoundTrip(args[0], q[..k - |p|]);
      CutArgs(args[1..], k - |p|);
    }
  }

  lemma CommandRoundTrip(c: Cmd, rest: Bytes)
    requires Fits(c) && c != []
    ensures Print(c) + rest != [] && ReadCommand(Print(c) + rest) == Args(c, rest)
  {
    hide LineLen, Strtol, Dec, ReadArgs, PrintArgs;
    var h := Header('*', |c|);
    var f := Print(c) + rest;
    assert f == h + (PrintArgs(c) + rest);
    HeaderLine('*', |c|, PrintArgs(c) + rest);
    assert f[..|h|] == h && f[|h|..] == PrintArgs(c) + rest;
    ArgsRoundTrip(c, rest);
  }

  lemma CutCommand(c: Cmd, k: nat)
    requires Fits(c) && c != [] && 0 < k < |Print(c)|
    ensures ReadCommand(Print(c)[..k]) == NoArgs(UnexpectedEof)
  {
    hide LineLen, Strtol, Dec, ReadArgs, PrintArgs;
    var h := Header('*', |c|);
    var f := Print(c)[..k];
    if k < |h| {
      CutHeader('*', |c|, k);
      assert f == h[..k] && f[..k] == f && f[k..] == [];
      if k > 1 { CutCount(c, k); }
    } else {
      var r := PrintArgs(c)[..k - |h|];
      assert f == h + r;
      HeaderLine('*', |c|, r);
      assert f[..|h|] == h && f[|h|..] == r;
      CutArgs(c, k - |h|);
    }
  }

  lemma CutLine(mark: char, d: Bytes, k: nat)
    requires 1 < k < |d| + 3
    ensures ([mark] + d + CRLF)[..k][1..] == if k - 1 <= |d| then d[..k - 1] else d + "\r"
  {
    var f := ([mark] + d + CRLF)[..k];
    assert forall i | 0 <= i < |d| && i + 1 < k :: f[i + 1] == d[i];
  }

  /** The argument count may have lost digits, but what is left is at least one, and no argument follows. */
  lemma CutCount(c: Cmd, k: nat)
    requires Fits(c) && c != [] && 1 < k < |Header('*', |c|)|
    ensures var f := Header('*', |c|)[..k];
            Strtol(f[1..]) >= 1 && ReadArgs([], Strtol(f[1..])) == NoArgs(UnexpectedEof)
  {
    var f := Header('*', |c|)[..k];
    DecPrefix(|c|, if k - 1 < |Dec(|c|)| then k - 1 else |Dec(|c|)|);
    var d := Dec(|c|);
    CutLine('*', d, k);
    if k - 1 > |d| {
      DecRoundTrip(|c|, "\r");
    }
  }

  /** A printed positive number does not start with a zero. */
  lemma {:induction false} DecPrefix(n: nat, k: nat)
    requires n > 0 && 0 < k <= |Dec(n)|
    ensures Strtol(Dec(n)[..k]) >= 1
  {
    var d := Dec(n);
    DecLead(n);
    var s := d[..k];
    assert s[0] == d[0];
    DigitsGrow(s[1..], DigitVal(s[0]));
  }

  lemma {:induction false} DecLead(n: nat)
    requires n > 0
    ensures DigitVal(Dec(n)[0]) >= 1
  {
    DigitRoundTrip(n % 10);
    if n >= 10 { DecLead(n / 10); }
  }

  lemma {:induction false} DigitsGrow(s: Bytes, acc: nat)
    ensures Digits(s, acc) >= acc
  {
    if s != [] && IsDigit(s[0]) { DigitsGrow(s[1..], acc * 10 + DigitVal(s[0])); }
  }

  ghost predicate AllFit(cs: seq<Cmd>) {
    forall c | c in cs :: c != [] && Fits(c)
  }

  /** The commands of a log that lie within its first `k` bytes. */
  ghost function Whole(cs: seq<Cmd>, k: nat): (n: nat)
    ensures n <= |cs|
  {
    if cs == [] || k < |Print(cs[0])| then 0 else 1 + Whole(cs[1..], k - |Print(cs[0])|)
  }

  /**
   Every prefix of a log loads exactly the commands that lie within it; `valid_up_to` is the end of
   the last one, and the end is unexpected unless it is a command's end.
   */
  lemma {:induction false} PrefixLoads(cs: seq<Cmd>, k: nat)
    requires AllFit(cs) && k <= |PrintAll(cs)|
    ensures var n := Whole(cs, k);
            var end := |PrintAll(cs[..n])|;
            Load(PrintAll(cs)[..k]) == LoadResult(cs[..n], if k == end then Loaded else UnexpectedEof, end)
  {
    hide ReadCommand, Print;
    if cs != [] {
      var p, q := Print(cs[0]), PrintAll(cs[1..]);
      var f := PrintAll(cs)[..k];
      AllFitTail(cs);
      CommandRoundTrip(cs[0], []);
      if k < |p| {
        assert f == p[..k] && cs[..0] == [];
        if k > 0 { CutCommand(cs[0], k); }
      } else {
        SplitPrefix(p, q, k);
        CommandRoundTrip(cs[0], q[..k - |p|]);
        PrefixLoads(cs[1..], k - |p|);
        var n := Whole(cs[1..], k - |p|);
        assert cs[..n + 1] == [cs[0]] + cs[1..][..n] && cs[..n + 1][1..] == cs[1..][..n];
      }
    }
  }

  lemma AllFitTail(cs: seq<Cmd>)
    requires AllFit(cs) && cs != []
    ensures cs[0] != [] && Fits(cs[0]) && AllFit(cs[1..])
  {
    hide Fits;
    assert cs[0] in cs && forall c | c in cs[1..] :: c in cs;
  }

  lemma SplitPrefix(p: Bytes, q: Bytes, k: nat)
    requires |p| <= k <= |p| + |q|
    ensures (p + q)[..k] == p + q[..k - |p|]
  {
  }

  lemma {:induction false} WholeAll(cs: seq<Cmd>)
    ensures Whole(cs, |PrintAll(cs)|) == |cs|
  {
    if cs != [] { WholeAll(cs[1..]); }
  }

  /** A log loads back as the commands it was printed from. */
  lemma LogRoundTrip(cs: seq<Cmd>)
    requires AllFit(cs)
    ensures Load(PrintAll(cs)) == LoadResult(cs, Loaded, |PrintAll(cs)|)
  {
    PrefixLoads(cs, |PrintAll(cs)|);
    WholeAll(cs);
    assert PrintAll(cs)[..|PrintAll(cs)|] == PrintAll(cs) && cs[..|cs|] == cs;
  }

  lemma {:induction false} PrintAllConcat(a: seq<Cmd>, b: seq<Cmd>)
    ensures PrintAll(a + b) == PrintAll(a) + PrintAll(b)
  {
    if a == [] {
      assert a + b == b;
    } else {
      assert (a + b)[1..] == a[1..] + b;
      PrintAllConcat(a[1..], b);
    }
  }

  // ---------- the read loop ----------

  /** Reads the arguments of one command, in order, from a file position. */
  method ReadArguments(f: Bytes, argc: nat) returns (r: ArgsRead)
    ensures r == ReadArgs(f, argc)
  {
    hide ReadArg;
    var args: Cmd, rest, j := [], f, 0;
    while j < argc
      invariant j <= argc
      invariant ReadArgs(f, argc) == match ReadArgs(rest, argc - j)
                                     case NoArgs(why) => NoArgs(why)
                                     case Args(more, end) => Args(args + more, end)
    {
      var a := ReadArg(rest);
      if a.NoArg? {
        return NoArgs(a.why);
      }
      ghost var more := ReadArgs(a.rest, argc - j - 1);
      if more.Args? { assert (args + [a.arg]) + more.args == args + ([a.arg] + more.args); }
      args, rest, j := args + [a.arg], a.rest, j + 1;
    }
    assert args + [] == args;
    return Args(args, rest);
  }

  /** The loop of `loadAppendOnlyFile`: commands are run in order until the file ends or an error stops it. */
  method LoadLoop(file: Bytes) returns (r: LoadResult)
    ensures r == Load(file)
  {
    hide ReadCommand;
    var f, cmds, validUpTo := file, [], 0;
    while f != []
      invariant validUpTo == |file| - |f|
      invariant Load(file) == LoadResult(cmds + Load(f).cmds, Load(f).status, validUpTo + Load(f).validUpTo)
      decreases |f|
    {
      var c := ReadCommand(f);
      if c.NoArgs? {
        assert cmds + [] == cmds;
        return LoadResult(cmds, c.why, validUpTo);
      }
      assert cmds + ([c.args] + Load(c.rest).cmds) == (cmds + [c.args]) + Load(c.rest).cmds;
      cmds, validUpTo, f := cmds + [c.args], |file| - |c.rest|, c.rest;
    }
    assert cmds + [] == cmds;
    return LoadResult(cmds, Loaded, validUpTo);
  }

  /** The loop of `catAppendOnlyGenericCommand`. */
  method CatCommand(dst: Bytes, argv: Cmd) returns (r: Bytes)
    ensures r == dst + Print(argv)
  {
    hide Dec;
    r := dst + Header('*', |argv|);
    var j := 0;
    assert argv[0..] == argv;
    assert r + PrintArgs(argv) == dst + Print(argv);
    while j < |argv|
      invariant j <= |argv|
      invariant r + PrintArgs(argv[j..]) == dst + Print(argv)
    {
      var o := argv[j];
      ghost var tail := PrintArgs(argv[j + 1..]);
      assert argv[j..][1..] == argv[j + 1..];
      assert r + (PrintArg(o) + tail) == r + Header('$', |o|) + o + CRLF + tail;
      r := r + Header('$', |o|);
      r := r + o;
      r := r + CRLF;
      j := j + 1;
    }
    assert argv[j..] == [] && r + [] == r;
  }
}
