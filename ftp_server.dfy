// The control connection of a small FTP server: one session thread reads
// command lines, keeps the login state and the current directory, and
// answers each line with reply lines. The filesystem, name resolution and
// the data connection are supplied per line as an environment of oracles.

module FtpServer {
  import Lex
  import opened Wrappers

  // ---------------------------------------------------------------- replies

  const CODE_125 := "125 Data connection already open; transfer starting."
  const CODE_200 := "200 The requested action has been successfully completed."
  const CODE_212 := "212 Directory status."
  const CODE_220 := "220 Service ready for new user"
  const CODE_226 := "226 Closing data connection. Requested file action successful."
  const CODE_230 := "230 User logged in, proceed. Logged out if appropriate."
  const CODE_231 := "231 User logged out; service terminated."
  const CODE_250 := "250 Requested file action okay, completed."
  const CODE_257 := "257 "
  const CODE_331 := "331 User name okay, need password."
  const CODE_425 := "425 Can't open data connection."
  const CODE_430 := "430 Invalid user name or password"
  const CODE_450 := "450 Requested file action not taken"
  const CODE_451 := "451 Requested action aborted. Local error in processing."
  const CODE_502 := "502 Command not implemented."
  const CODE_530 := "530 Not logged in"
  const CODE_550 := "550 Requested action not taken. File unavailable (e.g., file not found, no access, etc.)"

  /** The reply lines the server sends, one constructor per return code. */
  datatype Reply =
    | R125 | R200 | R212(directory: string) | R220 | R226 | R230 | R231 | R250
    | R257(created: string) | R331 | R425 | R430 | R450 | R451 | R502 | R530 | R550

  /** The text printed for a reply. */
  function Text(r: Reply): string {
    match r
    case R125 => CODE_125
    case R200 => CODE_200
    case R212(directory) => CODE_212 + "\n" + directory
    case R220 => CODE_220
    case R226 => CODE_226
    case R230 => CODE_230
    case R231 => CODE_231
    case R250 => CODE_250
    case R257(created) => CODE_257 + "'" + created + "' created."
    case R331 => CODE_331
    case R425 => CODE_425
    case R430 => CODE_430
    case R450 => CODE_450
    case R451 => CODE_451
    case R502 => CODE_502
    case R530 => CODE_530
    case R550 => CODE_550
  }

  /** The verbs that need a logged-in user. */
  const GuardedVerbs: set<string> := {"XMKD", "CWD", "XPWD", "EPRT", "RETR", "STOR", "DELE"}

  // ------------------------------------------------------------- tokenizer

  /** The default delimiters of java.util.StringTokenizer: space, tab, newline, carriage return, form feed. */
  predicate IsDelimiter(c: char) {
    c == ' ' || c == '\t' || c == '\n' || c == '\r' || c as int == 12
  }

  predicate IsToken(t: string) {
    |t| > 0 && forall i :: 0 <= i < |t| ==> !IsDelimiter(t[i])
  }

  /** The longest delimiter-free prefix. */
  function TakeToken(s: string): (t: string)
    ensures |t| <= |s| && t == s[..|t|]
    ensures forall i :: 0 <= i < |t| ==> !IsDelimiter(t[i])
    ensures |t| < |s| ==> IsDelimiter(s[|t|])
  {
    if s == [] || IsDelimiter(s[0]) then [] else [s[0]] + TakeToken(s[1..])
  }

  /** The tokens StringTokenizer hands out, in order. */
  function Tokens(s: string): (r: seq<string>)
    ensures forall k :: 0 <= k < |r| ==> IsToken(r[k])
    decreases |s|
  {
    if s == [] then []
    else if IsDelimiter(s[0]) then Tokens(s[1..])
    else
      var t := TakeToken(s);
      [t] + Tokens(s[|t|..])
  }

  /** Fields written out with one separator character between neighbours. */
  function Join(fields: seq<string>, sep: char): string {
    if |fields| == 0 then []
    else if |fields| == 1 then fields[0]
    else fields[0] + [sep] + Join(fields[1..], sep)
  }

  lemma TakeTokenOfWord(w: string, rest: string)
    requires IsToken(w) && (rest == [] || IsDelimiter(rest[0]))
    ensures TakeToken(w + rest) == w
    decreases |w|
  {
    if |w| > 1 {
      assert (w + rest)[1..] == w[1..] + rest;
      TakeTokenOfWord(w[1..], rest);
    }
  }

  /** Words separated by single spaces tokenize back to the same words. */
  lemma {:induction false} TokensOfJoin(words: seq<string>)
    requires forall k :: 0 <= k < |words| ==> IsToken(words[k])
    ensures Tokens(Join(words, ' ')) == words
  {
    if |words| == 1 {
      var w := words[0];
      TakeTokenOfWord(w, []);
      assert w + [] == w && w[|w|..] == [];
      assert Join(words, ' ') == w;
      assert Tokens(w) == [w] + Tokens([]);
    } else if |words| > 1 {
      var w := words[0];
      var rest := Join(words[1..], ' ');
      assert Join(words, ' ') == w + ([' '] + rest);
      TakeTokenOfWord(w, [' '] + rest);
      assert (w + ([' '] + rest))[|w|..] == [' '] + rest;
      assert ([' '] + rest)[1..] == rest;
      TokensOfJoin(words[1..]);
    }
  }

  // ------------------------------------------------------- String.split

  /** All pieces between occurrences of sep, empty ones included. */
  function SplitAll(s: string, sep: char): (r: seq<string>)
    ensures |r| >= 1
    ensures forall i :: 0 <= i < |r| ==> sep !in r[i]
  {
    if s == [] then [[]]
    else
      var rest := SplitAll(s[1..], sep);
      if s[0] == sep then [[]] + rest else [[s[0]] + rest[0]] + rest[1..]
  }

  function DropTrailingEmpty(pieces: seq<string>): (r: seq<string>)
    ensures |r| <= |pieces| && r == pieces[..|r|]
    ensures r == [] || r[|r| - 1] != []
  {
    if pieces == [] || pieces[|pieces| - 1] != [] then pieces
    else DropTrailingEmpty(pieces[..|pieces| - 1])
  }

  /**
   * String.split with a one-character pattern: without a match, the string
   * itself; otherwise the pieces with trailing empty pieces removed.
   */
  function Split(s: string, sep: char): (r: seq<string>)
    ensures r != [] || sep in s
    ensures forall i :: 0 <= i < |r| ==> sep !in r[i]
  {
    if sep !in s then [s] else DropTrailingEmpty(SplitAll(s, sep))
  }

  lemma {:induction false} SplitAllNoSeparator(s: string, sep: char)
    requires sep !in s
    ensures SplitAll(s, sep) == [s]
  {
    if s != [] {
      SplitAllNoSeparator(s[1..], sep);
      assert [s[0]] + s[1..] == s;
    }
  }

  lemma {:induction false} SplitAllAfterField(a: string, sep: char, b: string)
    requires sep !in a
    ensures SplitAll(a + [sep] + b, sep) == [a] + SplitAll(b, sep)
  {
    if a == [] {
      assert ([sep] + b)[1..] == b;
    } else {
      assert (a + [sep] + b)[1..] == a[1..] + [sep] + b;
      SplitAllAfterField(a[1..], sep, b);
      assert [a[0]] + a[1..] == a;
    }
  }

  lemma {:induction false} SplitAllOfJoin(fields: seq<string>, sep: char)
    requires |fields| >= 1
    requires forall k :: 0 <= k < |fields| ==> sep !in fields[k]
    ensures SplitAll(Join(fields, sep), sep) == fields
  {
    if |fields| == 1 {
      SplitAllNoSeparator(fields[0], sep);
    } else {
      SplitAllAfterField(fields[0], sep, Join(fields[1..], sep));
      SplitAllOfJoin(fields[1..], sep);
    }
  }

  /** split undoes Join when no field holds the separator and the last field is not empty. */
  lemma SplitOfJoin(fields: seq<string>, sep: char)
    requires |fields| >= 1 && fields[|fields| - 1] != []
    requires forall k :: 0 <= k < |fields| ==> sep !in fields[k]
    ensures Split(Join(fields, sep), sep) == fields
  {
    SplitAllOfJoin(fields, sep);
    if |fields| == 1 {
      assert Join(fields, sep) == fields[0];
    } else {
      assert Join(fields, sep) == fields[0] + [sep] + Join(fields[1..], sep);
      assert sep in Join(fields, sep) by {
        assert Join(fields, sep)[|fields[0]|] == sep;
      }
    }
  }

  // ------------------------------------------------------ String.replace

  predicate StartsWith(s: string, t: string) {
    |t| <= |s| && s[..|t|] == t
  }

  /** Every position of s, the end included, preceded by rep: replace with an empty target. */
  function ReplaceEmpty(s: string, rep: string): string {
    if s == [] then rep else rep + [s[0]] + ReplaceEmpty(s[1..], rep)
  }

  /** String.replace: every non-overlapping occurrence of target, left to right, becomes rep. */
  function ReplaceAll(s: string, target: string, rep: string): (r: string)
    ensures target != [] && rep == target ==> r == s
    ensures target != [] && StartsWith(s, target) ==> StartsWith(r, rep)
    decreases |s|
  {
    if target == [] then ReplaceEmpty(s, rep)
    else if StartsWith(s, target) then rep + ReplaceAll(s[|target|..], target, rep)
    else if s == [] then []
    else [s[0]] + ReplaceAll(s[1..], target, rep)
  }

  /** Without an occurrence of the target, replace changes nothing. */
  lemma {:induction false} ReplaceWithoutOccurrence(s: string, target: string, rep: string)
    requires target != []
    requires forall i :: 0 <= i <= |s| ==> !StartsWith(s[i..], target)
    ensures ReplaceAll(s, target, rep) == s
  {
    assert s[0..] == s;
    if s != [] {
      forall i | 0 <= i <= |s[1..]| ensures !StartsWith(s[1..][i..], target) {
        assert s[1..][i..] == s[i + 1..];
      }
      ReplaceWithoutOccurrence(s[1..], target, rep);
    }
  }

  // ----------------------------------------------------- Integer.parseInt

  predicate IsDigit(c: char) {
    '0' as int <= c as int <= '9' as int
  }

  function DigitsValue(ds: string): (v: nat)
    requires forall i :: 0 <= i < |ds| ==> IsDigit(ds[i])
  {
    if ds == [] then 0
    else
      var d := ds[|ds| - 1];
      assert IsDigit(d);
      DigitsValue(ds[..|ds| - 1]) * 10 + (d as int - '0' as int)
  }

  /** Integer.parseInt in radix 10: an optional sign, decimal digits, a value within 32 bits. */
  function ParseInt(s: string): (r: Option<int>)
    ensures r.Some? ==> -0x8000_0000 <= r.value < 0x8000_0000
  {
    if s == [] then None
    else
      var body := if s[0] == '-' || s[0] == '+' then s[1..] else s;
      if body == [] || exists i :: 0 <= i < |body| && !IsDigit(body[i]) then None
      else
        var v: int := if s[0] == '-' then -(DigitsValue(body) as int) else DigitsValue(body);
        if -0x8000_0000 <= v < 0x8000_0000 then Some(v) else None
  }

  /** The decimal numeral of n, without sign or leading zeros. */
  function Decimal(n: nat): (ds: string)
    ensures |ds| > 0 && forall i :: 0 <= i < |ds| ==> IsDigit(ds[i])
  {
    if n < 10 then [('0' as int + n) as char]
    else Decimal(n / 10) + [('0' as int + n % 10) as char]
  }

  lemma {:induction false} DigitsValueOfDecimal(n: nat)
    ensures DigitsValue(Decimal(n)) == n
  {
    if n >= 10 {
      DigitsValueOfDecimal(n / 10);
      assert Decimal(n)[..|Decimal(n)| - 1] == Decimal(n / 10);
    }
  }

  /** parseInt reads back every numeral of a non-negative 32-bit value. */
  lemma ParseIntOfDecimal(n: nat)
    requires n < 0x8000_0000
    ensures ParseInt(Decimal(n)) == Some(n)
  {
    DigitsValueOfDecimal(n);
  }

  // ---------------------------------------------------------- the session

  /** The fields of a session thread that the commands read and write. */
  datatype Session = Session(
    loggedIn: bool,
    quit: bool,
    userName: Option<string>,
    password: Option<string>,
    rootDirectory: string,
    currentDirectory: string,
    transferAddress: Option<string>,
    transferPort: int)

  /** A new session: logged out, with empty directories and no transfer address. */
  const InitialSession := Session(false, false, None, None, "", "", None, 0)

  /** What the world answers while one line is handled. */
  datatype Env = Env(
    userDir: string,                  // System.getProperty("user.dir")
    isDirectory: string -> bool,
    changeDir: string -> bool,        // doChangeDir: setting user.dir succeeds
    mkdirs: string -> bool,
    fileExists: string -> bool,
    deleteFile: string -> bool,
    resolves: string -> bool,         // InetAddress.getByName succeeds
    connects: bool,                   // the data socket opens
    readable: string -> bool,         // the file opens for reading
    createNewFile: string -> bool,
    copies: bool)                     // the byte-copy loop finishes without an IOException

  /**
   * The result of one command line: the new fields, the reply lines, and
   * whether an uncaught exception ended the thread after those replies.
   */
  datatype Outcome = Outcome(next: Session, replies: seq<Reply>, crashed: bool)

  function FullPath(currentDirectory: string, subpath: string): (r: string)
    ensures |r| == |currentDirectory| + 1 + |subpath|
    ensures StartsWith(r, currentDirectory) && r[|currentDirectory|] == '\\'
    ensures r[|currentDirectory| + 1..] == subpath
  {
    currentDirectory + "\\" + subpath
  }

  predicate ValidLogin(userName: string, password: string) {
    userName == password
  }

  function Login(s: Session, env: Env): Session {
    s.(loggedIn := true, rootDirectory := env.userDir, currentDirectory := env.userDir)
  }

  function Logout(s: Session): Session {
    s.(quit := true, loggedIn := false)
  }

  /** The pieces of a path concatenated with no separator between them. */
  function Concat(parts: seq<string>): string {
    if parts == [] then [] else Concat(parts[..|parts| - 1]) + parts[|parts| - 1]
  }

  /** goPrevDirectory's candidate: every part of the root but the last, glued together. */
  function PrevDirectoryPath(rootDirectory: string): string {
    var parts := Split(rootDirectory, '\\');
    if |parts| == 0 then [] else Concat(parts[..|parts| - 1])
  }

  /** The reply of `..`; it never changes the current directory. */
  function PrevReply(rootDirectory: string, env: Env): (r: Reply)
    ensures r == R250 <==> !Lex.Lt(PrevDirectoryPath(rootDirectory), rootDirectory) && env.changeDir(PrevDirectoryPath(rootDirectory))
    ensures r != R250 ==> r == R450
  {
    var prev := PrevDirectoryPath(rootDirectory);
    if Lex.Compare(prev, rootDirectory) < 0 then R450
    else if env.changeDir(prev) then R250
    else R450
  }

  /** One forward segment: the new current directory and the reply. */
  function Forward(currentDirectory: string, dir: string, env: Env): (r: (string, Reply))
    ensures r.1 == R550 <==> !env.isDirectory(FullPath(currentDirectory, dir))
    ensures r.1 == R250 <==> env.isDirectory(FullPath(currentDirectory, dir)) && env.changeDir(FullPath(currentDirectory, dir))
    ensures r.0 == if r.1 == R250 then FullPath(currentDirectory, dir) else currentDirectory
    ensures r.1 in {R250, R450, R550}
  {
    var full := FullPath(currentDirectory, dir);
    if !env.isDirectory(full) then (currentDirectory, R550)
    else if env.changeDir(full) then (full, R250)
    else (currentDirectory, R450)
  }

  function Segment(rootDirectory: string, currentDirectory: string, segment: string, env: Env): (string, Reply) {
    if segment == ".." then (currentDirectory, PrevReply(rootDirectory, env))
    else Forward(currentDirectory, segment, env)
  }

  /** changeDirectory: the segments in turn, one reply each. */
  function Walk(rootDirectory: string, currentDirectory: string, segments: seq<string>, env: Env): (r: (string, seq<Reply>))
    ensures |r.1| == |segments|
    ensures forall i :: 0 <= i < |r.1| ==> r.1[i] in {R250, R450, R550}
    decreases |segments|, 1
  {
    if segments == [] then (currentDirectory, [])
    else WalkOn(rootDirectory, currentDirectory, segments, env)
  }

  /** The first segment, then the walk over the rest. */
  function WalkOn(rootDirectory: string, currentDirectory: string, segments: seq<string>, env: Env): (r: (string, seq<Reply>))
    requires segments != []
    ensures |r.1| == |segments|
    ensures forall i :: 0 <= i < |r.1| ==> r.1[i] in {R250, R450, R550}
    decreases |segments|, 0
  {
    var (next, reply) := Segment(rootDirectory, currentDirectory, segments[0], env);
    var (last, replies) := Walk(rootDirectory, next, segments[1..], env);
    (last, [reply] + replies)
  }

  /** makeDirectories: 257 with the path exactly when mkdirs succeeds, 450 otherwise. */
  function MakeDirectoriesReply(currentDirectory: string, relativePath: string, env: Env): (r: Reply)
    ensures r == R257(relativePath) <==> env.mkdirs(FullPath(currentDirectory, relativePath))
    ensures r != R257(relativePath) ==> r == R450
  {
    if env.mkdirs(FullPath(currentDirectory, relativePath)) then R257(relativePath)
    else R450
  }

  predicate PortInRange(port: int) {
    0 <= port <= 65535
  }

  /**
   * The data socket cannot even be attempted: new Socket(null, port) throws a
   * NullPointerException when no EPRT has recorded an address, and a port out
   * of range an IllegalArgumentException; neither is an IOException, so the
   * thread dies.
   */
  predicate NoEndpoint(s: Session) {
    s.transferAddress.None? || !PortInRange(s.transferPort)
  }

  /** RETR: the preliminary reply, then success or a data-connection failure. */
  function RetrOutcome(s: Session, fileName: string, env: Env): (r: Outcome)
    ensures r.next == s && |r.replies| >= 1 && r.replies[0] == R125
    ensures r.crashed <==> NoEndpoint(s)
    ensures r.replies == [R125, R226] <==>
      !NoEndpoint(s) && env.connects && env.readable(FullPath(s.currentDirectory, fileName)) && env.copies
    ensures !r.crashed && r.replies != [R125, R226] ==> r.replies == [R125, R425]
  {
    if NoEndpoint(s) then Outcome(s, [R125], true)
    else if env.connects && env.readable(FullPath(s.currentDirectory, fileName)) && env.copies then
      Outcome(s, [R125, R226], false)
    else Outcome(s, [R125, R425], false)
  }

  /** STOR: like RETR, but an existing file is refused with 450. */
  function StorOutcome(s: Session, fileName: string, env: Env): (r: Outcome)
    ensures r.next == s && |r.replies| >= 1 && r.replies[0] == R125
    ensures r.crashed <==> NoEndpoint(s)
    ensures r.replies == [R125, R450] <==>
      !NoEndpoint(s) && env.connects && !env.createNewFile(FullPath(s.currentDirectory, fileName))
    ensures r.replies == [R125, R226] <==>
      !NoEndpoint(s) && env.connects && env.createNewFile(FullPath(s.currentDirectory, fileName)) && env.copies
  {
    if NoEndpoint(s) then Outcome(s, [R125], true)
    else if !env.connects then Outcome(s, [R125, R425], false)
    else if !env.createNewFile(FullPath(s.currentDirectory, fileName)) then Outcome(s, [R125, R450], false)
    else if env.copies then Outcome(s, [R125, R226], false)
    else Outcome(s, [R125, R425], false)
  }

  /** deleteFile: 550 exactly when the file is missing, 250 when it is deleted, 450 otherwise. */
  function DeleteReply(currentDirectory: string, fileName: string, env: Env): (r: Reply)
    ensures r == R550 <==> !env.fileExists(FullPath(currentDirectory, fileName))
    ensures r == R250 <==> env.fileExists(FullPath(currentDirectory, fileName)) && env.deleteFile(FullPath(currentDirectory, fileName))
    ensures r in {R250, R450, R550}
  {
    var full := FullPath(currentDirectory, fileName);
    if !env.fileExists(full) then R550
    else if env.deleteFile(full) then R250
    else R450
  }

  /** parseTransferInfo: the fields of an EPRT argument. */
  function TransferInfo(transInfo: string): seq<string> {
    Split(transInfo, '|')
  }

  /**
   * setupTransfer: host from field 2, port from field 3. A missing field or
   * an unreadable port throws; an unknown host answers 451 and leaves the
   * previous address and port in place.
   */
  function SetupTransferOutcome(s: Session, transInfo: string, env: Env): (r: Outcome)
    ensures r.crashed <==> r.replies == []
    ensures r.replies == [] || r.replies == [R451] || r.replies == [R200]
    ensures r.replies == [R451] ==> r.next == s
    ensures r.replies == [R200] <==>
      var fields := TransferInfo(transInfo);
      |fields| >= 4 && env.resolves(fields[2]) && ParseInt(fields[3]).Some?
    ensures r.replies == [R200] ==>
      var fields := TransferInfo(transInfo);
      r.next == s.(transferAddress := Some(fields[2]), transferPort := ParseInt(fields[3]).value)
    ensures r.next.loggedIn == s.loggedIn && r.next.currentDirectory == s.currentDirectory
  {
    var fields := TransferInfo(transInfo);
    if |fields| < 3 then Outcome(s, [], true)
    else if !env.resolves(fields[2]) then Outcome(s, [R451], false)
    else
      var s1 := s.(transferAddress := Some(fields[2]));
      if |fields| < 4 || ParseInt(fields[3]).None? then Outcome(s1, [], true)
      else Outcome(s1.(transferPort := ParseInt(fields[3]).value), [R200], false)
  }

  /**
   * A guarded verb once the user is logged in. None of them logs out, quits,
   * or touches the user name, password or root directory; only CWD moves the
   * current directory and only EPRT the transfer endpoint.
   */
  function GuardedStep(s: Session, tokens: seq<string>, env: Env): (r: Outcome)
    requires |tokens| > 0 && tokens[0] in GuardedVerbs && s.loggedIn
    ensures r.next.loggedIn && r.next.quit == s.quit
    ensures r.next.userName == s.userName && r.next.password == s.password && r.next.rootDirectory == s.rootDirectory
    ensures tokens[0] != "CWD" ==> r.next.currentDirectory == s.currentDirectory
    ensures tokens[0] != "EPRT" ==> r.next.transferAddress == s.transferAddress && r.next.transferPort == s.transferPort
  {
    var command := tokens[0];
    if command == "XPWD" then
      Outcome(s, [R212(ReplaceAll(s.currentDirectory, s.rootDirectory, "~"))], false)
    else if |tokens| < 2 then Outcome(s, [], true)
    else
      var arg := tokens[1];
      if command == "XMKD" then Outcome(s, [MakeDirectoriesReply(s.currentDirectory, arg, env)], false)
      else if command == "CWD" then
        var (dir, replies) := Walk(s.rootDirectory, s.currentDirectory, Split(arg, '\\'), env);
        Outcome(s.(currentDirectory := dir), replies, false)
      else if command == "EPRT" then SetupTransferOutcome(s, arg, env)
      else if command == "RETR" then RetrOutcome(s, arg, env)
      else if command == "STOR" then StorOutcome(s, arg, env)
      else Outcome(s, [DeleteReply(s.currentDirectory, arg, env)], false)
  }

  /** The body of the `while (!quit)` loop for one line of input. */
  function Step(s: Session, line: string, env: Env): Outcome {
    var tokens := Tokens(line);
    if tokens == [] then Outcome(s, [], true)
    else
      var command := tokens[0];
      if command == "USER" then
        if |tokens| < 2 then Outcome(s, [], true)
        else Outcome(s.(userName := Some(tokens[1])), [R331], false)
      else if command == "PASS" then
        if |tokens| < 2 then Outcome(s, [], true)
        else
          var s1 := s.(password := Some(tokens[1]));
          if s1.userName.None? then Outcome(s1, [], true)
          else if ValidLogin(s1.userName.value, tokens[1]) then Outcome(Login(s1, env), [R230], false)
          else Outcome(s1, [R430], false)
      else if command in GuardedVerbs then
        if !s.loggedIn then Outcome(s, [R530], false)
        else GuardedStep(s, tokens, env)
      else if command == "QUIT" then Outcome(Logout(s), [R231], false)
      else Outcome(s, [R502], false)
  }

  /** How a session ends: QUIT, or an exception (end of input included). */
  datatype Ending = ClientQuit | ThreadDied

  datatype Transcript = Transcript(last: Session, replies: seq<Reply>, ending: Ending)

  /** The loop of run from a given state over the remaining input lines. */
  function RunFrom(s: Session, lines: seq<string>, envs: seq<Env>): Transcript
    requires |envs| == |lines|
    decreases |lines|, 1
  {
    if s.quit then Transcript(s, [], ClientQuit)
    else if lines == [] then Transcript(s, [], ThreadDied)
    else RunLine(s, lines, envs)
  }

  /** One pass of the loop on the next line, then the rest of the run. */
  function RunLine(s: Session, lines: seq<string>, envs: seq<Env>): Transcript
    requires |envs| == |lines| && lines != []
    decreases |lines|, 0
  {
    var o := Step(s, lines[0], envs[0]);
    if o.crashed then Transcript(o.next, o.replies, ThreadDied)
    else
      var t := RunFrom(o.next, lines[1..], envs[1..]);
      Transcript(t.last, o.replies + t.replies, t.ending)
  }

  /** One turn of the loop, in terms of the outcome of its line. */
  lemma RunFromTurn(s: Session, lines: seq<string>, envs: seq<Env>, o: Outcome)
    requires |envs| == |lines| && !s.quit && lines != []
    requires o == Step(s, lines[0], envs[0])
    ensures RunFrom(s, lines, envs) ==
      if o.crashed then Transcript(o.next, o.replies, ThreadDied)
      else
        var t := RunFrom(o.next, lines[1..], envs[1..]);
        Transcript(t.last, o.replies + t.replies, t.ending)
  {
    assert RunFrom(s, lines, envs) == RunLine(s, lines, envs);
  }

  // ----------------------------------------------------------- properties

  /** Only a successful PASS logs a user in, and only QUIT ends the loop. */
  lemma StepLogsInOnlyByPassStopsOnlyOnQuit(s: Session, line: string, env: Env)
    ensures var o := Step(s, line, env);
      && (o.next.loggedIn && !s.loggedIn ==> o.replies == [R230] && Tokens(line)[0] == "PASS")
      && (o.next.quit <==> s.quit || (Tokens(line) != [] && Tokens(line)[0] == "QUIT"))
  {
    var tokens := Tokens(line);
    if tokens != [] && tokens[0] in GuardedVerbs && s.loggedIn {
      var o := GuardedStep(s, tokens, env);
    }
  }

  /** Before login, every guarded verb is refused with 530 and no field changes. */
  lemma GuardedVerbRefusedBeforeLogin(s: Session, line: string, env: Env)
    requires !s.loggedIn
    requires Tokens(line) != [] && Tokens(line)[0] in GuardedVerbs
    ensures Step(s, line, env) == Outcome(s, [R530], false)
  {
  }

  /** USER n records n, answers 331 and leaves the login flag alone. */
  lemma UserRecordsName(s: Session, line: string, env: Env)
    requires |Tokens(line)| >= 2 && Tokens(line)[0] == "USER"
    ensures Step(s, line, env).next == s.(userName := Some(Tokens(line)[1]))
    ensures Step(s, line, env).replies == [R331] && !Step(s, line, env).crashed
    ensures Step(s, line, env).next.loggedIn == s.loggedIn
  {
  }

  /** PASS p succeeds exactly when p equals the recorded user name. */
  lemma PassSucceedsIffNameMatches(s: Session, line: string, env: Env)
    requires |Tokens(line)| >= 2 && Tokens(line)[0] == "PASS" && s.userName.Some?
    ensures !Step(s, line, env).crashed
    ensures Step(s, line, env).replies == [R230] <==> s.userName.value == Tokens(line)[1]
    ensures Step(s, line, env).replies == [R230] ==>
      var n := Step(s, line, env).next;
      n.loggedIn && n.rootDirectory == env.userDir && n.currentDirectory == env.userDir
    ensures Step(s, line, env).replies != [R230] ==>
      Step(s, line, env).replies == [R430] && Step(s, line, env).next.loggedIn == s.loggedIn
  {
  }

  /** PASS with no USER before it dereferences a null name: no reply, the thread dies. */
  lemma PassBeforeUserKillsThread(s: Session, line: string, env: Env)
    requires |Tokens(line)| >= 2 && Tokens(line)[0] == "PASS" && s.userName.None?
    ensures Step(s, line, env).crashed && Step(s, line, env).replies == []
  {
  }

  /** QUIT logs out, answers 231, and the loop stops after it. */
  lemma QuitEndsSession(s: Session, line: string, rest: seq<string>, env: Env, envs: seq<Env>)
    requires !s.quit && Tokens(line) != [] && Tokens(line)[0] == "QUIT" && |envs| == |rest|
    ensures Step(s, line, env).next.quit && !Step(s, line, env).next.loggedIn
    ensures Step(s, line, env).replies == [R231]
    ensures RunFrom(s, [line] + rest, [env] + envs) == Transcript(Logout(s), [R231], ClientQuit)
  {
    QuitStep(s, line, env);
    assert RunFrom(s, [line] + rest, [env] + envs) == RunLine(s, [line] + rest, [env] + envs);
    var t := RunFrom(Logout(s), rest, envs);
    assert t == Transcript(Logout(s), [], ClientQuit);
    assert ([line] + rest)[1..] == rest;
    assert ([env] + envs)[1..] == envs;
  }

  lemma QuitStep(s: Session, line: string, env: Env)
    requires Tokens(line) != [] && Tokens(line)[0] == "QUIT"
    ensures Step(s, line, env) == Outcome(Logout(s), [R231], false)
  {
    assert "QUIT" !in GuardedVerbs;
  }

  /** Any other verb, PORT among them, is answered with 502 and changes nothing. */
  lemma OtherVerbNotImplemented(s: Session, line: string, env: Env)
    requires Tokens(line) != []
    requires Tokens(line)[0] !in GuardedVerbs + {"USER", "PASS", "QUIT"}
    ensures Step(s, line, env) == Outcome(s, [R502], false)
  {
  }

  /** RETR and STOR after login never change the session, and their first reply is 125. */
  lemma TransferKeepsSession(s: Session, line: string, env: Env)
    requires s.loggedIn && |Tokens(line)| >= 2 && (Tokens(line)[0] == "RETR" || Tokens(line)[0] == "STOR")
    ensures Step(s, line, env).next == s
    ensures |Step(s, line, env).replies| >= 1 && Step(s, line, env).replies[0] == R125
  {
    assert Tokens(line)[0] in GuardedVerbs;
  }

  /**
   * With no address recorded by a successful EPRT, RETR and STOR print 125 and
   * then dereference the null address: the thread dies.
   */
  lemma TransferWithoutAddressKillsThread(s: Session, line: string, env: Env)
    requires s.loggedIn && s.transferAddress.None?
    requires |Tokens(line)| >= 2 && (Tokens(line)[0] == "RETR" || Tokens(line)[0] == "STOR")
    ensures Step(s, line, env) == Outcome(s, [R125], true)
  {
    assert Tokens(line)[0] in GuardedVerbs;
  }

  /** A session whose next line is such a transfer ends with that 125 and a dead thread. */
  lemma TransferWithoutAddressEndsRun(s: Session, line: string, rest: seq<string>, env: Env, envs: seq<Env>)
    requires !s.quit && s.loggedIn && s.transferAddress.None? && |envs| == |rest|
    requires |Tokens(line)| >= 2 && (Tokens(line)[0] == "RETR" || Tokens(line)[0] == "STOR")
    ensures RunFrom(s, [line] + rest, [env] + envs) == Transcript(s, [R125], ThreadDied)
  {
    TransferWithoutAddressKillsThread(s, line, env);
    RunFromTurn(s, [line] + rest, [env] + envs, Step(s, line, env));
  }

  /** RETR ends with 226 exactly when the endpoint is usable, the socket opens, the file opens and the copy finishes. */
  lemma RetrSucceedsIff(s: Session, line: string, env: Env)
    requires s.loggedIn && |Tokens(line)| >= 2 && Tokens(line)[0] == "RETR"
    ensures Step(s, line, env).replies == [R125, R226] <==>
      && !NoEndpoint(s) && env.connects && env.copies
      && env.readable(FullPath(s.currentDirectory, Tokens(line)[1]))
  {
    assert Tokens(line)[0] in GuardedVerbs;
  }

  /** STOR onto a file that already exists is refused after 125 with 450; the thread goes on. */
  lemma StorOntoExistingFileRefused(s: Session, line: string, env: Env)
    requires s.loggedIn && !NoEndpoint(s) && env.connects
    requires |Tokens(line)| >= 2 && Tokens(line)[0] == "STOR"
    requires !env.createNewFile(FullPath(s.currentDirectory, Tokens(line)[1]))
    ensures Step(s, line, env) == Outcome(s, [R125, R450], false)
  {
    assert Tokens(line)[0] in GuardedVerbs;
  }

  /** DELE changes no field; it answers 550 exactly when the file is missing and 250 exactly when it is deleted. */
  lemma DeleAnswers550IffMissing(s: Session, line: string, env: Env)
    requires s.loggedIn && |Tokens(line)| >= 2 && Tokens(line)[0] == "DELE"
    ensures Step(s, line, env).next == s && !Step(s, line, env).crashed
    ensures var full := FullPath(s.currentDirectory, Tokens(line)[1]);
      && (Step(s, line, env).replies == [R550] <==> !env.fileExists(full))
      && (Step(s, line, env).replies == [R250] <==> env.fileExists(full) && env.deleteFile(full))
      && (Step(s, line, env).replies in {[R250], [R450], [R550]})
  {
    assert Tokens(line)[0] in GuardedVerbs;
  }

  /** XMKD changes no field; it answers 257 with the path exactly when mkdirs succeeds, otherwise 450. */
  lemma XmkdAnswers257IffCreated(s: Session, line: string, env: Env)
    requires s.loggedIn && |Tokens(line)| >= 2 && Tokens(line)[0] == "XMKD"
    ensures Step(s, line, env).next == s && !Step(s, line, env).crashed
    ensures Step(s, line, env).replies == [R257(Tokens(line)[1])] <==> env.mkdirs(FullPath(s.currentDirectory, Tokens(line)[1]))
    ensures Step(s, line, env).replies != [R257(Tokens(line)[1])] ==> Step(s, line, env).replies == [R450]
  {
    assert Tokens(line)[0] in GuardedVerbs;
  }

  /** Right after login the directory display is the root itself, shown as ~. */
  lemma XpwdAfterLoginShowsHome(s: Session, line: string, env: Env)
    requires s.loggedIn && s.currentDirectory == s.rootDirectory && s.rootDirectory != []
    requires Tokens(line) != [] && Tokens(line)[0] == "XPWD"
    ensures Step(s, line, env) == Outcome(s, [R212("~")], false)
  {
    var r := s.rootDirectory;
    assert StartsWith(r, r);
    assert r[|r|..] == [];
    assert ReplaceAll(r, r, "~") == "~";
  }

  /** A `..` segment never moves the current directory; its reply is 250 or 450. */
  lemma UpSegmentKeepsDirectory(root: string, cur: string, env: Env)
    ensures Segment(root, cur, "..", env).0 == cur
    ensures Segment(root, cur, "..", env).1 in {R250, R450}
  {
  }

  /** A forward segment moves only when the target is a directory and user.dir can be set. */
  lemma ForwardSegmentMovesOnlyOnSuccess(root: string, cur: string, dir: string, env: Env)
    requires dir != ".."
    ensures var (next, reply) := Segment(root, cur, dir, env);
      && (next != cur ==> next == FullPath(cur, dir))
      && (reply == R250 <==> env.isDirectory(FullPath(cur, dir)) && env.changeDir(FullPath(cur, dir)))
      && (reply == R250 ==> next == FullPath(cur, dir))
      && (reply != R250 ==> next == cur)
      && (reply == R550 <==> !env.isDirectory(FullPath(cur, dir)))
  {
  }

  /** A path made only of `..` segments leaves the current directory where it was. */
  lemma {:induction false} UpOnlyWalkKeepsDirectory(root: string, cur: string, segments: seq<string>, env: Env)
    requires forall k :: 0 <= k < |segments| ==> segments[k] == ".."
    ensures Walk(root, cur, segments, env).0 == cur
  {
    if segments != [] {
      UpOnlyWalkKeepsDirectory(root, cur, segments[1..], env);
    }
  }

  predicate NoDelimiter(t: string) {
    forall i :: 0 <= i < |t| ==> !IsDelimiter(t[i])
  }

  lemma {:induction false} JoinHasNoDelimiter(fields: seq<string>, sep: char)
    requires !IsDelimiter(sep)
    requires forall k :: 0 <= k < |fields| ==> NoDelimiter(fields[k])
    ensures NoDelimiter(Join(fields, sep))
  {
    if |fields| > 1 {
      JoinHasNoDelimiter(fields[1..], sep);
    }
  }

  /** A numeral holds no bar and no blank. */
  lemma DecimalIsPlain(n: nat)
    ensures '|' !in Decimal(n) && NoDelimiter(Decimal(n))
  {
  }

  /**
   * EPRT |proto|host|port| (as in |1|127.0.0.1|5000|): the tokenizer keeps the
   * argument whole, split gives ["", proto, host, port], and the session records
   * host and port and answers 200.
   */
  lemma {:induction false} EprtRecordsHostAndPort(s: Session, env: Env, proto: string, host: string, port: nat)
    requires s.loggedIn && env.resolves(host) && port < 0x8000_0000
    requires '|' !in proto && '|' !in host && NoDelimiter(proto) && NoDelimiter(host)
    ensures var arg := Join(["", proto, host, Decimal(port), ""], '|');
      Step(s, "EPRT " + arg, env)
        == Outcome(s.(transferAddress := Some(host), transferPort := port), [R200], false)
  {
    EprtArgument(proto, host, port);
    ParseIntOfDecimal(port);
    assert "EPRT" in GuardedVerbs;
  }

  /** The EPRT line tokenizes as the verb and the whole argument, and split takes the argument apart again. */
  lemma EprtArgument(proto: string, host: string, port: nat)
    requires '|' !in proto && '|' !in host && NoDelimiter(proto) && NoDelimiter(host)
    ensures var arg := Join(["", proto, host, Decimal(port), ""], '|');
      Tokens("EPRT " + arg) == ["EPRT", arg] && TransferInfo(arg) == ["", proto, host, Decimal(port)]
  {
    var fields := ["", proto, host, Decimal(port), ""];
    var arg := Join(fields, '|');
    DecimalIsPlain(port);
    JoinHasNoDelimiter(fields, '|');
    assert arg == "" + "|" + Join(fields[1..], '|');
    assert arg[0] == '|';
    TokensOfJoin(["EPRT", arg]);
    assert Join(["EPRT", arg], ' ') == "EPRT " + arg;
    SplitAllOfJoin(fields, '|');
    assert '|' in arg;
    assert fields[|fields| - 1] == [] && fields[..|fields| - 1] == fields[..4];
    assert DropTrailingEmpty(fields) == DropTrailingEmpty(fields[..4]);
    assert fields[..4][3] != [];
  }

  /** Sending a batch of replies and then the rest is sending everything. */
  lemma Regroup(sent: seq<Reply>, replies: seq<Reply>, rest: seq<Reply>)
    ensures sent + (replies + rest) == (sent + replies) + rest
  {
  }

  /** The walk from segment i is that segment's step, then the walk from segment i + 1. */
  lemma WalkUnfold(root: string, cur: string, segments: seq<string>, i: int, env: Env)
    requires 0 <= i < |segments|
    ensures var (next, reply) := Segment(root, cur, segments[i], env);
      var rest := Walk(root, next, segments[i + 1..], env);
      Walk(root, cur, segments[i..], env) == (rest.0, [reply] + rest.1)
  {
    assert segments[i..][1..] == segments[i + 1..];
  }

  // ------------------------------------------------------- the thread

  class ServerThread {
    var loggedIn: bool
    var quit: bool
    var userName: Option<string>
    var password: Option<string>
    var rootDirectory: string
    var currentDirectory: string
    var transferAddress: Option<string>
    var transferPort: int

    function State(): Session
      reads this
    {
      Session(loggedIn, quit, userName, password, rootDirectory, currentDirectory, transferAddress, transferPort)
    }

    constructor()
      ensures State() == InitialSession
    {
      loggedIn := false;
      quit := false;
      userName := None;
      password := None;
      rootDirectory := "";
      currentDirectory := "";
      transferAddress := None;
      transferPort := 0;
    }

    method DoLogin(env: Env)
      modifies this
      ensures State() == Login(old(State()), env)
    {
      loggedIn := true;
      rootDirectory := env.userDir;
      currentDirectory := env.userDir;
    }

    method DoLogout()
      modifies this
      ensures State() == Logout(old(State()))
    {
      quit := true;
      loggedIn := false;
    }

    /** goPrevDirectory: glue the root's parts but the last, then try to change to it. */
    method GoPrevDirectory(env: Env) returns (reply: Reply)
      ensures reply == PrevReply(rootDirectory, env)
    {
      var rootDirectoryParts := Split(rootDirectory, '\\');
      var prevDirectoryPath := "";
      var i := 0;
      while i < |rootDirectoryParts| - 1
        invariant 0 <= i <= |rootDirectoryParts|
        invariant |rootDirectoryParts| > 0 ==> i <= |rootDirectoryParts| - 1
        invariant prevDirectoryPath == Concat(rootDirectoryParts[..i])
      {
        assert rootDirectoryParts[..i + 1][..i] == rootDirectoryParts[..i];
        prevDirectoryPath := prevDirectoryPath + rootDirectoryParts[i];
        i := i + 1;
      }
      if 0 < |rootDirectoryParts| {
        assert i == |rootDirectoryParts| - 1;
      } else {
        assert rootDirectoryParts[..i] == [];
      }
      if Lex.Compare(prevDirectoryPath, rootDirectory) < 0 {
        reply := R450;
      } else if env.changeDir(prevDirectoryPath) {
        reply := R250;
      } else {
        reply := R450;
      }
    }

    /** goFwrdDirectory: move into the subdirectory when it exists and user.dir can be set. */
    method GoFwrdDirectory(dir: string, env: Env) returns (reply: Reply)
      modifies this
      ensures State() == old(State()).(currentDirectory := Forward(old(currentDirectory), dir, env).0)
      ensures reply == Forward(old(currentDirectory), dir, env).1
    {
      var fullPathToDirectory := FullPath(currentDirectory, dir);
      if env.isDirectory(fullPathToDirectory) {
        if env.changeDir(fullPathToDirectory) {
          currentDirectory := fullPathToDirectory;
          reply := R250;
        } else {
          reply := R450;
        }
      } else {
        reply := R550;
      }
    }

    /** One segment of changeDirectory: `..` goes up, anything else forward. */
    method ChangeSegment(segment: string, env: Env) returns (reply: Reply)
      modifies this
      ensures var step := Segment(old(rootDirectory), old(currentDirectory), segment, env);
        State() == old(State()).(currentDirectory := step.0) && reply == step.1
    {
      if segment == ".." {
        reply := GoPrevDirectory(env);
      } else {
        reply := GoFwrdDirectory(segment, env);
      }
    }

    /** changeDirectory: each backslash-separated segment in turn. */
    method ChangeDirectory(relativePath: string, env: Env) returns (replies: seq<Reply>)
      modifies this
      ensures var w := Walk(old(rootDirectory), old(currentDirectory), Split(relativePath, '\\'), env);
        State() == old(State()).(currentDirectory := w.0) && replies == w.1
    {
      var subpaths := Split(relativePath, '\\');
      replies := [];
      ghost var total := Walk(rootDirectory, currentDirectory, subpaths, env);
      assert subpaths[0..] == subpaths;
      for i := 0 to |subpaths|
        invariant State() == old(State()).(currentDirectory := currentDirectory)
        invariant Walk(rootDirectory, currentDirectory, subpaths[i..], env).0 == total.0
        invariant replies + Walk(rootDirectory, currentDirectory, subpaths[i..], env).1 == total.1
      {
        WalkUnfold(rootDirectory, currentDirectory, subpaths, i, env);
        var reply := ChangeSegment(subpaths[i], env);
        ghost var rest := Walk(rootDirectory, currentDirectory, subpaths[i + 1..], env);
        Regroup(replies, [reply], rest.1);
        replies := replies + [reply];
      }
      assert subpaths[|subpaths|..] == [];
    }

    /** setupTransfer: record the host, then the port, of an EPRT argument. */
    method SetupTransfer(transInfo: string, env: Env) returns (replies: seq<Reply>, crashed: bool)
      modifies this
      ensures Outcome(State(), replies, crashed) == SetupTransferOutcome(old(State()), transInfo, env)
    {
      var transferInfo := TransferInfo(transInfo);
      if |transferInfo| < 3 {
        return [], true;
      }
      if !env.resolves(transferInfo[2]) {
        return [R451], false;
      }
      transferAddress := Some(transferInfo[2]);
      if |transferInfo| < 4 {
        return [], true;
      }
      var port := ParseInt(transferInfo[3]);
      if port.None? {
        return [], true;
      }
      transferPort := port.value;
      replies, crashed := [R200], false;
    }

    /** The commands that need a login, once the user is logged in. */
    method HandleGuarded(tokens: seq<string>, env: Env) returns (replies: seq<Reply>, crashed: bool)
      requires |tokens| > 0 && tokens[0] in GuardedVerbs && loggedIn
      modifies this
      ensures Outcome(State(), replies, crashed) == GuardedStep(old(State()), tokens, env)
    {
      var command := tokens[0];
      if command == "XPWD" {
        return [R212(ReplaceAll(currentDirectory, rootDirectory, "~"))], false;
      }
      if |tokens| < 2 {
        return [], true;
      }
      var arg := tokens[1];
      crashed := false;
      if command == "XMKD" {
        replies := [MakeDirectoriesReply(currentDirectory, arg, env)];
      } else if command == "CWD" {
        replies := ChangeDirectory(arg, env);
      } else if command == "EPRT" {
        replies, crashed := SetupTransfer(arg, env);
      } else if command == "RETR" {
        var o := RetrOutcome(State(), arg, env);
        replies, crashed := o.replies, o.crashed;
      } else if command == "STOR" {
        var o := StorOutcome(State(), arg, env);
        replies, crashed := o.replies, o.crashed;
      } else {
        replies := [DeleteReply(currentDirectory, arg, env)];
      }
    }

    /** One pass of the `while (!quit)` loop on an input line. */
    method HandleLine(enteredText: string, env: Env) returns (replies: seq<Reply>, crashed: bool)
      modifies this
      ensures Outcome(State(), replies, crashed) == Step(old(State()), enteredText, env)
    {
      var tokens := Tokens(enteredText);
      if tokens == [] {
        return [], true;
      }
      var command := tokens[0];
      if command == "USER" {
        if |tokens| < 2 {
          return [], true;
        }
        userName := Some(tokens[1]);
        replies, crashed := [R331], false;
      } else if command == "PASS" {
        if |tokens| < 2 {
          return [], true;
        }
        password := Some(tokens[1]);
        if userName.None? {
          return [], true;
        }
        if ValidLogin(userName.value, password.value) {
          DoLogin(env);
          replies := [R230];
        } else {
          replies := [R430];
        }
        crashed := false;
      } else if command in GuardedVerbs {
        if loggedIn {
          replies, crashed := HandleGuarded(tokens, env);
        } else {
          replies, crashed := [R530], false;
        }
      } else if command == "QUIT" {
        DoLogout();
        replies, crashed := [R231], false;
      } else {
        replies, crashed := [R502], false;
      }
    }

    /** One line of the loop, stated as the step it takes through the whole run. */
    method Turn(lines: seq<string>, envs: seq<Env>, i: int) returns (replies: seq<Reply>, crashed: bool)
      requires |envs| == |lines| && 0 <= i < |lines| && !quit
      modifies this
      ensures RunFrom(old(State()), lines[i..], envs[i..]) ==
        if crashed then Transcript(State(), replies, ThreadDied)
        else
          var t := RunFrom(State(), lines[i + 1..], envs[i + 1..]);
          Transcript(t.last, replies + t.replies, t.ending)
    {
      assert lines[i..][1..] == lines[i + 1..];
      assert envs[i..][1..] == envs[i + 1..];
      ghost var before := State();
      replies, crashed := HandleLine(lines[i], envs[i]);
      RunFromTurn(before, lines[i..], envs[i..], Outcome(State(), replies, crashed));
    }

    /** run: greet, then handle lines until QUIT, an exception or the end of input. */
    method Run(lines: seq<string>, envs: seq<Env>) returns (transcript: seq<Reply>, ending: Ending)
      requires |envs| == |lines|
      modifies this
      ensures var t := RunFrom(old(State()), lines, envs);
        State() == t.last && transcript == [R220] + t.replies && ending == t.ending
    {
      var sent: seq<Reply> := [];
      var i := 0;
      ending := ClientQuit;
      ghost var total := RunFrom(State(), lines, envs);
      assert lines[0..] == lines && envs[0..] == envs;
      while !quit
        invariant 0 <= i <= |lines|
        invariant RunFrom(State(), lines[i..], envs[i..]).last == total.last
        invariant RunFrom(State(), lines[i..], envs[i..]).ending == total.ending
        invariant sent + RunFrom(State(), lines[i..], envs[i..]).replies == total.replies
        decreases |lines| - i
      {
        if i == |lines| {
          ending := ThreadDied;
          break;
        }
        var replies, crashed := Turn(lines, envs, i);
        ghost var t := RunFrom(State(), lines[i + 1..], envs[i + 1..]);
        Regroup(sent, replies, t.replies);
        sent := sent + replies;
        if crashed {
          ending := ThreadDied;
          break;
        }
        i := i + 1;
      }
      transcript := [R220] + sent;
    }
  }
}
