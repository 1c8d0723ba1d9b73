/**
 * `parse_ssh_config`: a single left-to-right character scan of an ssh client
 * configuration that builds the ordered host table from its `Host` and
 * `Hostname` lines.
 *
 * `Step` states what one character does to the scan state and `ScanFrom`
 * folds it over a text; `ParseSshConfig` is the loop itself, proved to agree
 * with that fold. `ParseLine`/`ParseLines` read a configuration line by line,
 * as a reader of the file would, and the lemmas below prove that the
 * character scan agrees with them on lines without comments.
 */
module SshConfig {
  import opened Wrappers
  import opened Ascii
  import opened HostMaps

  /** The error for a line that does not hold exactly zero or two tokens; it carries the tokens. */
  datatype ParseError = MalformedLine(tokens: seq<string>)

  /** What the parse has built so far: the current stanza ("" when none) and the host table. */
  datatype Table = Table(stanza: string, hosts: HostMap)

  /** The scan state: the token being read, the tokens of the current line, the comment flag, key-or-value, the table. */
  datatype Scan = Scan(token: string, line: seq<string>, skipLine: bool, key: bool, table: Table)

  const EmptyTable := Table("", [])

  /** The state at the start of a line: nothing pending, reading a key. */
  function Start(t: Table): Scan {
    Scan("", [], false, true, t)
  }

  /** The "key = value" / "key value" separators. */
  predicate IsSep(c: char) {
    c == ' ' || c == '='
  }

  /** A `Host` value that is a pattern rather than a literal host name. */
  predicate IsPattern(v: string) {
    '*' in v || '!' in v || '?' in v || ',' in v || ' ' in v
  }

  /** A host table key as the parser produces it. */
  predicate IsLiteral(v: string) {
    v != "" && !IsPattern(v)
  }

  /** The effect of a complete two-token line `name value` on the table. */
  function Directive(t: Table, name: string, value: string): (r: Table)
    ensures Keys(t.hosts) <= Keys(r.hosts) && |Keys(r.hosts)| <= |Keys(t.hosts)| + 1
    ensures r.stanza == "" || r.stanza == value || r == t
    ensures Lower(name) != "host" && Lower(name) != "hostname" ==> r == t
  {
    var d := Lower(name);
    if d == "host" then
      if IsPattern(value) then t.(stanza := "")
      else Table(value, Insert(t.hosts, value, value))
    else if d == "hostname" then
      if t.stanza != "" then Table("", Insert(t.hosts, t.stanza, value)) else t
    else t
  }

  /** Moves the token read so far onto the line. */
  function Push(s: Scan): Scan {
    s.(line := s.line + [s.token], token := "")
  }

  /** One iteration of the character loop. */
  function Step(s: Scan, c: char): (r: Result<Scan, ParseError>)
    ensures r.Err? ==> c == '\n' && !s.skipLine && r.error.tokens != [] && |r.error.tokens| != 2
    ensures r.Ok? && r.value.table != s.table ==> c == '\n' && !s.skipLine
    ensures r.Ok? ==> (r.value.skipLine <==> c == '#' || (s.skipLine && c != '\n'))
  {
    if s.skipLine then
      Ok(if c == '\n' then s.(skipLine := false) else s)
    else if c == '#' then
      Ok((if s.token != "" then Push(s) else s).(skipLine := true))
    else if s.key && IsSep(c) then
      Ok(if s.token != "" then Push(s).(key := false) else s)
    else if c == '\n' then
      var s1 := if s.token != "" then Push(s).(key := true) else s;
      if s1.line == [] then Ok(s1)
      else if |s1.line| != 2 then Err(MalformedLine(s1.line))
      else Ok(s1.(line := [], table := Directive(s1.table, s1.line[0], s1.line[1])))
    else if IsSep(c) && s.token == "" then
      Ok(s)
    else
      Ok(s.(token := s.token + [c]))
  }

  /** The scan of `cs` from state `s`; the first error ends it. */
  function ScanFrom(s: Scan, cs: string): (r: Result<Scan, ParseError>)
    ensures r.Err? ==> r.error.tokens != [] && |r.error.tokens| != 2
    decreases |cs|
  {
    if cs == [] then Ok(s)
    else match Step(s, cs[0])
      case Err(e) => Err(e)
      case Ok(s') => ScanFrom(s', cs[1..])
  }

  /** The result of `parse_ssh_config`: the table once every character is read; a pending last line is not read. */
  function Parse(config: string): (r: Result<HostMap, ParseError>)
    ensures r.Err? ==> r.error.tokens != [] && |r.error.tokens| != 2
  {
    match ScanFrom(Start(EmptyTable), config)
    case Ok(s) => Ok(s.table.hosts)
    case Err(e) => Err(e)
  }

  /** Scanning a concatenation scans the first part, then the second from where the first stopped. */
  lemma {:induction false} ScanAppend(s: Scan, a: string, b: string)
    decreases |a|
    ensures ScanFrom(s, a + b) == match ScanFrom(s, a) case Ok(t) => ScanFrom(t, b) case Err(e) => Err(e)
  {
    if a == [] {
      assert a + b == b;
    } else {
      assert (a + b)[0] == a[0];
      assert (a + b)[1..] == a[1..] + b;
      match Step(s, a[0]) {
        case Err(_) =>
        case Ok(s') => ScanAppend(s', a[1..], b);
      }
    }
  }

  /** The character loop, with its five pieces of scan state and the table. */
  method ParseSshConfig(config: string) returns (r: Result<HostMap, ParseError>)
    ensures r == Parse(config)
  {
    var hosts: HostMap := [];
    var token := "";
    var line: seq<string> := [];
    var skipLine := false;
    var stanza := "";
    var key := true;

    var i := 0;
    while i < |config|
      invariant 0 <= i <= |config|
      invariant ScanFrom(Start(EmptyTable), config[..i]) == Ok(Scan(token, line, skipLine, key, Table(stanza, hosts)))
    {
      var c := config[i];
      ScanAppend(Start(EmptyTable), config[..i], [c]);
      assert config[..i + 1] == config[..i] + [c];
      i := i + 1;

      if skipLine {
        if c == '\n' {
          skipLine := false;
        }
        continue;
      }

      if c == '#' {
        skipLine := true;
        if token != "" {
          line := line + [token];
          token := "";
        }
      } else if key && (c == ' ' || c == '=') {
        if token != "" {
          line := line + [token];
          token := "";
          key := false;
        }
      } else if c == '\n' {
        if token != "" {
          line := line + [token];
          token := "";
          key := true;
        }
        if line == [] {
          continue;
        } else if |line| != 2 {
          ScanAppend(Start(EmptyTable), config[..i], config[i..]);
          assert config[..i] + config[i..] == config;
          return Err(MalformedLine(line));
        } else {
          var directive := Lower(line[0]);
          if directive == "host" {
            var parsed := line[1];
            if '*' in parsed || '!' in parsed || '?' in parsed || ',' in parsed || ' ' in parsed {
              stanza := "";
            } else {
              stanza := parsed;
              hosts := Insert(hosts, stanza, stanza);
            }
          } else if directive == "hostname" {
            if stanza != "" {
              hosts := Insert(hosts, stanza, line[1]);
              stanza := "";
            }
          }
          line := [];
        }
      } else if (c == ' ' || c == '=') && token == "" {
        continue;
      } else {
        token := token + [c];
      }
    }
    assert config[..i] == config;
    return Ok(hosts);
  }

  // ---------------------------------------------------------------------
  // Reading the configuration line by line.

  /** A line as the line-by-line reading sees it: no line break and no comment. */
  predicate NoBreaks(l: string) {
    '\n' !in l && '#' !in l
  }

  /** `l` without its leading separators. */
  function DropSeps(l: string): (r: string)
    ensures |r| <= |l|
    ensures r != [] ==> !IsSep(r[0])
  {
    if l != [] && IsSep(l[0]) then DropSeps(l[1..]) else l
  }

  lemma {:induction false} DropSepsSuffix(l: string)
    ensures DropSeps(l) == l[|l| - |DropSeps(l)|..]
  {
    if l != [] && IsSep(l[0]) {
      DropSepsSuffix(l[1..]);
      assert l[1..][|l| - 1 - |DropSeps(l)|..] == l[|l| - |DropSeps(l)|..];
    }
  }

  /** The length of the leading run of characters other than separators. */
  function WordLength(l: string): (n: nat)
    ensures n <= |l|
    ensures forall i :: 0 <= i < n ==> !IsSep(l[i])
    ensures n < |l| ==> IsSep(l[n])
  {
    if l != [] && !IsSep(l[0]) then 1 + WordLength(l[1..]) else 0
  }

  /**
   * The tokens of a line: the directive (the first run of characters other
   * than ' ' and '='), then everything after the separators that follow it.
   */
  function Tokens(l: string): seq<string> {
    var a := DropSeps(l);
    var n := WordLength(a);
    var v := DropSeps(a[n..]);
    if n == 0 then [] else if v == [] then [a[..n]] else [a[..n], v]
  }

  /** One line read on its own: empty, a malformed line, or a directive. */
  function ParseLine(t: Table, l: string): Result<Table, ParseError> {
    var toks := Tokens(l);
    if toks == [] then Ok(t)
    else if |toks| != 2 then Err(MalformedLine(toks))
    else Ok(Directive(t, toks[0], toks[1]))
  }

  /** The lines read in order; the first malformed line ends the reading. */
  function ParseLines(t: Table, ls: seq<string>): Result<Table, ParseError>
    decreases |ls|
  {
    if ls == [] then Ok(t)
    else match ParseLine(t, ls[0])
      case Err(e) => Err(e)
      case Ok(t') => ParseLines(t', ls[1..])
  }

  /** The text of a file made of the given lines, each ended by a line break. */
  function JoinLines(ls: seq<string>): string
    decreases |ls|
  {
    if ls == [] then "" else ls[0] + "\n" + JoinLines(ls[1..])
  }

  /** A line-level result seen as a scan result: after a line the scan is at the start of the next one. */
  function AtLineStart(r: Result<Table, ParseError>): Result<Scan, ParseError> {
    match r
    case Ok(t) => Ok(Start(t))
    case Err(e) => Err(e)
  }

  /** The scan state after the characters of a line, before its line break. */
  function Pending(t: Table, l: string): Scan {
    var a := DropSeps(l);
    var n := WordLength(a);
    if n == 0 then Start(t)
    else if n == |a| then Start(t).(token := a)
    else Scan(DropSeps(a[n..]), [a[..n]], false, false, t)
  }

  lemma {:induction false} SkipSeps(s: Scan, l: string)
    requires s.token == "" && !s.skipLine
    ensures ScanFrom(s, l) == ScanFrom(s, DropSeps(l))
    decreases |l|
  {
    if l != [] && IsSep(l[0]) {
      assert Step(s, l[0]) == Ok(s);
      SkipSeps(s, l[1..]);
    }
  }

  lemma {:induction false} ReadWord(s: Scan, l: string)
    requires s.key && !s.skipLine && NoBreaks(l)
    ensures ScanFrom(s, l) == ScanFrom(s.(token := s.token + l[..WordLength(l)]), l[WordLength(l)..])
    decreases |l|
  {
    if l != [] && !IsSep(l[0]) {
      var s' := s.(token := s.token + [l[0]]);
      assert Step(s, l[0]) == Ok(s');
      ReadWord(s', l[1..]);
      assert s'.token + l[1..][..WordLength(l[1..])] == s.token + l[..WordLength(l)];
      assert l[1..][WordLength(l[1..])..] == l[WordLength(l)..];
    } else {
      assert s.token + l[..0] == s.token;
    }
  }

  lemma {:induction false} ReadValue(s: Scan, l: string)
    requires !s.key && !s.skipLine && s.token != "" && NoBreaks(l)
    ensures ScanFrom(s, l) == Ok(s.(token := s.token + l))
    decreases |l|
  {
    if l == [] {
      assert s.token + l == s.token;
    } else {
      var s' := s.(token := s.token + [l[0]]);
      assert Step(s, l[0]) == Ok(s');
      ReadValue(s', l[1..]);
      assert s'.token + l[1..] == s.token + l;
    }
  }

  lemma NoBreaksSuffix(l: string, k: nat)
    requires NoBreaks(l) && k <= |l|
    ensures NoBreaks(l[k..])
  {
    forall i | 0 <= i < |l| - k
      ensures l[k..][i] != '\n' && l[k..][i] != '#'
    {
      assert l[k..][i] == l[k + i];
    }
  }

  /** Reading the value of a line, right after the separator that ended its directive. */
  lemma ReadAfterKey(s: Scan, rest: string)
    requires !s.key && !s.skipLine && s.token == "" && NoBreaks(rest)
    ensures ScanFrom(s, rest) == Ok(s.(token := DropSeps(rest)))
  {
    SkipSeps(s, rest);
    var v := DropSeps(rest);
    if v == [] {
      assert s.(token := v) == s;
    } else {
      DropSepsSuffix(rest);
      assert v[0] == rest[|rest| - |v|];
      var s' := s.(token := [v[0]]);
      assert s.token + [v[0]] == [v[0]];
      assert Step(s, v[0]) == Ok(s');
      NoBreaksSuffix(rest, |rest| - |v| + 1);
      assert v[1..] == rest[|rest| - |v| + 1..];
      ReadValue(s', v[1..]);
      assert [v[0]] + v[1..] == v;
    }
  }

  /** The characters of a line, read from the start of a line, leave the scan in `Pending`. */
  lemma ScanSegment(t: Table, l: string)
    requires NoBreaks(l)
    ensures ScanFrom(Start(t), l) == Ok(Pending(t, l))
  {
    var s := Start(t);
    var a := DropSeps(l);
    var n := WordLength(a);
    SkipSeps(s, l);
    DropSepsSuffix(l);
    NoBreaksSuffix(l, |l| - |a|);
    ReadWord(s, a);
    var s1 := s.(token := a[..n]);
    assert s.token + a[..n] == a[..n];
    assert ScanFrom(s, l) == ScanFrom(s1, a[n..]);
    if n == 0 {
      SegmentBlank(t, a);
    } else if n == |a| {
      SegmentWord(t, a);
    } else {
      NoBreaksSuffix(a, n);
      SegmentKeyValue(t, a, n);
    }
  }

  lemma SegmentBlank(t: Table, a: string)
    requires WordLength(a) == 0 && (a != [] ==> !IsSep(a[0]))
    ensures a == [] && Start(t).(token := a[..0]) == Start(t)
  {
    if a != [] {
      assert false;
    }
  }

  lemma SegmentWord(t: Table, a: string)
    requires WordLength(a) == |a|
    ensures ScanFrom(Start(t).(token := a[..|a|]), a[|a|..]) == Ok(Start(t).(token := a))
  {
    assert a[..|a|] == a;
    assert a[|a|..] == [];
  }

  lemma SegmentKeyValue(t: Table, a: string, n: nat)
    requires 0 < n < |a| && IsSep(a[n]) && NoBreaks(a[n..])
    ensures ScanFrom(Start(t).(token := a[..n]), a[n..]) == Ok(Scan(DropSeps(a[n..]), [a[..n]], false, false, t))
  {
    var s1 := Start(t).(token := a[..n]);
    var rest := a[n..];
    var s2 := Push(s1).(key := false);
    assert Step(s1, rest[0]) == Ok(s2);
    assert ScanFrom(s1, rest) == ScanFrom(s2, rest[1..]);
    NoBreaksSuffix(rest, 1);
    ReadAfterKey(s2, rest[1..]);
    assert DropSeps(rest) == DropSeps(rest[1..]);
    assert s2.line == [a[..n]];
  }

  /** One line ended by a line break, scanned from the start of a line, does what `ParseLine` says. */
  lemma ScanLine(t: Table, l: string)
    requires NoBreaks(l)
    ensures ScanFrom(Start(t), l + "\n") == AtLineStart(ParseLine(t, l))
  {
    ScanAppend(Start(t), l, "\n");
    ScanSegment(t, l);
    var p := Pending(t, l);
    assert ScanFrom(Start(t), l + "\n") == Step(p, '\n');
    var a := DropSeps(l);
    var n := WordLength(a);
    if n == 0 {
      assert Tokens(l) == [];
    } else if n == |a| {
      assert a[n..] == [] && a[..n] == a;
      assert Tokens(l) == [a];
      assert p == Start(t).(token := a) && a != [];
      assert Push(p).line == [a];
      assert Step(p, '\n') == Err(MalformedLine([a]));
    } else {
      var v := DropSeps(a[n..]);
      if v == [] {
        assert Tokens(l) == [a[..n]];
        assert Step(p, '\n') == Err(MalformedLine([a[..n]]));
      } else {
        assert Tokens(l) == [a[..n], v];
        assert Step(p, '\n') == Ok(Start(Directive(t, a[..n], v)));
      }
    }
  }

  // ---------------------------------------------------------------------
  // Whole files.

  /** A file of comment-free lines, each ended by a line break, is scanned as `ParseLines` reads it. */
  lemma {:induction false} ScanLines(t: Table, ls: seq<string>)
    requires forall l <- ls :: NoBreaks(l)
    ensures ScanFrom(Start(t), JoinLines(ls)) == AtLineStart(ParseLines(t, ls))
    decreases |ls|
  {
    if ls != [] {
      assert JoinLines(ls) == (ls[0] + "\n") + JoinLines(ls[1..]);
      ScanAppend(Start(t), ls[0] + "\n", JoinLines(ls[1..]));
      ScanLine(t, ls[0]);
      match ParseLine(t, ls[0]) {
        case Err(_) =>
        case Ok(t') =>
          assert forall l <- ls[1..] :: NoBreaks(l) by {
            forall l | l in ls[1..] ensures NoBreaks(l) { assert l in ls; }
          }
          ScanLines(t', ls[1..]);
      }
    }
  }

  /** `parse_ssh_config` of a file of comment-free lines is the line-by-line reading from an empty table. */
  lemma ParseByLines(ls: seq<string>)
    requires forall l <- ls :: NoBreaks(l)
    ensures Parse(JoinLines(ls)) == match ParseLines(EmptyTable, ls) case Ok(t) => Ok(t.hosts) case Err(e) => Err(e)
  {
    ScanLines(EmptyTable, ls);
  }

  /** Characters without a line break never fail and never touch the table. */
  lemma {:induction false} NoLineBreakKeepsTable(s: Scan, tail: string)
    requires '\n' !in tail
    ensures ScanFrom(s, tail).Ok? && ScanFrom(s, tail).value.table == s.table
    decreases |tail|
  {
    if tail != [] {
      assert tail[0] != '\n';
      assert Step(s, tail[0]).Ok? && Step(s, tail[0]).value.table == s.table;
      NoLineBreakKeepsTable(Step(s, tail[0]).value, tail[1..]);
    }
  }

  /** A last line without a line break is dropped: it never reaches the table and never fails. */
  lemma LastLineDropped(config: string, tail: string)
    requires '\n' !in tail
    ensures Parse(config + tail) == Parse(config)
  {
    ScanAppend(Start(EmptyTable), config, tail);
    match ScanFrom(Start(EmptyTable), config) {
      case Err(_) =>
      case Ok(s) => NoLineBreakKeepsTable(s, tail);
    }
  }

  // ---------------------------------------------------------------------
  // Comments.

  /** Whether the directive of a comment-free text was followed by a separator, so that a value was being read. */
  predicate ValueStarted(p: string) {
    var a := DropSeps(p);
    0 < WordLength(a) < |a|
  }

  lemma {:induction false} SkipComment(s: Scan, q: string)
    requires s.skipLine && '\n' !in q
    ensures ScanFrom(s, q + "\n") == Ok(s.(skipLine := false))
    decreases |q|
  {
    if q == [] {
      assert q + "\n" == "\n";
    } else {
      assert (q + "\n")[0] == q[0] && (q + "\n")[1..] == q[1..] + "\n";
      assert Step(s, q[0]) == Ok(s);
      SkipComment(s, q[1..]);
    }
  }

  /**
   * A `#` ends the tokens of its line, but the line break that closes the
   * comment is consumed by the comment: the tokens before the `#` stay
   * pending and the table is untouched.
   */
  lemma CommentLine(t: Table, p: string, q: string)
    requires NoBreaks(p) && '\n' !in q
    ensures ScanFrom(Start(t), p + "#" + q + "\n") == Ok(Scan("", Tokens(p), false, !ValueStarted(p), t))
  {
    ScanSegment(t, p);
    ScanAppend(Start(t), p, "#" + q + "\n");
    var s := Pending(t, p);
    assert ("#" + q + "\n")[0] == '#' && ("#" + q + "\n")[1..] == q + "\n";
    var s' := (if s.token != "" then Push(s) else s).(skipLine := true);
    assert Step(s, '#') == Ok(s');
    SkipComment(s', q);
    assert p + "#" + q + "\n" == p + ("#" + q + "\n");
    var a := DropSeps(p);
    var n := WordLength(a);
    if n == 0 {
      assert s' == Start(t).(skipLine := true);
      assert Tokens(p) == [];
    } else if n == |a| {
      assert a[n..] == [] && a[..n] == a;
      assert s' == Scan("", [a], true, true, t);
      assert Tokens(p) == [a];
    } else {
      var v := DropSeps(a[n..]);
      assert s == Scan(v, [a[..n]], false, false, t);
      if v == [] {
        assert s' == Scan("", [a[..n]], true, false, t);
      } else {
        assert s' == Scan("", [a[..n], v], true, false, t);
      }
    }
  }

  /** Separators with no token started change nothing, whatever is pending and whichever flag is set. */
  lemma {:induction false} SepsKeepState(s: Scan, p: string)
    requires s.token == "" && !s.skipLine && AllSeps(p)
    ensures ScanFrom(s, p) == Ok(s)
    decreases |p|
  {
    if p != [] {
      assert Step(s, p[0]) == Ok(s);
      SepsKeepState(s, p[1..]);
    }
  }

  /**
   * A line holding only separators and a comment leaves any scan state with
   * no token started as it was, pending tokens included; a blank line does
   * the same when no tokens are pending.
   */
  lemma BlankOrCommentLine(s: Scan, p: string, q: string)
    requires s.token == "" && !s.skipLine && AllSeps(p) && '\n' !in q
    ensures ScanFrom(s, p + "#" + q + "\n") == Ok(s)
    ensures s.line == [] ==> ScanFrom(s, p + "\n") == Ok(s)
  {
    SepsKeepState(s, p);
    assert p + "#" + q + "\n" == p + ("#" + q + "\n");
    ScanAppend(s, p, "#" + q + "\n");
    assert ("#" + q + "\n")[0] == '#' && ("#" + q + "\n")[1..] == q + "\n";
    assert Step(s, '#') == Ok(s.(skipLine := true));
    SkipComment(s.(skipLine := true), q);
    ScanAppend(s, p, "\n");
    if s.line == [] {
      assert Step(s, '\n') == Ok(s);
    }
  }

  /**
   * After `directive value # comment`, the line stays pending in value mode,
   * so the next line that is neither blank nor a comment becomes a third
   * token and the whole parse fails.
   */
  lemma CommentAfterValue(t: Table, p: string, q: string, l: string)
    requires NoBreaks(p) && |Tokens(p)| == 2 && '\n' !in q
    requires NoBreaks(l) && DropSeps(l) != []
    ensures ScanFrom(Start(t), p + "#" + q + "\n" + l + "\n") == Err(MalformedLine(Tokens(p) + [DropSeps(l)]))
  {
    CommentLine(t, p, q);
    var s := Scan("", Tokens(p), false, false, t);
    assert ValueStarted(p);
    ScanAppend(Start(t), p + "#" + q + "\n", l + "\n");
    assert p + "#" + q + "\n" + l + "\n" == (p + "#" + q + "\n") + (l + "\n");
    ScanAppend(s, l, "\n");
    ReadAfterKey(s, l);
    var w := DropSeps(l);
    assert Step(s.(token := w), '\n') == Err(MalformedLine(Tokens(p) + [w]));
  }

  /**
   * After `directive value # comment`, a next line that also ends in a
   * comment adds its text as a further pending token and consumes its own
   * line break: the scan does not fail there and the table is untouched, so
   * a file that ends there never applies the pair.
   */
  lemma CommentAfterPending(t: Table, toks: seq<string>, l: string, q: string)
    requires NoBreaks(l) && DropSeps(l) != [] && '\n' !in q
    ensures ScanFrom(Scan("", toks, false, false, t), l + "#" + q + "\n")
      == Ok(Scan("", toks + [DropSeps(l)], false, false, t))
  {
    var s := Scan("", toks, false, false, t);
    assert l + "#" + q + "\n" == l + ("#" + q + "\n");
    ScanAppend(s, l, "#" + q + "\n");
    ReadAfterKey(s, l);
    var s1 := s.(token := DropSeps(l));
    assert ("#" + q + "\n")[0] == '#' && ("#" + q + "\n")[1..] == q + "\n";
    var s2 := Scan("", toks + [DropSeps(l)], true, false, t);
    assert Step(s1, '#') == Ok(s2);
    SkipComment(s2, q);
  }

  /**
   * After `directive value # comment` and a blank line, the pending pair is
   * applied at the blank line, but the scan stays in value mode: the next
   * directive line is read as one token and the whole parse fails.
   */
  lemma TwoTokensStartValue(p: string)
    requires |Tokens(p)| == 2
    ensures ValueStarted(p)
  {
  }

  lemma LinesAssoc(head: string, b: string, l: string)
    ensures head + b + "\n" + l + "\n" == head + (b + "\n" + (l + "\n"))
  {
  }

  lemma CommentThenBlank(t: Table, p: string, q: string, b: string, l: string)
    requires NoBreaks(p) && |Tokens(p)| == 2 && '\n' !in q
    requires NoBreaks(b) && DropSeps(b) == []
    requires NoBreaks(l) && DropSeps(l) != []
    ensures ScanFrom(Start(t), p + "#" + q + "\n" + b + "\n" + l + "\n") == Err(MalformedLine([DropSeps(l)]))
  {
    CommentLine(t, p, q);
    TwoTokensStartValue(p);
    var head := p + "#" + q + "\n";
    LinesAssoc(head, b, l);
    ScanAppend(Start(t), head, b + "\n" + (l + "\n"));
    PendingPairAtBlank(t, Tokens(p), b, l + "\n");
    ValueModeLine(Directive(t, Tokens(p)[0], Tokens(p)[1]), l);
  }

  /** A blank line applies a pending pair, and the scan stays in value mode. */
  lemma PendingPairAtBlank(t: Table, toks: seq<string>, b: string, rest: string)
    requires |toks| == 2 && NoBreaks(b) && DropSeps(b) == []
    ensures ScanFrom(Scan("", toks, false, false, t), b + "\n" + rest)
      == ScanFrom(Scan("", [], false, false, Directive(t, toks[0], toks[1])), rest)
  {
    var s := Scan("", toks, false, false, t);
    assert b + "\n" + rest == b + ("\n" + rest);
    ScanAppend(s, b, "\n" + rest);
    ReadAfterKey(s, b);
    assert s.(token := DropSeps(b)) == s;
    assert Step(s, '\n') == Ok(Scan("", [], false, false, Directive(t, toks[0], toks[1])));
    assert ("\n" + rest)[0] == '\n' && ("\n" + rest)[1..] == rest;
  }

  /** In value mode with nothing pending, a whole line is read as one token, so it is malformed. */
  lemma ValueModeLine(t: Table, l: string)
    requires NoBreaks(l) && DropSeps(l) != []
    ensures ScanFrom(Scan("", [], false, false, t), l + "\n") == Err(MalformedLine([DropSeps(l)]))
  {
    var s := Scan("", [], false, false, t);
    ScanAppend(s, l, "\n");
    ReadAfterKey(s, l);
    var w := DropSeps(l);
    assert Push(s.(token := w)).line == [w];
    assert Step(s.(token := w), '\n') == Err(MalformedLine([w]));
  }

  // ---------------------------------------------------------------------
  // The shape of a line.

  predicate AllSeps(l: string) {
    forall i :: 0 <= i < |l| ==> IsSep(l[i])
  }

  /** A directive name or value word: no separator, no line break, no comment. */
  predicate IsWord(d: string) {
    d != [] && NoBreaks(d) && forall i :: 0 <= i < |d| ==> !IsSep(d[i])
  }

  lemma {:induction false} DropLeadingSeps(lead: string, x: string)
    requires AllSeps(lead) && (x != [] ==> !IsSep(x[0]))
    ensures DropSeps(lead + x) == x
    decreases |lead|
  {
    if lead == [] {
      assert lead + x == x;
    } else {
      assert (lead + x)[1..] == lead[1..] + x;
      DropLeadingSeps(lead[1..], x);
    }
  }

  lemma {:induction false} WordThenSep(d: string, rest: string)
    requires forall i :: 0 <= i < |d| ==> !IsSep(d[i])
    requires rest == [] || IsSep(rest[0])
    ensures WordLength(d + rest) == |d|
    decreases |d|
  {
    if d == [] {
      assert d + rest == rest;
    } else {
      assert (d + rest)[0] == d[0] && (d + rest)[1..] == d[1..] + rest;
      WordThenSep(d[1..], rest);
    }
  }

  lemma NoBreaksConcat(a: string, b: string)
    requires NoBreaks(a) && NoBreaks(b)
    ensures NoBreaks(a + b)
  {
  }

  lemma SepsNoBreaks(l: string)
    requires AllSeps(l)
    ensures NoBreaks(l)
  {
  }

  /**
   * Leading separators, and any run of ' ' and '=' between a directive and its
   * value, do not matter: `Hostname = v`, `Hostname=v` and `Hostname v` are
   * the same two-token line.
   */
  lemma SeparatorForms(t: Table, lead: string, d: string, sep: string, v: string)
    requires AllSeps(lead) && IsWord(d) && AllSeps(sep) && sep != []
    requires NoBreaks(v) && v != [] && !IsSep(v[0])
    ensures Tokens(lead + d + sep + v) == [d, v]
    ensures ScanFrom(Start(t), lead + d + sep + v + "\n") == Ok(Start(Directive(t, d, v)))
  {
    var l := lead + d + sep + v;
    assert l == lead + (d + sep + v);
    DropLeadingSeps(lead, d + sep + v);
    var a := d + sep + v;
    assert a == d + (sep + v);
    WordThenSep(d, sep + v);
    assert a[..|d|] == d && a[|d|..] == sep + v;
    DropLeadingSeps(sep, v);
    SepsNoBreaks(lead);
    SepsNoBreaks(sep);
    NoBreaksConcat(lead, d);
    NoBreaksConcat(lead + d, sep);
    NoBreaksConcat(lead + d + sep, v);
    ScanLine(t, l);
  }

  /** A directive with nothing after it is a one-token line: the parse fails with that token. */
  lemma LoneDirective(t: Table, lead: string, d: string, tail: string)
    requires AllSeps(lead) && IsWord(d) && AllSeps(tail)
    ensures Tokens(lead + d + tail) == [d]
    ensures ScanFrom(Start(t), lead + d + tail + "\n") == Err(MalformedLine([d]))
  {
    var l := lead + d + tail;
    assert l == lead + (d + tail);
    DropLeadingSeps(lead, d + tail);
    WordThenSep(d, tail);
    var a := d + tail;
    assert a[..|d|] == d && a[|d|..] == tail;
    DropLeadingSeps(tail, []);
    assert tail + [] == tail;
    SepsNoBreaks(lead);
    SepsNoBreaks(tail);
    NoBreaksConcat(lead, d);
    NoBreaksConcat(lead + d, tail);
    ScanLine(t, l);
  }

  /** A malformed line aborts the whole parse, whatever follows it: no partial table is returned. */
  lemma MalformedAborts(ls: seq<string>, l: string, rest: string)
    requires forall l' <- ls :: NoBreaks(l')
    requires ParseLines(EmptyTable, ls).Ok?
    requires NoBreaks(l) && Tokens(l) != [] && |Tokens(l)| != 2
    ensures Parse(JoinLines(ls) + l + "\n" + rest) == Err(MalformedLine(Tokens(l)))
  {
    ScanLines(EmptyTable, ls);
    var t := ParseLines(EmptyTable, ls).value;
    assert JoinLines(ls) + l + "\n" + rest == JoinLines(ls) + ((l + "\n") + rest);
    ScanAppend(Start(EmptyTable), JoinLines(ls), (l + "\n") + rest);
    ScanAppend(Start(t), l + "\n", rest);
    ScanLine(t, l);
  }

  // ---------------------------------------------------------------------
  // What `Host` and `Hostname` lines do.

  /**
   * `Host x`: a pattern clears the stanza and adds nothing; a literal name
   * maps to itself and becomes the stanza, and no other entry changes.
   */
  lemma HostLine(t: Table, d: string, x: string)
    requires DistinctKeys(t.hosts) && Lower(d) == "host"
    ensures IsPattern(x) ==> Directive(t, d, x) == Table("", t.hosts)
    ensures !IsPattern(x) ==> Directive(t, d, x).stanza == x
    ensures !IsPattern(x) ==>
      forall k :: Get(Directive(t, d, x).hosts, k) == if k == x then Some(x) else Get(t.hosts, k)
  {
    if !IsPattern(x) {
      forall k ensures Get(Directive(t, d, x).hosts, k) == if k == x then Some(x) else Get(t.hosts, k) {
        InsertGet(t.hosts, x, x, k);
      }
    }
  }

  /**
   * `Hostname v`: with a current stanza `S`, `S` maps to `v` and the stanza
   * is cleared, so a later `Hostname` line is ignored; with no stanza the
   * line is ignored.
   */
  lemma HostnameLine(t: Table, d: string, v: string)
    requires DistinctKeys(t.hosts) && Lower(d) == "hostname"
    ensures t.stanza == "" ==> Directive(t, d, v) == t
    ensures t.stanza != "" ==> Directive(t, d, v).stanza == ""
    ensures t.stanza != "" ==>
      forall k :: Get(Directive(t, d, v).hosts, k) == if k == t.stanza then Some(v) else Get(t.hosts, k)
    ensures forall d', v' :: Lower(d') == "hostname" ==> Directive(Directive(t, d, v), d', v') == Directive(t, d, v)
  {
    if t.stanza != "" {
      forall k ensures Get(Directive(t, d, v).hosts, k) == if k == t.stanza then Some(v) else Get(t.hosts, k) {
        InsertGet(t.hosts, t.stanza, v, k);
      }
    }
  }

  /** Directive names are compared without regard to case; any other directive changes nothing. */
  lemma DirectiveNames(t: Table, d: string, v: string)
    ensures Directive(t, d, v) == Directive(t, Lower(d), v)
    ensures Lower(d) != "host" && Lower(d) != "hostname" ==> Directive(t, d, v) == t
  {
    LowerIdempotent(d);
  }

  // ---------------------------------------------------------------------
  // The table every parse builds.

  /** Keys are distinct literal host names, and the current stanza, if any, is one of them. */
  ghost predicate WellFormed(t: Table) {
    && DistinctKeys(t.hosts)
    && (forall k <- Keys(t.hosts) :: IsLiteral(k))
    && (t.stanza != "" ==> t.stanza in Keys(t.hosts))
  }

  ghost predicate ScanInvariant(s: Scan) {
    WellFormed(s.table) && forall tok <- s.line :: tok != ""
  }

  lemma DirectiveWellFormed(t: Table, d: string, v: string)
    requires WellFormed(t) && v != ""
    ensures WellFormed(Directive(t, d, v))
  {
  }

  lemma StepWellFormed(s: Scan, c: char)
    requires ScanInvariant(s)
    ensures Step(s, c).Ok? ==> ScanInvariant(Step(s, c).value)
  {
    if !s.skipLine && c == '\n' {
      var s1 := if s.token != "" then Push(s).(key := true) else s;
      if |s1.line| == 2 {
        assert s1.line[1] in s1.line;
        DirectiveWellFormed(s1.table, s1.line[0], s1.line[1]);
      }
    }
  }

  lemma {:induction false} ScanWellFormed(s: Scan, cs: string)
    requires ScanInvariant(s)
    ensures ScanFrom(s, cs).Ok? ==> ScanInvariant(ScanFrom(s, cs).value)
    decreases |cs|
  {
    if cs != [] {
      StepWellFormed(s, cs[0]);
      if Step(s, cs[0]).Ok? {
        ScanWellFormed(Step(s, cs[0]).value, cs[1..]);
      }
    }
  }

  /** Whatever the text, a successful parse yields distinct keys, each a literal host name. */
  lemma ParseWellFormed(config: string)
    ensures Parse(config).Ok? ==> DistinctKeys(Parse(config).value)
    ensures Parse(config).Ok? ==> forall k <- Keys(Parse(config).value) :: IsLiteral(k)
  {
    ScanWellFormed(Start(EmptyTable), config);
  }

  // ---------------------------------------------------------------------
  // Order and origin of the entries, for files of comment-free lines.

  /** The name a line adds as a key: `[x]` for a literal `Host x` line, otherwise none. */
  function HostNamed(l: string): seq<string> {
    var toks := Tokens(l);
    if |toks| == 2 && Lower(toks[0]) == "host" && !IsPattern(toks[1]) then [toks[1]] else []
  }

  function HostNames(ls: seq<string>): seq<string>
    decreases |ls|
  {
    if ls == [] then [] else HostNamed(ls[0]) + HostNames(ls[1..])
  }

  /** The value a `Hostname` line carries, if it is one. */
  function HostnameValue(l: string): seq<string> {
    var toks := Tokens(l);
    if |toks| == 2 && Lower(toks[0]) == "hostname" then [toks[1]] else []
  }

  function HostnameValues(ls: seq<string>): seq<string>
    decreases |ls|
  {
    if ls == [] then [] else HostnameValue(ls[0]) + HostnameValues(ls[1..])
  }

  /** `ks` followed by each name of `ns` not seen before, in order of first appearance. */
  function AppendNew(ks: seq<string>, ns: seq<string>): seq<string>
    decreases |ns|
  {
    if ns == [] then ks else AppendNew(if ns[0] in ks then ks else ks + [ns[0]], ns[1..])
  }

  lemma TokensNonEmpty(l: string)
    ensures forall tok <- Tokens(l) :: tok != ""
  {
  }

  lemma LineKeys(t: Table, l: string)
    requires WellFormed(t) && ParseLine(t, l).Ok?
    ensures WellFormed(ParseLine(t, l).value)
    ensures Keys(ParseLine(t, l).value.hosts) == AppendNew(Keys(t.hosts), HostNamed(l))
  {
    var toks := Tokens(l);
    TokensNonEmpty(l);
    if |toks| == 2 {
      assert toks[1] in toks;
      DirectiveWellFormed(t, toks[0], toks[1]);
    }
  }

  /** A successful line-by-line reading lists its keys in order of first appearance of their `Host` lines. */
  lemma {:induction false} LinesKeyOrder(t: Table, ls: seq<string>)
    requires WellFormed(t) && ParseLines(t, ls).Ok?
    ensures Keys(ParseLines(t, ls).value.hosts) == AppendNew(Keys(t.hosts), HostNames(ls))
    decreases |ls|
  {
    if ls != [] {
      LineKeys(t, ls[0]);
      var t' := ParseLine(t, ls[0]).value;
      LinesKeyOrder(t', ls[1..]);
      var ks := Keys(t.hosts);
      var n := HostNamed(ls[0]);
      if n == [] {
        assert n + HostNames(ls[1..]) == HostNames(ls[1..]);
      } else {
        assert AppendNew(ks, n) == AppendNew(if n[0] in ks then ks else ks + [n[0]], []);
      }
    }
  }

  /** Every value either repeats its key or is the value of some `Hostname` line, one of `vs`. */
  ghost predicate ValuesFrom(t: Table, vs: seq<string>) {
    forall p <- t.hosts :: p.1 == p.0 || p.1 in vs
  }

  /** A successful reading of lines is the reading of the first, then of the rest. */
  lemma ParseLinesCons(t: Table, ls: seq<string>)
    requires ls != [] && ParseLines(t, ls).Ok?
    ensures ParseLine(t, ls[0]).Ok? && ParseLines(t, ls) == ParseLines(ParseLine(t, ls[0]).value, ls[1..])
  {
  }

  /** One line adds at most a pair whose value repeats its key or is the line's `Hostname` value. */
  lemma LineValues(t: Table, l: string, vs: seq<string>)
    requires ValuesFrom(t, vs) && ParseLine(t, l).Ok?
    ensures ValuesFrom(ParseLine(t, l).value, vs + HostnameValue(l))
  {
    var toks := Tokens(l);
    var vs' := vs + HostnameValue(l);
    if |toks| == 2 {
      var d := Lower(toks[0]);
      var r := Directive(t, toks[0], toks[1]);
      if d == "host" && !IsPattern(toks[1]) {
        assert forall p <- r.hosts :: p == (toks[1], toks[1]) || p in t.hosts;
      } else if d == "hostname" && t.stanza != "" {
        assert HostnameValue(l) == [toks[1]];
        assert toks[1] in vs';
        assert forall p <- r.hosts :: p == (t.stanza, toks[1]) || p in t.hosts;
      } else {
        assert r.hosts == t.hosts;
      }
    }
  }

  lemma {:induction false} LinesValues(t: Table, ls: seq<string>, vs: seq<string>)
    requires ValuesFrom(t, vs) && ParseLines(t, ls).Ok?
    ensures ValuesFrom(ParseLines(t, ls).value, vs + HostnameValues(ls))
    decreases |ls|
  {
    if ls == [] {
      assert vs + [] == vs;
    } else {
      ParseLinesCons(t, ls);
      var t' := ParseLine(t, ls[0]).value;
      var vs' := vs + HostnameValue(ls[0]);
      LineValues(t, ls[0], vs);
      LinesValues(t', ls[1..], vs');
      HostnameValuesCons(vs, ls);
    }
  }

  lemma HostnameValuesCons(vs: seq<string>, ls: seq<string>)
    requires ls != []
    ensures vs + HostnameValue(ls[0]) + HostnameValues(ls[1..]) == vs + HostnameValues(ls)
  {
    assert HostnameValues(ls) == HostnameValue(ls[0]) + HostnameValues(ls[1..]);
  }

  /**
   * For a file of comment-free lines: the keys are the literal `Host` names
   * in order of first appearance (a later `Host` line for the same name keeps
   * its place), and each value is its key or the value of a `Hostname` line.
   */
  lemma FileTable(ls: seq<string>)
    requires forall l <- ls :: NoBreaks(l)
    requires Parse(JoinLines(ls)).Ok?
    ensures Keys(Parse(JoinLines(ls)).value) == AppendNew([], HostNames(ls))
    ensures forall p <- Parse(JoinLines(ls)).value :: p.1 == p.0 || p.1 in HostnameValues(ls)
  {
    ParseByLines(ls);
    LinesKeyOrder(EmptyTable, ls);
    LinesValues(EmptyTable, ls, []);
    assert [] + HostnameValues(ls) == HostnameValues(ls);
  }

  // ---------------------------------------------------------------------
  // Small files.

  lemma LowerHost(d: string)
    requires d == "Host"
    ensures Lower(d) == "host"
  {
    var r := Lower(d);
    assert r[0] == 'h' && r[1] == 'o' && r[2] == 's' && r[3] == 't';
  }

  /** `Host web` alone maps `web` to itself. */
  lemma SelfMappingExample(cfg: string)
    requires cfg == "Host web\n"
    ensures Parse(cfg) == Ok([("web", "web")])
  {
    SeparatorForms(EmptyTable, "", "Host", " ", "web");
    assert "" + "Host" + " " + "web" + "\n" == cfg;
    HostWebDirective("Host", "web");
  }

  lemma HostWebDirective(d: string, v: string)
    requires d == "Host" && v == "web"
    ensures Directive(EmptyTable, d, v) == Table(v, [(v, v)])
  {
    LowerHost(d);
    assert !IsPattern(v);
    assert Insert([], v, v) == [(v, v)];
  }

  /** Three words on a line are a directive and a two-word value, not a malformed line. */
  lemma MultiWordValueExample(cfg: string)
    requires cfg == "Foo Bar Baz\n"
    ensures Parse(cfg) == Ok([])
  {
    SeparatorForms(EmptyTable, "", "Foo", " ", "Bar Baz");
    assert "" + "Foo" + " " + "Bar Baz" + "\n" == cfg;
    assert |Lower("Foo")| == 3;
    assert Directive(EmptyTable, "Foo", "Bar Baz") == EmptyTable;
  }

  /** A `Host` line without a final line break adds nothing. */
  lemma UnterminatedLineExample(cfg: string)
    requires cfg == "Host web"
    ensures Parse(cfg) == Ok([])
  {
    LastLineDropped("", cfg);
    assert "" + cfg == cfg;
  }
}
