/** Requests as a client writes them (RFC 9112, section 3; section 5; section 6.3), against what read_request makes of
    them. */
module RequestGrammar {
  import opened Wrappers
  import opened Bytes
  import opened RequestReader
  import opened RequestLaws

  // ---- decimal numbers ----

  /** A number in decimal, without leading zeros. */
  function Text(n: nat): (ds: seq<Byte>)
    ensures ds != [] && forall k :: 0 <= k < |ds| ==> 48 <= ds[k] <= 57
  {
    if n < 10 then [48 + n] else Text(n / 10) + [48 + n % 10]
  }

  lemma {:induction false} DecimalReads(n: nat)
    ensures Decimal(Text(n)) == n
  {
    var ds := Text(n);
    if n >= 10 {
      DecimalReads(n / 10);
      assert ds[..|ds| - 1] == Text(n / 10);
    } else {
      assert ds[..0] == [] && Decimal([]) == 0;
    }
  }

  // ---- the grammar ----

  /** No NUL and no white space. */
  predicate Word(s: seq<Byte>) {
    s != [] && forall k :: 0 <= k < |s| ==> s[k] != 0 && s[k] != 32 && !(9 <= s[k] <= 13)
  }

  /** No NUL and no carriage return. */
  predicate Plain(s: seq<Byte>) {
    forall k :: 0 <= k < |s| ==> s[k] != 0 && s[k] != 13
  }

  /** The name in any mix of upper and lower case. */
  predicate Spells(name: seq<Byte>, lower: string) {
    |name| == |lower| && forall k :: 0 <= k < |name| ==>
      name[k] as int == lower[k] as int || ('a' <= lower[k] <= 'z' && name[k] as int == lower[k] as int - 32)
  }

  /** "verb path version", a User-Agent and a Content-Length of n, each with one space behind the colon. */
  datatype Written = Written(verb: seq<Byte>, path: seq<Byte>, version: seq<Byte>, agentName: seq<Byte>,
                             agent: seq<Byte>, lengthName: seq<Byte>, n: nat)

  predicate WellWritten(w: Written) {
    && Word(w.verb) && Word(w.path) && Plain(w.version)
    && Spells(w.agentName, "user-agent") && Plain(w.agent) && (w.agent != [] ==> w.agent[0] != 32)
    && Spells(w.lengthName, "content-length")
  }

  function StartLine(w: Written): seq<Byte> {
    w.verb + [32] + w.path + [32] + w.version
  }

  function AgentLine(w: Written): seq<Byte> {
    w.agentName + [58, 32] + w.agent
  }

  function LengthLine(w: Written): seq<Byte> {
    w.lengthName + [58, 32] + Text(w.n)
  }

  /** Three lines and the blank line. */
  function Lines(a: seq<Byte>, b: seq<Byte>, c: seq<Byte>): seq<Byte> {
    a + [13, 10] + b + [13, 10] + c + [13, 10, 13, 10]
  }

  function HeadBytes(w: Written): seq<Byte> {
    Lines(StartLine(w), AgentLine(w), LengthLine(w))
  }

  /** %7s and %511s: at most 7 bytes of the first word; what is left of it, or else the second word, at most 511. */
  function LineRead(w: Written): (seq<Byte>, seq<Byte>) {
    if |w.verb| > 7 then (w.verb[..7], w.verb[7..Min(|w.verb|, 518)]) else (w.verb, w.path[..Min(|w.path|, 511)])
  }

  // ---- carriage returns mark the lines ----

  lemma {:induction false} LinesPlain(w: Written)
    requires WellWritten(w)
    ensures Plain(StartLine(w)) && Plain(AgentLine(w)) && Plain(LengthLine(w))
  {
    forall k | 0 <= k < |w.agentName|
      ensures w.agentName[k] != 0 && w.agentName[k] != 13
    {
      assert 'a' <= "user-agent"[k] <= 'z' || "user-agent"[k] == '-';
    }
    forall k | 0 <= k < |w.lengthName|
      ensures w.lengthName[k] != 0 && w.lengthName[k] != 13
    {
      assert 'a' <= "content-length"[k] <= 'z' || "content-length"[k] == '-';
    }
  }

  /** In any text that begins with the lines, the carriage returns up to the blank line are known. */
  lemma {:induction false} Returns(a: seq<Byte>, b: seq<Byte>, c: seq<Byte>, t: seq<Byte>)
    requires Plain(a) && Plain(b) && Plain(c) && Lines(a, b, c) <= t
    ensures var i, j := |a|, |a| + 2 + |b|;
      var k := j + 2 + |c|;
      && k + 4 <= |t|
      && t[i] == 13 && t[i + 1] == 10 && t[j] == 13 && t[j + 1] == 10
      && t[k] == 13 && t[k + 1] == 10 && t[k + 2] == 13 && t[k + 3] == 10
      && (forall x :: 0 <= x < k ==> (t[x] == 13 <==> x == i || x == j))
      && (forall x :: 0 <= x < i ==> t[x] == a[x]) && (forall x :: i + 2 <= x < j ==> t[x] == b[x - i - 2])
      && (forall x :: j + 2 <= x < k ==> t[x] == c[x - j - 2])
  {
    var h := Lines(a, b, c);
    assert forall x :: 0 <= x < |h| ==> t[x] == h[x];
  }

  lemma {:induction false} NoNulInHead(w: Written)
    requires WellWritten(w)
    ensures 0 !in HeadBytes(w)
  {
    LinesPlain(w);
    hide StartLine, AgentLine, LengthLine;
  }

  lemma {:induction false} BlankBytes(t: seq<Byte>, x: nat)
    requires x + 4 <= |t|
    ensures MatchAt(t, BLANK, x, false) <==> t[x] == 13 && t[x + 1] == 10 && t[x + 2] == 13 && t[x + 3] == 10
  {
    assert t[x + 0] == t[x];
    assert BLANK[0] == 13 && BLANK[1] == 10 && BLANK[2] == 13 && BLANK[3] == 10;
    assert MatchAt(t, BLANK, x, false) ==>
      t[x + 0] == BLANK[0] && t[x + 1] == BLANK[1] && t[x + 2] == BLANK[2] && t[x + 3] == BLANK[3];
  }

  lemma {:induction false} BlankAt(a: seq<Byte>, b: seq<Byte>, c: seq<Byte>, t: seq<Byte>, x: nat)
    requires Plain(a) && Plain(b) && Plain(c) && Lines(a, b, c) <= t && b != [] && c != []
    requires x <= |a| + |b| + |c| + 4
    ensures |a| + |b| + |c| + 8 <= |t|
    ensures MatchAt(t, BLANK, x, false) <==> x == |a| + |b| + |c| + 4
  {
    hide MatchAt, Lines, Plain;
    Returns(a, b, c, t);
    BlankBytes(t, x);
    LineStarts(a, b, c, t);
  }

  lemma {:induction false} LineStarts(a: seq<Byte>, b: seq<Byte>, c: seq<Byte>, t: seq<Byte>)
    requires Plain(a) && Plain(b) && Plain(c) && Lines(a, b, c) <= t && b != [] && c != []
    ensures |a| + |b| + |c| + 8 <= |t| && t[|a| + 2] != 13 && t[|a| + |b| + 4] != 13
  {
    Returns(a, b, c, t);
    hide Lines;
    assert t[|a| + 2] == b[0] && t[|a| + 2 + |b| + 2] == c[0];
  }

  /** The blank line is the first one. */
  lemma {:induction false} BlankIsThere(a: seq<Byte>, b: seq<Byte>, c: seq<Byte>, t: seq<Byte>)
    requires Plain(a) && Plain(b) && Plain(c) && Lines(a, b, c) <= t && b != [] && c != []
    ensures Find(t, BLANK, 0, false) == Some(|a| + |b| + |c| + 4)
  {
    hide Find, MatchAt, Lines, Plain;
    BlankAt(a, b, c, t, |a| + |b| + |c| + 4);
    forall x | 0 <= x < |a| + |b| + |c| + 4
      ensures !MatchAt(t, BLANK, x, false)
    {
      BlankAt(a, b, c, t, x);
    }
  }

  /** A header is found at the carriage return before its line. */
  lemma {:induction false} HeaderIsThere(t: seq<Byte>, pattern: seq<Byte>, at: nat)
    requires pattern != [] && pattern[0] == 13 && MatchAt(t, pattern, at, true)
    requires forall x :: 0 <= x < at && t[x] == 13 ==> x + 2 < |t| && |pattern| > 2 && Lower(t[x + 2]) != pattern[2]
    ensures Find(t, pattern, 0, true) == Some(at)
  {
    forall x | 0 <= x < at
      ensures !MatchAt(t, pattern, x, true)
    {
      if t[x] == 13 {
        assert Lower(t[x + 2]) != pattern[2];
      } else {
        assert Lower(t[x + 0]) != pattern[0];
      }
    }
  }

  // ---- the request line ----

  lemma {:induction false} LineIsRead(w: Written, t: seq<Byte>)
    requires Word(w.verb) && Word(w.path) && StartLine(w) <= t
    ensures RequestLine(t) == Some(LineRead(w))
    ensures SecondToken(t) <= |w.verb| + 1
  {
    hide SkipSpace, TokenEnd, Word;
    FirstWord(w, t);
    var v := |w.verb|;
    if v > 7 {
      LongVerb(w, t);
    } else {
      FirstWordEnds(w, t);
      SecondWordEnds(w, t);
      var line, n := StartLine(w), Min(|w.path|, 511);
      assert t[0..v] == line[0..v] == w.verb;
      assert t[v + 1..v + 1 + n] == line[v + 1..v + 1 + n] == w.path[..n];
    }
  }

  lemma {:induction false} FirstWord(w: Written, t: seq<Byte>)
    requires Word(w.verb) && Word(w.path) && StartLine(w) <= t
    ensures SkipSpace(t, 0) == 0 && TokenEnd(t, 0, MAX_METHOD) == Min(|w.verb|, 7)
  {
    hide SkipSpace, TokenEnd;
    var v, line := |w.verb|, StartLine(w);
    assert forall x :: 0 <= x < v ==> t[x] == line[x] == w.verb[x];
    assert t[v] == line[v] == 32;
    assert !IsSpace(t[0]);
  }

  lemma {:induction false} LongVerb(w: Written, t: seq<Byte>)
    requires Word(w.verb) && Word(w.path) && StartLine(w) <= t && |w.verb| > 7
    ensures SkipSpace(t, 7) == 7 && TokenEnd(t, 7, MAX_PATH) == Min(|w.verb|, 518)
    ensures t[0..7] == w.verb[..7] && t[7..Min(|w.verb|, 518)] == w.verb[7..Min(|w.verb|, 518)]
  {
    hide SkipSpace, TokenEnd;
    var v, line := |w.verb|, StartLine(w);
    assert forall x :: 0 <= x < v ==> t[x] == line[x] == w.verb[x];
    assert t[v] == line[v] == 32;
    assert !IsSpace(t[7]);
  }

  lemma {:induction false} FirstWordEnds(w: Written, t: seq<Byte>)
    requires Word(w.verb) && Word(w.path) && StartLine(w) <= t
    ensures |w.verb| < |t| && SkipSpace(t, |w.verb|) == |w.verb| + 1
  {
    hide SkipSpace;
    var v, line := |w.verb|, StartLine(w);
    assert t[v] == line[v] == 32 && t[v + 1] == line[v + 1] == w.path[0];
    assert !IsSpace(t[v + 1]);
  }

  lemma {:induction false} SecondWordEnds(w: Written, t: seq<Byte>)
    requires Word(w.verb) && Word(w.path) && StartLine(w) <= t
    ensures |w.verb| + 1 <= |t| && TokenEnd(t, |w.verb| + 1, MAX_PATH) == |w.verb| + 1 + Min(|w.path|, 511)
  {
    hide TokenEnd;
    var v, p, line := |w.verb|, |w.path|, StartLine(w);
    assert forall x :: 0 <= x < |line| ==> t[x] == line[x];
    assert forall x :: v + 1 <= x < v + 1 + p ==> line[x] == w.path[x - v - 1];
    assert line[v + 1 + p] == 32;
  }

  // ---- the two headers ----

  /** The lower-case pattern of a header: a line break, the name and a colon. */
  predicate PatternOf(pattern: seq<Byte>, lower: string) {
    && |pattern| == |lower| + 3 && pattern[0] == 13 && pattern[1] == 10 && pattern[|lower| + 2] == 58
    && forall k :: 0 <= k < |lower| ==> pattern[k + 2] == lower[k] as int && (lower[k] == '-' || 'a' <= lower[k] <= 'z')
  }

  lemma {:induction false} Patterns()
    ensures PatternOf(USER_AGENT, "user-agent") && PatternOf(CONTENT_LENGTH, "content-length")
  {
  }

  /** A header in any case matches its pattern. */
  lemma {:induction false} SpelledMatches(t: seq<Byte>, pattern: seq<Byte>, lower: string, name: seq<Byte>, at: nat)
    requires PatternOf(pattern, lower) && Spells(name, lower) && at + |lower| + 3 <= |t|
    requires t[at] == 13 && t[at + 1] == 10 && t[at + 2..at + 2 + |lower|] == name && t[at + 2 + |lower|] == 58
    ensures MatchAt(t, pattern, at, true)
  {
    forall k | 0 <= k < |pattern|
      ensures Lower(t[at + k]) == pattern[k]
    {
      if 2 <= k < |lower| + 2 {
        assert t[at + k] == t[at + 2..at + 2 + |lower|][k - 2] == name[k - 2];
        assert pattern[(k - 2) + 2] == lower[k - 2] as int;
      }
    }
  }

  lemma {:induction false} PieceOf(t: seq<Byte>, at: nat, name: seq<Byte>, value: seq<Byte>, line: seq<Byte>)
    requires line == name + [58, 32] + value && at + |line| <= |t| && t[at..at + |line|] == line
    ensures t[at..at + |name|] == name && t[at + |name|] == 58 && t[at + |name| + 1] == 32
    ensures t[at + |name| + 2..at + |name| + 2 + |value|] == value
  {
    var n := |name|;
    assert t[at..at + n] == line[..n] && t[at + n] == line[n] && t[at + n + 1] == line[n + 1];
    assert t[at + n + 2..at + n + 2 + |value|] == line[n + 2..];
  }

  /** Where the lines lie in any text that begins with them. */
  lemma {:induction false} LinesAt(a: seq<Byte>, b: seq<Byte>, c: seq<Byte>, t: seq<Byte>)
    requires Plain(a) && Plain(b) && Plain(c) && Lines(a, b, c) <= t
    ensures var i, j := |a|, |a| + 2 + |b|;
      var k := j + 2 + |c|;
      k + 4 <= |t| && a <= t && t[i + 2..j] == b && t[j + 2..k] == c
  {
    Returns(a, b, c, t);
    hide Lines;
  }

  lemma {:induction false} AgentPiece(w: Written, t: seq<Byte>)
    requires WellWritten(w) && HeadBytes(w) <= t
    ensures var i := |StartLine(w)|;
      var j := i + 14 + |w.agent|;
      && j + 2 <= |t| && StartLine(w) <= t
      && t[i] == 13 && t[i + 1] == 10 && t[i + 2..i + 12] == w.agentName && t[i + 12] == 58 && t[i + 13] == 32
      && t[i + 14..j] == w.agent && t[j] == 13 && t[j + 1] == 10
      && forall x :: 0 <= x < j && t[x] == 13 ==> x == i
  {
    LinesPlain(w);
    Returns(StartLine(w), AgentLine(w), LengthLine(w), t);
    LinesAt(StartLine(w), AgentLine(w), LengthLine(w), t);
    hide StartLine, LengthLine, Lines;
    PieceOf(t, |StartLine(w)| + 2, w.agentName, w.agent, AgentLine(w));
  }

  lemma {:induction false} LengthPiece(w: Written, t: seq<Byte>)
    requires WellWritten(w) && HeadBytes(w) <= t
    ensures var i := |StartLine(w)|;
      var j := i + 14 + |w.agent|;
      var k := j + 18 + |Text(w.n)|;
      && |HeadBytes(w)| == k + 4 <= |t|
      && t[j] == 13 && t[j + 1] == 10 && t[j + 2..j + 16] == w.lengthName && t[j + 16] == 58 && t[j + 17] == 32
      && t[j + 18..k] == Text(w.n) && t[k] == 13
      && (forall x :: 0 <= x < j && t[x] == 13 ==> x == i)
  {
    LinesPlain(w);
    Returns(StartLine(w), AgentLine(w), LengthLine(w), t);
    LinesAt(StartLine(w), AgentLine(w), LengthLine(w), t);
    HeadLength(w);
    hide StartLine, Lines, Text;
    PieceOf(t, |StartLine(w)| + |AgentLine(w)| + 4, w.lengthName, Text(w.n), LengthLine(w));
  }

  lemma {:induction false} HeadLength(w: Written)
    ensures |HeadBytes(w)| == |StartLine(w)| + |AgentLine(w)| + |LengthLine(w)| + 8
  {
    hide StartLine, AgentLine, LengthLine;
  }

  lemma {:induction false} BlankPiece(w: Written, t: seq<Byte>)
    requires WellWritten(w) && HeadBytes(w) <= t
    ensures |HeadBytes(w)| >= 4 && Find(t, BLANK, 0, false) == Some(|HeadBytes(w)| - 4)
  {
    hide Find;
    LinesPlain(w);
    HeadLength(w);
    BlankIsThere(StartLine(w), AgentLine(w), LengthLine(w), t);
  }

  lemma {:induction false} AgentIsRead(w: Written, t: seq<Byte>)
    requires WellWritten(w) && HeadBytes(w) <= t
    ensures UserAgent(t) == w.agent[..Min(|w.agent|, 255)]
  {
    hide HeadBytes, StartLine, SkipBlanks, Find, MatchAt;
    AgentPiece(w, t);
    Patterns();
    var i := |StartLine(w)|;
    var j := i + 14 + |w.agent|;
    SpelledMatches(t, USER_AGENT, "user-agent", w.agentName, i);
    HeaderIsThere(t, USER_AGENT, i);
    assert w.agent != [] ==> t[i + 14] == t[i + 14..j][0] == w.agent[0];
    assert SkipBlanks(t, i + 13) == i + 14;
    CrlfIsThere(t, i + 14, j);
    assert t[i + 14..i + 14 + Min(|w.agent|, 255)] == t[i + 14..j][..Min(|w.agent|, 255)];
  }

  /** The next line break. */
  lemma {:induction false} CrlfIsThere(t: seq<Byte>, from: nat, at: nat)
    requires from <= at && at + 2 <= |t| && t[at] == 13 && t[at + 1] == 10 && forall x :: from <= x < at ==> t[x] != 13
    ensures Find(t, CRLF, from, false) == Some(at)
  {
    hide Find;
    assert MatchAt(t, CRLF, at, false);
    forall x | from <= x < at
      ensures !MatchAt(t, CRLF, x, false)
    {
      assert t[x + 0] != CRLF[0];
    }
  }

  lemma {:induction false} LengthIsRead(w: Written, t: seq<Byte>)
    requires WellWritten(w) && HeadBytes(w) <= t
    ensures ContentLength(t) == w.n
  {
    hide HeadBytes, StartLine, Find, MatchAt, Text, StrToL;
    AgentPiece(w, t);
    LengthPiece(w, t);
    Patterns();
    var i := |StartLine(w)|;
    var j := i + 14 + |w.agent|;
    SpelledMatches(t, CONTENT_LENGTH, "content-length", w.lengthName, j);
    AgentNameDiffers(w, t, i);
    HeaderIsThere(t, CONTENT_LENGTH, j);
    NumberIsRead(t, j + 17, w.n);
  }

  /** "u" is no "c". */
  lemma {:induction false} AgentNameDiffers(w: Written, t: seq<Byte>, i: nat)
    requires Spells(w.agentName, "user-agent") && i + 12 <= |t| && t[i + 2..i + 12] == w.agentName
    ensures Lower(t[i + 2]) != CONTENT_LENGTH[2]
  {
    assert t[i + 2] == t[i + 2..i + 12][0] == w.agentName[0];
  }

  lemma {:induction false} NumberIsRead(t: seq<Byte>, at: nat, n: nat)
    requires at + 1 + |Text(n)| < |t| && t[at] == 32 && t[at + 1..at + 1 + |Text(n)|] == Text(n)
    requires t[at + 1 + |Text(n)|] == 13
    ensures StrToL(t, at) == n
  {
    hide SkipSpace, DigitsEnd, Decimal, Text;
    var ds := Text(n);
    forall x | 0 <= x < |ds|
      ensures t[at + 1 + x] == ds[x]
    {
      assert t[at + 1..at + 1 + |ds|][x] == ds[x];
    }
    assert t[at + 1] == ds[0];
    assert SkipSpace(t, at) == at + 1;
    assert DigitsEnd(t, at + 1) == at + 1 + |ds|;
    DecimalReads(n);
  }

  // ---- whole requests ----

  lemma {:induction false} HeadIsRead(w: Written, t: seq<Byte>)
    requires WellWritten(w) && HeadBytes(w) <= t
    ensures ParseHead(t) == Some(Head(LineRead(w).0, LineRead(w).1, w.agent[..Min(|w.agent|, 255)], w.n))
    ensures Find(t, BLANK, 0, false) == Some(|HeadBytes(w)| - 4)
  {
    hide HeadBytes, StartLine, Find, RequestLine, UserAgent, ContentLength, LineRead;
    BlankPiece(w, t);
    AgentPiece(w, t);
    LineIsRead(w, t);
    AgentIsRead(w, t);
    LengthIsRead(w, t);
  }

  /** What arrives begins with the head, once it is there. */
  lemma {:induction false} HeadArrives(h: seq<Byte>, stream: seq<Byte>, have: nat)
    requires 0 !in h && h <= stream && |h| <= have <= |stream|
    ensures h <= CString(stream[..have])
  {
    var s := stream[..have];
    assert s[..|h|] == h;
    CutString(s, |h|);
    NoNul(h);
  }

  /** Before that, nothing looks like a blank line. */
  lemma {:induction false} NoBlankYet(w: Written, stream: seq<Byte>)
    requires WellWritten(w) && HeadBytes(w) <= stream && |HeadBytes(w)| > 16384
    ensures Find(Visible(stream), BLANK, 0, false) == None
  {
    hide HeadBytes, Find, CString;
    BlankPiece(w, stream);
    VisibleLength(stream);
    assert Visible(stream) <= stream;
    FindCut(Visible(stream), stream, BLANK, 0, false);
  }

  /** What becomes of a written request, whatever follows it and however it is cut: it fails when its head is longer
      than 16384 bytes, when it announces more than 4096 bytes, or when the stream ends too soon; otherwise the verb,
      the path, at most 255 bytes of the user agent and exactly the announced bytes come back. */
  function Expected(w: Written, rest: seq<Byte>): Option<Request> {
    if |HeadBytes(w)| > 16384 || w.n > 4096 || w.n > |rest| then None
    else Some(Request(LineRead(w).0, LineRead(w).1, w.agent[..Min(|w.agent|, 255)], rest[..w.n]))
  }

  lemma {:induction false} RequestIsRead(w: Written, rest: seq<Byte>, net: nat -> nat)
    requires WellWritten(w)
    ensures RequestFrom(HeadBytes(w) + rest, net) == Expected(w, rest)
  {
    hide HeadBytes, LineRead, Find, CString, HeadRead, BlankIn, ParseHead, WellWritten;
    var h := HeadBytes(w);
    var stream := h + rest;
    NothingYet(stream);
    HeadReadSees(stream, net, 0);
    if |h| > 16384 {
      NoBlankYet(w, stream);
    } else {
      NoNulInHead(w);
      HeadArrives(h, stream, Most(stream));
      HeadIsRead(w, Visible(stream));
      var have := HeadRead(stream, net, 0).value;
      HeadArrives(h, stream, have);
      HeadIsRead(w, CString(stream[..have]));
      BlankSeen(stream, have);
      assert w.n <= |rest| ==> stream[|h|..|h| + w.n] == rest[..w.n];
    }
  }

  // ---- a request without headers ----

  /** "verb path version" and the blank line, and nothing else. */
  function BareBytes(w: Written): seq<Byte> {
    StartLine(w) + [13, 10, 13, 10]
  }

  lemma {:induction false} BareReturns(w: Written)
    requires Plain(StartLine(w))
    ensures var t, i := BareBytes(w), |StartLine(w)|;
      && |t| == i + 4 && 0 !in t && StartLine(w) <= t
      && t[i] == 13 && t[i + 1] == 10 && t[i + 2] == 13 && t[i + 3] == 10
      && forall x :: 0 <= x < i ==> t[x] != 13
  {
    hide StartLine;
  }

  lemma {:induction false} BareFinds(w: Written)
    requires Plain(StartLine(w))
    ensures var t := BareBytes(w);
      && Find(t, BLANK, 0, false) == Some(|StartLine(w)|)
      && Find(t, USER_AGENT, 0, true) == None && Find(t, CONTENT_LENGTH, 0, true) == None
  {
    hide Find, MatchAt, BareBytes;
    BareReturns(w);
    var t, i := BareBytes(w), |StartLine(w)|;
    forall x | 0 <= x <= i
      ensures MatchAt(t, BLANK, x, false) <==> x == i
    {
      BlankBytes(t, x);
    }
    assert MatchAt(t, BLANK, i, false);
    forall x: nat
      ensures !MatchAt(t, USER_AGENT, x, true) && !MatchAt(t, CONTENT_LENGTH, x, true)
    {
      NoHeaderMatch(t, i, USER_AGENT, x);
      NoHeaderMatch(t, i, CONTENT_LENGTH, x);
    }
  }

  lemma {:induction false} NoHeaderMatch(t: seq<Byte>, i: nat, pattern: seq<Byte>, x: nat)
    requires |t| == i + 4 && |pattern| > 4 && pattern[0] == 13 && forall y :: 0 <= y < i ==> t[y] != 13
    ensures !MatchAt(t, pattern, x, true)
  {
    if x < i {
      assert Lower(t[x + 0]) != pattern[0];
    }
  }

  /** It is read back without agent and body, however it is cut. */
  lemma {:induction false} BareRequestIsRead(w: Written, net: nat -> nat)
    requires Word(w.verb) && Word(w.path) && Plain(w.version) && |BareBytes(w)| <= 16384
    ensures RequestFrom(BareBytes(w), net) == Some(Request(LineRead(w).0, LineRead(w).1, [], []))
  {
    hide StartLine, LineRead, Find, CString, HeadRead, BlankIn, RequestLine, Word, BareBytes;
    StartPlain(w);
    BareReturns(w);
    BareFinds(w);
    var t := BareBytes(w);
    ShortVisible(t);
    NothingYet(t);
    HeadReadSees(t, net, 0);
    LineIsRead(w, t);
    assert HeadRead(t, net, 0) == Some(|t|);
    assert t[..|t|] == t;
    BlankSeen(t, |t|);
    NoNul(t);
  }

  lemma {:induction false} StartPlain(w: Written)
    requires Word(w.verb) && Word(w.path) && Plain(w.version)
    ensures Plain(StartLine(w))
  {
  }
}
